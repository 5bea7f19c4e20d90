/** UTF-16 text as JavaScript sees it: a sequence of 16-bit code units. */
module Utf16 {
  type CodeUnit = u: int | 0 <= u < 0x10000
  type Text = seq<CodeUnit>

  predicate IsHigh(u: CodeUnit) {
    0xD800 <= u <= 0xDBFF
  }

  predicate IsLow(u: CodeUnit) {
    0xDC00 <= u <= 0xDFFF
  }

  predicate StartsWithPair(s: Text) {
    |s| >= 2 && IsHigh(s[0]) && IsLow(s[1])
  }

  /** No surrogate stands outside a high-low pair. */
  predicate WellFormed(s: Text)
    decreases |s|
  {
    s == [] ||
    (if StartsWithPair(s) then WellFormed(s[2..])
     else !IsHigh(s[0]) && !IsLow(s[0]) && WellFormed(s[1..]))
  }

  /** The code units of a text written out in the source. */
  function Codes(s: string): (t: Text)
    requires forall i :: 0 <= i < |s| ==> s[i] as int < 0x10000
    ensures |t| == |s| && forall i :: 0 <= i < |s| ==> t[i] == s[i] as int
  {
    seq(|s|, i requires 0 <= i < |s| => s[i] as int)
  }
}

/** `encodeEntities` of angular-sanitize.js: five replacement passes over a string. */
module Entities {
  import opened Utf16

  const AMP: CodeUnit := 38
  const HASH: CodeUnit := 35
  const SEMI: CodeUnit := 59
  const LESS: CodeUnit := 60
  const GREATER: CodeUnit := 62

  // "&amp;", "&lt;" and "&gt;"
  const AMP_REF: Text := [38, 97, 109, 112, 59]
  const LT_REF: Text := [38, 108, 116, 59]
  const GT_REF: Text := [38, 103, 116, 59]

  // ---------- The passes ----------

  /** A global replacement of single code units. */
  function ReplaceEach(s: Text, f: CodeUnit -> Text): Text {
    if s == [] then [] else f(s[0]) + ReplaceEach(s[1..], f)
  }

  function Digits(n: nat): (d: Text)
    ensures |d| > 0 && forall i :: 0 <= i < |d| ==> IsDigit(d[i])
  {
    if n < 10 then [48 + n] else Digits(n / 10) + [48 + n % 10]
  }

  predicate IsDigit(u: CodeUnit) {
    48 <= u <= 57
  }

  function NumericRef(n: nat): Text {
    [AMP, HASH] + Digits(n) + [SEMI]
  }

  /** The code point of a surrogate pair. */
  function PairCodePoint(hi: CodeUnit, low: CodeUnit): (cp: int)
    requires IsHigh(hi) && IsLow(low)
    ensures 0x10000 <= cp <= 0x10FFFF
  {
    (hi - 0xD800) * 0x400 + (low - 0xDC00) + 0x10000
  }

  /** The pass over SURROGATE_PAIR_REGEXP: leftmost pairs, none overlapping. */
  function ReplacePairs(s: Text): Text
    decreases |s|
  {
    if s == [] then []
    else if StartsWithPair(s) then NumericRef(PairCodePoint(s[0], s[1])) + ReplacePairs(s[2..])
    else [s[0]] + ReplacePairs(s[1..])
  }

  /** What NON_ALPHANUMERIC_REGEXP leaves alone: '#' to '~', space, '|' and '!'. */
  predicate IsPlain(u: CodeUnit) {
    0x23 <= u <= 0x7E || u == 0x20 || u == 0x7C || u == 0x21
  }

  function AmpPass(u: CodeUnit): Text {
    if u == AMP then AMP_REF else [u]
  }

  function NumericPass(u: CodeUnit): Text {
    if IsPlain(u) then [u] else NumericRef(u)
  }

  function LessPass(u: CodeUnit): Text {
    if u == LESS then LT_REF else [u]
  }

  function GreaterPass(u: CodeUnit): Text {
    if u == GREATER then GT_REF else [u]
  }

  function LastPasses(s: Text): Text {
    ReplaceEach(ReplaceEach(ReplaceEach(s, NumericPass), LessPass), GreaterPass)
  }

  function EncodeEntities(value: Text): Text {
    LastPasses(ReplacePairs(ReplaceEach(value, AmpPass)))
  }

  // ---------- One pass ----------

  function EncodeUnit(u: CodeUnit): Text {
    if u == AMP then AMP_REF
    else if u == LESS then LT_REF
    else if u == GREATER then GT_REF
    else if IsPlain(u) then [u]
    else NumericRef(u)
  }

  function EncodeOnce(s: Text): Text
    decreases |s|
  {
    if s == [] then []
    else if StartsWithPair(s) then NumericRef(PairCodePoint(s[0], s[1])) + EncodeOnce(s[2..])
    else EncodeUnit(s[0]) + EncodeOnce(s[1..])
  }

  lemma {:induction false} ReplaceEachConcat(a: Text, b: Text, f: CodeUnit -> Text)
    ensures ReplaceEach(a + b, f) == ReplaceEach(a, f) + ReplaceEach(b, f)
  {
    if a == [] {
      assert a + b == b;
    } else {
      assert (a + b)[0] == a[0] && (a + b)[1..] == a[1..] + b;
      ReplaceEachConcat(a[1..], b, f);
    }
  }

  lemma {:induction false} ReplaceEachSame(a: Text, f: CodeUnit -> Text)
    requires forall i :: 0 <= i < |a| ==> f(a[i]) == [a[i]]
    ensures ReplaceEach(a, f) == a
  {
    if a != [] {
      ReplaceEachSame(a[1..], f);
      assert a == [a[0]] + a[1..];
    }
  }

  lemma LastPassesConcat(a: Text, b: Text)
    ensures LastPasses(a + b) == LastPasses(a) + LastPasses(b)
  {
    var a3, b3 := ReplaceEach(a, NumericPass), ReplaceEach(b, NumericPass);
    ReplaceEachConcat(a, b, NumericPass);
    ReplaceEachConcat(a3, b3, LessPass);
    ReplaceEachConcat(ReplaceEach(a3, LessPass), ReplaceEach(b3, LessPass), GreaterPass);
  }

  /** Text the last three passes do not touch. */
  predicate Inert(s: Text) {
    forall i :: 0 <= i < |s| ==> IsPlain(s[i]) && s[i] != LESS && s[i] != GREATER
  }

  lemma LastPassesInert(s: Text)
    requires Inert(s)
    ensures LastPasses(s) == s
  {
    ReplaceEachSame(s, NumericPass);
    ReplaceEachSame(s, LessPass);
    ReplaceEachSame(s, GreaterPass);
  }

  lemma NumericRefInert(n: nat)
    ensures Inert(NumericRef(n))
  {
  }

  lemma SinglePass(u: CodeUnit, f: CodeUnit -> Text)
    ensures ReplaceEach([u], f) == f(u)
  {
    assert ReplaceEach([u], f) == f(u) + ReplaceEach([], f);
  }

  lemma LastPassesUnit(u: CodeUnit)
    requires u != AMP
    ensures LastPasses([u]) == EncodeUnit(u)
  {
    SinglePass(u, NumericPass);
    if IsPlain(u) {
      SinglePass(u, LessPass);
      if u == LESS {
        ReplaceEachSame(LT_REF, GreaterPass);
      } else {
        SinglePass(u, GreaterPass);
      }
    } else {
      NumericRefInert(u);
      ReplaceEachSame(NumericRef(u), LessPass);
      ReplaceEachSame(NumericRef(u), GreaterPass);
    }
  }

  lemma {:induction false} ReplacePairsSkips(a: Text, b: Text)
    requires forall i :: 0 <= i < |a| ==> !IsHigh(a[i])
    ensures ReplacePairs(a + b) == a + ReplacePairs(b)
  {
    if a == [] {
      assert a + b == b;
    } else {
      assert (a + b)[0] == a[0] && (a + b)[1..] == a[1..] + b;
      ReplacePairsSkips(a[1..], b);
      assert a == [a[0]] + a[1..];
    }
  }

  /** The pair pass after the ampersand pass, seen from the front of the string. */
  lemma PairsAfterAmp(s: Text)
    requires s != [] && !StartsWithPair(s)
    ensures ReplacePairs(ReplaceEach(s, AmpPass)) == AmpPass(s[0]) + ReplacePairs(ReplaceEach(s[1..], AmpPass))
  {
    var rest := ReplaceEach(s[1..], AmpPass);
    if IsHigh(s[0]) {
      AmpFirst(s[1..]);
      NoPairAhead(s[0], rest);
    } else {
      ReplacePairsSkips(AmpPass(s[0]), rest);
    }
  }

  lemma AmpFirst(s: Text)
    ensures s == [] <==> ReplaceEach(s, AmpPass) == []
    ensures s != [] ==> ReplaceEach(s, AmpPass)[0] == s[0]
  {
  }

  lemma NoPairAhead(u: CodeUnit, rest: Text)
    requires !StartsWithPair([u] + rest)
    ensures ReplacePairs([u] + rest) == [u] + ReplacePairs(rest)
  {
    assert ([u] + rest)[1..] == rest;
  }

  lemma PairAfterAmp(s: Text)
    requires StartsWithPair(s)
    ensures ReplacePairs(ReplaceEach(s, AmpPass))
         == NumericRef(PairCodePoint(s[0], s[1])) + ReplacePairs(ReplaceEach(s[2..], AmpPass))
  {
    AmpKeepsPair(s);
    PairAhead(s[0], s[1], ReplaceEach(s[2..], AmpPass));
  }

  lemma AmpKeepsPair(s: Text)
    requires StartsWithPair(s)
    ensures ReplaceEach(s, AmpPass) == [s[0], s[1]] + ReplaceEach(s[2..], AmpPass)
  {
    assert s[1..][0] == s[1] && s[1..][1..] == s[2..];
    assert ReplaceEach(s[1..], AmpPass) == [s[1]] + ReplaceEach(s[2..], AmpPass);
  }

  lemma PairAhead(hi: CodeUnit, low: CodeUnit, rest: Text)
    requires IsHigh(hi) && IsLow(low)
    ensures ReplacePairs([hi, low] + rest) == NumericRef(PairCodePoint(hi, low)) + ReplacePairs(rest)
  {
    assert ([hi, low] + rest)[2..] == rest;
  }

  /** The five passes together are one left-to-right encoding. */
  lemma {:induction false} PassesAreOnePass(s: Text)
    ensures EncodeEntities(s) == EncodeOnce(s)
    decreases |s|
  {
    if s != [] {
      if StartsWithPair(s) {
        PairAfterAmp(s);
        var ref := NumericRef(PairCodePoint(s[0], s[1]));
        NumericRefInert(PairCodePoint(s[0], s[1]));
        LastPassesInert(ref);
        LastPassesConcat(ref, ReplacePairs(ReplaceEach(s[2..], AmpPass)));
        PassesAreOnePass(s[2..]);
      } else {
        PairsAfterAmp(s);
        LastPassesConcat(AmpPass(s[0]), ReplacePairs(ReplaceEach(s[1..], AmpPass)));
        if s[0] == AMP {
          LastPassesInert(AMP_REF);
        } else {
          LastPassesUnit(s[0]);
        }
        PassesAreOnePass(s[1..]);
      }
    }
  }

  predicate IsSafe(u: CodeUnit) {
    0x20 <= u <= 0x7E && u != LESS && u != GREATER && u != 0x22
  }

  lemma UnitIsSafe(u: CodeUnit)
    ensures forall v :: v in EncodeUnit(u) ==> IsSafe(v)
  {
    NumericRefInert(u);
  }

  lemma {:induction false} EncodedOnceIsSafe(s: Text)
    ensures forall u :: u in EncodeOnce(s) ==> IsSafe(u)
    decreases |s|
  {
    if s != [] {
      if StartsWithPair(s) {
        NumericRefInert(PairCodePoint(s[0], s[1]));
        EncodedOnceIsSafe(s[2..]);
      } else {
        UnitIsSafe(s[0]);
        EncodedOnceIsSafe(s[1..]);
      }
    }
  }

  /** The output holds no quote, no angle bracket, and nothing outside printable ASCII. */
  lemma OutputIsSafe(s: Text)
    ensures forall u :: u in EncodeEntities(s) ==> IsSafe(u)
  {
    PassesAreOnePass(s);
    EncodedOnceIsSafe(s);
  }

  /** Exactly the texts of printable ASCII without quote, ampersand and angle brackets are left alone. */
  lemma {:induction false} UntouchedExactly(s: Text)
    ensures |EncodeEntities(s)| >= |s|
    ensures EncodeEntities(s) == s
            <==> forall u :: u in s ==> 0x20 <= u <= 0x7E && u != 0x22 && u != 0x26 && u != 0x3C && u != 0x3E
  {
    PassesAreOnePass(s);
    EncodedOnceUntouched(s);
  }

  lemma UnitUntouched(u: CodeUnit)
    ensures |EncodeUnit(u)| >= 1
    ensures |EncodeUnit(u)| == 1 ==> EncodeUnit(u) == [u]
    ensures |EncodeUnit(u)| == 1 <==> 0x20 <= u <= 0x7E && u != 0x22 && u != 0x26 && u != 0x3C && u != 0x3E
  {
  }

  lemma {:induction false} EncodedOnceUntouched(s: Text)
    ensures |EncodeOnce(s)| >= |s|
    ensures |EncodeOnce(s)| == |s| ==> EncodeOnce(s) == s
    ensures |EncodeOnce(s)| == |s|
            <==> forall u :: u in s ==> 0x20 <= u <= 0x7E && u != 0x22 && u != 0x26 && u != 0x3C && u != 0x3E
    decreases |s|
  {
    if s != [] {
      if StartsWithPair(s) {
        EncodedOnceUntouched(s[2..]);
        assert s[0] in s && |NumericRef(PairCodePoint(s[0], s[1]))| > 3;
      } else {
        EncodedOnceUntouched(s[1..]);
        UnitUntouched(s[0]);
        assert s == [s[0]] + s[1..];
        assert forall u :: u in s <==> u == s[0] || u in s[1..];
      }
    }
  }

  // ---------- Decoding ----------

  /** What a numeric reference to a code point is read as. */
  type Reading = nat -> Text

  function PairText(cp: nat): Text
    requires 0x10000 <= cp <= 0x10FFFF
  {
    [0xD800 + (cp - 0x10000) / 0x400, 0xDC00 + (cp - 0x10000) % 0x400]
  }

  /** The code points 0x80 to 0x9F as windows-1252 has them, zero where it has none. */
  const WINDOWS_1252: seq<CodeUnit> := [
    0x20AC, 0, 0x201A, 0x0192, 0x201E, 0x2026, 0x2020, 0x2021,
    0x02C6, 0x2030, 0x0160, 0x2039, 0x0152, 0, 0x017D, 0,
    0, 0x2018, 0x2019, 0x201C, 0x201D, 0x2022, 0x2013, 0x2014,
    0x02DC, 0x2122, 0x0161, 0x203A, 0x0153, 0, 0x017E, 0x0178]

  predicate Remapped(cp: nat) {
    0x80 <= cp < 0xA0 && WINDOWS_1252[cp - 0x80] != 0
  }

  /** As a browser reads it: the numeric character reference end state of the HTML Standard. */
  function HtmlReading(cp: nat): Text {
    if cp == 0 || cp > 0x10FFFF || 0xD800 <= cp < 0xE000 then [0xFFFD]
    else if Remapped(cp) then [WINDOWS_1252[cp - 0x80]]
    else if cp < 0x10000 then [cp]
    else PairText(cp)
  }

  /** As plain arithmetic reads it: every code unit is its own text. */
  function PlainReading(cp: nat): Text {
    if cp < 0x10000 then [cp] else if cp <= 0x10FFFF then PairText(cp) else []
  }

  function DigitRun(s: Text): (n: nat)
    ensures n <= |s| && forall i :: 0 <= i < n ==> IsDigit(s[i])
  {
    if s == [] || !IsDigit(s[0]) then 0 else 1 + DigitRun(s[1..])
  }

  function DigitsValue(s: Text): nat
    requires forall i :: 0 <= i < |s| ==> IsDigit(s[i])
  {
    if s == [] then 0
    else
      assert IsDigit(s[|s| - 1]);
      DigitsValue(s[..|s| - 1]) * 10 + (s[|s| - 1] as int - 48)
  }

  /** Reading text back: the references &amp; &lt; &gt; and decimal numeric references. */
  function Decode(s: Text, reading: Reading): Text
    decreases |s|
  {
    if s == [] then []
    else if AMP_REF <= s then [AMP] + Decode(s[5..], reading)
    else if LT_REF <= s then [LESS] + Decode(s[4..], reading)
    else if GT_REF <= s then [GREATER] + Decode(s[4..], reading)
    else if [AMP, HASH] <= s then
      var n := DigitRun(s[2..]);
      if n > 0 && 2 + n < |s| && s[2 + n] == SEMI then
        reading(DigitsValue(s[2..][..n])) + Decode(s[3 + n..], reading)
      else [AMP] + Decode(s[1..], reading)
    else [s[0]] + Decode(s[1..], reading)
  }

  lemma {:induction false} DigitsRoundTrip(n: nat)
    ensures DigitsValue(Digits(n)) == n
  {
    if n < 10 {
      assert Digits(n)[..0] == [];
    } else {
      var d := Digits(n);
      assert d[..|d| - 1] == Digits(n / 10);
      DigitsRoundTrip(n / 10);
    }
  }

  lemma {:induction false} DigitRunStops(d: Text, rest: Text)
    requires forall i :: 0 <= i < |d| ==> IsDigit(d[i])
    ensures DigitRun(d + [SEMI] + rest) == |d|
  {
    var s := d + [SEMI] + rest;
    if d != [] {
      assert s[1..] == d[1..] + [SEMI] + rest;
      DigitRunStops(d[1..], rest);
    }
  }

  lemma DecodeNumericRef(n: nat, rest: Text, reading: Reading)
    ensures Decode(NumericRef(n) + rest, reading) == reading(n) + Decode(rest, reading)
  {
    var s := NumericRef(n) + rest;
    var d := Digits(n);
    assert s[2..] == d + [SEMI] + rest;
    DigitRunStops(d, rest);
    assert s[1] == HASH && AMP_REF[1] != HASH && LT_REF[1] != HASH && GT_REF[1] != HASH;
    assert s[2..][..|d|] == d;
    assert s[2 + |d|] == s[2..][|d|] == SEMI;
    assert s[3 + |d|..] == rest;
    DigitsRoundTrip(n);
  }

  /** What a code unit outside a pair is read back as. */
  function UnitReadBack(u: CodeUnit, reading: Reading): Text {
    if IsPlain(u) then [u] else reading(u)
  }

  /** What a text is read back as: what is encoded numerically depends on the reading. */
  function ReadBack(s: Text, reading: Reading): Text
    decreases |s|
  {
    if s == [] then []
    else if StartsWithPair(s) then reading(PairCodePoint(s[0], s[1])) + ReadBack(s[2..], reading)
    else UnitReadBack(s[0], reading) + ReadBack(s[1..], reading)
  }

  lemma DecodeUnit(u: CodeUnit, rest: Text, reading: Reading)
    ensures Decode(EncodeUnit(u) + rest, reading) == UnitReadBack(u, reading) + Decode(rest, reading)
  {
    var s := EncodeUnit(u) + rest;
    if u == AMP {
      assert s[..5] == AMP_REF && s[5..] == rest;
    } else if u == LESS {
      assert s[..4] == LT_REF && s[4..] == rest;
      assert s[1] == LT_REF[1] != AMP_REF[1];
    } else if u == GREATER {
      assert s[..4] == GT_REF && s[4..] == rest;
      assert s[1] == GT_REF[1] && s[1] != AMP_REF[1] && s[1] != LT_REF[1];
    } else if IsPlain(u) {
      assert s[0] == u && s[1..] == rest;
    } else {
      DecodeNumericRef(u, rest, reading);
    }
  }

  /** Decoding undoes the encoding, up to how numeric references are read. */
  lemma {:induction false} DecodeEncode(s: Text, reading: Reading)
    ensures Decode(EncodeEntities(s), reading) == ReadBack(s, reading)
    decreases |s|
  {
    PassesAreOnePass(s);
    if s != [] {
      if StartsWithPair(s) {
        DecodeNumericRef(PairCodePoint(s[0], s[1]), EncodeOnce(s[2..]), reading);
        PassesAreOnePass(s[2..]);
        DecodeEncode(s[2..], reading);
      } else {
        DecodeUnit(s[0], EncodeOnce(s[1..]), reading);
        PassesAreOnePass(s[1..]);
        DecodeEncode(s[1..], reading);
      }
    }
  }

  // ---------- Round trips ----------

  lemma PairReadsBack(hi: CodeUnit, low: CodeUnit)
    requires IsHigh(hi) && IsLow(low)
    ensures PairText(PairCodePoint(hi, low)) == [hi, low]
  {
  }

  /** Read plainly, every text comes back, lone surrogates included. */
  lemma {:induction false} PlainReadBack(s: Text)
    ensures ReadBack(s, PlainReading) == s
    decreases |s|
  {
    if s != [] {
      if StartsWithPair(s) {
        PairReadsBack(s[0], s[1]);
        PlainReadBack(s[2..]);
        assert s == [s[0], s[1]] + s[2..];
      } else {
        PlainReadBack(s[1..]);
        assert s == [s[0]] + s[1..];
      }
    }
  }

  /** So no two texts have the same encoding. */
  lemma EncodingIsInjective(s: Text, t: Text)
    requires EncodeEntities(s) == EncodeEntities(t)
    ensures s == t
  {
    DecodeEncode(s, PlainReading);
    DecodeEncode(t, PlainReading);
    PlainReadBack(s);
    PlainReadBack(t);
  }

  /** Code units that a browser reads back from their reference: not U+0000 and not remapped. */
  predicate Readable(u: CodeUnit) {
    u != 0 && !Remapped(u)
  }

  lemma {:induction false} HtmlReadBack(s: Text)
    ensures |ReadBack(s, HtmlReading)| == |s|
    ensures ReadBack(s, HtmlReading) == s <==> WellFormed(s) && forall u :: u in s ==> Readable(u)
    decreases |s|
  {
    if s != [] {
      if StartsWithPair(s) {
        PairReadsBack(s[0], s[1]);
        HtmlReadBack(s[2..]);
        assert s == [s[0], s[1]] + s[2..];
        assert Readable(s[0]) && Readable(s[1]);
        assert ReadBack(s, HtmlReading)[2..] == ReadBack(s[2..], HtmlReading);
      } else {
        HtmlReadBack(s[1..]);
        UnitReadsBack(s[0]);
        assert s == [s[0]] + s[1..];
        assert ReadBack(s, HtmlReading)[1..] == ReadBack(s[1..], HtmlReading);
      }
    }
  }

  lemma UnitReadsBack(u: CodeUnit)
    ensures |UnitReadBack(u, HtmlReading)| == 1
    ensures UnitReadBack(u, HtmlReading) == [u] <==> !IsHigh(u) && !IsLow(u) && Readable(u)
  {
  }

  /**
   * In a browser the round trip is exact for precisely the texts without a lone surrogate, without U+0000
   * and without the control characters that numeric references cannot denote.
   */
  lemma RoundTripExactly(s: Text)
    ensures Decode(EncodeEntities(s), HtmlReading) == s
            <==> WellFormed(s) && forall u :: u in s ==> Readable(u)
  {
    DecodeEncode(s, HtmlReading);
    HtmlReadBack(s);
  }
}
