/** `encodeUriQuery` and `encodeUriSegment` of angular-resource.js, on the bytes of the value. */
module UriEncoding {
  type Byte = b: int | 0 <= b < 256

  const PERCENT: Byte := 37
  const PLUS: Byte := 43
  const SPACE: Byte := 32

  function HexDigit(n: int): Byte
    requires 0 <= n < 16
  {
    if n < 10 then 48 + n else 55 + n
  }

  predicate IsHex(b: Byte) {
    48 <= b <= 57 || 65 <= b <= 70 || 97 <= b <= 102
  }

  function HexValue(b: Byte): (n: int)
    requires IsHex(b)
    ensures 0 <= n < 16
  {
    if b <= 57 then b - 48 else if b <= 70 then b - 55 else b - 87
  }

  function Triplet(b: Byte): seq<Byte> {
    [PERCENT, HexDigit(b / 16), HexDigit(b % 16)]
  }

  // ---------- encodeURIComponent ----------

  predicate IsAlphaNumeric(b: Byte) {
    48 <= b <= 57 || 65 <= b <= 90 || 97 <= b <= 122
  }

  /** The characters encodeURIComponent keeps: letters, digits and -_.!~*'(). */
  predicate IsKept(b: Byte) {
    IsAlphaNumeric(b) || b in {45, 95, 46, 33, 126, 42, 39, 40, 41}
  }

  /** A code: what each byte is written as. */
  type Code = Byte -> seq<Byte>

  function Write(code: Code, bytes: seq<Byte>): seq<Byte> {
    if bytes == [] then [] else code(bytes[0]) + Write(code, bytes[1..])
  }

  function ComponentCode(b: Byte): seq<Byte> {
    if IsKept(b) then [b] else Triplet(b)
  }

  function EncodeUriComponent(bytes: seq<Byte>): seq<Byte> {
    Write(ComponentCode, bytes)
  }

  // ---------- The replacement passes ----------

  function Upper(b: Byte): Byte {
    if 97 <= b <= 122 then b - 32 else b
  }

  predicate MatchesIgnoringCase(s: seq<Byte>, pattern: seq<Byte>) {
    |s| >= |pattern| && forall i :: 0 <= i < |pattern| ==> Upper(s[i]) == Upper(pattern[i])
  }

  /** `s.replace(/pattern/gi, with)` */
  function ReplaceAll(s: seq<Byte>, pattern: seq<Byte>, with: seq<Byte>): seq<Byte>
    requires pattern != []
  {
    if s == [] then []
    else if MatchesIgnoringCase(s, pattern) then with + ReplaceAll(s[|pattern|..], pattern, with)
    else [s[0]] + ReplaceAll(s[1..], pattern, with)
  }

  function EncodeUriQuery(val: seq<Byte>, pctEncodeSpaces: bool): seq<Byte> {
    var s0 := EncodeUriComponent(val);
    var s1 := ReplaceAll(s0, Triplet(64), [64]);
    var s2 := ReplaceAll(s1, Triplet(58), [58]);
    var s3 := ReplaceAll(s2, Triplet(36), [36]);
    var s4 := ReplaceAll(s3, Triplet(44), [44]);
    ReplaceAll(s4, Triplet(SPACE), if pctEncodeSpaces then Triplet(SPACE) else [PLUS])
  }

  function EncodeUriSegment(val: seq<Byte>): seq<Byte> {
    var s0 := EncodeUriQuery(val, true);
    var s1 := ReplaceAll(s0, Triplet(38), [38]);
    var s2 := ReplaceAll(s1, Triplet(61), [61]);
    ReplaceAll(s2, Triplet(PLUS), [PLUS])
  }

  // ---------- One selective pass ----------

  /** Each byte is one symbol other than `%`, or its own triplet. */
  ghost predicate Selective(code: Code) {
    forall b: Byte :: SelectiveAt(code, b)
  }

  ghost predicate SelectiveAt(code: Code, b: Byte) {
    code(b) == Triplet(b) || (|code(b)| == 1 && code(b)[0] != PERCENT)
  }

  predicate IsSegmentLiteral(b: Byte) {
    IsKept(b) || b in {64, 58, 36, 44, 38, 61, 43}
  }

  predicate IsQueryLiteral(b: Byte) {
    IsKept(b) || b in {64, 58, 36, 44}
  }

  function SegmentCode(b: Byte): seq<Byte> {
    if IsSegmentLiteral(b) then [b] else Triplet(b)
  }

  function QueryCode(pctEncodeSpaces: bool): Code {
    (b: Byte) =>
      if IsQueryLiteral(b) then [b]
      else if b == SPACE && !pctEncodeSpaces then [PLUS]
      else Triplet(b)
  }

  lemma HexDigitsDiffer(a: Byte, b: Byte)
    requires MatchesIgnoringCase(Triplet(a), Triplet(b))
    ensures a == b
  {
    assert Upper(Triplet(a)[1]) == Upper(Triplet(b)[1]);
    assert Upper(Triplet(a)[2]) == Upper(Triplet(b)[2]);
  }

  /** A pass over the output of a code is a change of the code at one byte. */
  lemma {:induction false} PassChangesCode(code: Code, changed: Code, c: Byte, with: seq<Byte>, bytes: seq<Byte>)
    requires Selective(code) && code(c) == Triplet(c)
    requires forall b: Byte :: changed(b) == if b == c then with else code(b)
    ensures ReplaceAll(Write(code, bytes), Triplet(c), with) == Write(changed, bytes)
  {
    if bytes != [] {
      var b, rest := bytes[0], Write(code, bytes[1..]);
      PassChangesCode(code, changed, c, with, bytes[1..]);
      assert SelectiveAt(code, b);
      if b == c {
        TripletGoes(c, rest, with);
      } else if code(b) == Triplet(b) {
        TripletStays(b, rest, c, with);
      } else {
        assert code(b) == [code(b)[0]];
        NoTripletHere(code(b)[0], rest, c, with);
      }
    }
  }

  lemma TripletGoes(c: Byte, rest: seq<Byte>, with: seq<Byte>)
    ensures ReplaceAll(Triplet(c) + rest, Triplet(c), with) == with + ReplaceAll(rest, Triplet(c), with)
  {
    var s := Triplet(c) + rest;
    assert forall i :: 0 <= i < 3 ==> s[i] == Triplet(c)[i];
    assert s[3..] == rest;
  }

  lemma TripletStays(b: Byte, rest: seq<Byte>, c: Byte, with: seq<Byte>)
    requires b != c
    ensures ReplaceAll(Triplet(b) + rest, Triplet(c), with) == Triplet(b) + ReplaceAll(rest, Triplet(c), with)
  {
    var s, done := Triplet(b) + rest, ReplaceAll(rest, Triplet(c), with);
    if MatchesIgnoringCase(s, Triplet(c)) {
      assert forall i :: 0 <= i < 3 ==> s[i] == Triplet(b)[i];
      HexDigitsDiffer(b, c);
    }
    var high, low := HexDigit(b / 16), HexDigit(b % 16);
    assert s[1..] == [high] + ([low] + rest);
    NoTripletHere(high, [low] + rest, c, with);
    NoTripletHere(low, rest, c, with);
    assert [s[0]] + ([high] + ([low] + done)) == Triplet(b) + done;
  }

  lemma NoTripletHere(x: Byte, rest: seq<Byte>, c: Byte, with: seq<Byte>)
    requires x != PERCENT
    ensures ReplaceAll([x] + rest, Triplet(c), with) == [x] + ReplaceAll(rest, Triplet(c), with)
  {
    var s := [x] + rest;
    assert s[1..] == rest;
    assert Triplet(c)[0] == PERCENT && Upper(s[0]) != Upper(PERCENT);
  }

  function Updated(code: Code, c: Byte, with: seq<Byte>): Code {
    (b: Byte) => if b == c then with else code(b)
  }

  lemma {:induction false} SameCode(f: Code, g: Code, bytes: seq<Byte>)
    requires forall b: Byte :: f(b) == g(b)
    ensures Write(f, bytes) == Write(g, bytes)
  {
    if bytes != [] {
      SameCode(f, g, bytes[1..]);
    }
  }

  lemma UpdatedSelective(code: Code, c: Byte, with: seq<Byte>)
    requires Selective(code)
    requires with == Triplet(c) || (|with| == 1 && with[0] != PERCENT)
    ensures Selective(Updated(code, c, with))
  {
    forall b: Byte ensures SelectiveAt(Updated(code, c, with), b) {
      assert SelectiveAt(code, b);
    }
  }

  /** One pass of the chain, as a changed code. */
  lemma PassUpdates(code: Code, c: Byte, with: seq<Byte>, bytes: seq<Byte>) returns (changed: Code)
    requires Selective(code) && code(c) == Triplet(c)
    requires with == Triplet(c) || (|with| == 1 && with[0] != PERCENT)
    ensures Selective(changed) && forall b: Byte :: changed(b) == if b == c then with else code(b)
    ensures ReplaceAll(Write(code, bytes), Triplet(c), with) == Write(changed, bytes)
  {
    changed := Updated(code, c, with);
    UpdatedSelective(code, c, with);
    PassChangesCode(code, changed, c, with, bytes);
  }

  /** After the passes for `@` and `:`. */
  function HalfQueryCode(b: Byte): seq<Byte> {
    if IsKept(b) || b == 64 || b == 58 then [b] else Triplet(b)
  }

  lemma FirstPasses(val: seq<Byte>)
    ensures var s1 := ReplaceAll(EncodeUriComponent(val), Triplet(64), [64]);
            ReplaceAll(s1, Triplet(58), [58]) == Write(HalfQueryCode, val)
    ensures Selective(HalfQueryCode)
  {
    var c0: Code := ComponentCode;
    forall b: Byte ensures SelectiveAt(c0, b) {}
    var c1 := PassUpdates(c0, 64, [64], val);
    var c2 := PassUpdates(c1, 58, [58], val);
    forall b: Byte ensures c2(b) == HalfQueryCode(b) && SelectiveAt(HalfQueryCode, b) {
      assert SelectiveAt(c2, b);
    }
    SameCode(c2, HalfQueryCode, val);
  }

  lemma LiteralPasses(val: seq<Byte>)
    ensures var s1 := ReplaceAll(EncodeUriComponent(val), Triplet(64), [64]);
            var s2 := ReplaceAll(s1, Triplet(58), [58]);
            var s3 := ReplaceAll(s2, Triplet(36), [36]);
            ReplaceAll(s3, Triplet(44), [44]) == Write(QueryCode(true), val)
    ensures Selective(QueryCode(true))
  {
    FirstPasses(val);
    var c3 := PassUpdates(HalfQueryCode, 36, [36], val);
    var c4 := PassUpdates(c3, 44, [44], val);
    var q := QueryCode(true);
    forall b: Byte ensures c4(b) == q(b) && SelectiveAt(q, b) {
      assert SelectiveAt(c4, b);
    }
    SameCode(c4, q, val);
  }

  /** The chain of passes in `encodeUriQuery` is one selective pass. */
  lemma QueryIsOnePass(val: seq<Byte>, pctEncodeSpaces: bool)
    ensures EncodeUriQuery(val, pctEncodeSpaces) == Write(QueryCode(pctEncodeSpaces), val)
    ensures Selective(QueryCode(pctEncodeSpaces))
  {
    LiteralPasses(val);
    var c := PassUpdates(QueryCode(true), SPACE, if pctEncodeSpaces then Triplet(SPACE) else [PLUS], val);
    var q := QueryCode(pctEncodeSpaces);
    forall b: Byte ensures c(b) == q(b) && SelectiveAt(q, b) {
      assert SelectiveAt(c, b);
    }
    SameCode(c, q, val);
  }

  /** The chain of passes in `encodeUriSegment` is one selective pass. */
  lemma SegmentIsOnePass(val: seq<Byte>)
    ensures EncodeUriSegment(val) == Write(SegmentCode, val)
    ensures Selective(SegmentCode)
  {
    QueryIsOnePass(val, true);
    var c0 := QueryCode(true);
    var c1 := PassUpdates(c0, 38, [38], val);
    var c2 := PassUpdates(c1, 61, [61], val);
    var c3 := PassUpdates(c2, PLUS, [PLUS], val);
    forall b: Byte ensures c3(b) == SegmentCode(b) && SelectiveAt(SegmentCode, b) {
      assert SelectiveAt(c3, b);
    }
    SameCode(c3, SegmentCode, val);
  }

  // ---------- Percent-decoding ----------

  predicate StartsTriplet(s: seq<Byte>) {
    |s| >= 3 && s[0] == PERCENT && IsHex(s[1]) && IsHex(s[2])
  }

  function Decode(s: seq<Byte>): seq<Byte> {
    if s == [] then []
    else if StartsTriplet(s) then [HexValue(s[1]) * 16 + HexValue(s[2])] + Decode(s[3..])
    else [s[0]] + Decode(s[1..])
  }

  /** As for form data: a plus sign is a space. */
  function DecodePlus(s: seq<Byte>): seq<Byte> {
    if s == [] then []
    else if StartsTriplet(s) then [HexValue(s[1]) * 16 + HexValue(s[2])] + DecodePlus(s[3..])
    else [if s[0] == PLUS then SPACE else s[0]] + DecodePlus(s[1..])
  }

  lemma TripletAhead(b: Byte, rest: seq<Byte>)
    ensures var s := Triplet(b) + rest;
            StartsTriplet(s) && s[3..] == rest && HexValue(s[1]) * 16 + HexValue(s[2]) == b
  {
  }

  lemma {:induction false} DecodeWritten(code: Code, bytes: seq<Byte>)
    requires Selective(code) && forall b: Byte :: code(b) == Triplet(b) || code(b) == [b]
    ensures Decode(Write(code, bytes)) == bytes
  {
    if bytes != [] {
      var b, rest := bytes[0], Write(code, bytes[1..]);
      DecodeWritten(code, bytes[1..]);
      assert SelectiveAt(code, b);
      TripletAhead(b, rest);
      assert code(b) == [b] ==> (code(b) + rest)[1..] == rest;
    }
  }

  /** A percent-decoded segment is the original value. */
  lemma SegmentRoundTrip(val: seq<Byte>)
    ensures Decode(EncodeUriSegment(val)) == val
  {
    SegmentIsOnePass(val);
    DecodeWritten(SegmentCode, val);
  }

  lemma {:induction false} DecodePlusWritten(code: Code, bytes: seq<Byte>)
    requires Selective(code) && code(PLUS) == Triplet(PLUS)
    requires forall b: Byte :: code(b) == Triplet(b) || code(b) == [if b == SPACE then PLUS else b]
    ensures DecodePlus(Write(code, bytes)) == bytes
  {
    if bytes != [] {
      var b, rest := bytes[0], Write(code, bytes[1..]);
      DecodePlusWritten(code, bytes[1..]);
      assert SelectiveAt(code, b);
      TripletAhead(b, rest);
      if code(b) != Triplet(b) {
        assert (code(b) + rest)[1..] == rest;
      }
    }
  }

  /** Query values come back in both settings: with %20 under either decoder, with + under the form decoder. */
  lemma QueryRoundTrip(val: seq<Byte>, pctEncodeSpaces: bool)
    ensures DecodePlus(EncodeUriQuery(val, pctEncodeSpaces)) == val
    ensures pctEncodeSpaces ==> Decode(EncodeUriQuery(val, pctEncodeSpaces)) == val
  {
    QueryIsOnePass(val, pctEncodeSpaces);
    DecodePlusWritten(QueryCode(pctEncodeSpaces), val);
    if pctEncodeSpaces {
      DecodeWritten(QueryCode(true), val);
    }
  }

  // ---------- pchar, section 3.3 of RFC 3986 ----------

  predicate IsUnreserved(b: Byte) {
    IsAlphaNumeric(b) || b in {45, 46, 95, 126}
  }

  predicate IsSubDelim(b: Byte) {
    b in {33, 36, 38, 39, 40, 41, 42, 43, 44, 59, 61}
  }

  predicate IsPcharSymbol(b: Byte) {
    IsUnreserved(b) || IsSubDelim(b) || b == 58 || b == 64
  }

  /** `*pchar`: every percent sign starts a triplet, every other symbol is allowed on its own. */
  predicate IsPchars(s: seq<Byte>) {
    s == [] ||
    (if s[0] == PERCENT then StartsTriplet(s) && IsPchars(s[3..])
     else IsPcharSymbol(s[0]) && IsPchars(s[1..]))
  }

  lemma {:induction false} WrittenIsPchars(code: Code, bytes: seq<Byte>)
    requires Selective(code)
    requires forall b: Byte :: code(b) == Triplet(b) || (code(b) != [] && IsPcharSymbol(code(b)[0]))
    ensures IsPchars(Write(code, bytes))
  {
    if bytes != [] {
      var b, rest := bytes[0], Write(code, bytes[1..]);
      WrittenIsPchars(code, bytes[1..]);
      assert SelectiveAt(code, b);
      TripletAhead(b, rest);
      if code(b) != Triplet(b) {
        assert (code(b) + rest)[1..] == rest;
      }
    }
  }

  /** The result is a path segment of RFC 3986, and a query value too. */
  lemma EncodedIsPchars(val: seq<Byte>, pctEncodeSpaces: bool)
    ensures IsPchars(EncodeUriSegment(val)) && IsPchars(EncodeUriQuery(val, pctEncodeSpaces))
  {
    SegmentIsOnePass(val);
    WrittenIsPchars(SegmentCode, val);
    QueryIsOnePass(val, pctEncodeSpaces);
    WrittenIsPchars(QueryCode(pctEncodeSpaces), val);
  }

  // ---------- Which symbols are written how ----------

  const HEX_DIGITS := "0123456789ABCDEF"

  predicate IsLetterOrDigit(c: char) {
    'A' <= c <= 'Z' || 'a' <= c <= 'z' || '0' <= c <= '9'
  }

  /** A percent sign and the byte in upper-case hexadecimal. */
  function Escaped(b: Byte): seq<int> {
    ['%' as int, HEX_DIGITS[b / 16] as int, HEX_DIGITS[b % 16] as int]
  }

  lemma TripletSpelled(b: Byte)
    ensures Triplet(b) == Escaped(b)
  {
    assert forall n: int :: 0 <= n < 16 ==> HexDigit(n) == HEX_DIGITS[n] as int;
  }

  /** In a segment letters, digits and these marks stand for themselves. */
  lemma SegmentSymbols(b: Byte)
    ensures EncodeUriSegment([b])
         == if IsLetterOrDigit(b as char) || b as char in "-_.!~*'()@:$,&=+" then [b] else Escaped(b)
  {
    SegmentIsOnePass([b]);
    TripletSpelled(b);
    assert [b][1..] == [];
    assert Write(SegmentCode, [b]) == SegmentCode(b) + [];
  }

  /** In a query `&`, `=` and `+` do not, and a space may be written as a plus sign. */
  lemma QuerySymbols(b: Byte, pctEncodeSpaces: bool)
    ensures EncodeUriQuery([b], pctEncodeSpaces)
         == if IsLetterOrDigit(b as char) || b as char in "-_.!~*'()@:$," then [b]
            else if b as char == ' ' && !pctEncodeSpaces then ['+' as int]
            else Escaped(b)
  {
    QueryIsOnePass([b], pctEncodeSpaces);
    TripletSpelled(b);
    var code := QueryCode(pctEncodeSpaces);
    assert [b][1..] == [];
    assert Write(code, [b]) == code(b) + [];
  }

  lemma {:induction false} WriteConcat(code: Code, a: seq<Byte>, b: seq<Byte>)
    ensures Write(code, a + b) == Write(code, a) + Write(code, b)
  {
    if a == [] {
      assert a + b == b;
    } else {
      assert (a + b)[0] == a[0] && (a + b)[1..] == a[1..] + b;
      WriteConcat(code, a[1..], b);
    }
  }

  /** Both encode symbol by symbol. */
  lemma EncodeConcat(a: seq<Byte>, b: seq<Byte>, pctEncodeSpaces: bool)
    ensures EncodeUriSegment(a + b) == EncodeUriSegment(a) + EncodeUriSegment(b)
    ensures EncodeUriQuery(a + b, pctEncodeSpaces)
         == EncodeUriQuery(a, pctEncodeSpaces) + EncodeUriQuery(b, pctEncodeSpaces)
  {
    SegmentIsOnePass(a + b);
    SegmentIsOnePass(a);
    SegmentIsOnePass(b);
    WriteConcat(SegmentCode, a, b);
    QueryIsOnePass(a + b, pctEncodeSpaces);
    QueryIsOnePass(a, pctEncodeSpaces);
    QueryIsOnePass(b, pctEncodeSpaces);
    WriteConcat(QueryCode(pctEncodeSpaces), a, b);
  }

  /** The semicolon is the one pchar that a segment does not keep, although RFC 3986 allows it there. */
  lemma SemicolonEscaped(b: Byte)
    ensures IsPcharSymbol(b) && EncodeUriSegment([b]) != [b] <==> b as char == ';'
  {
    SegmentSymbols(b);
  }
}
