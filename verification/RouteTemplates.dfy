/** Route templates of angular-route.js as token lists: matching a path and filling a template in. */
module RoutePatterns {
  import opened Wrappers

  /** A piece of a path template: literal text, `:name` or `:name*`. */
  datatype Piece = Text(text: string) | Param(name: string, star: bool)

  type Template = seq<Piece>

  /** What `pathRegExp` compiles a piece to: the text itself, `([^/]+)` or `(.+?)`. */
  datatype Token = Literal(text: string) | Segment | Anything

  function Compile(template: Template): seq<Token> {
    seq(|template|, i requires 0 <= i < |template| =>
      match template[i]
      case Text(text) => Literal(text)
      case Param(_, star) => if star then Anything else Segment)
  }

  /** The `keys` array: the parameter names from left to right. */
  function Keys(template: Template): seq<string> {
    if template == [] then []
    else (if template[0].Param? then [template[0].name] else []) + Keys(template[1..])
  }

  predicate IsLineEnd(c: char) {
    c == '\n' || c == '\r' || c == '\U{2028}' || c == '\U{2029}'
  }

  /** How far `[^/]` reaches. */
  function SegmentRun(s: string): (n: nat)
    ensures n <= |s| && forall i :: 0 <= i < n ==> s[i] != '/'
  {
    if s == "" || s[0] == '/' then 0 else 1 + SegmentRun(s[1..])
  }

  /** How far `.` reaches. */
  function LineRun(s: string): (n: nat)
    ensures n <= |s| && forall i :: 0 <= i < n ==> !IsLineEnd(s[i])
  {
    if s == "" || IsLineEnd(s[0]) then 0 else 1 + LineRun(s[1..])
  }

  // ---------- Backtracking, as the regular expression engine does it ----------

  /** `regexp.exec(s)`, anchored at both ends: the captured groups of the first way to match. */
  function Exec(re: seq<Token>, s: string): Option<seq<string>>
    decreases |re|, 0, 0
  {
    if re == [] then (if s == "" then Some([]) else None)
    else match re[0]
      case Literal(text) => if text <= s then Exec(re[1..], s[|text|..]) else None
      case Segment => Longest(re[1..], s, SegmentRun(s))
      case Anything => Shortest(re[1..], s, 1)
  }

  /** A greedy group: `n` characters, or fewer. */
  function Longest(rest: seq<Token>, s: string, n: nat): Option<seq<string>>
    requires n <= |s|
    decreases |rest|, 1, n
  {
    if n == 0 then None
    else match Exec(rest, s[n..])
      case Some(groups) => Some([s[..n]] + groups)
      case None => Longest(rest, s, n - 1)
  }

  /** A lazy group: `n` characters, or more. */
  function Shortest(rest: seq<Token>, s: string, n: nat): Option<seq<string>>
    decreases |rest|, 1, |s| + 1 - n
  {
    if n > LineRun(s) then None
    else match Exec(rest, s[n..])
      case Some(groups) => Some([s[..n]] + groups)
      case None => Shortest(rest, s, n + 1)
  }

  // ---------- Which ways to match there are ----------

  predicate SegmentValue(v: string) {
    v != "" && '/' !in v
  }

  predicate StarValue(v: string) {
    v != "" && forall c :: c in v ==> !IsLineEnd(c)
  }

  /** `groups` are values for the groups of `re`, and `s` is the text they make. */
  predicate Fits(re: seq<Token>, s: string, groups: seq<string>)
    decreases |re|
  {
    if re == [] then s == "" && groups == []
    else match re[0]
      case Literal(text) => text <= s && Fits(re[1..], s[|text|..], groups)
      case Segment =>
        groups != [] && SegmentValue(groups[0]) && groups[0] <= s && Fits(re[1..], s[|groups[0]|..], groups[1..])
      case Anything =>
        groups != [] && StarValue(groups[0]) && groups[0] <= s && Fits(re[1..], s[|groups[0]|..], groups[1..])
  }

  lemma {:induction false} ExecFits(re: seq<Token>, s: string)
    ensures Exec(re, s).Some? ==> Fits(re, s, Exec(re, s).value)
    decreases |re|, 1, 0
  {
    if re != [] {
      match re[0]
      case Literal(text) => if text <= s { ExecFits(re[1..], s[|text|..]); }
      case Segment => LongestFits(re, s, SegmentRun(s));
      case Anything => ShortestFits(re, s, 1);
    }
  }

  lemma {:induction false} LongestFits(re: seq<Token>, s: string, n: nat)
    requires re != [] && re[0] == Segment && n <= SegmentRun(s)
    ensures Longest(re[1..], s, n).Some? ==> Fits(re, s, Longest(re[1..], s, n).value)
    decreases |re|, 0, n
  {
    if n > 0 {
      ExecFits(re[1..], s[n..]);
      if Exec(re[1..], s[n..]).None? {
        LongestFits(re, s, n - 1);
      } else {
        var groups := [s[..n]] + Exec(re[1..], s[n..]).value;
        assert groups[1..] == Exec(re[1..], s[n..]).value;
      }
    }
  }

  lemma {:induction false} ShortestFits(re: seq<Token>, s: string, n: nat)
    requires re != [] && re[0] == Anything && n > 0
    ensures Shortest(re[1..], s, n).Some? ==> Fits(re, s, Shortest(re[1..], s, n).value)
    decreases |re|, 0, |s| + 1 - n
  {
    if n <= LineRun(s) {
      ExecFits(re[1..], s[n..]);
      if Exec(re[1..], s[n..]).None? {
        ShortestFits(re, s, n + 1);
      } else {
        var groups := [s[..n]] + Exec(re[1..], s[n..]).value;
        assert groups[1..] == Exec(re[1..], s[n..]).value;
      }
    }
  }

  lemma {:induction false} SegmentRunReaches(v: string, s: string)
    requires '/' !in v && v <= s
    ensures |v| <= SegmentRun(s)
  {
    if v != "" {
      assert v[0] in v && v[1..] <= s[1..];
      SegmentRunReaches(v[1..], s[1..]);
    }
  }

  lemma {:induction false} LineRunReaches(v: string, s: string)
    requires (forall c :: c in v ==> !IsLineEnd(c)) && v <= s
    ensures |v| <= LineRun(s)
  {
    if v != "" {
      assert v[0] in v && v[1..] <= s[1..];
      LineRunReaches(v[1..], s[1..]);
    }
  }

  /** If there is a way to match, the engine finds one. */
  lemma {:induction false} ExecFinds(re: seq<Token>, s: string, groups: seq<string>)
    requires Fits(re, s, groups)
    ensures Exec(re, s).Some?
    decreases |re|, 0, 0
  {
    if re != [] {
      match re[0]
      case Literal(text) => ExecFinds(re[1..], s[|text|..], groups);
      case Segment =>
        SegmentRunReaches(groups[0], s);
        ExecFinds(re[1..], s[|groups[0]|..], groups[1..]);
        LongestFinds(re[1..], s, SegmentRun(s), |groups[0]|);
      case Anything =>
        LineRunReaches(groups[0], s);
        ExecFinds(re[1..], s[|groups[0]|..], groups[1..]);
        ShortestFinds(re[1..], s, 1, |groups[0]|);
    }
  }

  lemma {:induction false} LongestFinds(rest: seq<Token>, s: string, n: nat, k: nat)
    requires 0 < k <= n <= |s| && Exec(rest, s[k..]).Some?
    ensures Longest(rest, s, n).Some?
  {
    if n > k {
      LongestFinds(rest, s, n - 1, k);
    }
  }

  lemma {:induction false} ShortestFinds(rest: seq<Token>, s: string, n: nat, k: nat)
    requires n <= k <= LineRun(s) && Exec(rest, s[k..]).Some?
    ensures Shortest(rest, s, n).Some?
    decreases k - n
  {
    if n < k {
      ShortestFinds(rest, s, n + 1, k);
    }
  }

  // ---------- Which way the engine takes ----------

  /** The first group in which the two differ is longer in `g` if it is greedy, shorter if it is lazy. */
  predicate Preferred(re: seq<Token>, g: seq<string>, h: seq<string>)
    decreases |re|
  {
    if re == [] then true
    else if re[0].Literal? then Preferred(re[1..], g, h)
    else
      && g != [] && h != []
      && if g[0] == h[0] then Preferred(re[1..], g[1..], h[1..])
         else if re[0] == Segment then |g[0]| > |h[0]|
         else |g[0]| < |h[0]|
  }

  lemma {:induction false} LongestIsLongest(rest: seq<Token>, s: string, n: nat, k: nat)
    requires 0 < k <= n <= |s| && Exec(rest, s[k..]).Some?
    ensures Longest(rest, s, n).Some?
    ensures var g := Longest(rest, s, n).value;
            && |g| > 0 && g[0] <= s && |g[0]| >= k
            && (|g[0]| == k ==> g[1..] == Exec(rest, s[k..]).value)
  {
    match Exec(rest, s[n..])
    case Some(groups) =>
      assert ([s[..n]] + groups)[1..] == groups;
    case None =>
      LongestIsLongest(rest, s, n - 1, k);
  }

  lemma {:induction false} ShortestIsShortest(rest: seq<Token>, s: string, n: nat, k: nat)
    requires n <= k <= LineRun(s) && Exec(rest, s[k..]).Some?
    ensures Shortest(rest, s, n).Some?
    ensures var g := Shortest(rest, s, n).value;
            && |g| > 0 && g[0] <= s && |g[0]| <= k
            && (|g[0]| == k ==> g[1..] == Exec(rest, s[k..]).value)
    decreases k - n
  {
    match Exec(rest, s[n..])
    case Some(groups) =>
      assert ([s[..n]] + groups)[1..] == groups;
    case None =>
      ShortestIsShortest(rest, s, n + 1, k);
  }

  lemma SamePrefix(a: string, b: string, s: string)
    requires a <= s && b <= s
    ensures a == b <==> |a| == |b|
  {
  }

  /** Of all ways to split a text the engine takes that with the longest segments and shortest stars, from the left. */
  lemma {:induction false} ExecPrefers(re: seq<Token>, s: string, h: seq<string>)
    requires Fits(re, s, h)
    ensures Exec(re, s).Some? && Preferred(re, Exec(re, s).value, h)
    decreases |re|
  {
    if re != [] {
      match re[0]
      case Literal(text) => ExecPrefers(re[1..], s[|text|..], h);
      case Segment =>
        SegmentRunReaches(h[0], s);
        ExecPrefers(re[1..], s[|h[0]|..], h[1..]);
        LongestIsLongest(re[1..], s, SegmentRun(s), |h[0]|);
        SamePrefix(Exec(re, s).value[0], h[0], s);
      case Anything =>
        LineRunReaches(h[0], s);
        ExecPrefers(re[1..], s[|h[0]|..], h[1..]);
        ShortestIsShortest(re[1..], s, 1, |h[0]|);
        SamePrefix(Exec(re, s).value[0], h[0], s);
    }
  }

  ghost predicate Matchable(re: seq<Token>, s: string) {
    exists groups: seq<string> :: IsSplit(re, s, groups)
  }

  ghost predicate IsSplit(re: seq<Token>, s: string, groups: seq<string>) {
    Fits(re, s, groups)
  }

  /** `Exec` answers exactly when the text can be split along the pattern, and with such a split. */
  lemma ExecExactly(re: seq<Token>, s: string)
    ensures Exec(re, s).Some? <==> Matchable(re, s)
    ensures Exec(re, s).Some? ==> IsSplit(re, s, Exec(re, s).value)
  {
    ExecFits(re, s);
    assert Exec(re, s).Some? ==> IsSplit(re, s, Exec(re, s).value);
    if Matchable(re, s) {
      var groups :| IsSplit(re, s, groups);
      ExecFinds(re, s, groups);
    }
  }
}

/** Parameters in and out of a path. */
module RouteParams {
  import opened Wrappers
  import opened RoutePatterns

  type Params = map<string, string>

  // ---------- switchRouteMatcher ----------

  /** The parameters of a match: each key with its group; of equal keys the last wins. */
  function ParamsOf(keys: seq<string>, groups: seq<string>): Params
    requires |keys| == |groups|
  {
    if keys == [] then map[]
    else
      var front := ParamsOf(keys[..|keys| - 1], groups[..|keys| - 1]);
      if groups[|keys| - 1] == "" then front else front[keys[|keys| - 1] := groups[|keys| - 1]]
  }

  function Match(template: Template, path: string): Option<Params> {
    match Exec(Compile(template), path)
    case None => None
    case Some(groups) =>
      if |groups| == |Keys(template)| then Some(ParamsOf(Keys(template), groups)) else None
  }

  method SwitchRouteMatcher(on: string, template: Template) returns (result: Option<Params>)
    ensures result == Match(template, on)
  {
    var keys := Keys(template);
    var m := Exec(Compile(template), on);
    if m.None? {
      return None;
    }
    ExecFits(Compile(template), on);
    GroupCount(template, on, m.value);
    var params: Params := map[];
    for i := 0 to |m.value|
      invariant params == ParamsOf(keys[..i], m.value[..i])
    {
      var key, val := keys[i], m.value[i];
      assert keys[..i + 1][..i] == keys[..i] && m.value[..i + 1][..i] == m.value[..i];
      if val != "" {
        params := params[key := val];
      }
    }
    assert keys[..|keys|] == keys && m.value[..|keys|] == m.value;
    result := Some(params);
  }

  lemma CompileTail(template: Template)
    requires template != []
    ensures Compile(template)[1..] == Compile(template[1..])
  {
  }

  /** There is one group for every key. */
  lemma {:induction false} GroupCount(template: Template, s: string, groups: seq<string>)
    requires Fits(Compile(template), s, groups)
    ensures |groups| == |Keys(template)|
    decreases |template|
  {
    if template != [] {
      CompileTail(template);
      match template[0]
      case Text(text) => GroupCount(template[1..], s[|text|..], groups);
      case Param(_, _) => GroupCount(template[1..], s[|groups[0]|..], groups[1..]);
    }
  }

  // ---------- interpolate ----------

  /** The path a template makes of parameters, and the parameters not used up. */
  function Interpolated(template: Template, params: Params): (string, Params) {
    if template == [] then ("", params)
    else match template[0]
      case Text(text) =>
        var (path, left) := Interpolated(template[1..], params);
        (text + path, left)
      case Param(name, _) =>
        var (path, left) := Interpolated(template[1..], params - {name});
        (ValueOf(params, name) + path, left)
  }

  /** What `result.join('')` makes of `params[key]`. */
  function ValueOf(params: Params, name: string): string {
    if name in params then params[name] else ""
  }

  /** What one piece puts into the path. */
  function PieceText(piece: Piece, params: Params): string {
    if piece.Text? then piece.text else ValueOf(params, piece.name)
  }

  function AfterPiece(piece: Piece, params: Params): Params {
    if piece.Text? then params else params - {piece.name}
  }

  lemma InterpolatedAt(template: Template, i: nat, params: Params, path: string)
    requires i < |template|
    ensures var (rest, left) := Interpolated(template[i..], params);
            var (rest', left') := Interpolated(template[i + 1..], AfterPiece(template[i], params));
            left == left' && path + rest == (path + PieceText(template[i], params)) + rest'
  {
    assert template[i..][1..] == template[i + 1..];
    var (rest', left') := Interpolated(template[i + 1..], AfterPiece(template[i], params));
    assert path + (PieceText(template[i], params) + rest') == (path + PieceText(template[i], params)) + rest';
  }

  method Interpolate(template: Template, params0: Params) returns (path: string, params: Params)
    ensures (path, params) == Interpolated(template, params0)
  {
    path, params := "", params0;
    assert template[0..] == template;
    assert "" + Interpolated(template, params0).0 == Interpolated(template, params0).0;
    for i := 0 to |template|
      invariant var (rest, left) := Interpolated(template[i..], params);
                Interpolated(template, params0) == (path + rest, left)
    {
      InterpolatedAt(template, i, params, path);
      match template[i] {
        case Text(text) =>
          path := path + text;
        case Param(name, _) =>
          path := path + ValueOf(params, name);
          params := params - {name};
      }
    }
    assert template[|template|..] == [] && path + "" == path;
  }

  ghost predicate DistinctNames(template: Template) {
    forall i, j :: 0 <= i < j < |Keys(template)| ==> Keys(template)[i] != Keys(template)[j]
  }

  ghost function Names(template: Template): set<string> {
    set name | name in Keys(template)
  }

  lemma {:induction false} UnusedParamsLeft(template: Template, params: Params)
    ensures Interpolated(template, params).1 == params - Names(template)
    decreases |template|
  {
    if template == [] {
      assert params - {} == params;
    } else {
      match template[0]
      case Text(_) =>
        UnusedParamsLeft(template[1..], params);
        assert Names(template) == Names(template[1..]);
      case Param(name, _) =>
        UnusedParamsLeft(template[1..], params - {name});
        assert Names(template) == {name} + Names(template[1..]);
    }
  }

  /** The parameters hold the groups under their keys. */
  ghost predicate Holds(template: Template, params: Params, groups: seq<string>) {
    HoldsKeys(Keys(template), params, groups)
  }

  ghost predicate HoldsKeys(keys: seq<string>, params: Params, groups: seq<string>) {
    |groups| == |keys| && forall i :: 0 <= i < |keys| ==> keys[i] in params && params[keys[i]] == groups[i]
  }

  lemma HoldsKeysTail(key: string, keys: seq<string>, params: Params, groups: seq<string>)
    requires HoldsKeys([key] + keys, params, groups)
    ensures groups != [] && key in params && params[key] == groups[0] && HoldsKeys(keys, params, groups[1..])
  {
    var all := [key] + keys;
    assert all[0] in params && params[all[0]] == groups[0];
    forall i | 0 <= i < |keys| ensures keys[i] in params && params[keys[i]] == groups[1..][i] {
      assert all[i + 1] == keys[i];
    }
  }

  lemma {:induction false} InterpolationRebuilds(template: Template, path: string, groups: seq<string>, params: Params)
    requires Fits(Compile(template), path, groups) && DistinctNames(template) && Holds(template, params, groups)
    ensures Interpolated(template, params).0 == path
    decreases |template|
  {
    if template != [] {
      CompileTail(template);
      var keys := Keys(template);
      match template[0]
      case Text(text) =>
        assert Keys(template[1..]) == keys;
        InterpolationRebuilds(template[1..], path[|text|..], groups, params);
      case Param(name, _) =>
        assert keys == [name] + Keys(template[1..]);
        HoldsTail(template, params, groups);
        InterpolationRebuilds(template[1..], path[|groups[0]|..], groups[1..], params - {name});
        assert path == groups[0] + path[|groups[0]|..];
    }
  }

  lemma HoldsTail(template: Template, params: Params, groups: seq<string>)
    requires template != [] && template[0].Param? && DistinctNames(template) && Holds(template, params, groups)
    ensures DistinctNames(template[1..]) && groups != [] && ValueOf(params, template[0].name) == groups[0]
    ensures Holds(template[1..], params - {template[0].name}, groups[1..])
  {
    var keys, tail := Keys(template), Keys(template[1..]);
    assert keys == [template[0].name] + tail;
    assert forall i :: 0 <= i < |tail| ==> tail[i] == keys[i + 1] && keys[i + 1] != keys[0];
    assert keys[0] in params && params[keys[0]] == groups[0];
  }

  lemma {:induction false} ParamsHold(keys: seq<string>, groups: seq<string>)
    requires |keys| == |groups| && forall i, j :: 0 <= i < j < |keys| ==> keys[i] != keys[j]
    requires forall i :: 0 <= i < |groups| ==> groups[i] != ""
    ensures var params := ParamsOf(keys, groups);
            && (forall name :: name in params <==> name in keys)
            && forall i :: 0 <= i < |keys| ==> keys[i] in params && params[keys[i]] == groups[i]
  {
    if keys != [] {
      var n := |keys| - 1;
      assert keys == keys[..n] + [keys[n]];
      ParamsHold(keys[..n], groups[..n]);
    }
  }

  lemma {:induction false} GroupsNonempty(re: seq<Token>, s: string, groups: seq<string>)
    requires Fits(re, s, groups)
    ensures forall i :: 0 <= i < |groups| ==> groups[i] != ""
    decreases |re|
  {
    if re != [] {
      match re[0]
      case Literal(text) => GroupsNonempty(re[1..], s[|text|..], groups);
      case _ =>
        GroupsNonempty(re[1..], s[|groups[0]|..], groups[1..]);
        assert forall i :: 0 < i < |groups| ==> groups[i] == groups[1..][i - 1];
    }
  }

  /** Of equal keys the last one gets its group. */
  lemma {:induction false} LastKeyWins(keys: seq<string>, groups: seq<string>, i: nat)
    requires |keys| == |groups| && i < |keys| && (forall j :: i < j < |keys| ==> keys[j] != keys[i])
    requires forall j :: 0 <= j < |groups| ==> groups[j] != ""
    ensures keys[i] in ParamsOf(keys, groups) && ParamsOf(keys, groups)[keys[i]] == groups[i]
  {
    if i < |keys| - 1 {
      LastKeyWins(keys[..|keys| - 1], groups[..|keys| - 1], i);
    }
  }

  /** For every template: each name has the group of its last occurrence, and nothing else is set. */
  lemma MatchedParams(template: Template, path: string, i: nat)
    requires Match(template, path).Some? && i < |Keys(template)|
    requires forall j :: i < j < |Keys(template)| ==> Keys(template)[j] != Keys(template)[i]
    ensures var groups := Exec(Compile(template), path).value;
            && |groups| == |Keys(template)|
            && Keys(template)[i] in Match(template, path).value
            && Match(template, path).value[Keys(template)[i]] == groups[i]
  {
    var groups := Exec(Compile(template), path).value;
    ExecFits(Compile(template), path);
    GroupsNonempty(Compile(template), path, groups);
    GroupCount(template, path, groups);
    LastKeyWins(Keys(template), groups, i);
  }

  lemma {:induction false} ParamsNamed(keys: seq<string>, groups: seq<string>)
    requires |keys| == |groups| && forall i :: 0 <= i < |groups| ==> groups[i] != ""
    ensures forall name :: name in ParamsOf(keys, groups) <==> name in keys
  {
    if keys != [] {
      var n := |keys| - 1;
      assert keys == keys[..n] + [keys[n]];
      ParamsNamed(keys[..n], groups[..n]);
    }
  }

  /** A template matches exactly the paths that split along it, and a match sets exactly the names of the template. */
  lemma MatchExactly(template: Template, path: string)
    ensures Match(template, path).Some? <==> Matchable(Compile(template), path)
    ensures Match(template, path).Some? ==> Match(template, path).value.Keys == Names(template)
  {
    ExecExactly(Compile(template), path);
    if Exec(Compile(template), path).Some? {
      var groups := Exec(Compile(template), path).value;
      GroupCount(template, path, groups);
      GroupsNonempty(Compile(template), path, groups);
      ParamsNamed(Keys(template), groups);
    }
  }

  lemma MatchHolds(template: Template, path: string)
    requires DistinctNames(template) && Match(template, path).Some?
    ensures var groups := Exec(Compile(template), path).value;
            && Fits(Compile(template), path, groups)
            && Holds(template, Match(template, path).value, groups)
            && Match(template, path).value.Keys == Names(template)
  {
    var groups := Exec(Compile(template), path).value;
    ExecFits(Compile(template), path);
    GroupsNonempty(Compile(template), path, groups);
    ParamsHold(Keys(template), groups);
  }

  /**
   * Filling a template in with the parameters of a match rebuilds the path, and leaves over exactly the
   * other parameters, whatever else `others` holds.
   */
  lemma InterpolateAfterMatch(template: Template, path: string, others: Params)
    requires DistinctNames(template) && Match(template, path).Some?
    ensures Interpolated(template, others + Match(template, path).value) == (path, others - Names(template))
  {
    var params := Match(template, path).value;
    MatchHolds(template, path);
    InterpolationRebuilds(template, path, Exec(Compile(template), path).value, others + params);
    UnusedParamsLeft(template, others + params);
    assert (others + params) - Names(template) == others - Names(template);
  }
}


/** Templates whose parameters fill whole segments: matching and filling in are mutual inverses. */
module RouteRoundTrip {
  import opened Wrappers
  import opened RoutePatterns
  import opened RouteParams

  /** A segment of a path template: fixed text, `:name` or `:name*`. A trailing slash is an empty fixed segment. */
  datatype Seg = Fixed(text: string) | Value(name: string) | Rest(name: string)

  function Pieces(seg: Seg): Template {
    match seg
    case Fixed(text) => [Text("/" + text)]
    case Value(name) => [Text("/"), Param(name, false)]
    case Rest(name) => [Text("/"), Param(name, true)]
  }

  function ToTemplate(segs: seq<Seg>): Template {
    if segs == [] then [] else Pieces(segs[0]) + ToTemplate(segs[1..])
  }

  /** Fixed texts hold no slash, names differ, and at most one parameter takes a star. */
  ghost predicate WholeSegments(segs: seq<Seg>) {
    && (forall i :: 0 <= i < |segs| && segs[i].Fixed? ==> '/' !in segs[i].text)
    && (forall i, j :: 0 <= i < j < |segs| ==> !(segs[i].Rest? && segs[j].Rest?))
    && DistinctNames(ToTemplate(segs))
  }

  /** Every parameter is present with a value its segment can hold. */
  ghost predicate Admissible(segs: seq<Seg>, params: Params) {
    forall i :: 0 <= i < |segs| ==> CanHold(segs[i], params)
  }

  predicate CanHold(seg: Seg, params: Params) {
    match seg
    case Fixed(_) => true
    case Value(name) => name in params && params[name] != "" && forall c :: c in params[name] ==> c != '/'
    case Rest(name) =>
      && name in params && params[name] != ""
      && forall c :: c in params[name] ==> c != '\n' && c != '\r' && c != '\U{2028}' && c != '\U{2029}'
  }

  // ---------- Texts between slashes ----------

  function Join(texts: seq<string>): string {
    if texts == [] then "" else "/" + texts[0] + Join(texts[1..])
  }

  lemma {:induction false} JoinSnoc(texts: seq<string>)
    requires texts != []
    ensures Join(texts) == Join(texts[..|texts| - 1]) + ("/" + texts[|texts| - 1])
  {
    if |texts| > 1 {
      JoinSnoc(texts[1..]);
      assert texts[1..][..|texts| - 2] == texts[..|texts| - 1][1..];
    }
  }

  /** A slash-free text followed by nothing or a slash cannot be read as a longer one. */
  lemma HeadNotLonger(x: string, a: string, y: string, b: string)
    requires '/' !in y && |x| < |y| && (a == "" || a[0] == '/')
    ensures x + a != y + b
  {
    assert y[|x|] in y && (y + b)[|x|] == y[|x|];
    if a != "" {
      assert (x + a)[|x|] == '/';
    }
  }

  lemma HeadUnique(x: string, a: string, y: string, b: string)
    requires '/' !in x && '/' !in y && (a == "" || a[0] == '/') && (b == "" || b[0] == '/')
    requires "/" + x + a == "/" + y + b
    ensures x == y && a == b
  {
    assert ("/" + x + a)[1..] == x + a && ("/" + y + b)[1..] == y + b;
    if |x| < |y| {
      HeadNotLonger(x, a, y, b);
    } else if |y| < |x| {
      HeadNotLonger(y, b, x, a);
    }
    assert (x + a)[..|x|] == x && (y + b)[..|y|] == y;
    assert (x + a)[|x|..] == a && (y + b)[|y|..] == b;
  }

  lemma TailNotLonger(a: string, x: string, b: string, y: string)
    requires '/' !in y && |x| < |y|
    ensures a + ("/" + x) != b + ("/" + y)
  {
    var s, t := a + ("/" + x), b + ("/" + y);
    if |s| == |t| {
      var i := |a| - |b| - 1;
      assert y[i] in y && t[|a|] == y[i] && s[|a|] == '/';
    }
  }

  lemma TailUnique(a: string, x: string, b: string, y: string)
    requires '/' !in x && '/' !in y && a + ("/" + x) == b + ("/" + y)
    ensures x == y && a == b
  {
    if |x| < |y| {
      TailNotLonger(a, x, b, y);
    } else if |y| < |x| {
      TailNotLonger(b, y, a, x);
    }
    var s, t := a + ("/" + x), b + ("/" + y);
    assert s[..|a|] == a && t[..|b|] == b;
    assert s[|a| + 1..] == x && t[|b| + 1..] == y;
  }

  /** Counting slashes from both ends leaves one reading, also of the one segment that may hold slashes. */
  lemma {:induction false} TextsUnique(xs: seq<string>, ys: seq<string>, free: int)
    requires |xs| == |ys| && Join(xs) == Join(ys)
    requires forall i :: 0 <= i < |xs| && i != free ==> '/' !in xs[i] && '/' !in ys[i]
    ensures xs == ys
    decreases |xs|
  {
    if xs != [] {
      var n := |xs| - 1;
      if free != 0 {
        HeadUnique(xs[0], Join(xs[1..]), ys[0], Join(ys[1..]));
        TextsUnique(xs[1..], ys[1..], free - 1);
        assert xs == [xs[0]] + xs[1..] && ys == [ys[0]] + ys[1..];
      } else if n > 0 {
        JoinSnoc(xs);
        JoinSnoc(ys);
        TailUnique(Join(xs[..n]), xs[n], Join(ys[..n]), ys[n]);
        TextsUnique(xs[..n], ys[..n], free);
        assert xs == xs[..n] + [xs[n]] && ys == ys[..n] + [ys[n]];
      } else {
        assert xs[1..] == [] && ys[1..] == [];
        assert Join(xs) == "/" + xs[0] + "" && Join(ys) == "/" + ys[0] + "";
        assert Join(xs)[1..] == xs[0] && Join(ys)[1..] == ys[0];
        assert xs == [xs[0]] && ys == [ys[0]];
      }
    }
  }

  // ---------- From groups to texts ----------

  /** The text of each segment when the groups are filled in. */
  function Texts(segs: seq<Seg>, groups: seq<string>): seq<string> {
    if segs == [] then []
    else if segs[0].Fixed? then [segs[0].text] + Texts(segs[1..], groups)
    else if groups == [] then [""] + Texts(segs[1..], [])
    else [groups[0]] + Texts(segs[1..], groups[1..])
  }

  /** The groups have values their segments can hold, one for each parameter. */
  predicate Holdable(segs: seq<Seg>, groups: seq<string>) {
    if segs == [] then groups == []
    else match segs[0]
      case Fixed(_) => Holdable(segs[1..], groups)
      case Value(_) => groups != [] && SegmentValue(groups[0]) && Holdable(segs[1..], groups[1..])
      case Rest(_) => groups != [] && StarValue(groups[0]) && Holdable(segs[1..], groups[1..])
  }

  lemma CompilePieces(segs: seq<Seg>)
    requires segs != []
    ensures Compile(ToTemplate(segs)) == Compile(Pieces(segs[0])) + Compile(ToTemplate(segs[1..]))
  {
  }

  lemma StripPrefix(prefix: string, rest: string, path: string)
    ensures path == prefix + rest <==> prefix <= path && path[|prefix|..] == rest
  {
    if prefix <= path {
      assert path == prefix + path[|prefix|..];
    }
  }

  lemma FitsLiteral(text: string, rest: seq<Token>, path: string, groups: seq<string>)
    ensures Fits([Literal(text)] + rest, path, groups) <==> text <= path && Fits(rest, path[|text|..], groups)
  {
    assert ([Literal(text)] + rest)[1..] == rest;
  }

  lemma FitsGroup(token: Token, rest: seq<Token>, path: string, groups: seq<string>)
    requires token == Segment || token == Anything
    ensures Fits([token] + rest, path, groups) <==>
              groups != [] && (if token == Segment then SegmentValue(groups[0]) else StarValue(groups[0]))
              && groups[0] <= path && Fits(rest, path[|groups[0]|..], groups[1..])
  {
    assert ([token] + rest)[1..] == rest;
  }

  predicate CanBe(seg: Seg, text: string) {
    match seg
    case Fixed(fixed) => text == fixed
    case Value(_) => SegmentValue(text)
    case Rest(_) => StarValue(text)
  }

  lemma SlashPrefix(head: string, path: string)
    ensures "/" + head <= path <==> "/" <= path && head <= path[1..]
    ensures "/" + head <= path ==> path[1..][|head|..] == path[1 + |head|..]
  {
    if "/" <= path && head <= path[1..] {
      assert path == "/" + path[1..];
    }
    if "/" + head <= path {
      assert path[1..][..|head|] == path[1..1 + |head|] == ("/" + head)[1..] == head;
    }
  }

  /** The first segment of a compiled template takes a slash and its text. */
  lemma FitsParameter(seg: Seg, rest: seq<Token>, path: string, groups: seq<string>)
    requires !seg.Fixed?
    ensures Fits(Compile(Pieces(seg)) + rest, path, groups) <==>
              groups != [] && CanBe(seg, groups[0]) && "/" + groups[0] <= path
              && Fits(rest, path[1 + |groups[0]|..], groups[1..])
  {
    var token := if seg.Value? then Segment else Anything;
    assert Compile(Pieces(seg)) + rest == [Literal("/")] + ([token] + rest);
    FitsLiteral("/", [token] + rest, path, groups);
    if groups != [] {
      SlashPrefix(groups[0], path);
    }
    if "/" <= path {
      FitsGroup(token, rest, path[1..], groups);
    }
  }

  lemma FitsFixed(seg: Seg, rest: seq<Token>, path: string, groups: seq<string>)
    requires seg.Fixed?
    ensures Fits(Compile(Pieces(seg)) + rest, path, groups) <==>
              "/" + seg.text <= path && Fits(rest, path[1 + |seg.text|..], groups)
  {
    assert Compile(Pieces(seg)) == [Literal("/" + seg.text)];
    FitsLiteral("/" + seg.text, rest, path, groups);
  }

  /** Fitting the compiled template is having the joined texts for a path. */
  lemma {:induction false} FitsIsJoined(segs: seq<Seg>, path: string, groups: seq<string>)
    ensures Fits(Compile(ToTemplate(segs)), path, groups)
            <==> Holdable(segs, groups) && path == Join(Texts(segs, groups))
    decreases |segs|
  {
    if segs != [] {
      CompilePieces(segs);
      var tail := Compile(ToTemplate(segs[1..]));
      if segs[0].Fixed? {
        FitsFixed(segs[0], tail, path, groups);
      } else {
        FitsParameter(segs[0], tail, path, groups);
      }
      if segs[0].Fixed? || groups != [] {
        var head := if segs[0].Fixed? then segs[0].text else groups[0];
        var rest := if segs[0].Fixed? then groups else groups[1..];
        assert Texts(segs, groups) == [head] + Texts(segs[1..], rest);
        assert Texts(segs, groups)[1..] == Texts(segs[1..], rest);
        StripPrefix("/" + head, Join(Texts(segs[1..], rest)), path);
        if "/" + head <= path {
          FitsIsJoined(segs[1..], path[1 + |head|..], rest);
        }
      }
    }
  }

  lemma {:induction false} TextsShape(segs: seq<Seg>, groups: seq<string>, i: nat)
    requires Holdable(segs, groups) && i < |segs|
    requires forall j :: 0 <= j < |segs| && segs[j].Fixed? ==> '/' !in segs[j].text
    ensures |Texts(segs, groups)| == |segs|
    ensures !segs[i].Rest? ==> '/' !in Texts(segs, groups)[i]
    decreases |segs|
  {
    var rest := if segs[0].Fixed? then groups else groups[1..];
    assert Texts(segs, groups)[1..] == Texts(segs[1..], rest);
    if i > 0 {
      TextsShape(segs[1..], rest, i - 1);
      assert Texts(segs, groups)[i] == Texts(segs[1..], rest)[i - 1];
    } else if |segs| > 1 {
      TextsShape(segs[1..], rest, 0);
    }
  }

  lemma {:induction false} TextsDetermineGroups(segs: seq<Seg>, g: seq<string>, h: seq<string>)
    requires Holdable(segs, g) && Holdable(segs, h) && Texts(segs, g) == Texts(segs, h)
    ensures g == h
    decreases |segs|
  {
    if segs != [] {
      if segs[0].Fixed? {
        assert Texts(segs, g)[1..] == Texts(segs, h)[1..];
        TextsDetermineGroups(segs[1..], g, h);
      } else {
        assert Texts(segs, g)[0] == Texts(segs, h)[0] && Texts(segs, g)[1..] == Texts(segs, h)[1..];
        TextsDetermineGroups(segs[1..], g[1..], h[1..]);
        assert g == [g[0]] + g[1..] && h == [h[0]] + h[1..];
      }
    }
  }

  /** A path fits a template of whole segments in at most one way. */
  lemma FitsUnique(segs: seq<Seg>, path: string, g: seq<string>, h: seq<string>)
    requires WholeSegments(segs)
    requires Fits(Compile(ToTemplate(segs)), path, g) && Fits(Compile(ToTemplate(segs)), path, h)
    ensures g == h
  {
    FitsIsJoined(segs, path, g);
    FitsIsJoined(segs, path, h);
    var xs, ys := Texts(segs, g), Texts(segs, h);
    if segs != [] {
      TextsShape(segs, g, 0);
      TextsShape(segs, h, 0);
    }
    var free := if i :| 0 <= i < |segs| && segs[i].Rest? then i else -1;
    forall i | 0 <= i < |xs| && i != free ensures '/' !in xs[i] && '/' !in ys[i] {
      TextsShape(segs, g, i);
      TextsShape(segs, h, i);
    }
    TextsUnique(xs, ys, free);
    TextsDetermineGroups(segs, g, h);
  }

  // ---------- The round trips ----------

  /** The values of the parameters, from left to right. */
  function ValuesOf(segs: seq<Seg>, params: Params): seq<string> {
    if segs == [] then []
    else (if segs[0].Fixed? then [] else [ValueOf(params, segs[0].name)]) + ValuesOf(segs[1..], params)
  }

  lemma KeysOfSegments(segs: seq<Seg>)
    requires segs != []
    ensures Keys(ToTemplate(segs))
         == (if segs[0].Fixed? then [] else [segs[0].name]) + Keys(ToTemplate(segs[1..]))
  {
    var tail := ToTemplate(segs[1..]);
    var template := Pieces(segs[0]) + tail;
    if segs[0].Fixed? {
      assert template[1..] == tail;
    } else {
      assert template[1..][1..] == tail && template[1].Param?;
      assert Keys(template) == [] + Keys(template[1..]);
    }
  }

  lemma {:induction false} ValuesHold(segs: seq<Seg>, params: Params)
    requires Admissible(segs, params)
    ensures Holdable(segs, ValuesOf(segs, params))
    ensures Holds(ToTemplate(segs), params, ValuesOf(segs, params))
    decreases |segs|
  {
    if segs != [] {
      KeysOfSegments(segs);
      assert Admissible(segs[1..], params);
      ValuesHold(segs[1..], params);
      var values, rest := ValuesOf(segs, params), ValuesOf(segs[1..], params);
      if !segs[0].Fixed? {
        assert values[1..] == rest;
      } else {
        assert values == rest;
      }
    }
  }

  function Restrict(params: Params, names: set<string>): Params {
    map name | name in params && name in names :: params[name]
  }

  /**
   * Matching the path a template makes of parameters gives those parameters back, exactly when every
   * value is one its segment can hold.
   */
  lemma MatchAfterInterpolate(segs: seq<Seg>, params: Params)
    requires WholeSegments(segs)
    ensures var template := ToTemplate(segs);
            Match(template, Interpolated(template, params).0) == Some(Restrict(params, Names(template)))
            && Names(template) <= params.Keys
            <==> Admissible(segs, params)
  {
    var template := ToTemplate(segs);
    var path := Interpolated(template, params).0;
    if Admissible(segs, params) {
      var values := ValuesOf(segs, params);
      ValuesHold(segs, params);
      var joined := Join(Texts(segs, values));
      FitsIsJoined(segs, joined, values);
      InterpolationRebuilds(template, joined, values, params);
      ExecFinds(Compile(template), path, values);
      ExecFits(Compile(template), path);
      FitsUnique(segs, path, Exec(Compile(template), path).value, values);
      MatchHolds(template, path);
      HoldersAgree(template, Match(template, path).value, params, values);
    }
    if Match(template, path) == Some(Restrict(params, Names(template))) && Names(template) <= params.Keys {
      MatchHolds(template, path);
      var groups := Exec(Compile(template), path).value;
      FitsIsJoined(segs, path, groups);
      HeldIsAdmissible(segs, params, groups);
    }
  }

  lemma HoldersAgree(template: Template, matched: Params, params: Params, values: seq<string>)
    requires Holds(template, matched, values) && Holds(template, params, values) && matched.Keys == Names(template)
    ensures matched == Restrict(params, Names(template)) && Names(template) <= params.Keys
  {
    forall name | name in Names(template) ensures name in params && matched[name] == params[name] {
      var i :| 0 <= i < |Keys(template)| && Keys(template)[i] == name;
    }
  }

  lemma HeldTail(segs: seq<Seg>, params: Params, groups: seq<string>)
    requires segs != [] && Holdable(segs, groups) && Holds(ToTemplate(segs), params, groups)
    ensures CanHold(segs[0], params)
    ensures Holds(ToTemplate(segs[1..]), params, if segs[0].Fixed? then groups else groups[1..])
  {
    var tail := Keys(ToTemplate(segs[1..]));
    KeysOfSegments(segs);
    if segs[0].Fixed? {
      assert [] + tail == tail;
    } else {
      HoldsKeysTail(segs[0].name, tail, params, groups);
    }
  }

  lemma {:induction false} HeldIsAdmissible(segs: seq<Seg>, params: Params, groups: seq<string>)
    requires Holdable(segs, groups) && Holds(ToTemplate(segs), params, groups)
    ensures Admissible(segs, params)
    decreases |segs|
  {
    if segs != [] {
      HeldTail(segs, params, groups);
      HeldIsAdmissible(segs[1..], params, if segs[0].Fixed? then groups else groups[1..]);
      assert segs == [segs[0]] + segs[1..];
    }
  }

  /** And the path of a match is rebuilt from its parameters. */
  lemma InterpolateAfterWholeMatch(segs: seq<Seg>, path: string)
    requires WholeSegments(segs) && Match(ToTemplate(segs), path).Some?
    ensures Interpolated(ToTemplate(segs), Match(ToTemplate(segs), path).value) == (path, map[])
  {
    var template := ToTemplate(segs);
    var params := Match(template, path).value;
    InterpolateAfterMatch(template, path, map[]);
    assert map[] + params == params;
  }
}

/** The redirection that `when` registers for a trailing slash. */
module RouteRedirect {
  import opened Wrappers
  import opened RoutePatterns
  import opened RouteParams

  predicate EndsWithSlash(template: Template) {
    template != [] && template[|template| - 1].Text?
    && template[|template| - 1].text != "" && template[|template| - 1].text[|template[|template| - 1].text| - 1] == '/'
  }

  /** The path whose route redirects to `template`: without its trailing slash, or with one. */
  function RedirectPath(template: Template): Template {
    var last := |template| - 1;
    if EndsWithSlash(template) then template[..last] + [Text(template[last].text[..|template[last].text| - 1])]
    else template + [Text("/")]
  }

  /** Where the redirection goes: the new path, and the new search. */
  function Redirected(template: Template, path: string, search: Params): Option<(string, Params)> {
    match Match(RedirectPath(template), path)
    case None => None
    case Some(params) => Some(Interpolated(template, search + params))
  }

  lemma {:induction false} InterpolatedConcat(a: Template, b: Template, params: Params)
    ensures var (path, left) := Interpolated(a, params);
            Interpolated(a + b, params) == (path + Interpolated(b, left).0, Interpolated(b, left).1)
    decreases |a|
  {
    if a == [] {
      assert a + b == b && "" + Interpolated(b, params).0 == Interpolated(b, params).0;
    } else {
      assert (a + b)[0] == a[0] && (a + b)[1..] == a[1..] + b;
      var params' := if a[0].Text? then params else params - {a[0].name};
      InterpolatedConcat(a[1..], b, params');
      var head := if a[0].Text? then a[0].text else ValueOf(params, a[0].name);
      var (path, left) := Interpolated(a[1..], params');
      assert head + (path + Interpolated(b, left).0) == (head + path) + Interpolated(b, left).0;
    }
  }

  lemma {:induction false} KeysConcat(a: Template, b: Template)
    ensures Keys(a + b) == Keys(a) + Keys(b)
    decreases |a|
  {
    if a == [] {
      assert a + b == b;
    } else {
      assert (a + b)[0] == a[0] && (a + b)[1..] == a[1..] + b;
      KeysConcat(a[1..], b);
    }
  }

  lemma InterpolatedText(text: string, params: Params)
    ensures Interpolated([Text(text)], params) == (text, params) && Keys([Text(text)]) == []
  {
    assert [Text(text)][1..] == [];
    assert text + "" == text;
  }

  /** The two paths differ by the slash, and take the same parameters. */
  lemma RedirectPathInterpolated(template: Template, params: Params)
    ensures Keys(RedirectPath(template)) == Keys(template)
    ensures var (path, left) := Interpolated(template, params);
            var (from, left') := Interpolated(RedirectPath(template), params);
            left == left' && if EndsWithSlash(template) then path == from + "/" else from == path + "/"
  {
    var last := |template| - 1;
    if EndsWithSlash(template) {
      var text := template[last].text;
      assert template == template[..last] + [Text(text)];
      InterpolatedConcat(template[..last], [Text(text)], params);
      InterpolatedConcat(template[..last], [Text(text[..|text| - 1])], params);
      KeysConcat(template[..last], [Text(text)]);
      KeysConcat(template[..last], [Text(text[..|text| - 1])]);
      var left := Interpolated(template[..last], params).1;
      InterpolatedText(text, left);
      InterpolatedText(text[..|text| - 1], left);
      assert text == text[..|text| - 1] + "/";
    } else {
      InterpolatedConcat(template, [Text("/")], params);
      KeysConcat(template, [Text("/")]);
      InterpolatedText("/", Interpolated(template, params).1);
    }
  }

  /**
   * The redirection leads to the same path with exactly the slash added or taken away. The parameters of
   * the path are used up in it; every other search parameter stays, unchanged.
   */
  lemma RedirectionLands(template: Template, path: string, search: Params)
    requires DistinctNames(template) && Redirected(template, path, search).Some?
    ensures var (landing, search') := Redirected(template, path, search).value;
            && search' == search - Names(template)
            && if EndsWithSlash(template) then landing == path + "/" else path == landing + "/"
  {
    var from := RedirectPath(template);
    RedirectPathInterpolated(template, search + Match(from, path).value);
    InterpolateAfterMatch(from, path, search);
    assert Names(from) == Names(template);
  }
}
