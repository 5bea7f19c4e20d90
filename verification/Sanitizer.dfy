/** The document tree, its traversal events, and the sanitized tree they should print. */
module SanitizeSpec {
  import opened Wrappers
  import opened Utf16
  import opened Entities

  datatype Attr = Attr(key: Text, value: Text)

  /** Children of a parsed body. `Other` stands for comments and other node types. */
  datatype Tree =
    | Element(tag: Text, attrs: seq<Attr>, children: seq<Tree>)
    | TextNode(text: Text)
    | Other

  /** The tables of the sanitizer, and the two functions it takes from elsewhere. */
  datatype Policy = Policy(
    validElements: set<Text>,
    voidElements: set<Text>,
    blockedElements: set<Text>,
    validAttrs: set<Text>,
    uriAttrs: set<Text>,
    lowercase: Text -> Text,
    uriValidator: (Text, bool) -> bool)
  {
    predicate Closes(tag: Text) {
      tag in validElements && tag !in voidElements
    }

    predicate KeepsAttr(tag: Text, a: Attr) {
      var lkey := lowercase(a.key);
      var isImage := (tag == IMG && lkey == SRC) || lkey == BACKGROUND;
      lkey in validAttrs && (lkey !in uriAttrs || uriValidator(a.value, isImage))
    }

    function FilterAttrs(tag: Text, attrs: seq<Attr>): seq<Attr> {
      if attrs == [] then []
      else (if KeepsAttr(tag, attrs[0]) then [attrs[0]] else []) + FilterAttrs(tag, attrs[1..])
    }
  }

  const IMG: Text := [105, 109, 103]
  const SRC: Text := [115, 114, 99]
  const BACKGROUND: Text := [98, 97, 99, 107, 103, 114, 111, 117, 110, 100]

  // ---------- Depth-first events ----------

  datatype Event = Start(tag: Text, attrs: seq<Attr>) | End(tag: Text) | Chars(text: Text)

  function Events(t: Tree): seq<Event>
    decreases t, 1
  {
    match t
    case Element(tag, attrs, children) => [Start(tag, attrs)] + ForestEvents(children) + [End(tag)]
    case TextNode(text) => [Chars(text)]
    case Other => []
  }

  function ForestEvents(ts: seq<Tree>): seq<Event>
    decreases ts, 0
  {
    if ts == [] then [] else Events(ts[0]) + ForestEvents(ts[1..])
  }

  // ---------- The sanitized tree ----------

  /** Blocked subtrees go, unknown tags are unwrapped, attributes are filtered. */
  function Sanitize(p: Policy, t: Tree): seq<Tree>
    decreases t, 1
  {
    match t
    case Element(tag, attrs, children) =>
      if tag in p.blockedElements then []
      else if tag in p.validElements then
        [Element(tag, p.FilterAttrs(tag, attrs), SanitizeForest(p, children))]
      else SanitizeForest(p, children)
    case TextNode(_) => [t]
    case Other => []
  }

  function SanitizeForest(p: Policy, ts: seq<Tree>): seq<Tree>
    decreases ts, 0
  {
    if ts == [] then [] else Sanitize(p, ts[0]) + SanitizeForest(p, ts[1..])
  }

  /** Trees on which nothing is left to sanitize. */
  predicate Allowed(p: Policy, t: Tree)
    decreases t, 1
  {
    match t
    case Element(tag, attrs, children) =>
      && tag in p.validElements && tag !in p.blockedElements
      && (forall a :: a in attrs ==> p.KeepsAttr(tag, a))
      && ForestAllowed(p, children)
    case TextNode(_) => true
    case Other => false
  }

  predicate ForestAllowed(p: Policy, ts: seq<Tree>)
    decreases ts, 0
  {
    ts == [] || (Allowed(p, ts[0]) && ForestAllowed(p, ts[1..]))
  }

  lemma {:induction false} FilterKeeps(p: Policy, tag: Text, attrs: seq<Attr>)
    ensures forall a :: a in p.FilterAttrs(tag, attrs) <==> a in attrs && p.KeepsAttr(tag, a)
  {
    if attrs != [] {
      FilterKeeps(p, tag, attrs[1..]);
    }
  }

  lemma {:induction false} FilterSame(p: Policy, tag: Text, attrs: seq<Attr>)
    requires forall a :: a in attrs ==> p.KeepsAttr(tag, a)
    ensures p.FilterAttrs(tag, attrs) == attrs
  {
    if attrs != [] {
      FilterSame(p, tag, attrs[1..]);
      assert attrs == [attrs[0]] + attrs[1..];
    }
  }

  lemma {:induction false} AllowedConcat(p: Policy, a: seq<Tree>, b: seq<Tree>)
    requires ForestAllowed(p, a) && ForestAllowed(p, b)
    ensures ForestAllowed(p, a + b)
  {
    if a == [] {
      assert a + b == b;
    } else {
      assert (a + b)[0] == a[0] && (a + b)[1..] == a[1..] + b;
      AllowedConcat(p, a[1..], b);
    }
  }

  lemma SingleAllowed(p: Policy, t: Tree)
    ensures ForestAllowed(p, [t]) <==> Allowed(p, t)
  {
    assert [t][1..] == [];
  }

  lemma {:induction false} SanitizeIsAllowed(p: Policy, t: Tree)
    ensures ForestAllowed(p, Sanitize(p, t))
    decreases t, 1
  {
    match t
    case Element(tag, attrs, children) =>
      ForestSanitizeIsAllowed(p, children);
      FilterKeeps(p, tag, attrs);
      SingleAllowed(p, Element(tag, p.FilterAttrs(tag, attrs), SanitizeForest(p, children)));
    case TextNode(_) =>
      SingleAllowed(p, t);
    case Other =>
  }

  /** Only allowed elements and attributes survive. */
  lemma {:induction false} ForestSanitizeIsAllowed(p: Policy, ts: seq<Tree>)
    ensures ForestAllowed(p, SanitizeForest(p, ts))
    decreases ts, 0
  {
    if ts != [] {
      SanitizeIsAllowed(p, ts[0]);
      ForestSanitizeIsAllowed(p, ts[1..]);
      AllowedConcat(p, Sanitize(p, ts[0]), SanitizeForest(p, ts[1..]));
    }
  }

  lemma {:induction false} AllowedUnchanged(p: Policy, t: Tree)
    requires Allowed(p, t)
    ensures Sanitize(p, t) == [t]
    decreases t, 1
  {
    if t.Element? {
      FilterSame(p, t.tag, t.attrs);
      ForestAllowedUnchanged(p, t.children);
    }
  }

  lemma {:induction false} ForestAllowedUnchanged(p: Policy, ts: seq<Tree>)
    requires ForestAllowed(p, ts)
    ensures SanitizeForest(p, ts) == ts
    decreases ts, 0
  {
    if ts != [] {
      AllowedUnchanged(p, ts[0]);
      ForestAllowedUnchanged(p, ts[1..]);
      assert ts == [ts[0]] + ts[1..];
    }
  }

  /** The forests left alone are exactly the allowed ones. */
  lemma FixedExactlyWhenAllowed(p: Policy, ts: seq<Tree>)
    ensures SanitizeForest(p, ts) == ts <==> ForestAllowed(p, ts)
  {
    ForestSanitizeIsAllowed(p, ts);
    if ForestAllowed(p, ts) {
      ForestAllowedUnchanged(p, ts);
    }
  }

  lemma SanitizeIdempotent(p: Policy, ts: seq<Tree>)
    ensures SanitizeForest(p, SanitizeForest(p, ts)) == SanitizeForest(p, ts)
  {
    ForestSanitizeIsAllowed(p, ts);
    ForestAllowedUnchanged(p, SanitizeForest(p, ts));
  }

  // ---------- What survives, said on the tables ----------

  lemma NamesSpelled()
    ensures IMG == Codes("img") && SRC == Codes("src") && BACKGROUND == Codes("background")
  {
  }

  /** The values whose flag is set, in their order. */
  function Pick<T>(values: seq<T>, flags: seq<bool>): seq<T>
    requires |flags| == |values|
  {
    if values == [] then [] else (if flags[0] then [values[0]] else []) + Pick(values[1..], flags[1..])
  }

  lemma {:induction false} FilterPicks(p: Policy, tag: Text, attrs: seq<Attr>, survives: seq<bool>)
    requires |survives| == |attrs| && forall i :: 0 <= i < |attrs| ==> survives[i] == p.KeepsAttr(tag, attrs[i])
    ensures p.FilterAttrs(tag, attrs) == Pick(attrs, survives)
  {
    if attrs != [] {
      FilterPicks(p, tag, attrs[1..], survives[1..]);
    }
  }

  /**
   * A kept element keeps, in their order, exactly the attributes whose lower-cased name is in the table and whose
   * value, if the name is that of a URI attribute, the validator accepts as a link or as an image.
   */
  lemma AttributesSurvive(p: Policy, tag: Text, attrs: seq<Attr>, children: seq<Tree>) returns (survives: seq<bool>)
    requires tag in p.validElements && tag !in p.blockedElements
    ensures |survives| == |attrs|
    ensures forall i :: 0 <= i < |attrs| ==>
              var lkey := p.lowercase(attrs[i].key);
              survives[i] == (lkey in p.validAttrs
                              && (lkey in p.uriAttrs ==>
                                    p.uriValidator(attrs[i].value, (tag == Codes("img") && lkey == Codes("src"))
                                                                   || lkey == Codes("background"))))
    ensures Sanitize(p, Element(tag, attrs, children))
         == [Element(tag, Pick(attrs, survives), SanitizeForest(p, children))]
  {
    NamesSpelled();
    survives := seq(|attrs|, i requires 0 <= i < |attrs| => p.KeepsAttr(tag, attrs[i]));
    FilterPicks(p, tag, attrs, survives);
  }

  /** The tags and texts outside blocked elements, unknown tags left out. */
  function VisibleTags(p: Policy, ts: seq<Tree>): seq<Text>
    decreases ts
  {
    if ts == [] then []
    else
      var rest := VisibleTags(p, ts[1..]);
      if !ts[0].Element? then rest
      else if ts[0].tag in p.blockedElements then rest
      else (if ts[0].tag in p.validElements then [ts[0].tag] else []) + VisibleTags(p, ts[0].children) + rest
  }

  function VisibleText(p: Policy, ts: seq<Tree>): Text
    decreases ts
  {
    if ts == [] then []
    else
      var rest := VisibleText(p, ts[1..]);
      match ts[0]
      case Element(tag, _, children) => if tag in p.blockedElements then rest else VisibleText(p, children) + rest
      case TextNode(text) => text + rest
      case Other => rest
  }

  lemma {:induction false} VisibleConcat(p: Policy, a: seq<Tree>, b: seq<Tree>)
    ensures VisibleTags(p, a + b) == VisibleTags(p, a) + VisibleTags(p, b)
    ensures VisibleText(p, a + b) == VisibleText(p, a) + VisibleText(p, b)
  {
    if a == [] {
      assert a + b == b;
    } else {
      assert (a + b)[0] == a[0] && (a + b)[1..] == a[1..] + b;
      VisibleConcat(p, a[1..], b);
    }
  }

  /** Nothing visible is lost and nothing appears: the same tags and the same text, in document order. */
  lemma {:induction false} VisibleSurvives(p: Policy, ts: seq<Tree>)
    ensures VisibleTags(p, SanitizeForest(p, ts)) == VisibleTags(p, ts)
    ensures VisibleText(p, SanitizeForest(p, ts)) == VisibleText(p, ts)
    decreases ts
  {
    if ts != [] {
      var first := Sanitize(p, ts[0]);
      VisibleSurvives(p, ts[1..]);
      VisibleConcat(p, first, SanitizeForest(p, ts[1..]));
      if ts[0].Element? && ts[0].tag !in p.blockedElements {
        VisibleSurvives(p, ts[0].children);
        if ts[0].tag in p.validElements {
          assert first[1..] == [];
        }
      } else if ts[0].TextNode? {
        assert first[1..] == [];
      }
    }
  }

  // ---------- Printing a tree ----------

  datatype Token = Open(tag: Text, attrs: seq<Attr>) | Close(tag: Text) | Data(text: Text)

  function AttrText(a: Attr): Text {
    [32] + a.key + [61, 34] + EncodeEntities(a.value) + [34]
  }

  function AttrsText(attrs: seq<Attr>): Text {
    if attrs == [] then [] else AttrText(attrs[0]) + AttrsText(attrs[1..])
  }

  function OpenText(tag: Text, attrs: seq<Attr>): Text {
    [LESS] + tag + AttrsText(attrs) + [GREATER]
  }

  function CloseText(tag: Text): Text {
    [LESS, 47] + tag + [GREATER]
  }

  function TokenText(tok: Token): Text {
    match tok
    case Open(tag, attrs) => OpenText(tag, attrs)
    case Close(tag) => CloseText(tag)
    case Data(text) => EncodeEntities(text)
  }

  lemma MarksSpelled()
    ensures [LESS] == Codes("<") && [GREATER] == Codes(">") && [LESS, 47] == Codes("</")
    ensures [32] == Codes(" ") && [61, 34] == Codes("=\"") && [34] == Codes("\"")
  {
  }

  lemma OneAttrText(a: Attr)
    ensures AttrsText([a]) == AttrText(a) && AttrsText([]) == []
  {
    assert [a][1..] == [];
    assert AttrsText([a]) == AttrText(a) + AttrsText([]);
  }

  /** The marks of a printed tag, spelled out. */
  lemma PrintedLiterally(tag: Text, attrs: seq<Attr>, a: Attr)
    ensures TokenText(Open(tag, attrs)) == Codes("<") + tag + AttrsText(attrs) + Codes(">")
    ensures AttrsText([]) == []
    ensures AttrsText([a]) == Codes(" ") + a.key + Codes("=\"") + EncodeEntities(a.value) + Codes("\"")
    ensures TokenText(Close(tag)) == Codes("</") + tag + Codes(">")
  {
    MarksSpelled();
    OneAttrText(a);
  }

  /** The attributes are printed one after the other. */
  lemma {:induction false} AttrsInOrder(a: seq<Attr>, b: seq<Attr>)
    ensures AttrsText(a + b) == AttrsText(a) + AttrsText(b)
  {
    if a == [] {
      assert a + b == b;
    } else {
      assert (a + b)[0] == a[0] && (a + b)[1..] == a[1..] + b;
      AttrsInOrder(a[1..], b);
    }
  }

  function Render(toks: seq<Token>): Text {
    if toks == [] then [] else TokenText(toks[0]) + Render(toks[1..])
  }

  /** The tokens of a tree; void elements have no closing tag. */
  function Tokens(p: Policy, t: Tree): seq<Token>
    decreases t, 1
  {
    match t
    case Element(tag, attrs, children) =>
      [Open(tag, attrs)] + ForestTokens(p, children) + (if tag in p.voidElements then [] else [Close(tag)])
    case TextNode(text) => [Data(text)]
    case Other => []
  }

  function ForestTokens(p: Policy, ts: seq<Tree>): seq<Token>
    decreases ts, 0
  {
    if ts == [] then [] else Tokens(p, ts[0]) + ForestTokens(p, ts[1..])
  }

  lemma {:induction false} AllowedTokens(p: Policy, ts: seq<Tree>)
    requires ForestAllowed(p, ts)
    ensures forall tok :: tok in ForestTokens(p, ts) && tok.Open? ==>
              && tok.tag in p.validElements && tok.tag !in p.blockedElements
              && forall a :: a in tok.attrs ==> p.KeepsAttr(tok.tag, a)
    decreases ts
  {
    if ts != [] {
      if ts[0].Element? {
        AllowedTokens(p, ts[0].children);
      }
      AllowedTokens(p, ts[1..]);
    }
  }

  /** No open tag that is printed is unknown or blocked, has an attribute not in the table, or holds a refused URI. */
  lemma NoRefusedUri(p: Policy, ts: seq<Tree>)
    ensures forall tok :: tok in ForestTokens(p, SanitizeForest(p, ts)) && tok.Open? ==>
              && tok.tag in p.validElements && tok.tag !in p.blockedElements
              && forall a :: a in tok.attrs ==>
                   var lkey := p.lowercase(a.key);
                   && lkey in p.validAttrs
                   && (lkey in p.uriAttrs ==>
                         p.uriValidator(a.value, (tok.tag == Codes("img") && lkey == Codes("src"))
                                                 || lkey == Codes("background")))
  {
    NamesSpelled();
    ForestSanitizeIsAllowed(p, ts);
    AllowedTokens(p, SanitizeForest(p, ts));
  }

  /** Reading tags with a stack of open elements: every closing tag matches, none stays open. */
  predicate Nested(p: Policy, toks: seq<Token>, open: seq<Text>)
    decreases toks
  {
    if toks == [] then open == []
    else match toks[0]
      case Open(tag, _) => Nested(p, toks[1..], if tag in p.voidElements then open else [tag] + open)
      case Close(tag) => open != [] && open[0] == tag && Nested(p, toks[1..], open[1..])
      case Data(_) => Nested(p, toks[1..], open)
  }

  lemma {:induction false} TreeNests(p: Policy, t: Tree, rest: seq<Token>, open: seq<Text>)
    ensures Nested(p, Tokens(p, t) + rest, open) == Nested(p, rest, open)
    decreases t, 1
  {
    match t
    case Element(tag, attrs, children) =>
      var close := if tag in p.voidElements then [] else [Close(tag)];
      var open' := if tag in p.voidElements then open else [tag] + open;
      var toks := Tokens(p, t) + rest;
      assert toks[1..] == ForestTokens(p, children) + (close + rest);
      ForestNests(p, children, close + rest, open');
      if tag in p.voidElements {
        assert close + rest == rest;
      } else {
        assert (close + rest)[1..] == rest;
        assert open'[1..] == open;
      }
    case TextNode(text) =>
      assert ([Data(text)] + rest)[1..] == rest;
    case Other =>
      assert [] + rest == rest;
  }

  lemma {:induction false} ForestNests(p: Policy, ts: seq<Tree>, rest: seq<Token>, open: seq<Text>)
    ensures Nested(p, ForestTokens(p, ts) + rest, open) == Nested(p, rest, open)
    decreases ts, 0
  {
    if ts == [] {
      assert [] + rest == rest;
    } else {
      assert ForestTokens(p, ts) + rest == Tokens(p, ts[0]) + (ForestTokens(p, ts[1..]) + rest);
      TreeNests(p, ts[0], ForestTokens(p, ts[1..]) + rest, open);
      ForestNests(p, ts[1..], rest, open);
    }
  }

  /** The printed tags of any forest are well nested. */
  lemma PrintedForestNests(p: Policy, ts: seq<Tree>)
    ensures Nested(p, ForestTokens(p, ts), [])
  {
    ForestNests(p, ts, [], []);
    assert ForestTokens(p, ts) + [] == ForestTokens(p, ts);
  }
}

/** The event writer as a fold, what it prints on a whole forest, and when that is right. */
module WriterProof {
  import opened Wrappers
  import opened Utf16
  import opened Entities
  import opened SanitizeSpec

  datatype Writer = Writer(ignore: Option<Text>, out: Text)

  function Step(p: Policy, w: Writer, e: Event): Writer {
    match e
    case Start(tag, attrs) =>
      if w.ignore.Some? then w
      else if tag in p.blockedElements then w.(ignore := Some(tag))
      else if tag in p.validElements then w.(out := w.out + OpenText(tag, p.FilterAttrs(tag, attrs)))
      else w
    case End(tag) =>
      if w.ignore.Some? then (if w.ignore.value == tag then w.(ignore := None) else w)
      else w.(out := w.out + CloseOf(p, tag))
    case Chars(text) =>
      if w.ignore.Some? then w else w.(out := w.out + EncodeEntities(text))
  }

  function Run(p: Policy, w: Writer, es: seq<Event>): Writer
    decreases es
  {
    if es == [] then w else Run(p, Step(p, w, es[0]), es[1..])
  }

  lemma {:induction false} RunConcat(p: Policy, w: Writer, a: seq<Event>, b: seq<Event>)
    ensures Run(p, w, a + b) == Run(p, Run(p, w, a), b)
    decreases a
  {
    if a == [] {
      assert a + b == b;
    } else {
      assert (a + b)[0] == a[0] && (a + b)[1..] == a[1..] + b;
      RunConcat(p, Step(p, w, a[0]), a[1..], b);
    }
  }

  lemma RunOne(p: Policy, w: Writer, e: Event)
    ensures Run(p, w, [e]) == Step(p, w, e)
  {
    assert [e][1..] == [];
  }

  /** The events of an element: its start, those of its children, its end. */
  lemma RunElement(p: Policy, w: Writer, t: Tree)
    requires t.Element?
    ensures Run(p, w, Events(t))
         == Step(p, Run(p, Step(p, w, Start(t.tag, t.attrs)), ForestEvents(t.children)), End(t.tag))
  {
    var start, end, inner := [Start(t.tag, t.attrs)], [End(t.tag)], ForestEvents(t.children);
    assert Events(t) == (start + inner) + end;
    RunConcat(p, w, start + inner, end);
    RunConcat(p, w, start, inner);
    RunOne(p, w, start[0]);
    RunOne(p, Run(p, w, start + inner), end[0]);
  }

  /** The closing tag as printed outside a blocked element. */
  function CloseOf(p: Policy, tag: Text): Text {
    if p.Closes(tag) then CloseText(tag) else []
  }

  // ---------- What is printed, by recursion on the tree ----------

  predicate HasTag(t: Tree, g: Text)
    decreases t, 1
  {
    t.Element? && (t.tag == g || ForestHasTag(t.children, g))
  }

  predicate ForestHasTag(ts: seq<Tree>, g: Text)
    decreases ts, 0
  {
    ts != [] && (HasTag(ts[0], g) || ForestHasTag(ts[1..], g))
  }

  function Printed(p: Policy, t: Tree): Text
    decreases t, 2
  {
    match t
    case Element(tag, attrs, children) =>
      if tag in p.blockedElements then
        Leak(p, children, tag) + (if ForestHasTag(children, tag) then CloseOf(p, tag) else [])
      else if tag in p.validElements then
        OpenText(tag, p.FilterAttrs(tag, attrs)) + ForestPrinted(p, children) + CloseOf(p, tag)
      else ForestPrinted(p, children)
    case TextNode(text) => EncodeEntities(text)
    case Other => []
  }

  function ForestPrinted(p: Policy, ts: seq<Tree>): Text
    decreases ts, 0
  {
    if ts == [] then [] else Printed(p, ts[0]) + ForestPrinted(p, ts[1..])
  }

  /** What a forest inside a blocked `g` prints: the first inner `g` to end switches the writer back on. */
  function Leak(p: Policy, ts: seq<Tree>, g: Text): Text
    decreases ts, 1
  {
    if ts == [] then []
    else if HasTag(ts[0], g) then TreeLeak(p, ts[0], g) + ForestPrinted(p, ts[1..])
    else Leak(p, ts[1..], g)
  }

  function TreeLeak(p: Policy, t: Tree, g: Text): Text
    requires HasTag(t, g)
    decreases t, 0
  {
    if ForestHasTag(t.children, g) then Leak(p, t.children, g) + CloseOf(p, t.tag) else []
  }

  lemma {:induction false} NoTagLeaksNothing(p: Policy, ts: seq<Tree>, g: Text)
    requires !ForestHasTag(ts, g)
    ensures Leak(p, ts, g) == []
  {
    if ts != [] {
      NoTagLeaksNothing(p, ts[1..], g);
    }
  }

  function AfterIgnored(p: Policy, w: Writer, ts: seq<Tree>, g: Text): Writer {
    if ForestHasTag(ts, g) then Writer(None, w.out + Leak(p, ts, g)) else w
  }

  lemma BlockedPrints(p: Policy, t: Tree, out: Text)
    requires t.Element? && t.tag in p.blockedElements
    ensures Step(p, AfterIgnored(p, Writer(Some(t.tag), out), t.children, t.tag), End(t.tag))
         == Writer(None, out + Printed(p, t))
  {
    if ForestHasTag(t.children, t.tag) {
      assert (out + Leak(p, t.children, t.tag)) + CloseOf(p, t.tag) == out + Printed(p, t);
    } else {
      NoTagLeaksNothing(p, t.children, t.tag);
      assert out + ([] + []) == out;
    }
  }

  lemma ElementPrints(open: Text, inner: Text, close: Text, out: Text)
    ensures ((out + open) + inner) + close == out + (open + inner + close)
  {
  }

  lemma {:induction false} RunPrints(p: Policy, t: Tree, out: Text)
    ensures Run(p, Writer(None, out), Events(t)) == Writer(None, out + Printed(p, t))
    decreases t, 2
  {
    match t
    case Element(tag, attrs, children) =>
      RunElement(p, Writer(None, out), t);
      if tag in p.blockedElements {
        ForestRunIgnored(p, children, tag, out);
        BlockedPrints(p, t, out);
      } else {
        ForestRunPrints(p, children, Step(p, Writer(None, out), Start(tag, attrs)).out);
        if tag in p.validElements {
          ElementPrints(OpenText(tag, p.FilterAttrs(tag, attrs)), ForestPrinted(p, children), CloseOf(p, tag), out);
        } else {
          assert CloseOf(p, tag) == [] && (out + ForestPrinted(p, children)) + [] == out + ForestPrinted(p, children);
        }
      }
    case TextNode(text) =>
      RunOne(p, Writer(None, out), Chars(text));
    case Other =>
  }

  lemma {:induction false} ForestRunPrints(p: Policy, ts: seq<Tree>, out: Text)
    ensures Run(p, Writer(None, out), ForestEvents(ts)) == Writer(None, out + ForestPrinted(p, ts))
    decreases ts, 0
  {
    if ts != [] {
      RunConcat(p, Writer(None, out), Events(ts[0]), ForestEvents(ts[1..]));
      RunPrints(p, ts[0], out);
      ForestRunPrints(p, ts[1..], out + Printed(p, ts[0]));
      assert (out + Printed(p, ts[0])) + ForestPrinted(p, ts[1..]) == out + ForestPrinted(p, ts);
    } else {
      assert out + [] == out;
    }
  }

  lemma {:induction false} RunIgnored(p: Policy, t: Tree, g: Text, out: Text)
    ensures Run(p, Writer(Some(g), out), Events(t))
         == if HasTag(t, g) then Writer(None, out + TreeLeak(p, t, g)) else Writer(Some(g), out)
    decreases t, 0
  {
    match t
    case Element(tag, attrs, children) =>
      RunElement(p, Writer(Some(g), out), t);
      ForestRunIgnored(p, children, g, out);
      if ForestHasTag(children, g) {
        assert (out + Leak(p, children, g)) + CloseOf(p, tag) == out + TreeLeak(p, t, g);
      } else if tag == g {
        assert out + [] == out;
      }
    case TextNode(text) =>
      RunOne(p, Writer(Some(g), out), Chars(text));
    case Other =>
  }

  lemma {:induction false} ForestRunIgnored(p: Policy, ts: seq<Tree>, g: Text, out: Text)
    ensures Run(p, Writer(Some(g), out), ForestEvents(ts)) == AfterIgnored(p, Writer(Some(g), out), ts, g)
    decreases ts, 1
  {
    if ts != [] {
      RunConcat(p, Writer(Some(g), out), Events(ts[0]), ForestEvents(ts[1..]));
      RunIgnored(p, ts[0], g, out);
      if HasTag(ts[0], g) {
        ForestRunPrints(p, ts[1..], out + TreeLeak(p, ts[0], g));
        assert (out + TreeLeak(p, ts[0], g)) + ForestPrinted(p, ts[1..]) == out + Leak(p, ts, g);
      } else {
        ForestRunIgnored(p, ts[1..], g, out);
      }
    }
  }

  // ---------- When the printed text is that of the sanitized tree ----------

  /** Something of the tree is printed when the writer is on. */
  predicate Shows(p: Policy, t: Tree)
    decreases t, 2
  {
    match t
    case Element(tag, attrs, children) =>
      if tag in p.blockedElements then LeakShows(p, children, tag) || (ForestHasTag(children, tag) && p.Closes(tag))
      else tag in p.validElements || ForestShows(p, children)
    case TextNode(text) => text != []
    case Other => false
  }

  predicate ForestShows(p: Policy, ts: seq<Tree>)
    decreases ts, 0
  {
    ts != [] && (Shows(p, ts[0]) || ForestShows(p, ts[1..]))
  }

  /** Something visible follows the end of the first inner `g`. */
  predicate LeakShows(p: Policy, ts: seq<Tree>, g: Text)
    decreases ts, 1
  {
    ts != [] &&
    (if HasTag(ts[0], g) then TreeLeakShows(p, ts[0], g) || ForestShows(p, ts[1..])
     else LeakShows(p, ts[1..], g))
  }

  predicate TreeLeakShows(p: Policy, t: Tree, g: Text)
    requires HasTag(t, g)
    decreases t, 0
  {
    ForestHasTag(t.children, g) && (LeakShows(p, t.children, g) || p.Closes(t.tag))
  }

  /** Some outermost blocked element shows something after its first same-tag descendant ends. */
  predicate Leaky(p: Policy, t: Tree)
    decreases t, 1
  {
    t.Element? && (if t.tag in p.blockedElements then Shows(p, t) else ForestLeaky(p, t.children))
  }

  predicate ForestLeaky(p: Policy, ts: seq<Tree>)
    decreases ts, 0
  {
    ts != [] && (Leaky(p, ts[0]) || ForestLeaky(p, ts[1..]))
  }

  lemma EncodedNonempty(s: Text)
    ensures EncodeEntities(s) == [] <==> s == []
  {
    PassesAreOnePass(s);
  }

  lemma {:induction false} PrintsExactlyWhenShows(p: Policy, t: Tree)
    ensures Printed(p, t) != [] <==> Shows(p, t)
    decreases t, 2
  {
    match t
    case Element(tag, attrs, children) =>
      if tag in p.blockedElements {
        LeakExactlyWhenShows(p, children, tag);
      } else {
        ForestPrintsExactlyWhenShows(p, children);
      }
    case TextNode(text) => EncodedNonempty(text);
    case Other =>
  }

  lemma {:induction false} ForestPrintsExactlyWhenShows(p: Policy, ts: seq<Tree>)
    ensures ForestPrinted(p, ts) != [] <==> ForestShows(p, ts)
    decreases ts, 0
  {
    if ts != [] {
      PrintsExactlyWhenShows(p, ts[0]);
      ForestPrintsExactlyWhenShows(p, ts[1..]);
    }
  }

  lemma {:induction false} LeakExactlyWhenShows(p: Policy, ts: seq<Tree>, g: Text)
    ensures Leak(p, ts, g) != [] <==> LeakShows(p, ts, g)
    decreases ts, 1
  {
    if ts != [] {
      if HasTag(ts[0], g) {
        TreeLeakExactlyWhenShows(p, ts[0], g);
        ForestPrintsExactlyWhenShows(p, ts[1..]);
      } else {
        LeakExactlyWhenShows(p, ts[1..], g);
      }
    }
  }

  lemma {:induction false} TreeLeakExactlyWhenShows(p: Policy, t: Tree, g: Text)
    requires HasTag(t, g)
    ensures TreeLeak(p, t, g) != [] <==> TreeLeakShows(p, t, g)
    decreases t, 0
  {
    LeakExactlyWhenShows(p, t.children, g);
  }

  /** The intended output. */
  function Intended(p: Policy, ts: seq<Tree>): Text {
    Render(ForestTokens(p, SanitizeForest(p, ts)))
  }

  lemma {:induction false} RenderConcat(a: seq<Token>, b: seq<Token>)
    ensures Render(a + b) == Render(a) + Render(b)
  {
    if a == [] {
      assert a + b == b;
    } else {
      assert (a + b)[0] == a[0] && (a + b)[1..] == a[1..] + b;
      RenderConcat(a[1..], b);
    }
  }

  lemma {:induction false} TokensConcat(p: Policy, a: seq<Tree>, b: seq<Tree>)
    ensures ForestTokens(p, a + b) == ForestTokens(p, a) + ForestTokens(p, b)
  {
    if a == [] {
      assert a + b == b;
    } else {
      assert (a + b)[0] == a[0] && (a + b)[1..] == a[1..] + b;
      TokensConcat(p, a[1..], b);
    }
  }

  lemma IntendedConcat(p: Policy, t: Tree, ts: seq<Tree>)
    ensures Intended(p, [t] + ts) == Intended(p, [t]) + Intended(p, ts)
  {
    var a, b := Sanitize(p, t), SanitizeForest(p, ts);
    assert ([t] + ts)[0] == t && ([t] + ts)[1..] == ts;
    assert SanitizeForest(p, [t]) == a + SanitizeForest(p, []);
    assert a + [] == a;
    TokensConcat(p, a, b);
    RenderConcat(ForestTokens(p, a), ForestTokens(p, b));
  }

  lemma IntendedElement(p: Policy, t: Tree)
    requires t.Element? && t.tag in p.validElements && t.tag !in p.blockedElements
    ensures Intended(p, [t])
         == OpenText(t.tag, p.FilterAttrs(t.tag, t.attrs)) + Intended(p, t.children) + CloseOf(p, t.tag)
  {
    var inner := SanitizeForest(p, t.children);
    var u := Element(t.tag, p.FilterAttrs(t.tag, t.attrs), inner);
    assert SanitizeForest(p, [t]) == [u];
    assert ForestTokens(p, [u]) == Tokens(p, u);
    var open := [Open(u.tag, u.attrs)];
    var close := if u.tag in p.voidElements then [] else [Close(u.tag)];
    RenderConcat(open + ForestTokens(p, inner), close);
    RenderConcat(open, ForestTokens(p, inner));
    assert Render(open) == OpenText(u.tag, u.attrs) + Render([]);
    if u.tag !in p.voidElements {
      assert Render(close) == CloseText(u.tag) + Render([]);
    }
  }

  /** The printed text of one tree against the intended one; it never prints less. */
  lemma {:induction false} PrintedAgainstIntended(p: Policy, t: Tree)
    ensures if Leaky(p, t) then |Printed(p, t)| > |Intended(p, [t])| else Printed(p, t) == Intended(p, [t])
    decreases t, 1
  {
    assert SanitizeForest(p, [t]) == Sanitize(p, t);
    match t
    case Element(tag, attrs, children) =>
      if tag in p.blockedElements {
        PrintsExactlyWhenShows(p, t);
      } else {
        ForestPrintedAgainstIntended(p, children);
        if tag in p.validElements {
          IntendedElement(p, t);
        }
      }
    case TextNode(text) =>
      assert ForestTokens(p, [t]) == [Data(text)];
      assert Render([Data(text)]) == EncodeEntities(text) + Render([]);
    case Other =>
  }

  lemma {:induction false} ForestPrintedAgainstIntended(p: Policy, ts: seq<Tree>)
    ensures if ForestLeaky(p, ts) then |ForestPrinted(p, ts)| > |Intended(p, ts)|
            else ForestPrinted(p, ts) == Intended(p, ts)
    decreases ts, 0
  {
    if ts != [] {
      assert ts == [ts[0]] + ts[1..];
      IntendedConcat(p, ts[0], ts[1..]);
      PrintedAgainstIntended(p, ts[0]);
      ForestPrintedAgainstIntended(p, ts[1..]);
    }
  }

  /** Walking a forest into a fresh writer prints the sanitized forest, exactly when nothing leaks. */
  lemma WriterPrintsSanitizedForest(p: Policy, ts: seq<Tree>)
    ensures Run(p, Writer(None, []), ForestEvents(ts)).out == Intended(p, ts) <==> !ForestLeaky(p, ts)
  {
    ForestRunPrints(p, ts, []);
    assert [] + ForestPrinted(p, ts) == ForestPrinted(p, ts);
    ForestPrintedAgainstIntended(p, ts);
  }

  /** No outermost blocked element has a descendant with its own tag. */
  predicate BlockedNotNested(p: Policy, ts: seq<Tree>)
    decreases ts
  {
    ts == [] ||
    (&& (ts[0].Element? ==>
           if ts[0].tag in p.blockedElements then !ForestHasTag(ts[0].children, ts[0].tag)
           else BlockedNotNested(p, ts[0].children))
     && BlockedNotNested(p, ts[1..]))
  }

  lemma {:induction false} NoTagNoLeak(p: Policy, ts: seq<Tree>, g: Text)
    requires !ForestHasTag(ts, g)
    ensures !LeakShows(p, ts, g)
  {
    if ts != [] {
      NoTagNoLeak(p, ts[1..], g);
    }
  }

  lemma {:induction false} NotNestedNotLeaky(p: Policy, ts: seq<Tree>)
    requires BlockedNotNested(p, ts)
    ensures !ForestLeaky(p, ts)
    decreases ts
  {
    if ts != [] {
      if ts[0].Element? {
        if ts[0].tag in p.blockedElements {
          NoTagNoLeak(p, ts[0].children, ts[0].tag);
        } else {
          NotNestedNotLeaky(p, ts[0].children);
        }
      }
      NotNestedNotLeaky(p, ts[1..]);
    }
  }

  /**
   * `<svg><style><style></style>x</style></svg>` lets the text out. In HTML content a parser reads what is in a
   * script or a style as raw text, so that the two nest in foreign content only.
   */
  lemma NestedBlockedLeaks(p: Policy, wrapper: Text, blocked: Text, x: Text)
    requires wrapper !in p.blockedElements && blocked in p.blockedElements && blocked !in p.validElements && x != []
    ensures var ts := [Element(wrapper, [], [BlockedPair(blocked, x)])];
            && ForestLeaky(p, ts) && !BlockedNotNested(p, ts)
            && (wrapper !in p.validElements ==> ForestPrinted(p, ts) == EncodeEntities(x) && Intended(p, ts) == [])
            && (wrapper in p.validElements ==>
                  && ForestPrinted(p, ts) == OpenText(wrapper, []) + EncodeEntities(x) + CloseOf(p, wrapper)
                  && Intended(p, ts) == OpenText(wrapper, []) + CloseOf(p, wrapper))
  {
    var t := BlockedPair(blocked, x);
    InUnblocked(p, wrapper, [t]);
    BlockedPairLeaks(p, blocked, x);
    if wrapper in p.validElements {
      assert OpenText(wrapper, []) + [] == OpenText(wrapper, []);
    }
  }

  lemma InUnblocked(p: Policy, wrapper: Text, ts: seq<Tree>)
    requires wrapper !in p.blockedElements
    ensures var ws := [Element(wrapper, [], ts)];
            && (ForestLeaky(p, ws) <==> ForestLeaky(p, ts)) && (BlockedNotNested(p, ws) <==> BlockedNotNested(p, ts))
            && if wrapper in p.validElements
               then && ForestPrinted(p, ws) == OpenText(wrapper, []) + ForestPrinted(p, ts) + CloseOf(p, wrapper)
                    && Intended(p, ws) == OpenText(wrapper, []) + Intended(p, ts) + CloseOf(p, wrapper)
               else ForestPrinted(p, ws) == ForestPrinted(p, ts) && Intended(p, ws) == Intended(p, ts)
  {
    var w := Element(wrapper, [], ts);
    assert [w][1..] == [] && Printed(p, w) + [] == Printed(p, w);
    if wrapper in p.validElements {
      IntendedElement(p, w);
    } else {
      assert SanitizeForest(p, [w]) == SanitizeForest(p, ts) + [] == SanitizeForest(p, ts);
    }
  }

  function BlockedPair(blocked: Text, x: Text): Tree {
    Element(blocked, [], [Element(blocked, [], []), TextNode(x)])
  }

  lemma BlockedPairPrints(p: Policy, blocked: Text, x: Text)
    requires blocked in p.blockedElements && blocked !in p.validElements
    ensures Printed(p, BlockedPair(blocked, x)) == EncodeEntities(x)
    ensures ForestHasTag(BlockedPair(blocked, x).children, blocked)
  {
    var cs := BlockedPair(blocked, x).children;
    assert HasTag(cs[0], blocked) && cs[1..] == [TextNode(x)] && cs[1..][1..] == [];
    assert ForestPrinted(p, cs[1..]) == EncodeEntities(x) + [];
    assert Leak(p, cs, blocked) == [] + EncodeEntities(x);
  }

  lemma BlockedPairLeaks(p: Policy, blocked: Text, x: Text)
    requires blocked in p.blockedElements && blocked !in p.validElements && x != []
    ensures var ts := [BlockedPair(blocked, x)];
            && ForestLeaky(p, ts) && !BlockedNotNested(p, ts)
            && ForestPrinted(p, ts) == EncodeEntities(x) && Intended(p, ts) == []
  {
    var t := BlockedPair(blocked, x);
    BlockedPairPrints(p, blocked, x);
    PrintsExactlyWhenShows(p, t);
    EncodedNonempty(x);
    assert [t][0] == t && [t][1..] == [];
    assert Leaky(p, t);
    assert ForestPrinted(p, [t]) == Printed(p, t) + [];
    assert SanitizeForest(p, [t]) == [];
  }
}
