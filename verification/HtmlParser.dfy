/** `htmlSanitizeWriter` and the pointer walk of `htmlParser`. */
module HtmlParser {
  import opened Wrappers
  import opened Utf16
  import opened Entities
  import opened SanitizeSpec
  import opened WriterProof

  function Join(buf: seq<Text>): Text {
    if buf == [] then [] else Join(buf[..|buf| - 1]) + buf[|buf| - 1]
  }

  lemma JoinPush(buf: seq<Text>, x: Text)
    ensures Join(buf + [x]) == Join(buf) + x
  {
    assert (buf + [x])[..|buf|] == buf;
  }

  lemma AssociateRight<T>(a: seq<T>, b: seq<T>, c: seq<T>)
    ensures (a + b) + c == a + (b + c)
  {
  }

  lemma OpenPieces(written: Text, tag: Text, attrs: seq<Attr>)
    ensures written + [LESS] + tag + AttrsText(attrs) + [GREATER] == written + OpenText(tag, attrs)
  {
  }

  lemma AttrPieces(written: Text, a: Attr)
    ensures written + [32] + a.key + [61, 34] + EncodeEntities(a.value) + [34] == written + AttrText(a)
  {
  }

  /** The writer: a buffer of pieces and the tag whose subtree is being ignored. */
  class HtmlSanitizeWriter {
    const policy: Policy
    var ignoreCurrentElement: Option<Text>
    var buf: seq<Text>

    constructor (policy: Policy)
      ensures this.policy == policy && State() == Writer(None, [])
    {
      this.policy := policy;
      ignoreCurrentElement, buf := None, [];
    }

    function State(): Writer
      reads this
    {
      Writer(ignoreCurrentElement, Join(buf))
    }

    method Out(piece: Text)
      modifies this`buf
      ensures Join(buf) == Join(old(buf)) + piece
    {
      JoinPush(buf, piece);
      buf := buf + [piece];
    }

    method OutAttr(a: Attr)
      modifies this`buf
      ensures Join(buf) == Join(old(buf)) + AttrText(a)
    {
      AttrPieces(Join(buf), a);
      Out([32]);
      Out(a.key);
      Out([61, 34]);
      Out(EncodeEntities(a.value));
      Out([34]);
    }

    method OutAttrs(tag: Text, attrs: seq<Attr>)
      modifies this`buf
      ensures Join(buf) == Join(old(buf)) + AttrsText(policy.FilterAttrs(tag, attrs))
    {
      ghost var total := Join(buf) + AttrsText(policy.FilterAttrs(tag, attrs));
      assert attrs[0..] == attrs;
      for i := 0 to |attrs|
        invariant Join(buf) + AttrsText(policy.FilterAttrs(tag, attrs[i..])) == total
      {
        ghost var before := Join(buf);
        ghost var rest := policy.FilterAttrs(tag, attrs[i + 1..]);
        assert attrs[i..][1..] == attrs[i + 1..];
        if policy.KeepsAttr(tag, attrs[i]) {
          OutAttr(attrs[i]);
          assert ([attrs[i]] + rest)[1..] == rest;
          AssociateRight(before, AttrText(attrs[i]), AttrsText(rest));
        } else {
          assert [] + rest == rest;
        }
      }
      assert Join(buf) + [] == Join(buf);
    }

    method Start(tag: Text, attrs: seq<Attr>)
      modifies this
      ensures State() == Step(policy, old(State()), Event.Start(tag, attrs))
    {
      if ignoreCurrentElement.None? && tag in policy.blockedElements {
        ignoreCurrentElement := Some(tag);
      }
      if ignoreCurrentElement.None? && tag in policy.validElements {
        OpenPieces(Join(buf), tag, policy.FilterAttrs(tag, attrs));
        Out([LESS]);
        Out(tag);
        OutAttrs(tag, attrs);
        Out([GREATER]);
      }
    }

    method End(tag: Text)
      modifies this
      ensures State() == Step(policy, old(State()), Event.End(tag))
    {
      if ignoreCurrentElement.None? && tag in policy.validElements && tag !in policy.voidElements {
        Out([LESS, 47]);
        Out(tag);
        Out([GREATER]);
        assert Join(buf) == Join(old(buf)) + CloseText(tag);
      } else {
        assert Join(buf) + [] == Join(buf);
      }
      if ignoreCurrentElement == Some(tag) {
        ignoreCurrentElement := None;
      }
    }

    method Chars(chars: Text)
      modifies this
      ensures State() == Step(policy, old(State()), Event.Chars(chars))
    {
      if ignoreCurrentElement.None? {
        Out(EncodeEntities(chars));
      }
    }
  }

  // ---------- The document as linked nodes ----------

  datatype NodeKind = ElementNode(tag: Text, attrs: seq<Attr>) | TextKind(text: Text) | OtherKind

  class DomNode {
    const kind: NodeKind
    var firstChild: DomNode?
    var nextSibling: DomNode?
    var parentNode: DomNode?

    constructor (kind: NodeKind)
      ensures this.kind == kind && firstChild == nextSibling == parentNode == null
    {
      this.kind := kind;
      firstChild, nextSibling, parentNode := null, null, null;
    }
  }

  /** A node's position below the body: child indices from the top down. */
  type Path = seq<nat>

  function ChildrenOf(t: Tree): seq<Tree> {
    if t.Element? then t.children else []
  }

  function KindOf(t: Tree): NodeKind {
    match t
    case Element(tag, attrs, _) => ElementNode(tag, attrs)
    case TextNode(text) => TextKind(text)
    case Other => OtherKind
  }

  function Front(path: Path): Path
    requires path != []
  {
    path[..|path| - 1]
  }

  function Last(path: Path): nat
    requires path != []
  {
    path[|path| - 1]
  }

  predicate IsPath(forest: seq<Tree>, path: Path)
    decreases |path|, 0
  {
    path != [] ==> IsPath(forest, Front(path)) && Last(path) < |Kids(forest, Front(path))|
  }

  /** The children of the node at `path`; those of the body at []. */
  function Kids(forest: seq<Tree>, path: Path): seq<Tree>
    requires IsPath(forest, path)
    decreases |path|, 1
  {
    if path == [] then forest else ChildrenOf(Kids(forest, Front(path))[Last(path)])
  }

  function Sub(forest: seq<Tree>, path: Path): Tree
    requires path != [] && IsPath(forest, path)
  {
    Kids(forest, Front(path))[Last(path)]
  }

  /** `at` places the linked nodes below `body` so that every pointer is the one the forest asks for. */
  ghost predicate Represents(body: DomNode, forest: seq<Tree>, at: map<Path, DomNode>)
    reads at.Values
  {
    && [] in at && at[[]] == body
    && (forall path :: path in at <==> IsPath(forest, path))
    && (forall path {:trigger at[path]} :: path in at && at[path] == body ==> path == [])
    && (forall path {:trigger NodeFits(forest, at, path)} :: path in at ==> NodeFits(forest, at, path))
  }

  ghost predicate NodeFits(forest: seq<Tree>, at: map<Path, DomNode>, path: Path)
    requires path in at
    requires forall q :: q in at <==> IsPath(forest, q)
    reads at.Values
  {
    var node := at[path];
    && node in at.Values
    && (if Kids(forest, path) == [] then node.firstChild == null
        else HasKid(forest, at, path, 0) && node.firstChild == at[path + [0]])
    && (path != [] ==>
          && node.kind == KindOf(Sub(forest, path))
          && Front(path) in at && node.parentNode == at[Front(path)]
          && (if Last(path) + 1 < |Kids(forest, Front(path))|
              then HasKid(forest, at, Front(path), Last(path) + 1)
                   && node.nextSibling == at[Front(path) + [Last(path) + 1]]
              else node.nextSibling == null))
  }

  ghost predicate HasKid(forest: seq<Tree>, at: map<Path, DomNode>, path: Path, i: nat) {
    path + [i] in at
  }

  lemma ChildPointer(body: DomNode, forest: seq<Tree>, at: map<Path, DomNode>, path: Path)
    requires Represents(body, forest, at) && IsPath(forest, path)
    ensures path in at
    ensures at[path].firstChild == null <==> Kids(forest, path) == []
    ensures at[path].firstChild != null ==> path + [0] in at && at[path].firstChild == at[path + [0]]
    ensures path != [] ==> at[path].kind == KindOf(Sub(forest, path))
  {
    assert NodeFits(forest, at, path);
  }

  lemma SiblingPointer(body: DomNode, forest: seq<Tree>, at: map<Path, DomNode>, path: Path)
    requires Represents(body, forest, at) && path != [] && IsPath(forest, path)
    ensures path in at
    ensures at[path].nextSibling == null <==> Last(path) + 1 == |Kids(forest, Front(path))|
    ensures at[path].nextSibling != null ==>
              var next := Front(path) + [Last(path) + 1];
              next in at && at[path].nextSibling == at[next]
  {
    assert NodeFits(forest, at, path);
  }

  lemma ParentPointer(body: DomNode, forest: seq<Tree>, at: map<Path, DomNode>, path: Path)
    requires Represents(body, forest, at) && path != [] && IsPath(forest, path)
    ensures path in at && Front(path) in at && at[path].parentNode == at[Front(path)]
    ensures at[path].parentNode == body <==> Front(path) == []
    ensures Front(path) != [] ==> at[Front(path)].kind == KindOf(Sub(forest, Front(path)))
  {
    assert NodeFits(forest, at, path);
    assert NodeFits(forest, at, Front(path));
  }

  // ---------- Every forest has such nodes ----------

  /** The positions in trees that stand side by side, the first of them at index `i`. */
  function PathsFrom(ts: seq<Tree>, i: nat): set<Path>
    decreases ts
  {
    if ts == [] then {}
    else
      {[i]} + (if ts[0].Element? then set q | q in PathsFrom(ts[0].children, 0) :: [i] + q else {})
      + PathsFrom(ts[1..], i + 1)
  }

  /** A path read from the top. */
  lemma {:induction false} PathFromTop(forest: seq<Tree>, i: nat, q: Path)
    ensures IsPath(forest, [i] + q) <==> i < |forest| && IsPath(ChildrenOf(forest[i]), q)
    ensures IsPath(forest, [i] + q) ==> Kids(forest, [i] + q) == Kids(ChildrenOf(forest[i]), q)
    decreases |q|
  {
    var path := [i] + q;
    if q == [] {
      assert Front(path) == [] && Last(path) == i;
    } else {
      assert Front(path) == [i] + Front(q) && Last(path) == Last(q);
      PathFromTop(forest, i, Front(q));
    }
  }

  lemma {:induction false} PathsFromExactly(ts: seq<Tree>, i: nat, path: Path)
    ensures path in PathsFrom(ts, i) <==>
              path != [] && i <= path[0] < i + |ts| && IsPath(ChildrenOf(ts[path[0] - i]), path[1..])
    decreases ts, 1
  {
    if ts != [] {
      PathsFromExactly(ts[1..], i + 1, path);
      if path != [] && path[0] == i {
        BelowExactly(ts[0], i, path);
      } else if path != [] && i < path[0] < i + |ts| {
        assert ts[1..][path[0] - (i + 1)] == ts[path[0] - i];
      }
    }
  }

  lemma {:induction false} BelowExactly(t: Tree, i: nat, path: Path)
    requires path != [] && path[0] == i
    ensures path == [i] || (t.Element? && path in set q | q in PathsFrom(t.children, 0) :: [i] + q)
            <==> IsPath(ChildrenOf(t), path[1..])
    decreases t, 0
  {
    var q := path[1..];
    assert path == [i] + q;
    if q != [] {
      if t.Element? {
        PathsFromExactly(t.children, 0, q);
        PathFromTop(t.children, q[0], q[1..]);
        assert [q[0]] + q[1..] == q;
        if path in set r | r in PathsFrom(t.children, 0) :: [i] + r {
          var r :| r in PathsFrom(t.children, 0) && path == [i] + r;
          assert r == ([i] + r)[1..] == q;
        }
      } else {
        NoPathBelow(q);
      }
    }
  }

  lemma {:induction false} NoPathBelow(q: Path)
    requires q != []
    ensures !IsPath([], q)
    decreases |q|
  {
    if Front(q) != [] {
      NoPathBelow(Front(q));
    }
  }

  /** The positions of the body and of all nodes below it. */
  function AllPaths(forest: seq<Tree>): set<Path> {
    {[]} + PathsFrom(forest, 0)
  }

  lemma AllPathsExactly(forest: seq<Tree>, path: Path)
    ensures path in AllPaths(forest) <==> IsPath(forest, path)
  {
    PathsFromExactly(forest, 0, path);
    if path != [] {
      PathFromTop(forest, path[0], path[1..]);
      assert [path[0]] + path[1..] == path;
    }
  }

  function NodeAt(nodes: map<Path, DomNode>, path: Path): DomNode? {
    if path in nodes then nodes[path] else null
  }

  ghost predicate Injective(nodes: map<Path, DomNode>) {
    forall p, q :: p in nodes && q in nodes && p != q ==> nodes[p] != nodes[q]
  }

  ghost predicate HaveKinds(nodes: map<Path, DomNode>, kinds: map<Path, NodeKind>) {
    forall path :: path in nodes ==> path in kinds && nodes[path].kind == kinds[path]
  }

  lemma OneNodeMore(nodes: map<Path, DomNode>, kinds: map<Path, NodeKind>, path: Path, node: DomNode)
    requires Injective(nodes) && HaveKinds(nodes, kinds)
    requires path in kinds && node.kind == kinds[path] && node !in nodes.Values
    ensures Injective(nodes[path := node]) && HaveKinds(nodes[path := node], kinds)
    ensures nodes[path := node].Values <= nodes.Values + {node}
  {
    assert forall p :: p in nodes ==> nodes[p] in nodes.Values;
  }

  /** A node for every position, none of them linked yet. */
  method MakeNodes(kinds: map<Path, NodeKind>) returns (nodes: map<Path, DomNode>)
    ensures nodes.Keys == kinds.Keys && Injective(nodes) && HaveKinds(nodes, kinds) && fresh(nodes.Values)
  {
    var todo := kinds.Keys;
    nodes := map[];
    while todo != {}
      invariant todo <= kinds.Keys && nodes.Keys == kinds.Keys - todo
      invariant Injective(nodes) && HaveKinds(nodes, kinds) && fresh(nodes.Values)
      decreases |todo|
    {
      var path :| path in todo;
      var node := new DomNode(kinds[path]);
      OneNodeMore(nodes, kinds, path, node);
      assert fresh(nodes.Values + {node});
      nodes := nodes[path := node];
      todo := todo - {path};
    }
  }

  method LinkChildren(nodes: map<Path, DomNode>)
    requires Injective(nodes)
    modifies nodes.Values`firstChild
    ensures forall path {:trigger nodes[path]} :: path in nodes ==> nodes[path].firstChild == NodeAt(nodes, path + [0])
  {
    forall path | path in nodes {
      nodes[path].firstChild := NodeAt(nodes, path + [0]);
    }
  }

  method LinkSiblings(nodes: map<Path, DomNode>)
    requires Injective(nodes)
    modifies nodes.Values`nextSibling
    ensures forall path {:trigger nodes[path]} :: path in nodes && path != [] ==>
              nodes[path].nextSibling == NodeAt(nodes, Front(path) + [Last(path) + 1])
  {
    forall path | path in nodes && path != [] {
      nodes[path].nextSibling := NodeAt(nodes, Front(path) + [Last(path) + 1]);
    }
  }

  method LinkParents(nodes: map<Path, DomNode>)
    requires Injective(nodes)
    modifies nodes.Values`parentNode
    ensures forall path {:trigger nodes[path]} :: path in nodes && path != [] ==>
              nodes[path].parentNode == NodeAt(nodes, Front(path))
  {
    forall path | path in nodes && path != [] {
      nodes[path].parentNode := NodeAt(nodes, Front(path));
    }
  }

  /** The pointers are the ones the positions ask for. */
  ghost predicate LinkedAt(nodes: map<Path, DomNode>, path: Path)
    requires path in nodes
    reads nodes.Values
  {
    var node := nodes[path];
    && node in nodes.Values && node.firstChild == NodeAt(nodes, path + [0])
    && (path != [] ==>
          && node.parentNode == NodeAt(nodes, Front(path))
          && node.nextSibling == NodeAt(nodes, Front(path) + [Last(path) + 1]))
  }

  method LinkedNodes(kinds: map<Path, NodeKind>) returns (nodes: map<Path, DomNode>)
    ensures nodes.Keys == kinds.Keys && Injective(nodes) && HaveKinds(nodes, kinds) && fresh(nodes.Values)
    ensures forall path {:trigger LinkedAt(nodes, path)} :: path in nodes ==> LinkedAt(nodes, path)
  {
    nodes := MakeNodes(kinds);
    LinkChildren(nodes);
    LinkSiblings(nodes);
    LinkParents(nodes);
    assert forall path :: path in nodes ==> nodes[path] in nodes.Values;
  }

  function KindAt(forest: seq<Tree>, path: Path): NodeKind {
    if path != [] && IsPath(forest, path) then KindOf(Sub(forest, path)) else OtherKind
  }

  lemma ChildIsPath(forest: seq<Tree>, path: Path, i: nat)
    requires IsPath(forest, path)
    ensures IsPath(forest, path + [i]) <==> i < |Kids(forest, path)|
  {
    assert Front(path + [i]) == path && Last(path + [i]) == i;
  }

  /** Linked as far as there are nodes, each node fits its place in the forest. */
  lemma LinkedNodeFits(forest: seq<Tree>, nodes: map<Path, DomNode>, path: Path)
    requires forall q :: q in nodes <==> IsPath(forest, q)
    requires path in nodes && LinkedAt(nodes, path) && nodes[path].kind == KindAt(forest, path)
    ensures NodeFits(forest, nodes, path)
  {
    ChildIsPath(forest, path, 0);
    assert HasKid(forest, nodes, path, 0) <==> Kids(forest, path) != [];
    if path != [] {
      ChildIsPath(forest, Front(path), Last(path) + 1);
      assert HasKid(forest, nodes, Front(path), Last(path) + 1) <==> Last(path) + 1 < |Kids(forest, Front(path))|;
    }
  }

  lemma LinkedNodesRepresent(forest: seq<Tree>, nodes: map<Path, DomNode>)
    requires nodes.Keys == AllPaths(forest) && Injective(nodes)
    requires forall path :: path in nodes ==> nodes[path].kind == KindAt(forest, path)
    requires forall path {:trigger LinkedAt(nodes, path)} :: path in nodes ==> LinkedAt(nodes, path)
    ensures [] in nodes && Represents(nodes[[]], forest, nodes)
  {
    forall path ensures path in nodes <==> IsPath(forest, path) {
      AllPathsExactly(forest, path);
    }
    forall path | path in nodes ensures NodeFits(forest, nodes, path) {
      assert LinkedAt(nodes, path);
      LinkedNodeFits(forest, nodes, path);
    }
  }

  /** The parsed body: every forest has linked nodes. */
  method BuildDocument(forest: seq<Tree>) returns (body: DomNode, ghost at: map<Path, DomNode>)
    ensures fresh(at.Values) && Represents(body, forest, at)
  {
    var nodes := LinkedNodes(map path | path in AllPaths(forest) :: KindAt(forest, path));
    LinkedNodesRepresent(forest, nodes);
    at, body := nodes, nodes[[]];
  }

  // ---------- What is left of the walk ----------

  function StartEvents(kind: NodeKind): seq<Event> {
    match kind
    case ElementNode(tag, attrs) => [Start(tag, attrs)]
    case TextKind(text) => [Chars(text)]
    case OtherKind => []
  }

  function EndEvents(kind: NodeKind): seq<Event> {
    if kind.ElementNode? then [End(kind.tag)] else []
  }

  ghost function EndOf(forest: seq<Tree>, path: Path): seq<Event>
    requires IsPath(forest, path)
  {
    if path == [] then [] else EndEvents(KindOf(Sub(forest, path)))
  }

  /** The events after the subtree at `path` is finished. */
  ghost function After(forest: seq<Tree>, path: Path): seq<Event>
    requires IsPath(forest, path)
    decreases |path|
  {
    if path == [] then []
    else
      var up := Front(path);
      ForestEvents(Kids(forest, up)[Last(path) + 1..]) + EndOf(forest, up) + After(forest, up)
  }

  ghost function Nodes(t: Tree): nat
    decreases t, 1
  {
    if t.Element? then 1 + ForestNodes(t.children) else 1
  }

  ghost function ForestNodes(ts: seq<Tree>): nat
    decreases ts, 0
  {
    if ts == [] then 0 else Nodes(ts[0]) + ForestNodes(ts[1..])
  }

  ghost function NodesAfter(forest: seq<Tree>, path: Path): nat
    requires IsPath(forest, path)
    decreases |path|
  {
    if path == [] then 0
    else ForestNodes(Kids(forest, Front(path))[Last(path) + 1..]) + NodesAfter(forest, Front(path))
  }

  lemma AfterChild(forest: seq<Tree>, path: Path, i: nat)
    requires IsPath(forest, path) && i < |Kids(forest, path)|
    ensures IsPath(forest, path + [i])
    ensures Sub(forest, path + [i]) == Kids(forest, path)[i]
    ensures After(forest, path + [i])
         == ForestEvents(Kids(forest, path)[i + 1..]) + EndOf(forest, path) + After(forest, path)
    ensures NodesAfter(forest, path + [i])
         == ForestNodes(Kids(forest, path)[i + 1..]) + NodesAfter(forest, path)
  {
    assert Front(path + [i]) == path && Last(path + [i]) == i;
  }

  /** About to visit the node at `path`, with `log` already reported. */
  ghost predicate Entering(forest: seq<Tree>, path: Path, log: seq<Event>, left: nat) {
    && path != [] && IsPath(forest, path)
    && log + (Events(Sub(forest, path)) + After(forest, path)) == ForestEvents(forest)
    && left == Nodes(Sub(forest, path)) + NodesAfter(forest, path)
  }

  /** The subtree at `path` is finished. */
  ghost predicate Leaving(forest: seq<Tree>, path: Path, log: seq<Event>, left: nat) {
    && path != [] && IsPath(forest, path)
    && log + After(forest, path) == ForestEvents(forest)
    && left == NodesAfter(forest, path)
  }

  function Visit(t: Tree): seq<Event> {
    StartEvents(KindOf(t))
  }

  lemma EnterForest(forest: seq<Tree>)
    requires forest != []
    ensures Entering(forest, [0], [], ForestNodes(forest))
  {
    assert [] + [0] == [0];
    AfterChild(forest, [], 0);
  }

  /** Going down: the first child comes next. */
  lemma EnterChild(forest: seq<Tree>, path: Path, log: seq<Event>, left: nat)
    requires Entering(forest, path, log, left) && Kids(forest, path) != []
    ensures left > 0 && Entering(forest, path + [0], log + Visit(Sub(forest, path)), left - 1)
  {
    var t := Sub(forest, path);
    var kids, end, after := Kids(forest, path), EndOf(forest, path), After(forest, path);
    AfterChild(forest, path, 0);
    assert Events(t) == Visit(t) + ForestEvents(kids) + end;
    assert Nodes(t) == 1 + ForestNodes(kids);
    Regroup(log, Visit(t), Events(kids[0]), ForestEvents(kids[1..]), end, after);
  }

  lemma Regroup(log: seq<Event>, visit: seq<Event>, a: seq<Event>, b: seq<Event>, end: seq<Event>, after: seq<Event>)
    ensures log + (visit + (a + b) + end + after) == (log + visit) + (a + (b + end + after))
  {
  }

  lemma LeaveChildless(forest: seq<Tree>, path: Path, log: seq<Event>, left: nat)
    requires Entering(forest, path, log, left) && Kids(forest, path) == []
    ensures Events(Sub(forest, path)) == Visit(Sub(forest, path)) + EndOf(forest, path)
    ensures left > 0
    ensures Leaving(forest, path, log + Visit(Sub(forest, path)) + EndOf(forest, path), left - 1)
  {
    var t := Sub(forest, path);
    assert Events(t) == Visit(t) + EndOf(forest, path);
    assert Nodes(t) == 1;
    AssociateRight(log, Events(t), After(forest, path));
    AssociateRight(log, Visit(t), EndOf(forest, path));
  }

  /** Going sideways: after a child comes its next sibling. */
  lemma EnterSibling(forest: seq<Tree>, path: Path, log: seq<Event>, left: nat)
    requires Leaving(forest, path, log, left) && Last(path) + 1 < |Kids(forest, Front(path))|
    ensures Entering(forest, Front(path) + [Last(path) + 1], log, left)
  {
    var up, i := Front(path), Last(path);
    AfterChild(forest, up, i + 1);
    var kids, end, after := Kids(forest, up), EndOf(forest, up), After(forest, up);
    assert kids[i + 1..][1..] == kids[i + 2..];
    AssociateRight(Events(kids[i + 1]), ForestEvents(kids[i + 2..]), end);
    AssociateRight(Events(kids[i + 1]), ForestEvents(kids[i + 2..]) + end, after);
  }

  /** Going up: after a last child comes the end of its parent. */
  lemma LeaveParent(forest: seq<Tree>, path: Path, log: seq<Event>, left: nat)
    requires Leaving(forest, path, log, left) && Last(path) + 1 == |Kids(forest, Front(path))|
    ensures Front(path) == [] ==> log == ForestEvents(forest)
    ensures Front(path) != [] ==> Leaving(forest, Front(path), log + EndOf(forest, Front(path)), left)
  {
    var up := Front(path);
    var none := Kids(forest, up)[Last(path) + 1..];
    var end, after := EndOf(forest, up), After(forest, up);
    assert ForestEvents(none) == [] && ForestNodes(none) == 0;
    assert After(forest, path) == [] + end + after;
    assert [] + end == end;
    if up == [] {
      assert end == [] && after == [] && log + ([] + []) == log;
    } else {
      AssociateRight(log, end, after);
    }
  }

  method HandleEnd(node: DomNode, handler: HtmlSanitizeWriter, ghost log: seq<Event>, ghost w0: Writer)
    requires handler.State() == Run(handler.policy, w0, log)
    modifies handler
    ensures handler.State() == Run(handler.policy, w0,
              log + EndEvents(node.kind))
  {
    if node.kind.ElementNode? {
      RunConcat(handler.policy, w0, log, [End(node.kind.tag)]);
      RunOne(handler.policy, handler.State(), End(node.kind.tag));
      handler.End(node.kind.tag);
    } else {
      assert log + [] == log;
    }
  }

  method HandleNode(node: DomNode, handler: HtmlSanitizeWriter, ghost log: seq<Event>, ghost w0: Writer)
      returns (ghost log': seq<Event>)
    requires handler.State() == Run(handler.policy, w0, log)
    modifies handler
    ensures handler.State() == Run(handler.policy, w0, log')
    ensures log' == log + StartEvents(node.kind)
  {
    log' := log;
    match node.kind {
      case ElementNode(tag, attrs) =>
        RunConcat(handler.policy, w0, log, [Start(tag, attrs)]);
        RunOne(handler.policy, handler.State(), Start(tag, attrs));
        handler.Start(tag, attrs);
        log' := log + [Start(tag, attrs)];
      case TextKind(text) =>
        RunConcat(handler.policy, w0, log, [Chars(text)]);
        RunOne(handler.policy, handler.State(), Chars(text));
        handler.Chars(text);
        log' := log + [Chars(text)];
      case OtherKind =>
    }
  }

  /** From a finished node without a next sibling up to the next node to visit, or to the body. */
  method Climb(body: DomNode, finished: DomNode, handler: HtmlSanitizeWriter, ghost forest: seq<Tree>,
               ghost at: map<Path, DomNode>, ghost path0: Path, ghost log0: seq<Event>, ghost left: nat,
               ghost w0: Writer)
      returns (nextNode: DomNode?, ghost path: Path, ghost log: seq<Event>)
    requires Represents(body, forest, at)
    requires Leaving(forest, path0, log0, left) && at[path0] == finished
    requires handler.State() == Run(handler.policy, w0, log0)
    modifies handler
    ensures handler.State() == Run(handler.policy, w0, log)
    ensures nextNode == null ==> log == ForestEvents(forest)
    ensures nextNode != null ==> Entering(forest, path, log, left) && at[path] == nextNode
  {
    var node := finished;
    path, log := path0, log0;
    SiblingPointer(body, forest, at, path);
    nextNode := node.nextSibling;
    if nextNode != null {
      EnterSibling(forest, path, log, left);
      path := Front(path) + [Last(path) + 1];
    }
    while nextNode == null
      invariant handler.State() == Run(handler.policy, w0, log)
      invariant nextNode == null ==>
                  && Leaving(forest, path, log, left) && at[path] == node
                  && Last(path) + 1 == |Kids(forest, Front(path))|
      invariant nextNode != null ==> Entering(forest, path, log, left) && at[path] == nextNode
      decreases nextNode == null, |path|
    {
      ParentPointer(body, forest, at, path);
      LeaveParent(forest, path, log, left);
      path := Front(path);
      node := node.parentNode;
      if node == body {
        break;
      }
      SiblingPointer(body, forest, at, path);
      nextNode := node.nextSibling;
      HandleEnd(node, handler, log, w0);
      log := log + EndOf(forest, path);
      if nextNode != null {
        EnterSibling(forest, path, log, left);
        path := Front(path) + [Last(path) + 1];
      }
    }
  }

  /** A node without children ends at once. */
  method PassChildless(body: DomNode, node: DomNode, handler: HtmlSanitizeWriter, ghost forest: seq<Tree>,
                       ghost at: map<Path, DomNode>, ghost path0: Path, ghost log0: seq<Event>, ghost left: nat,
                       ghost w0: Writer)
      returns (nextNode: DomNode?, ghost path: Path, ghost log: seq<Event>)
    requires Represents(body, forest, at)
    requires Entering(forest, path0, log0, left) && at[path0] == node && node.firstChild == null
    requires handler.State() == Run(handler.policy, w0, log0 + Visit(Sub(forest, path0)))
    modifies handler
    ensures left > 0
    ensures handler.State() == Run(handler.policy, w0, log)
    ensures nextNode == null ==> log == ForestEvents(forest)
    ensures nextNode != null ==> Entering(forest, path, log, left - 1) && at[path] == nextNode
  {
    ChildPointer(body, forest, at, path0);
    LeaveChildless(forest, path0, log0, left);
    ghost var visited := log0 + Visit(Sub(forest, path0));
    HandleEnd(node, handler, visited, w0);
    nextNode, path, log := Climb(body, node, handler, forest, at, path0, visited + EndOf(forest, path0), left - 1, w0);
  }

  /**
   * The walk by firstChild, nextSibling and parentNode. Whatever the forest, the handler receives
   * the events of the recursive depth-first traversal, in that order and no others.
   */
  method HtmlParser(body: DomNode, handler: HtmlSanitizeWriter,
                    ghost forest: seq<Tree>, ghost at: map<Path, DomNode>)
    requires Represents(body, forest, at)
    modifies handler
    ensures handler.State() == Run(handler.policy, old(handler.State()), ForestEvents(forest))
  {
    ghost var w0 := handler.State();
    ghost var log: seq<Event> := [];
    ghost var path: Path := [0];
    ghost var left := ForestNodes(forest);
    var node := body.firstChild;
    ChildPointer(body, forest, at, []);
    if node != null {
      EnterForest(forest);
      assert [] + [0] == path;
    }
    while node != null
      invariant handler.State() == Run(handler.policy, w0, log)
      invariant node == null ==> log == ForestEvents(forest)
      invariant node != null ==> Entering(forest, path, log, left) && at[path] == node
      decreases node != null, left
    {
      ChildPointer(body, forest, at, path);
      ghost var before := log;
      log := HandleNode(node, handler, log, w0);
      assert log == before + Visit(Sub(forest, path));
      var nextNode := node.firstChild;
      if nextNode != null {
        EnterChild(forest, path, before, left);
        path := path + [0];
      } else {
        nextNode, path, log := PassChildless(body, node, handler, forest, at, path, before, left, w0);
      }
      left := left - 1;
      node := nextNode;
    }
  }

  /**
   * The service function: a fresh writer, the walk, and the joined buffer. The result is the
   * printed sanitized forest exactly when no blocked element leaks.
   */
  method SanitizeHtml(policy: Policy, body: DomNode, ghost forest: seq<Tree>, ghost at: map<Path, DomNode>)
      returns (html: Text)
    requires Represents(body, forest, at)
    ensures html == ForestPrinted(policy, forest)
    ensures html == Intended(policy, forest) <==> !ForestLeaky(policy, forest)
    ensures BlockedNotNested(policy, forest) ==> html == Intended(policy, forest)
  {
    var handler := new HtmlSanitizeWriter(policy);
    HtmlParser(body, handler, forest, at);
    html := Join(handler.buf);
    ForestRunPrints(policy, forest, []);
    WriterPrintsSanitizedForest(policy, forest);
    if BlockedNotNested(policy, forest) {
      NotNestedNotLeaky(policy, forest);
    }
  }

  /** For every forest, without further condition. */
  method SanitizeParsed(policy: Policy, forest: seq<Tree>) returns (html: Text)
    ensures html == ForestPrinted(policy, forest)
    ensures html == Intended(policy, forest) <==> !ForestLeaky(policy, forest)
    ensures BlockedNotNested(policy, forest) ==> html == Intended(policy, forest)
  {
    var body, at := BuildDocument(forest);
    html := SanitizeHtml(policy, body, forest, at);
  }
}
