/** Whether an element may animate: what the service knows about the elements above it. */
module AllowedSpec {
  import opened Wrappers

  /** A setting that may never have been made. */
  datatype Flag = Undefined | Is(value: bool)

  type Node = nat

  /**
   * The document and the service's tables. `rank` falls along parent and pin links, so that no chain
   * of them goes round in a circle.
   */
  datatype World = World(
    parent: map<Node, Node>,
    pin: map<Node, Node>,
    nonElements: set<Node>,           // the #document node and its like
    rootElement: Node,
    bodyElement: Node,
    htmlElements: set<Node>,          // elements named HTML
    disabled: map<Node, bool>,        // disabledElementsLookup
    structural: set<Node>,            // elements with a structural animation
    animateChildren: map<Node, bool>, // the data of ng-animate-children
    rank: map<Node, nat>)
  {
    function Parent(n: Node): Option<Node> {
      if n in parent then Some(parent[n]) else None
    }

    function Disabled(n: Node): Flag {
      if n in disabled then Is(disabled[n]) else Undefined
    }

    function Rank(n: Node): nat {
      if n in rank then rank[n] else 0
    }

    ghost predicate Acyclic() {
      && (forall n :: n in parent ==> Rank(parent[n]) < Rank(n))
      && (forall n :: n in pin ==> Rank(pin[n]) < Rank(n))
    }
  }

  function Pinned(w: World, n: Node): Option<Node> {
    if n in w.pin then Some(w.pin[n]) else w.Parent(n)
  }

  /** The next element up: a pin is followed only while the root has not been met. */
  function Up(w: World, n: Node, rootFound: bool): Option<Node> {
    if rootFound then w.Parent(n) else Pinned(w, n)
  }

  /**
   * The elements above, from `from` on, as far as they matter: up to a node that is not an element, or
   * up to the one at which both the root and the body have been met.
   */
  ghost function Chain(w: World, from: Option<Node>, rootFound: bool, bodyFound: bool): seq<Node>
    requires w.Acyclic()
    decreases from.Some?, if from.Some? then w.Rank(from.value) else 0
  {
    if from.None? then []
    else
      var n := from.value;
      var root := rootFound || n == w.rootElement;
      var body := bodyFound || n == w.bodyElement;
      if n in w.nonElements || (root && body) then [n]
      else
        var next := if !root && n in w.pin then Some(w.pin[n])
                    else if n in w.parent then Some(w.parent[n])
                    else None;
        [n] + Chain(w, next, root, body)
  }

  /** The elements of a chain: all of it but a last node that is none. */
  function Elements(w: World, chain: seq<Node>): seq<Node> {
    if chain != [] && chain[|chain| - 1] in w.nonElements then chain[..|chain| - 1] else chain
  }

  // ---------- The rule ----------

  /** The position of the first structurally animating element, or the length of the chain. */
  function FirstStructural(w: World, elements: seq<Node>): (i: nat)
    ensures i <= |elements|
    ensures forall j :: 0 <= j < i ==> elements[j] !in w.structural
    ensures i < |elements| ==> elements[i] in w.structural
  {
    if elements == [] || elements[0] in w.structural then 0 else 1 + FirstStructural(w, elements[1..])
  }

  /** The elements whose enabled and disabled flags count. */
  function Flagged(w: World, elements: seq<Node>): seq<Node> {
    var i := FirstStructural(w, elements);
    if i < |elements| then elements[..i + 1] else elements
  }

  ghost predicate DisablesAt(w: World, elements: seq<Node>, i: nat) {
    && i < |elements| && elements[i] in w.disabled && w.disabled[elements[i]]
    && forall j :: 0 <= j < i ==> elements[j] in w.disabled ==> w.disabled[elements[j]]
  }

  /** Some element in the list is disabled and none before it is enabled. */
  ghost predicate ClosestFlagDisables(w: World, elements: seq<Node>) {
    exists i: nat :: DisablesAt(w, elements, i)
  }

  ghost predicate SomeFlag(w: World, elements: seq<Node>, flag: bool) {
    exists i :: 0 <= i < |elements| && elements[i] in w.disabled && w.disabled[elements[i]] == flag
  }

  ghost predicate ChildrenSet(w: World, elements: seq<Node>, flag: bool) {
    exists i :: 0 <= i < |elements| && elements[i] in w.animateChildren && w.animateChildren[elements[i]] == flag
  }

  /** Disabled with the flag `own`: by itself or by the closest flag above, if nothing closer enables. */
  ghost predicate IsDisabled(w: World, own: Flag, flagged: seq<Node>) {
    match own
    case Is(flag) =>
      flag && (ClosestFlagDisables(w, flagged) || !SomeFlag(w, flagged, false))
    case Undefined => ClosestFlagDisables(w, flagged)
  }

  ghost predicate HasStructural(w: World, elements: seq<Node>) {
    FirstStructural(w, elements) < |elements|
  }

  function Start(w: World, element: Node, parentElement: Option<Node>): Option<Node> {
    if element in w.pin then Some(w.pin[element]) else parentElement
  }

  /**
   * The rule. Neither the element nor the closest flag above disables it; a structural animation above
   * is tolerated only if animate-children is true somewhere and false nowhere; root and body are above.
   */
  ghost predicate Allowed(w: World, element: Node, parentElement: Option<Node>)
    requires w.Acyclic()
  {
    var root0 := element == w.rootElement;
    var body0 := element == w.bodyElement || element in w.htmlElements;
    var chain := Chain(w, if element in w.pin then Some(w.pin[element]) else parentElement, root0, body0);
    var elements := Elements(w, chain);
    var own := if element in w.disabled then Is(w.disabled[element]) else Undefined;
    && !IsDisabled(w, own, Flagged(w, elements))
    && (HasStructural(w, elements) ==> ChildrenSet(w, elements, true) && !ChildrenSet(w, elements, false))
    && (root0 || w.rootElement in chain)
    && (body0 || w.bodyElement in elements)
  }

  // ---------- The rule, read off element by element ----------

  function ChildrenAfter(w: World, animateChildren: Flag, n: Node): Flag {
    if animateChildren != Is(false) && n in w.animateChildren then Is(w.animateChildren[n]) else animateChildren
  }

  /** The verdict over the elements left, given what was seen below them. */
  predicate Judge(w: World, elements: seq<Node>, own: Flag, structuralSeen: bool, animateChildren: Flag)
    decreases elements
  {
    if elements == [] then (!structuralSeen || animateChildren == Is(true)) && own != Is(true)
    else
      var n := elements[0];
      var flag := if structuralSeen then Undefined else w.Disabled(n);
      var own' := if flag == Is(false) then Is(false) else own;
      var seen' := structuralSeen || n in w.structural;
      var children' := ChildrenAfter(w, animateChildren, n);
      && !(flag == Is(true) && own != Is(false))
      && !(seen' && children' == Is(false))
      && Judge(w, elements[1..], own', seen', children')
  }

  /** The rule over the elements left. */
  ghost predicate Rule(w: World, elements: seq<Node>, own: Flag, structuralSeen: bool, animateChildren: Flag) {
    && (if structuralSeen then own != Is(true) else !IsDisabled(w, own, Flagged(w, elements)))
    && (structuralSeen || HasStructural(w, elements) ==>
          && animateChildren != Is(false) && !ChildrenSet(w, elements, false)
          && (animateChildren == Is(true) || ChildrenSet(w, elements, true)))
  }

  lemma FlaggedHead(w: World, elements: seq<Node>)
    requires elements != []
    ensures Flagged(w, elements)
         == [elements[0]] + if elements[0] in w.structural then [] else Flagged(w, elements[1..])
    ensures HasStructural(w, elements) <==> elements[0] in w.structural || HasStructural(w, elements[1..])
  {
    assert elements == [elements[0]] + elements[1..];
    var i := FirstStructural(w, elements[1..]);
    if elements[0] !in w.structural && i < |elements[1..]| {
      assert elements[..i + 2] == [elements[0]] + elements[1..][..i + 1];
    }
  }

  lemma ChildrenSetHead(w: World, elements: seq<Node>, flag: bool)
    requires elements != []
    ensures ChildrenSet(w, elements, flag) <==>
              (elements[0] in w.animateChildren && w.animateChildren[elements[0]] == flag)
              || ChildrenSet(w, elements[1..], flag)
  {
    if ChildrenSet(w, elements[1..], flag) {
      var rest := elements[1..];
      var i :| 0 <= i < |rest| && rest[i] in w.animateChildren && w.animateChildren[rest[i]] == flag;
      assert elements[i + 1] == rest[i];
    }
    if ChildrenSet(w, elements, flag) {
      var i :| 0 <= i < |elements| && elements[i] in w.animateChildren && w.animateChildren[elements[i]] == flag;
      if i > 0 {
        assert elements[1..][i - 1] == elements[i];
      }
    }
  }

  lemma ClosestFlagHead(w: World, elements: seq<Node>)
    requires elements != []
    ensures ClosestFlagDisables(w, elements) <==>
              w.Disabled(elements[0]) == Is(true)
              || (w.Disabled(elements[0]) != Is(false) && ClosestFlagDisables(w, elements[1..]))
  {
    var rest := elements[1..];
    assert forall i :: 0 <= i < |rest| ==> elements[i + 1] == rest[i];
    if w.Disabled(elements[0]) == Is(true) {
      assert DisablesAt(w, elements, 0);
    } else if w.Disabled(elements[0]) != Is(false) && ClosestFlagDisables(w, rest) {
      var i: nat :| DisablesAt(w, rest, i);
      assert DisablesAt(w, elements, i + 1);
    }
    if ClosestFlagDisables(w, elements) {
      var i: nat :| DisablesAt(w, elements, i);
      if i > 0 {
        assert forall j :: 0 <= j < i - 1 ==> w.Disabled(rest[j]) == w.Disabled(elements[j + 1]);
        assert DisablesAt(w, rest, i - 1);
      }
    }
  }

  lemma SomeFlagHead(w: World, elements: seq<Node>, flag: bool)
    requires elements != []
    ensures SomeFlag(w, elements, flag) <==>
              w.Disabled(elements[0]) == Is(flag) || SomeFlag(w, elements[1..], flag)
  {
    var rest := elements[1..];
    assert forall i :: 0 <= i < |rest| ==> elements[i + 1] == rest[i];
    if SomeFlag(w, elements, flag) {
      var i :| 0 <= i < |elements| && w.Disabled(elements[i]) == Is(flag);
      assert i > 0 ==> w.Disabled(rest[i - 1]) == Is(flag);
    }
  }

  lemma {:induction false} JudgeIsRule(w: World, elements: seq<Node>, own: Flag, structuralSeen: bool,
                                       animateChildren: Flag)
    ensures Judge(w, elements, own, structuralSeen, animateChildren)
            <==> Rule(w, elements, own, structuralSeen, animateChildren)
    decreases elements
  {
    if elements != [] {
      var n := elements[0];
      var flag := if structuralSeen then Undefined else w.Disabled(n);
      var own' := if flag == Is(false) then Is(false) else own;
      JudgeIsRule(w, elements[1..], own', structuralSeen || n in w.structural, ChildrenAfter(w, animateChildren, n));
      FlaggedHead(w, elements);
      ChildrenSetHead(w, elements, true);
      ChildrenSetHead(w, elements, false);
      var flagged := Flagged(w, elements);
      assert flagged[1..] == if n in w.structural then [] else Flagged(w, elements[1..]);
      ClosestFlagHead(w, flagged);
      SomeFlagHead(w, flagged, false);
    }
  }

  lemma AllowedIsJudged(w: World, element: Node, parentElement: Option<Node>)
    requires w.Acyclic()
    ensures var root0 := element == w.rootElement;
            var body0 := element == w.bodyElement || element in w.htmlElements;
            var chain := Chain(w, Start(w, element, parentElement), root0, body0);
            Allowed(w, element, parentElement) <==>
              && Judge(w, Elements(w, chain), w.Disabled(element), false, Undefined)
              && (root0 || w.rootElement in chain)
              && (body0 || w.bodyElement in Elements(w, chain))
  {
    var root0 := element == w.rootElement;
    var body0 := element == w.bodyElement || element in w.htmlElements;
    var chain := Chain(w, Start(w, element, parentElement), root0, body0);
    JudgeIsRule(w, Elements(w, chain), w.Disabled(element), false, Undefined);
  }
}

/** `areAnimationsAllowed` of angular-animate.js. */
module AnimationsAllowed {
  import opened Wrappers
  import opened AllowedSpec

  /** The variables of the loop. */
  datatype Seen = Seen(root: bool, body: bool, own: Flag, structural: bool, children: Flag)

  function FlagAt(w: World, s: Seen, n: Node): Flag {
    if s.structural then Undefined else w.Disabled(n)
  }

  function See(w: World, s: Seen, n: Node): Seen {
    Seen(s.root || n == w.rootElement,
         s.body || n == w.bodyElement,
         if FlagAt(w, s, n) == Is(false) then Is(false) else s.own,
         s.structural || n in w.structural,
         ChildrenAfter(w, s.children, n))
  }

  predicate Refused(w: World, s: Seen, n: Node) {
    || (FlagAt(w, s, n) == Is(true) && s.own != Is(false))
    || (See(w, s, n).structural && See(w, s, n).children == Is(false))
  }

  /** The verdict with no element left to look at. */
  predicate Final(s: Seen) {
    (!s.structural || s.children == Is(true)) && s.own != Is(true) && s.root && s.body
  }

  predicate Verdict(w: World, s: Seen, chain: seq<Node>) {
    && Judge(w, Elements(w, chain), s.own, s.structural, s.children)
    && (s.root || w.rootElement in chain)
    && (s.body || w.bodyElement in Elements(w, chain))
  }

  /** What the loop still decides, from `parentElement` on. */
  ghost predicate Outcome(w: World, parentElement: Option<Node>, s: Seen)
    requires w.Acyclic()
  {
    Verdict(w, s, Chain(w, parentElement, s.root, s.body))
  }

  lemma VerdictHead(w: World, s: Seen, n: Node, above: seq<Node>)
    requires n !in w.nonElements
    ensures Verdict(w, s, [n] + above) <==> !Refused(w, s, n) && Verdict(w, See(w, s, n), above)
  {
    var chain := [n] + above;
    if above != [] {
      assert chain[|above|] == above[|above| - 1];
      assert chain[..|above|] == [n] + above[..|above| - 1];
    }
    var elements := Elements(w, above);
    assert Elements(w, chain) == [n] + elements;
    assert ([n] + elements)[1..] == elements;
  }

  lemma VerdictNone(w: World, s: Seen)
    ensures Verdict(w, s, []) <==> Final(s)
  {
  }

  /** What looking at one more node decides, or leaves to the nodes above it. */
  lemma OutcomeAt(w: World, n: Node, s: Seen)
    requires w.Acyclic()
    ensures var t := See(w, s, n);
            Outcome(w, Some(n), s) <==>
              if n in w.nonElements then Final(s.(root := t.root))
              else if Refused(w, s, n) then false
              else if t.root && t.body then Final(t)
              else Outcome(w, Up(w, n, t.root), t)
  {
    var chain := Chain(w, Some(n), s.root, s.body);
    var t := See(w, s, n);
    if n in w.nonElements {
      assert chain == [n] && Elements(w, chain) == [];
    } else if t.root && t.body {
      assert chain == [n] + [];
      VerdictHead(w, s, n, []);
      VerdictNone(w, t);
    } else {
      VerdictHead(w, s, n, Chain(w, Up(w, n, t.root), t.root, t.body));
    }
  }

  /** The walk as a recursion over the nodes above. */
  ghost predicate Walk(w: World, from: Option<Node>, s: Seen)
    requires w.Acyclic()
    decreases from.Some?, if from.Some? then w.Rank(from.value) else 0
  {
    if from.None? then Final(s)
    else
      var n := from.value;
      var t := See(w, s, n);
      if n in w.nonElements then Final(s.(root := t.root))
      else if Refused(w, s, n) then false
      else if t.root && t.body then Final(t)
      else Walk(w, Up(w, n, t.root), t)
  }

  lemma {:induction false} WalkIsOutcome(w: World, from: Option<Node>, s: Seen)
    requires w.Acyclic()
    ensures Walk(w, from, s) <==> Outcome(w, from, s)
    decreases from.Some?, if from.Some? then w.Rank(from.value) else 0
  {
    match from
    case None => VerdictNone(w, s);
    case Some(n) =>
      var t := See(w, s, n);
      OutcomeAt(w, n, s);
      if !(n in w.nonElements || Refused(w, s, n) || (t.root && t.body)) {
        WalkIsOutcome(w, Up(w, n, t.root), t);
      }
  }

  function Below(w: World, element: Node): Seen {
    Seen(element == w.rootElement, element == w.bodyElement || element in w.htmlElements,
         w.Disabled(element), false, Undefined)
  }

  lemma UpLowers(w: World, n: Node, rootFound: bool)
    requires w.Acyclic()
    ensures Up(w, n, rootFound).Some? ==> w.Rank(Up(w, n, rootFound).value) < w.Rank(n)
  {
  }

  /** The loop up the parents and pins, with its early exits. */
  method WalkUp(w: World, element: Node, parentElement0: Option<Node>) returns (allowed: bool)
    requires w.Acyclic()
    ensures allowed <==> Walk(w, Start(w, element, parentElement0), Below(w, element))
  {
    var bodyElementDetected := element == w.bodyElement || element in w.htmlElements;
    var rootElementDetected := element == w.rootElement;
    var parentAnimationDetected := false;
    var animateChildren := Undefined;
    var elementDisabled := w.Disabled(element);
    var parentElement := Start(w, element, parentElement0);
    ghost var s := Below(w, element);
    ghost var decided := Walk(w, parentElement, s);
    while parentElement.Some?
      invariant s == Seen(rootElementDetected, bodyElementDetected, elementDisabled, parentAnimationDetected,
                          animateChildren)
      invariant decided <==> Walk(w, parentElement, s)
      decreases parentElement.Some?, if parentElement.Some? then w.Rank(parentElement.value) else 0
    {
      var parentNode := parentElement.value;
      ghost var t := See(w, s, parentNode);
      UpLowers(w, parentNode, t.root);
      if !rootElementDetected {
        rootElementDetected := parentNode == w.rootElement;
      }
      if parentNode in w.nonElements {
        break;
      }
      if !parentAnimationDetected {
        var parentElementDisabled := w.Disabled(parentNode);
        if parentElementDisabled == Is(true) && elementDisabled != Is(false) {
          elementDisabled := Is(true);
          break;
        } else if parentElementDisabled == Is(false) {
          elementDisabled := Is(false);
        }
        parentAnimationDetected := parentNode in w.structural;
      }
      if animateChildren.Undefined? || animateChildren == Is(true) {
        if parentNode in w.animateChildren {
          animateChildren := Is(w.animateChildren[parentNode]);
        }
      }
      if parentAnimationDetected && animateChildren == Is(false) {
        break;
      }
      if !bodyElementDetected {
        bodyElementDetected := parentNode == w.bodyElement;
      }
      if bodyElementDetected && rootElementDetected {
        break;
      }
      assert t == Seen(rootElementDetected, bodyElementDetected, elementDisabled, parentAnimationDetected,
                       animateChildren);
      s := t;
      if !rootElementDetected && parentNode in w.pin {
        parentElement := Some(w.pin[parentNode]);
        continue;
      }
      parentElement := w.Parent(parentNode);
    }
    var allowAnimation := (!parentAnimationDetected || animateChildren == Is(true)) && elementDisabled != Is(true);
    allowed := allowAnimation && rootElementDetected && bodyElementDetected;
  }

  /**
   * The service function. It always ends, and decides exactly the rule, whatever the flags of the
   * element and of the elements above it.
   */
  method AreAnimationsAllowed(w: World, element: Node, parentElement: Option<Node>) returns (allowed: bool)
    requires w.Acyclic()
    ensures allowed <==> Allowed(w, element, parentElement)
  {
    allowed := WalkUp(w, element, parentElement);
    AllowedIsJudged(w, element, parentElement);
    WalkIsOutcome(w, Start(w, element, parentElement), Below(w, element));
  }
}
