/** Animated nodes, their nearest animated ancestors, and the row each belongs in. */
module AnimationForest {
  import opened Wrappers

  /**
   * A node of the document, as the child indices that lead to it from a root. Dropping the last
   * index gives the parent; a root has none.
   */
  type Node = seq<nat>

  function ParentNode(n: Node): Option<Node> {
    if |n| <= 1 then None else Some(n[..|n| - 1])
  }

  /** The nearest proper ancestor among `animated`. */
  function Nearest(n: Node, animated: set<Node>): Option<Node>
    decreases |n|
  {
    match ParentNode(n)
    case None => None
    case Some(p) => if p in animated then Some(p) else Nearest(p, animated)
  }

  /** The proper ancestors of a node. */
  function Ancestors(n: Node): set<Node>
    decreases |n|
  {
    match ParentNode(n)
    case None => {}
    case Some(p) => {p} + Ancestors(p)
  }

  /** How many distinct animated proper ancestors a node has. */
  function Level(n: Node, animated: set<Node>): nat {
    |Ancestors(n) * animated|
  }

  lemma {:induction false} AncestorsShorter(n: Node)
    ensures forall a :: a in Ancestors(n) ==> |a| < |n|
    decreases |n|
  {
    if ParentNode(n).Some? {
      AncestorsShorter(ParentNode(n).value);
    }
  }

  /** A node sits one row below its nearest animated ancestor, and in the first row without one. */
  lemma {:induction false} LevelOfNearest(n: Node, animated: set<Node>)
    ensures match Nearest(n, animated)
            case None => Level(n, animated) == 0
            case Some(a) => a in animated && |a| < |n| && Level(n, animated) == Level(a, animated) + 1
    decreases |n|
  {
    if ParentNode(n).Some? {
      var p := ParentNode(n).value;
      LevelOfNearest(p, animated);
      AncestorsShorter(p);
      if p in animated {
        assert Ancestors(n) * animated == {p} + Ancestors(p) * animated;
        assert p !in Ancestors(p);
      } else {
        assert Ancestors(n) * animated == Ancestors(p) * animated;
      }
    }
  }

  lemma {:induction false} AncestorsInclude(n: Node, a: Node)
    requires a in Ancestors(n)
    ensures {a} + Ancestors(a) <= Ancestors(n)
    decreases |n|
  {
    var p := ParentNode(n).value;
    if a != p {
      AncestorsInclude(p, a);
    }
  }

  /** An animated ancestor belongs in an earlier row. */
  lemma AncestorInEarlierRow(n: Node, a: Node, animated: set<Node>)
    requires a in Ancestors(n) && a in animated
    ensures Level(a, animated) < Level(n, animated)
  {
    AncestorsInclude(n, a);
    AncestorsShorter(a);
    var above := Ancestors(a) * animated;
    assert above + {a} <= Ancestors(n) * animated;
    SubsetCardinality(above + {a}, Ancestors(n) * animated);
  }

  lemma {:induction false} SubsetCardinality<T>(a: set<T>, b: set<T>)
    requires a <= b
    ensures |a| <= |b|
    decreases a
  {
    if a != {} {
      var x :| x in a;
      SubsetCardinality(a - {x}, b - {x});
    }
  }

  lemma {:induction false} BelowCardinality(s: set<nat>, n: nat)
    requires forall x :: x in s ==> x < n
    ensures |s| <= n
    decreases n
  {
    if n > 0 {
      BelowCardinality(s - {n - 1}, n - 1);
    } else {
      assert s == {};
    }
  }

  ghost predicate Distinct(s: seq<nat>) {
    forall i, j :: 0 <= i < j < |s| ==> s[i] != s[j]
  }

  ghost function Elements(s: seq<nat>): set<nat> {
    set x | x in s
  }

  lemma {:induction false} DistinctLength(s: seq<nat>)
    requires Distinct(s)
    ensures |Elements(s)| == |s|
  {
    if s != [] {
      var front, last := s[..|s| - 1], s[|s| - 1];
      DistinctLength(front);
      assert s == front + [last];
      assert Elements(s) == Elements(front) + {last};
    }
  }

  lemma DistinctConcat(s: seq<nat>, t: seq<nat>)
    requires Distinct(s) && Distinct(t) && forall x :: x in t ==> x !in s
    ensures Distinct(s + t)
  {
    forall i, j | 0 <= i < j < |s + t| ensures (s + t)[i] != (s + t)[j] {
      if i < |s| <= j {
        assert (s + t)[j] == t[j - |s|] && (s + t)[j] in t;
      }
    }
  }

  lemma DistinctBelow(s: seq<nat>, n: nat)
    requires Distinct(s) && forall x :: x in s ==> x < n
    ensures |s| <= n
  {
    DistinctLength(s);
    BelowCardinality(Elements(s), n);
  }
}

/** `sortAnimations` of angular-animate.js. */
module SortAnimations {
  import opened Wrappers
  import opened AnimationForest

  datatype Animation<F> = Animation(domNode: Node, fn: F)

  /** An entry of the tree is known by its position in the list of animations. */
  type Index = nat

  ghost function Nodes<F>(animations: seq<Animation<F>>): set<Node> {
    set i | 0 <= i < |animations| :: animations[i].domNode
  }

  /** The level of an animation's node. */
  ghost function LevelAt<F>(animations: seq<Animation<F>>, i: Index): nat {
    if i < |animations| then Level(animations[i].domNode, Nodes(animations)) else 0
  }

  function NearestFrom(from: Option<Node>, animated: set<Node>): Option<Node> {
    match from
    case None => None
    case Some(p) => if p in animated then Some(p) else Nearest(p, animated)
  }

  /** The variables of the loop in `flatten`. */
  datatype Sweeping = Sweeping(queue: seq<Index>, remaining: int, next: int, result: seq<seq<Index>>, row: seq<Index>)

  function Turn(children: seq<seq<Index>>, s: Sweeping, i: nat): Sweeping {
    if i < |s.queue| && s.queue[i] < |children| then
      var e := s.queue[i];
      var t := if s.remaining > 0 then s
               else s.(remaining := s.next, next := 0, result := s.result + [s.row], row := []);
      Sweeping(t.queue + children[e], t.remaining - 1, t.next + |children[e]|, t.result, t.row + [e])
    else s
  }

  class Sorter<F> {
    const animations: seq<Animation<F>>
    var lookup: map<Node, Index>
    var processed: seq<bool>
    var children: seq<seq<Index>>
    var roots: seq<Index>                          // the children of the tree's root
    ghost var parentOf: map<Index, Option<Index>>  // of the entries attached so far; None is the tree's root

    ghost predicate Valid()
      reads this
    {
      && |processed| == |children| == |animations|
      && lookup.Keys == Nodes(animations)
      && (forall n :: n in lookup ==> lookup[n] < |animations| && animations[lookup[n]].domNode == n)
      && (forall e :: e in parentOf ==> e < |animations| && processed[e] && WellPlaced(e))
      && Distinct(roots) && (forall e :: e in roots <==> e in parentOf && parentOf[e] == None)
      && (forall p :: 0 <= p < |children| ==> Distinct(children[p]))
      && (forall p, e :: 0 <= p < |children| ==> (e in children[p] <==> e in parentOf && parentOf[e] == Some(p)))
    }

    /** The parent of an attached entry holds the nearest animated ancestor of its node. */
    ghost predicate WellPlaced(e: Index)
      requires e in parentOf && e < |animations|
      reads this
    {
      var nearest := Nearest(animations[e].domNode, Nodes(animations));
      match parentOf[e]
      case None => nearest == None
      case Some(p) => p < |animations| && nearest == Some(animations[p].domNode)
    }

    /** Entries marked as processed whose place is still being looked for. */
    ghost function InProgress(): set<Index>
      requires |processed| == |animations|
      reads this
    {
      set e | 0 <= e < |animations| && processed[e] && e !in parentOf
    }

    constructor (animations: seq<Animation<F>>)
      ensures this.animations == animations && Valid() && InProgress() == {}
    {
      this.animations := animations;
      processed := seq(|animations|, _ => false);
      children := seq(|animations|, _ => []);
      roots, parentOf := [], map[];
      var filled: map<Node, Index> := map[];
      for i := 0 to |animations|
        invariant filled.Keys == set j | 0 <= j < i :: animations[j].domNode
        invariant forall n :: n in filled ==> filled[n] < |animations| && animations[filled[n]].domNode == n
      {
        filled := filled[animations[i].domNode := i];
      }
      lookup := filled;
    }

    /** The walk up the document to the entry of the nearest animated ancestor. */
    method FindParentEntry(elementNode: Node) returns (parentEntry: Option<Index>)
      requires Valid()
      ensures match parentEntry
              case None => Nearest(elementNode, Nodes(animations)) == None
              case Some(p) => p < |animations| && Nearest(elementNode, Nodes(animations)) == Some(animations[p].domNode)
                              && |animations[p].domNode| < |elementNode|
    {
      var parentNode := ParentNode(elementNode);
      while parentNode.Some?
        invariant Nearest(elementNode, Nodes(animations)) == NearestFrom(parentNode, Nodes(animations))
        invariant parentNode.Some? ==> |parentNode.value| < |elementNode|
        decreases if parentNode.Some? then |parentNode.value| + 1 else 0
      {
        if parentNode.value in lookup {
          return Some(lookup[parentNode.value]);
        }
        parentNode := ParentNode(parentNode.value);
      }
      parentEntry := None;
    }

    /** `(parentEntry || tree).children.push(entry)` */
    method Attach(e: Index, parent: Option<Index>)
      requires Valid() && e in InProgress()
      requires match parent
               case None => Nearest(animations[e].domNode, Nodes(animations)) == None
               case Some(p) => p < |animations|
                               && Nearest(animations[e].domNode, Nodes(animations)) == Some(animations[p].domNode)
      modifies this`children, this`roots, this`parentOf
      ensures Valid() && parentOf == old(parentOf)[e := parent]
    {
      match parent {
        case None => AttachToTree(e);
        case Some(p) => AttachTo(e, p);
      }
    }

    method AttachToTree(e: Index)
      requires Valid() && e in InProgress() && Nearest(animations[e].domNode, Nodes(animations)) == None
      modifies this`roots, this`parentOf
      ensures Valid() && parentOf == old(parentOf)[e := None]
    {
      DistinctConcat(roots, [e]);
      roots := roots + [e];
      parentOf := parentOf[e := None];
      forall i | i in parentOf ensures i < |animations| && processed[i] && WellPlaced(i) {
        assert i != e ==> old(WellPlaced(i));
      }
    }

    method AttachTo(e: Index, p: Index)
      requires Valid() && e in InProgress() && p < |animations|
      requires Nearest(animations[e].domNode, Nodes(animations)) == Some(animations[p].domNode)
      modifies this`children, this`parentOf
      ensures Valid() && parentOf == old(parentOf)[e := Some(p)]
    {
      DistinctConcat(children[p], [e]);
      children := children[p := children[p] + [e]];
      parentOf := parentOf[e := Some(p)];
      forall i | i in parentOf ensures i < |animations| && processed[i] && WellPlaced(i) {
        assert i != e ==> old(WellPlaced(i));
      }
    }

    /** `processNode`: the entry, and first its parent entry, are hung into the tree. */
    method ProcessNode(e: Index)
      requires Valid() && e < |animations| && !processed[e]
      modifies this
      decreases |animations[e].domNode|
      ensures Valid() && e in parentOf
      ensures InProgress() == old(InProgress())
      ensures forall i :: 0 <= i < |animations| && old(processed[i]) ==> processed[i]
    {
      Mark(e);
      var parentEntry := FindParentEntry(animations[e].domNode);
      if parentEntry.Some? && !processed[parentEntry.value] {
        ProcessNode(parentEntry.value);
      }
      Attach(e, parentEntry);
    }

    method Mark(e: Index)
      requires Valid() && e < |animations| && !processed[e]
      modifies this`processed, this`lookup
      ensures Valid() && processed == old(processed)[e := true]
      ensures lookup == old(lookup)[animations[e].domNode := e]
      ensures InProgress() == old(InProgress()) + {e}
    {
      processed := processed[e := true];
      lookup := lookup[animations[e].domNode := e];
      forall i | i in parentOf ensures i < |animations| && processed[i] && WellPlaced(i) {
        assert old(WellPlaced(i));
      }
    }

    /** Every entry hangs in the tree. */
    ghost predicate Complete()
      reads this
    {
      Valid() && forall e :: 0 <= e < |animations| ==> e in parentOf
    }

    method ProcessAll()
      requires Valid() && InProgress() == {}
      modifies this
      ensures Complete()
    {
      for i := 0 to |animations|
        invariant Valid() && InProgress() == {}
        invariant forall e :: 0 <= e < i ==> processed[e]
      {
        if !processed[i] {
          ProcessNode(i);
        }
      }
      forall e | 0 <= e < |animations| ensures e in parentOf {
        assert e !in InProgress();
      }
    }

    lemma ChildLevel(e: Index)
      requires Complete() && e < |animations|
      ensures match parentOf[e]
              case None => LevelAt(animations, e) == 0
              case Some(p) => p < |animations| && LevelAt(animations, e) == LevelAt(animations, p) + 1
                              && |animations[p].domNode| < |animations[e].domNode|
    {
      assert WellPlaced(e);
      LevelOfNearest(animations[e].domNode, Nodes(animations));
    }

    // ---------- flatten ----------

    /** The queue holds the roots and the children of its first `i` entries, each entry once. */
    ghost predicate QueueFits(queue: seq<Index>, i: nat)
      requires Complete() && i <= |queue|
      reads this
    {
      && Distinct(queue)
      && (forall e :: e in queue ==> e < |animations|)
      && (forall e :: 0 <= e < |animations| ==>
            (e in queue <==> parentOf[e] == None || parentOf[e].value in queue[..i]))
    }

    /** The levels in the queue: `current` up to position `i + remaining`, one more from there on. */
    ghost predicate LevelsFit(queue: seq<Index>, i: nat, remaining: nat, current: nat)
      requires i + remaining <= |queue|
      reads this
    {
      && (forall j :: i <= j < i + remaining ==> LevelAt(animations, queue[j]) == current)
      && (forall j :: i + remaining <= j < |queue| ==> LevelAt(animations, queue[j]) == current + 1)
    }

    /** The rows finished so far, and the one under way. */
    ghost predicate RowsFit(queue: seq<Index>, i: nat, order: seq<seq<Index>>, row: seq<Index>)
      requires i <= |queue|
      reads this
    {
      && (forall k :: 0 <= k < |order| ==> Distinct(order[k]) && order[k] != [])
      && Distinct(row)
      && (forall k, e :: 0 <= k < |order| ==> (e in order[k] <==> e in queue[..i] && LevelAt(animations, e) == k))
      && (forall e: Index :: e in row <==> e in queue[..i] && LevelAt(animations, e) == |order|)
      && (forall e :: e in queue[..i] ==> LevelAt(animations, e) <= |order|)
    }

    lemma ChildrenFresh(queue: seq<Index>, i: nat)
      requires Complete() && i < |queue| && queue[i] < |animations| && QueueFits(queue, i)
      ensures forall c :: c in children[queue[i]] ==>
                c !in queue && c < |animations| && LevelAt(animations, c) == LevelAt(animations, queue[i]) + 1
    {
      var e := queue[i];
      assert e !in queue[..i];
      forall c: Index | c in children[e]
        ensures c !in queue && c < |animations| && LevelAt(animations, c) == LevelAt(animations, e) + 1
      {
        assert c in parentOf && parentOf[c] == Some(e);
        ChildLevel(c);
      }
    }

    /** One entry is taken from the queue, and its children join. */
    lemma TakeEntry(queue: seq<Index>, i: nat)
      requires Complete() && i < |queue| && queue[i] < |animations| && QueueFits(queue, i)
      ensures QueueFits(queue + children[queue[i]], i + 1)
    {
      var e, more := queue[i], queue + children[queue[i]];
      ChildrenFresh(queue, i);
      DistinctConcat(queue, children[e]);
      assert queue[..i + 1] == queue[..i] + [e] && more[..i + 1] == queue[..i + 1];
      forall x: Index | x < |animations|
        ensures x in more <==> parentOf[x] == None || parentOf[x].value in more[..i + 1]
      {
        assert x in more <==> x in queue || x in children[e];
        assert x in children[e] <==> parentOf[x] == Some(e);
        assert x in queue <==> parentOf[x] == None || parentOf[x].value in queue[..i];
      }
    }

    lemma LevelsAfterEntry(queue: seq<Index>, i: nat, remaining: nat, current: nat, more: seq<Index>)
      requires remaining > 0 && i + remaining <= |queue| && LevelsFit(queue, i, remaining, current)
      requires forall c :: c in more ==> LevelAt(animations, c) == current + 1
      ensures LevelAt(animations, queue[i]) == current
      ensures LevelsFit(queue + more, i + 1, remaining - 1, current)
    {
    }

    lemma RowAfterEntry(queue: seq<Index>, i: nat, order: seq<seq<Index>>, row: seq<Index>, more: seq<Index>)
      requires i < |queue| && Distinct(queue) && RowsFit(queue, i, order, row)
      requires LevelAt(animations, queue[i]) == |order|
      ensures RowsFit(queue + more, i + 1, order, row + [queue[i]])
    {
      assert queue[..i + 1] == queue[..i] + [queue[i]] && (queue + more)[..i + 1] == queue[..i + 1];
      assert queue[i] !in queue[..i];
    }

    /** The level is used up: its row is finished. */
    lemma RowFinished(queue: seq<Index>, i: nat, order: seq<seq<Index>>, row: seq<Index>)
      requires i <= |queue| && RowsFit(queue, i, order, row) && row != [] && LevelsFit(queue, i, 0, |order|)
      ensures RowsFit(queue, i, order + [row], []) && LevelsFit(queue, i, |queue| - i, |order| + 1)
    {
    }

    lemma {:induction false} EntryReached(queue: seq<Index>, e: Index)
      requires Complete() && QueueFits(queue, |queue|) && e < |animations|
      ensures e in queue
      decreases |animations[e].domNode|
    {
      ChildLevel(e);
      assert queue[..|queue|] == queue;
      if parentOf[e].Some? {
        EntryReached(queue, parentOf[e].value);
      }
    }

    /** The state of the sweep: position `i`, what remains of the level, finished rows, current row. */
    ghost predicate Sweep(queue: seq<Index>, i: nat, remaining: nat, order: seq<seq<Index>>, row: seq<Index>)
      reads this
    {
      && Complete() && i + remaining <= |queue|
      && QueueFits(queue, i) && LevelsFit(queue, i, remaining, |order|) && RowsFit(queue, i, order, row)
    }

    lemma SweepStarts()
      requires Complete()
      ensures Consistent(Sweeping(roots, |roots|, 0, [], []), 0)
    {
      forall e | e in roots ensures LevelAt(animations, e) == 0 {
        ChildLevel(e);
      }
    }

    lemma SweepLevel(queue: seq<Index>, i: nat, order: seq<seq<Index>>, row: seq<Index>)
      requires Sweep(queue, i, 0, order, row) && row != []
      ensures Sweep(queue, i, |queue| - i, order + [row], [])
    {
      RowFinished(queue, i, order, row);
    }

    lemma SweepEntry(queue: seq<Index>, i: nat, remaining: nat, order: seq<seq<Index>>, row: seq<Index>)
      requires Sweep(queue, i, remaining, order, row) && remaining > 0
      ensures i < |animations| && queue[i] < |animations|
      ensures Sweep(queue + children[queue[i]], i + 1, remaining - 1, order, row + [queue[i]])
    {
      DistinctBelow(queue, |animations|);
      assert queue[i] in queue;
      TakeEntry(queue, i);
      ChildrenFresh(queue, i);
      LevelsAfterEntry(queue, i, remaining, |order|, children[queue[i]]);
      RowAfterEntry(queue, i, order, row, children[queue[i]]);
    }

    lemma FullRowsAreLevels(queue: seq<Index>, order: seq<seq<Index>>)
      requires Complete() && QueueFits(queue, |queue|) && RowsFit(queue, |queue|, order, [])
      ensures Levelled(animations, order)
    {
      assert queue[..|queue|] == queue;
      forall e: Index | e < |animations| ensures e in queue && LevelAt(animations, e) < |order| {
        EntryReached(queue, e);
        assert e !in [];
      }
      forall k, e: Index | 0 <= k < |order|
        ensures e in order[k] <==> e < |animations| && LevelAt(animations, e) == k
      {
        assert e in order[k] <==> e in queue && LevelAt(animations, e) == k;
      }
    }

    /** The queue is exhausted, so the rows hold every entry at its level. */
    lemma EndSorts(queue: seq<Index>, order: seq<seq<Index>>, row: seq<Index>)
      requires Sweep(queue, |queue|, 0, order, row)
      ensures Levelled(animations, if row != [] then order + [row] else order)
    {
      if row != [] {
        RowFinished(queue, |queue|, order, row);
        FullRowsAreLevels(queue, order + [row]);
      } else {
        FullRowsAreLevels(queue, order);
      }
    }

    /** The loop's variables after `i` turns. */
    ghost function Turns(i: nat): Sweeping
      reads this
    {
      if i == 0 then Sweeping(roots, |roots|, 0, [], []) else Turn(children, Turns(i - 1), i - 1)
    }

    /** The variables agree with each other after `i` turns. */
    ghost predicate Consistent(s: Sweeping, i: nat)
      reads this
    {
      && s.remaining >= 0 && s.next >= 0 && |s.queue| == i + s.remaining + s.next
      && Complete() && Sweep(s.queue, i, s.remaining, s.result, s.row)
      && (if i > 0 then s.row != [] else s.next == 0)
    }

    lemma TurnOnLevel(s: Sweeping, i: nat)
      requires Consistent(s, i) && i < |s.queue| && s.remaining > 0
      ensures Consistent(Turn(children, s, i), i + 1)
    {
      SweepEntry(s.queue, i, s.remaining, s.result, s.row);
    }

    lemma TurnOnNextLevel(s: Sweeping, i: nat)
      requires Consistent(s, i) && i < |s.queue| && s.remaining == 0
      ensures Consistent(Turn(children, s, i), i + 1)
    {
      SweepLevel(s.queue, i, s.result, s.row);
      SweepEntry(s.queue, i, s.next, s.result + [s.row], []);
    }

    lemma TurnConsistent(s: Sweeping, i: nat)
      requires Consistent(s, i) && i < |s.queue|
      ensures Consistent(Turn(children, s, i), i + 1)
    {
      if s.remaining == 0 {
        TurnOnNextLevel(s, i);
      } else {
        TurnOnLevel(s, i);
      }
    }

    /** The loop takes its first `i` turns: it was not over before any of them. */
    ghost predicate Reached(i: nat)
      reads this
    {
      i == 0 || (Reached(i - 1) && i <= |Turns(i - 1).queue|)
    }

    lemma FirstTurn(i: nat)
      requires Complete() && i == 0
      ensures Consistent(Turns(i), i)
    {
      SweepStarts();
      assert Turns(i) == Sweeping(roots, |roots|, 0, [], []);
    }

    lemma NextTurn(i: nat, s: Sweeping, t: Sweeping)
      requires i > 0 && s == Turns(i - 1) && t == Turns(i) && Consistent(s, i - 1) && i <= |s.queue|
      ensures Consistent(t, i)
    {
      TurnConsistent(s, i - 1);
      assert t == Turn(children, s, i - 1);
    }

    lemma {:induction false} TurnsConsistent(i: nat)
      requires Complete() && Reached(i)
      ensures Consistent(Turns(i), i)
    {
      if i == 0 {
        FirstTurn(i);
      } else {
        TurnsConsistent(i - 1);
        NextTurn(i, Turns(i - 1), Turns(i));
      }
    }

    lemma TurnsBounded(i: nat)
      requires Complete() && Reached(i)
      ensures i <= |Turns(i).queue| <= |animations|
      ensures i < |Turns(i).queue| ==> Turns(i).queue[i] < |animations|
    {
      TurnsConsistent(i);
      DistinctBelow(Turns(i).queue, |animations|);
      if i < |Turns(i).queue| {
        assert Turns(i).queue[i] in Turns(i).queue;
      }
    }

    lemma TurnsEnd(i: nat)
      requires Complete() && Reached(i) && i == |Turns(i).queue|
      ensures Levelled(animations, if Turns(i).row != [] then Turns(i).result + [Turns(i).row] else Turns(i).result)
    {
      TurnsConsistent(i);
      EndSorts(Turns(i).queue, Turns(i).result, Turns(i).row);
    }

    /** The rows, as entries; `Sort` puts in each entry's function. */
    method Flatten() returns (result: seq<seq<Index>>)
      requires Complete()
      ensures Levelled(animations, result)
    {
      result := [];
      var queue: seq<Index> := roots;
      var remainingLevelEntries := |queue|;
      var nextLevelEntries := 0;
      var row: seq<Index> := [];
      var i := 0;
      TurnsBounded(0);
      while i < |queue|
        invariant i <= |queue| <= |animations| && (i < |queue| ==> queue[i] < |animations|)
        invariant Reached(i)
        invariant Turns(i) == Sweeping(queue, remainingLevelEntries, nextLevelEntries, result, row)
        decreases |animations| - i
      {
        ghost var before := Turns(i);
        var entry := queue[i];
        if remainingLevelEntries <= 0 {
          remainingLevelEntries := nextLevelEntries;
          nextLevelEntries := 0;
          result := result + [row];
          row := [];
        }
        row := row + [entry];
        nextLevelEntries := nextLevelEntries + |children[entry]|;
        queue := queue + children[entry];
        remainingLevelEntries := remainingLevelEntries - 1;
        assert Turn(children, before, i) == Sweeping(queue, remainingLevelEntries, nextLevelEntries, result, row);
        i := i + 1;
        TurnsBounded(i);
      }
      TurnsEnd(i);
      if |row| > 0 {
        result := result + [row];
      }
    }
  }

  /** Entry `e` stands in row LevelAt(e), once; no row is empty. */
  ghost predicate Levelled<F>(animations: seq<Animation<F>>, order: seq<seq<Index>>) {
    && (forall k :: 0 <= k < |order| ==> order[k] != [] && Distinct(order[k]))
    && (forall k, e: Index :: 0 <= k < |order| ==> (e in order[k] <==> e < |animations| && LevelAt(animations, e) == k))
    && (forall e: Index :: e < |animations| ==> LevelAt(animations, e) < |order|)
  }

  function FunctionsOf<F>(animations: seq<Animation<F>>, row: seq<Index>): seq<F>
    requires forall j :: 0 <= j < |row| ==> row[j] < |animations|
  {
    seq(|row|, j requires 0 <= j < |row| => animations[row[j]].fn)
  }

  /**
   * `sortAnimations`: row `k` calls the functions of exactly the animations whose node has `k` distinct
   * animated proper ancestors, each animation once, in whatever order the list names them.
   */
  method Sort<F>(animations: seq<Animation<F>>) returns (rows: seq<seq<F>>, ghost order: seq<seq<Index>>)
    ensures Levelled(animations, order) && |rows| == |order|
    ensures forall k :: 0 <= k < |rows| ==>
              && |rows[k]| == |order[k]|
              && (forall j :: 0 <= j < |rows[k]| ==>
                    order[k][j] < |animations| && rows[k][j] == animations[order[k][j]].fn)
    ensures rows == [] <==> animations == []
  {
    var sorter := new Sorter(animations);
    sorter.ProcessAll();
    var result := sorter.Flatten();
    order := result;
    forall k, j | 0 <= k < |order| && 0 <= j < |order[k]| ensures order[k][j] < |animations| {
      var e := order[k][j];
      assert e in order[k] && LevelAt(animations, e) == k;
    }
    rows := seq(|result|, k requires 0 <= k < |result| => FunctionsOf(animations, result[k]));
    if animations != [] {
      assert LevelAt(animations, 0) < |order|;
    }
    if rows != [] {
      assert order[0][0] in order[0];
    }
  }

  /** So a parent's function is always called in an earlier row than its descendants'. */
  lemma ParentsRunEarlier<F>(animations: seq<Animation<F>>, order: seq<seq<Index>>, k: nat, l: nat,
                             parent: Index, child: Index)
    requires Levelled(animations, order) && k < |order| && l < |order|
    requires parent < |animations| && child < |animations|
    requires parent in order[k] && child in order[l]
    requires animations[parent].domNode in Ancestors(animations[child].domNode)
    ensures k < l
  {
    assert animations[parent].domNode in Nodes(animations);
    assert LevelAt(animations, parent) == k && LevelAt(animations, child) == l;
    AncestorInEarlierRow(animations[child].domNode, animations[parent].domNode, Nodes(animations));
  }
}
