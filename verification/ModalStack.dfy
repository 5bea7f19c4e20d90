/** `$$stackedMap` and `$$multiMap` of ui-bootstrap. */
module ModalCollections {
  import opened Wrappers

  datatype Entry<K, V> = Entry(key: K, value: V)

  /** `indexOf`, with the length for a value that is not there. */
  function IndexIn<V(==)>(values: seq<V>, v: V): (i: nat)
    ensures i <= |values|
    ensures forall j :: 0 <= j < i ==> values[j] != v
    ensures i < |values| ==> values[i] == v
  {
    if values == [] || values[0] == v then 0 else 1 + IndexIn(values[1..], v)
  }

  /** `keys()` of a stack */
  function KeysOf<K, V>(stack: seq<Entry<K, V>>): seq<K> {
    seq(|stack|, i requires 0 <= i < |stack| => stack[i].key)
  }

  function FirstIndex<K(==), V>(stack: seq<Entry<K, V>>, key: K): (i: nat)
    ensures i <= |stack|
    ensures forall j :: 0 <= j < i ==> stack[j].key != key
    ensures i < |stack| ==> stack[i].key == key
  {
    var i := IndexIn(KeysOf(stack), key);
    assert forall j :: 0 <= j < |stack| ==> KeysOf(stack)[j] == stack[j].key;
    i
  }

  function RemoveAt<T>(s: seq<T>, i: nat): seq<T>
    requires i < |s|
  {
    s[..i] + s[i + 1..]
  }

  class StackedMap<K(==), V> {
    var stack: seq<Entry<K, V>>

    constructor ()
      ensures stack == []
    {
      stack := [];
    }

    method Add(key: K, value: V)
      modifies this
      ensures stack == old(stack) + [Entry(key, value)]
    {
      stack := stack + [Entry(key, value)];
    }

    method Get(key: K) returns (entry: Option<Entry<K, V>>)
      ensures entry == (var i := FirstIndex(stack, key); if i < |stack| then Some(stack[i]) else None)
    {
      for i := 0 to |stack|
        invariant forall j :: 0 <= j < i ==> stack[j].key != key
      {
        if stack[i].key == key {
          return Some(stack[i]);
        }
      }
      entry := None;
    }

    method Top() returns (entry: Option<Entry<K, V>>)
      ensures entry == if stack == [] then None else Some(stack[|stack| - 1])
    {
      entry := if |stack| == 0 then None else Some(stack[|stack| - 1]);
    }

    /**
     * The first entry with the key goes. Without one, the index -1 handed to `splice` means the last
     * entry, and that one goes instead.
     */
    method Remove(key: K) returns (removed: Option<Entry<K, V>>)
      modifies this
      ensures var i := FirstIndex(old(stack), key);
              if old(stack) == [] then stack == [] && removed == None
              else if i < |old(stack)| then stack == RemoveAt(old(stack), i) && removed == Some(old(stack)[i])
              else stack == old(stack)[..|old(stack)| - 1] && removed == Some(old(stack)[|old(stack)| - 1])
    {
      var idx := -1;
      for i := 0 to |stack|
        invariant idx == -1 && forall j :: 0 <= j < i ==> stack[j].key != key
      {
        if stack[i].key == key {
          idx := i;
          break;
        }
      }
      var start := if idx < 0 then |stack| + idx else idx;
      if start < 0 {
        return None;
      }
      removed := Some(stack[start]);
      stack := stack[..start] + stack[start + 1..];
    }
  }

  type Multi<K, V> = map<K, seq<V>>

  function PutInto<K, V>(m: Multi<K, V>, key: K, v: V): Multi<K, V> {
    m[key := (if key in m then m[key] else []) + [v]]
  }

  function WithoutFirst<V(==)>(values: seq<V>, v: V): seq<V> {
    var i := IndexIn(values, v);
    if i < |values| then RemoveAt(values, i) else values
  }

  function RemoveFrom<K, V(==)>(m: Multi<K, V>, key: K, v: V): Multi<K, V> {
    if key !in m then m
    else if WithoutFirst(m[key], v) == [] then m - {key}
    else m[key := WithoutFirst(m[key], v)]
  }

  class MultiMap<K(==), V(==)> {
    var entries: Multi<K, V>

    constructor ()
      ensures entries == map[]
    {
      entries := map[];
    }

    method Put(key: K, value: V)
      modifies this
      ensures entries == PutInto(old(entries), key, value)
      ensures entries[key] == (if key in old(entries) then old(entries)[key] else []) + [value]
    {
      if key !in entries {
        entries := entries[key := []];
      }
      entries := entries[key := entries[key] + [value]];
    }

    method Remove(key: K, value: V)
      modifies this
      ensures entries == RemoveFrom(old(entries), key, value)
    {
      if key !in entries {
        return;
      }
      var values := entries[key];
      var idx := IndexIn(values, value);
      if idx < |values| {
        values := values[..idx] + values[idx + 1..];
      }
      if |values| == 0 {
        entries := entries - {key};
      } else {
        entries := entries[key := values];
      }
    }
  }
}

/** Opening and closing modals: the transitions of `$uibModalStack` and of the promise chain of `$modal.open`. */
module ModalSpec {
  import opened Wrappers
  import opened ModalCollections

  type ModalId = nat

  datatype Window = Window(id: ModalId, backdrop: bool, openedClass: string)

  datatype Status = Loading | Loaded | Failed

  /** How far the promise of a call is: unresolved, its handlers run, its `finally` done. */
  datatype Stage = Waiting | Ran | Done

  /** A call of `$modal.open`: its template and resolves, the call whose promise it waits for, its own promise. */
  datatype Opening = Opening(window: Window, status: Status, after: Option<ModalId>, stage: Stage)

  datatype Modals = Modals(
    windows: seq<Window>,             // openedWindows
    classes: Multi<string, ModalId>,  // openedClasses
    backdrop: bool,                   // a backdrop element exists
    closing: seq<Window>,             // closed, still animating away
    openings: seq<Opening>,           // the calls of $modal.open so far, each at its own id
    promiseChain: Option<ModalId>,    // the call whose promise the variable holds
    entered: seq<ModalId>,            // the modals that entered the stack, in that order
    failed: seq<ModalId>)             // the modals whose template or resolves failed

  const NO_MODALS := Modals([], map[], false, [], [], None, [], [])

  predicate AnyBackdrop(windows: seq<Window>) {
    exists i :: 0 <= i < |windows| && windows[i].backdrop
  }

  function Ids(windows: seq<Window>): seq<ModalId> {
    seq(|windows|, i requires 0 <= i < |windows| => windows[i].id)
  }

  function IndexOf(windows: seq<Window>, id: ModalId): (i: nat)
    ensures i <= |windows|
    ensures forall j :: 0 <= j < i ==> windows[j].id != id
    ensures i < |windows| ==> windows[i].id == id
  {
    var i := IndexIn(Ids(windows), id);
    assert forall j :: 0 <= j < |windows| ==> Ids(windows)[j] == windows[j].id;
    i
  }

  /** `$modal.open`: the new promise waits for the one in `promiseChain` and takes its place. */
  function Call(s: Modals, backdrop: bool, openedClass: string): Modals {
    var id := |s.openings|;
    s.(openings := s.openings + [Opening(Window(id, backdrop, openedClass), Loading, s.promiseChain, Waiting)],
       promiseChain := Some(id))
  }

  /** Template and resolves of a call arrive, or fail. */
  function Settle(s: Modals, i: nat, ok: bool): Modals
    requires i < |s.openings|
  {
    if s.openings[i].status != Loading then s
    else s.(openings := s.openings[i := s.openings[i].(status := if ok then Loaded else Failed)])
  }

  /** The promise a call waits for is settled: there is none, or its `finally` is done. */
  predicate Awaited(openings: seq<Opening>, after: Option<ModalId>) {
    after.Some? ==> after.value < |openings| && openings[after.value].stage == Done
  }

  /** Any call may have its turn whose template and whose predecessor are settled. */
  predicate CanRun(s: Modals, i: nat) {
    && i < |s.openings| && s.openings[i].stage == Waiting && s.openings[i].status != Loading
    && Awaited(s.openings, s.openings[i].after)
  }

  function SetStage(openings: seq<Opening>, i: nat, stage: Stage): seq<Opening>
    requires i < |openings|
  {
    openings[i := openings[i].(stage := stage)]
  }

  /** The turn of a call: its modal opens, or is given up. */
  function TakeTurn(s: Modals, i: nat): Modals
    requires i < |s.openings|
  {
    var window, t := s.openings[i].window, s.(openings := SetStage(s.openings, i, Ran));
    if s.openings[i].status == Loaded then Open(t, window) else t.(failed := t.failed + [window.id])
  }

  /** The `finally` of a call: the variable is cleared if no later call has overwritten it. */
  function CleanUp(s: Modals, i: nat): Modals
    requires i < |s.openings|
  {
    s.(openings := SetStage(s.openings, i, Done),
       promiseChain := if s.promiseChain == Some(i) then None else s.promiseChain)
  }

  function Open(s: Modals, w: Window): Modals {
    var windows := s.windows + [w];
    s.(windows := windows,
       classes := PutInto(s.classes, w.openedClass, w.id),
       backdrop := s.backdrop || AnyBackdrop(windows),
       entered := s.entered + [w.id])
  }

  function Remove(s: Modals, i: nat): Modals
    requires i < |s.windows|
  {
    var windows := RemoveAt(s.windows, i);
    s.(windows := windows,
       closing := s.closing + [s.windows[i]],
       backdrop := s.backdrop && AnyBackdrop(windows))
  }

  /** `close` and `dismiss`: the new state, and the answer. */
  function CloseModal(s: Modals, id: ModalId, vetoed: bool): (Modals, bool) {
    var i := IndexOf(s.windows, id);
    if i == |s.windows| then (s, true)
    else if vetoed then (s, false)
    else (Remove(s, i), true)
  }

  /** How many modals `dismissAll` leaves: up to the topmost that vetoes. */
  function Kept(windows: seq<Window>, vetoes: ModalId -> bool): (k: nat)
    ensures k <= |windows|
    ensures k > 0 ==> vetoes(windows[k - 1].id)
    ensures forall i :: k <= i < |windows| ==> !vetoes(windows[i].id)
  {
    if windows == [] || vetoes(windows[|windows| - 1].id) then |windows| else Kept(windows[..|windows| - 1], vetoes)
  }

  /** Some of them popped from the top. */
  function Pop(s: Modals, k: nat): Modals
    requires k <= |s.windows|
    decreases |s.windows| - k
  {
    if k == |s.windows| then s else Pop(Remove(s, |s.windows| - 1), k)
  }

  function DismissAll(s: Modals, vetoes: ModalId -> bool): Modals {
    Pop(s, Kept(s.windows, vetoes))
  }

  /** The closing animation of a modal is over. */
  function FinishClosing(s: Modals, i: nat): Modals
    requires i < |s.closing|
  {
    s.(classes := RemoveFrom(s.classes, s.closing[i].openedClass, s.closing[i].id),
       closing := RemoveAt(s.closing, i))
  }

  datatype Step =
    | CallStep(backdrop: bool, openedClass: string)
    | SettleStep(i: nat, ok: bool)
    | TurnStep(i: nat)
    | CleanUpStep(i: nat)
    | CloseStep(id: ModalId, vetoed: bool)
    | DismissAllStep(vetoing: set<ModalId>)
    | FinishStep(i: nat)

  predicate Enabled(s: Modals, step: Step) {
    match step
    case SettleStep(i, _) => i < |s.openings|
    case TurnStep(i) => CanRun(s, i)
    case CleanUpStep(i) => i < |s.openings| && s.openings[i].stage == Ran
    case FinishStep(i) => i < |s.closing|
    case _ => true
  }

  function Do(s: Modals, step: Step): Modals
    requires Enabled(s, step)
  {
    match step
    case CallStep(backdrop, openedClass) => Call(s, backdrop, openedClass)
    case SettleStep(i, ok) => Settle(s, i, ok)
    case TurnStep(i) => TakeTurn(s, i)
    case CleanUpStep(i) => CleanUp(s, i)
    case CloseStep(id, vetoed) => CloseModal(s, id, vetoed).0
    case DismissAllStep(vetoing) => DismissAll(s, id => id in vetoing)
    case FinishStep(i) => FinishClosing(s, i)
  }
}

/** What every run of the modal stack keeps. */
module ModalProof {
  import opened Wrappers
  import opened ModalCollections
  import opened ModalSpec

  ghost predicate Increasing(ids: seq<ModalId>) {
    forall i, j :: 0 <= i < j < |ids| ==> ids[i] < ids[j]
  }

  /** The promises of the first `n` calls are settled. */
  ghost predicate DoneBelow(openings: seq<Opening>, n: int) {
    forall i :: 0 <= i < n && i < |openings| ==> openings[i].stage == Done
  }

  /** A call waits for the one before it, or for none because all before it were done. */
  ghost predicate Linked(openings: seq<Opening>, i: nat)
    requires i < |openings|
  {
    if openings[i].after.None? then DoneBelow(openings, i) else openings[i].after.value + 1 == i
  }

  ghost predicate ChainFits(openings: seq<Opening>, promiseChain: Option<ModalId>) {
    && (forall i :: 0 <= i < |openings| ==> openings[i].window.id == i)
    && (forall i :: 0 <= i < |openings| ==> Linked(openings, i))
    && (forall i :: 0 <= i < |openings| && openings[i].stage != Waiting ==> DoneBelow(openings, i))
    && match promiseChain
       case None => DoneBelow(openings, |openings|)
       case Some(id) => id + 1 == |openings| && openings[id].stage != Done
  }

  /** The call had its turn, and its template and resolves had come to `status`. */
  predicate HadTurn(openings: seq<Opening>, id: ModalId, status: Status) {
    id < |openings| && openings[id].stage != Waiting && openings[id].status == status
  }

  /** Of the calls that had their turn the loaded ones entered and the others failed, in the order of the calls. */
  ghost predicate InCallOrder(s: Modals) {
    && Increasing(s.entered) && Increasing(s.failed)
    && (forall id: ModalId :: id in s.entered <==> HadTurn(s.openings, id, Loaded))
    && (forall id: ModalId :: id in s.failed <==> HadTurn(s.openings, id, Failed))
    && (forall id: ModalId :: !HadTurn(s.openings, id, Loading))
  }

  /** The stack holds modals that entered, in the order they did; closing ones have left it. */
  ghost predicate StackOrdered(s: Modals) {
    && Increasing(Ids(s.windows))
    && (forall w :: w in s.windows ==> w.id in s.entered)
    && (forall w :: w in s.closing ==> w.id in s.entered && w.id !in Ids(s.windows))
    && (forall i, j :: 0 <= i < j < |s.closing| ==> s.closing[i].id != s.closing[j].id)
  }

  /** The modal is open, or closed but still animating away, with this body class. */
  ghost predicate Showing(s: Modals, id: ModalId, c: string) {
    exists w :: (w in s.windows || w in s.closing) && w.id == id && w.openedClass == c
  }

  ghost predicate Listed(m: Multi<string, ModalId>, c: string, id: ModalId) {
    c in m && id in m[c]
  }

  ghost predicate Distinct(ids: seq<ModalId>) {
    forall i, j :: 0 <= i < j < |ids| ==> ids[i] != ids[j]
  }

  /** Each body class lists exactly the modals showing with it, each once, and no list is empty. */
  ghost predicate ClassesFit(s: Modals) {
    && (forall c, id: ModalId :: Listed(s.classes, c, id) <==> Showing(s, id, c))
    && (forall c :: c in s.classes ==> s.classes[c] != [] && Distinct(s.classes[c]))
  }

  ghost predicate Inv(s: Modals) {
    && ChainFits(s.openings, s.promiseChain) && InCallOrder(s) && StackOrdered(s) && ClassesFit(s)
    && (s.backdrop <==> AnyBackdrop(s.windows))
  }

  lemma PutListed(m: Multi<string, ModalId>, c: string, id: ModalId)
    requires !Listed(m, c, id) && forall k :: k in m ==> m[k] != [] && Distinct(m[k])
    ensures forall k :: k in PutInto(m, c, id) ==> PutInto(m, c, id)[k] != [] && Distinct(PutInto(m, c, id)[k])
    ensures forall k, j: ModalId :: Listed(PutInto(m, c, id), k, j) <==> Listed(m, k, j) || (k == c && j == id)
  {
  }

  lemma RemoveListed(m: Multi<string, ModalId>, c: string, id: ModalId)
    requires forall k :: k in m ==> m[k] != [] && Distinct(m[k])
    ensures forall k :: k in RemoveFrom(m, c, id) ==> RemoveFrom(m, c, id)[k] != [] && Distinct(RemoveFrom(m, c, id)[k])
    ensures forall k, j: ModalId :: Listed(RemoveFrom(m, c, id), k, j) <==> Listed(m, k, j) && !(k == c && j == id)
  {
    if c in m {
      var values := m[c];
      var i := IndexIn(values, id);
      if i < |values| {
        assert values == values[..i] + [id] + values[i + 1..];
        assert id !in values[..i] && id !in values[i + 1..];
      } else {
        assert id !in values;
      }
    }
  }

  lemma OpenKeeps(s: Modals, w: Window)
    requires StackOrdered(s) && ClassesFit(s) && (s.backdrop <==> AnyBackdrop(s.windows))
    requires forall id :: id in s.entered ==> id < w.id
    ensures var t := Open(s, w);
            StackOrdered(t) && ClassesFit(t) && (t.backdrop <==> AnyBackdrop(t.windows))
  {
    var t := Open(s, w);
    assert Ids(t.windows) == Ids(s.windows) + [w.id];
    assert forall i :: 0 <= i < |s.windows| ==> s.windows[i] in s.windows;
    assert !Listed(s.classes, w.openedClass, w.id);
    PutListed(s.classes, w.openedClass, w.id);
    forall c, id: ModalId ensures Listed(t.classes, c, id) <==> Showing(t, id, c) {
      assert Listed(s.classes, c, id) <==> Showing(s, id, c);
      if Showing(s, id, c) {
        var v :| (v in s.windows || v in s.closing) && v.id == id && v.openedClass == c;
        assert v in t.windows || v in t.closing;
      }
      assert w in t.windows;
    }
    if AnyBackdrop(s.windows) {
      var i :| 0 <= i < |s.windows| && s.windows[i].backdrop;
      assert t.windows[i].backdrop;
    }
  }

  /** What is left after a removal is what was there, at the old place or one before. */
  lemma LeftIn<T>(values: seq<T>, i: nat, j: nat)
    requires i < |values| && j < |values| - 1
    ensures RemoveAt(values, i)[j] == values[if j < i then j else j + 1]
  {
  }

  lemma IdsLeft(windows: seq<Window>, i: nat)
    requires i < |windows|
    ensures Ids(RemoveAt(windows, i)) == RemoveAt(Ids(windows), i)
  {
  }

  lemma IncreasingLeft(ids: seq<ModalId>, i: nat)
    requires Increasing(ids) && i < |ids|
    ensures Increasing(RemoveAt(ids, i)) && ids[i] !in RemoveAt(ids, i)
    ensures forall id :: id in RemoveAt(ids, i) ==> id in ids
  {
    forall j | 0 <= j < |ids| - 1 ensures RemoveAt(ids, i)[j] == ids[if j < i then j else j + 1] {
      LeftIn(ids, i, j);
    }
  }

  lemma MembersLeft<T>(values: seq<T>, i: nat)
    requires i < |values|
    ensures forall v :: v in values <==> v == values[i] || v in RemoveAt(values, i)
  {
    assert values == values[..i] + [values[i]] + values[i + 1..];
  }

  lemma RemoveOrdered(s: Modals, i: nat)
    requires StackOrdered(s) && i < |s.windows|
    ensures StackOrdered(Remove(s, i))
    ensures forall v :: v in s.windows || v in s.closing <==> v in Remove(s, i).windows || v in Remove(s, i).closing
  {
    IdsLeft(s.windows, i);
    IncreasingLeft(Ids(s.windows), i);
    MembersLeft(s.windows, i);
    assert Ids(s.windows)[i] == s.windows[i].id;
    ClosingDistinct(s.closing, s.windows[i], Ids(s.windows));
  }

  lemma ClosingDistinct(closing: seq<Window>, w: Window, ids: seq<ModalId>)
    requires forall i, j :: 0 <= i < j < |closing| ==> closing[i].id != closing[j].id
    requires w.id in ids && forall v :: v in closing ==> v.id !in ids
    ensures var more := closing + [w]; forall i, j :: 0 <= i < j < |more| ==> more[i].id != more[j].id
  {
    forall i | 0 <= i < |closing| ensures closing[i].id != w.id {
      assert closing[i] in closing;
    }
  }

  lemma RemoveKeeps(s: Modals, i: nat)
    requires Inv(s) && i < |s.windows|
    ensures Inv(Remove(s, i))
  {
    var t := Remove(s, i);
    RemoveOrdered(s, i);
    BackdropLeft(s.windows, i);
    forall c, id: ModalId ensures Listed(t.classes, c, id) <==> Showing(t, id, c) {
      assert Listed(s.classes, c, id) <==> Showing(s, id, c);
    }
  }

  lemma BackdropLeft(windows: seq<Window>, i: nat)
    requires i < |windows|
    ensures AnyBackdrop(RemoveAt(windows, i)) ==> AnyBackdrop(windows)
  {
    var left := RemoveAt(windows, i);
    if AnyBackdrop(left) {
      var j :| 0 <= j < |left| && left[j].backdrop;
      assert windows[if j < i then j else j + 1].backdrop;
    }
  }

  /** No other window has the id of one that is closing. */
  lemma ClosingAlone(s: Modals, i: nat)
    requires StackOrdered(s) && i < |s.closing|
    ensures forall v :: v in RemoveAt(s.closing, i) ==> v.id != s.closing[i].id
    ensures forall v :: v in s.windows ==> v.id != s.closing[i].id
  {
    forall v | v in RemoveAt(s.closing, i) ensures v.id != s.closing[i].id {
      var j :| 0 <= j < |s.closing| - 1 && RemoveAt(s.closing, i)[j] == v;
      LeftIn(s.closing, i, j);
    }
    forall v | v in s.windows ensures v.id != s.closing[i].id {
      var j :| 0 <= j < |s.windows| && s.windows[j] == v;
      assert Ids(s.windows)[j] == v.id && s.closing[i] in s.closing;
    }
  }

  lemma FinishOrdered(s: Modals, i: nat)
    requires StackOrdered(s) && i < |s.closing|
    ensures StackOrdered(FinishClosing(s, i))
  {
    MembersLeft(s.closing, i);
    var left := RemoveAt(s.closing, i);
    forall j, k | 0 <= j < k < |left| ensures left[j].id != left[k].id {
      LeftIn(s.closing, i, j);
      LeftIn(s.closing, i, k);
    }
  }

  lemma FinishKeeps(s: Modals, i: nat)
    requires Inv(s) && i < |s.closing|
    ensures Inv(FinishClosing(s, i))
  {
    var w, t := s.closing[i], FinishClosing(s, i);
    FinishOrdered(s, i);
    MembersLeft(s.closing, i);
    ClosingAlone(s, i);
    RemoveListed(s.classes, w.openedClass, w.id);
    forall c, id: ModalId ensures Listed(t.classes, c, id) <==> Showing(t, id, c) {
      assert Listed(s.classes, c, id) <==> Showing(s, id, c);
    }
  }

  lemma IncreasingPush(ids: seq<ModalId>, id: ModalId)
    requires Increasing(ids) && forall j :: j in ids ==> j < id
    ensures Increasing(ids + [id])
  {
    assert forall i :: 0 <= i < |ids| ==> ids[i] in ids;
  }

  // ---------- The promise chain ----------

  lemma CallLinks(openings: seq<Opening>, promiseChain: Option<ModalId>, window: Window)
    requires ChainFits(openings, promiseChain) && window.id == |openings|
    ensures ChainFits(openings + [Opening(window, Loading, promiseChain, Waiting)], Some(|openings|))
  {
    var more := openings + [Opening(window, Loading, promiseChain, Waiting)];
    forall i | 0 <= i < |openings| ensures Linked(more, i) {
      assert Linked(openings, i);
    }
  }

  /** A stage only ever goes forward, so that what is done stays done. */
  lemma StageMoves(openings: seq<Opening>, i: nat, stage: Stage)
    requires i < |openings| && openings[i].stage != Done
    requires forall j :: 0 <= j < |openings| ==> Linked(openings, j)
    ensures forall n :: DoneBelow(openings, n) ==> DoneBelow(SetStage(openings, i, stage), n)
    ensures forall j :: 0 <= j < |openings| ==> Linked(SetStage(openings, i, stage), j)
  {
    var moved := SetStage(openings, i, stage);
    forall n | DoneBelow(openings, n) ensures DoneBelow(moved, n) {
    }
    forall j | 0 <= j < |openings| ensures Linked(moved, j) {
      assert Linked(openings, j);
    }
  }

  /** A call can run exactly when its template is settled and every earlier call is done. */
  lemma CanRunExactly(openings: seq<Opening>, promiseChain: Option<ModalId>, i: nat)
    requires ChainFits(openings, promiseChain) && i < |openings| && openings[i].stage == Waiting
    ensures Awaited(openings, openings[i].after) <==> DoneBelow(openings, i)
  {
    assert Linked(openings, i);
  }

  lemma TurnFits(openings: seq<Opening>, promiseChain: Option<ModalId>, i: nat)
    requires ChainFits(openings, promiseChain) && i < |openings|
    requires openings[i].stage == Waiting && Awaited(openings, openings[i].after)
    ensures ChainFits(SetStage(openings, i, Ran), promiseChain) && DoneBelow(openings, i)
    ensures forall j :: i < j < |openings| ==> openings[j].stage == Waiting
  {
    CanRunExactly(openings, promiseChain, i);
    StageMoves(openings, i, Ran);
  }

  lemma CleanUpFits(openings: seq<Opening>, promiseChain: Option<ModalId>, i: nat)
    requires ChainFits(openings, promiseChain) && i < |openings| && openings[i].stage == Ran
    ensures ChainFits(SetStage(openings, i, Done), if promiseChain == Some(i) then None else promiseChain)
  {
    StageMoves(openings, i, Done);
  }

  lemma SettleFits(openings: seq<Opening>, promiseChain: Option<ModalId>, i: nat, status: Status)
    requires ChainFits(openings, promiseChain) && i < |openings|
    ensures ChainFits(openings[i := openings[i].(status := status)], promiseChain)
  {
    var settled := openings[i := openings[i].(status := status)];
    forall j | 0 <= j < |openings| ensures Linked(settled, j) {
      assert Linked(openings, j);
    }
  }

  /** A turn comes after the turns of all earlier calls, and before those of all later ones. */
  lemma TurnInOrder(s: Modals, i: nat)
    requires ChainFits(s.openings, s.promiseChain) && InCallOrder(s) && CanRun(s, i)
    ensures InCallOrder(TakeTurn(s, i))
    ensures forall id :: id in s.entered || id in s.failed ==> id < i
  {
    TurnFits(s.openings, s.promiseChain, i);
    forall id | id in s.entered || id in s.failed ensures id < i {
      assert HadTurn(s.openings, id, Loaded) || HadTurn(s.openings, id, Failed);
    }
    IncreasingPush(s.entered, i);
    IncreasingPush(s.failed, i);
    var t := TakeTurn(s, i);
    forall id: ModalId, status
      ensures HadTurn(t.openings, id, status)
              <==> HadTurn(s.openings, id, status) || (id == i && status == s.openings[i].status)
    {
    }
  }

  lemma TurnKeeps(s: Modals, i: nat)
    requires Inv(s) && CanRun(s, i)
    ensures Inv(TakeTurn(s, i))
  {
    var t := s.(openings := SetStage(s.openings, i, Ran));
    TurnFits(s.openings, s.promiseChain, i);
    TurnInOrder(s, i);
    SameShowing(s, t);
    if s.openings[i].status == Loaded {
      OpenKeeps(t, s.openings[i].window);
    } else {
      SameShowing(s, TakeTurn(s, i));
    }
  }

  /** Turns and their outcomes are as before. */
  lemma SameTurns(s: Modals, t: Modals)
    requires InCallOrder(s) && t.entered == s.entered && t.failed == s.failed
    requires forall id: ModalId, status :: HadTurn(t.openings, id, status) <==> HadTurn(s.openings, id, status)
    ensures InCallOrder(t)
  {
    forall id: ModalId
      ensures id in t.entered <==> HadTurn(t.openings, id, Loaded)
      ensures id in t.failed <==> HadTurn(t.openings, id, Failed)
      ensures !HadTurn(t.openings, id, Loading)
    {
      assert HadTurn(t.openings, id, Loaded) <==> HadTurn(s.openings, id, Loaded);
      assert HadTurn(t.openings, id, Failed) <==> HadTurn(s.openings, id, Failed);
      assert HadTurn(t.openings, id, Loading) <==> HadTurn(s.openings, id, Loading);
    }
  }

  lemma CleanUpKeeps(s: Modals, i: nat)
    requires Inv(s) && i < |s.openings| && s.openings[i].stage == Ran
    ensures Inv(CleanUp(s, i))
  {
    SameTurns(s, CleanUp(s, i));
    CleanUpFits(s.openings, s.promiseChain, i);
    SameShowing(s, CleanUp(s, i));
  }

  lemma CallKeeps(s: Modals, backdrop: bool, openedClass: string)
    requires Inv(s)
    ensures Inv(Call(s, backdrop, openedClass))
  {
    CallLinks(s.openings, s.promiseChain, Window(|s.openings|, backdrop, openedClass));
    SameTurns(s, Call(s, backdrop, openedClass));
    SameShowing(s, Call(s, backdrop, openedClass));
  }

  lemma SettleKeeps(s: Modals, i: nat, ok: bool)
    requires Inv(s) && i < |s.openings|
    ensures Inv(Settle(s, i, ok))
  {
    if s.openings[i].status == Loading {
      SettleFits(s.openings, s.promiseChain, i, if ok then Loaded else Failed);
      assert !HadTurn(s.openings, i, Loading);
      SameTurns(s, Settle(s, i, ok));
    }
    SameShowing(s, Settle(s, i, ok));
  }

  lemma SameShowing(s: Modals, t: Modals)
    requires StackOrdered(s) && ClassesFit(s)
    requires t.windows == s.windows && t.closing == s.closing && t.classes == s.classes && t.entered == s.entered
    ensures StackOrdered(t) && ClassesFit(t)
  {
    forall c, id: ModalId ensures Listed(t.classes, c, id) <==> Showing(t, id, c) {
      assert Listed(s.classes, c, id) <==> Showing(s, id, c);
    }
  }

  lemma {:induction false} PopWindows(s: Modals, k: nat)
    requires k <= |s.windows|
    ensures Pop(s, k).windows == s.windows[..k]
    decreases |s.windows| - k
  {
    if k < |s.windows| {
      var last := |s.windows| - 1;
      assert Remove(s, last).windows == s.windows[..last];
      PopWindows(Remove(s, last), k);
    }
  }

  lemma {:induction false} PopKeeps(s: Modals, k: nat, popped: Modals)
    requires Inv(s) && k <= |s.windows| && popped == Pop(s, k)
    ensures Inv(popped)
    decreases |s.windows| - k
  {
    if k < |s.windows| {
      RemoveKeeps(s, |s.windows| - 1);
      PopKeeps(Remove(s, |s.windows| - 1), k, popped);
    }
  }

  lemma StepKeeps(s: Modals, step: Step)
    requires Inv(s) && Enabled(s, step)
    ensures Inv(Do(s, step))
  {
    match step
    case CallStep(backdrop, openedClass) => CallKeeps(s, backdrop, openedClass);
    case SettleStep(i, ok) => SettleKeeps(s, i, ok);
    case TurnStep(i) => TurnKeeps(s, i);
    case CleanUpStep(i) => CleanUpKeeps(s, i);
    case CloseStep(id, vetoed) =>
      if IndexOf(s.windows, id) < |s.windows| {
        RemoveKeeps(s, IndexOf(s.windows, id));
      }
    case DismissAllStep(vetoing) => PopKeeps(s, Kept(s.windows, id => id in vetoing), Do(s, step));
    case FinishStep(i) => FinishKeeps(s, i);
  }

  // ---------- Runs ----------

  predicate IsRun(s: Modals, steps: seq<Step>)
    decreases steps
  {
    steps == [] || (Enabled(s, steps[0]) && IsRun(Do(s, steps[0]), steps[1..]))
  }

  function RunFrom(s: Modals, steps: seq<Step>): Modals
    requires IsRun(s, steps)
    decreases steps
  {
    if steps == [] then s else RunFrom(Do(s, steps[0]), steps[1..])
  }

  lemma {:induction false} RunKeeps(s: Modals, steps: seq<Step>)
    requires Inv(s) && IsRun(s, steps)
    ensures Inv(RunFrom(s, steps))
    decreases steps
  {
    if steps != [] {
      StepKeeps(s, steps[0]);
      RunKeeps(Do(s, steps[0]), steps[1..]);
    }
  }

  lemma NoModalsFit()
    ensures Inv(NO_MODALS)
  {
    forall c: string, id: ModalId ensures Listed(NO_MODALS.classes, c, id) <==> Showing(NO_MODALS, id, c) {
    }
  }

  /**
   * After any run the calls whose promise is not settled are linked one to the next, the variable holds the
   * newest of them, and it is cleared exactly when there is none left.
   */
  lemma UnfinishedLinked(steps: seq<Step>)
    requires IsRun(NO_MODALS, steps)
    ensures var s := RunFrom(NO_MODALS, steps);
            && (forall i :: 0 <= i < |s.openings| - 1 && s.openings[i].stage != Done ==>
                  s.openings[i + 1].stage == Waiting && s.openings[i + 1].after == Some(i))
            && (s.promiseChain.None? <==> DoneBelow(s.openings, |s.openings|))
            && (s.promiseChain.Some? ==> s.promiseChain.value + 1 == |s.openings|)
  {
    NoModalsFit();
    RunKeeps(NO_MODALS, steps);
    var s := RunFrom(NO_MODALS, steps);
    forall i | 0 <= i < |s.openings| - 1 && s.openings[i].stage != Done
      ensures s.openings[i + 1].stage == Waiting && s.openings[i + 1].after == Some(i)
    {
      assert Linked(s.openings, i + 1);
    }
  }

  /**
   * Although any call may run whose own predecessor is settled, after any run those are exactly the settled
   * ones with every earlier call done. So the first unfinished call is never stuck once its template is settled.
   */
  lemma TurnsInCallOrder(steps: seq<Step>, i: nat)
    requires IsRun(NO_MODALS, steps) && i < |RunFrom(NO_MODALS, steps).openings|
    ensures var s := RunFrom(NO_MODALS, steps);
            && (CanRun(s, i) <==> s.openings[i].stage == Waiting && s.openings[i].status != Loading
                                  && DoneBelow(s.openings, i))
            && (s.openings[i].stage != Done && DoneBelow(s.openings, i) ==>
                  (s.openings[i].status == Loading && s.openings[i].stage == Waiting)
                  || Enabled(s, TurnStep(i)) || Enabled(s, CleanUpStep(i)))
  {
    NoModalsFit();
    RunKeeps(NO_MODALS, steps);
    var s := RunFrom(NO_MODALS, steps);
    if s.openings[i].stage == Waiting {
      CanRunExactly(s.openings, s.promiseChain, i);
    }
  }

  /**
   * After any run modals have entered the stack in call order with the failed ones left out, and the
   * stack still holds them in that order.
   */
  lemma EnterInCallOrder(steps: seq<Step>)
    requires IsRun(NO_MODALS, steps)
    ensures InCallOrder(RunFrom(NO_MODALS, steps)) && StackOrdered(RunFrom(NO_MODALS, steps))
  {
    NoModalsFit();
    RunKeeps(NO_MODALS, steps);
  }

  /** After any run a backdrop exists exactly when an open modal asks for one. */
  lemma BackdropExactly(steps: seq<Step>)
    requires IsRun(NO_MODALS, steps)
    ensures RunFrom(NO_MODALS, steps).backdrop <==> AnyBackdrop(RunFrom(NO_MODALS, steps).windows)
  {
    NoModalsFit();
    RunKeeps(NO_MODALS, steps);
  }

  /** After any run a body class has a key exactly while some modal with it is open or closing. */
  lemma BodyClassExactly(steps: seq<Step>, c: string)
    requires IsRun(NO_MODALS, steps)
    ensures var s := RunFrom(NO_MODALS, steps);
            c in s.classes <==> exists id: ModalId :: Showing(s, id, c)
  {
    NoModalsFit();
    RunKeeps(NO_MODALS, steps);
    var s := RunFrom(NO_MODALS, steps);
    if c in s.classes {
      var id := s.classes[c][0];
      assert Listed(s.classes, c, id);
      assert Showing(s, id, c);
    }
    if id: ModalId :| Showing(s, id, c) {
      assert Listed(s.classes, c, id);
    }
  }

  /** `dismissAll` pops from the top until the stack is empty or its top vetoes. */
  lemma DismissAllPops(steps: seq<Step>, vetoes: ModalId -> bool)
    requires IsRun(NO_MODALS, steps)
    ensures var s := RunFrom(NO_MODALS, steps);
            var t := DismissAll(s, vetoes);
            && t.windows <= s.windows
            && (forall i :: |t.windows| <= i < |s.windows| ==> !vetoes(s.windows[i].id))
            && (t.windows != [] ==> vetoes(t.windows[|t.windows| - 1].id))
            && (t.backdrop <==> AnyBackdrop(t.windows))
  {
    NoModalsFit();
    RunKeeps(NO_MODALS, steps);
    DismissedFits(RunFrom(NO_MODALS, steps), vetoes);
  }

  lemma DismissedFits(s: Modals, vetoes: ModalId -> bool)
    requires Inv(s)
    ensures var k, t := Kept(s.windows, vetoes), DismissAll(s, vetoes);
            t.windows == s.windows[..k] && (t.backdrop <==> AnyBackdrop(t.windows))
  {
    PopWindows(s, Kept(s.windows, vetoes));
    PopKeeps(s, Kept(s.windows, vetoes), DismissAll(s, vetoes));
    BackdropFits(DismissAll(s, vetoes));
  }

  lemma BackdropFits(s: Modals)
    requires Inv(s)
    ensures s.backdrop <==> AnyBackdrop(s.windows)
  {
  }
}

/** `$uibModalStack` on its two collections, and the promise chain of `$modal.open`. */
module ModalStack {
  import opened Wrappers
  import opened ModalCollections
  import opened ModalSpec

  function Values(stack: seq<Entry<ModalId, Window>>): seq<Window> {
    seq(|stack|, i requires 0 <= i < |stack| => stack[i].value)
  }

  /** Every window is in the stack under its own id. */
  predicate KeyedById(stack: seq<Entry<ModalId, Window>>) {
    forall i :: 0 <= i < |stack| ==> stack[i].key == stack[i].value.id
  }

  /** No two windows of the stack have the same id, so that a lookup by key finds each. */
  predicate KeysDistinct(stack: seq<Entry<ModalId, Window>>) {
    forall i, j :: 0 <= i < j < |stack| ==> stack[i].key != stack[j].key
  }

  lemma SameIndex(stack: seq<Entry<ModalId, Window>>, id: ModalId)
    requires KeyedById(stack)
    ensures FirstIndex(stack, id) == IndexOf(Values(stack), id)
  {
    assert KeysOf(stack) == Ids(Values(stack));
  }

  class ModalStack {
    const openedWindows: StackedMap<ModalId, Window>
    const openedClasses: MultiMap<string, ModalId>
    var backdropDomEl: bool
    var closing: seq<Window>
    var openings: seq<Opening>
    var promiseChain: Option<ModalId>
    ghost var entered: seq<ModalId>
    ghost var failed: seq<ModalId>

    constructor ()
      ensures Valid() && State() == NO_MODALS
      ensures fresh(openedWindows) && fresh(openedClasses)
    {
      openedWindows := new StackedMap();
      openedClasses := new MultiMap();
      backdropDomEl, closing, openings, promiseChain, entered, failed := false, [], [], None, [], [];
    }

    ghost predicate Valid()
      reads this, openedWindows
    {
      KeyedById(openedWindows.stack) && KeysDistinct(openedWindows.stack)
    }

    ghost function State(): Modals
      reads this, openedWindows, openedClasses
    {
      Modals(Values(openedWindows.stack), openedClasses.entries, backdropDomEl, closing, openings, promiseChain,
             entered, failed)
    }

    /** `backdropIndex`: the topmost window with a backdrop, or -1. */
    method BackdropIndex() returns (topBackdropIndex: int)
      requires Valid()
      ensures -1 <= topBackdropIndex < |openedWindows.stack|
      ensures topBackdropIndex >= 0 ==> openedWindows.stack[topBackdropIndex].value.backdrop
      ensures forall j :: topBackdropIndex < j < |openedWindows.stack| ==> !openedWindows.stack[j].value.backdrop
      ensures topBackdropIndex >= 0 <==> AnyBackdrop(Values(openedWindows.stack))
    {
      topBackdropIndex := -1;
      ghost var windows := Values(openedWindows.stack);
      for i := 0 to |openedWindows.stack|
        invariant -1 <= topBackdropIndex < i
        invariant topBackdropIndex >= 0 ==> windows[topBackdropIndex].backdrop
        invariant forall j :: topBackdropIndex < j < i ==> !windows[j].backdrop
      {
        var modal := openedWindows.Get(openedWindows.stack[i].key);
        if modal.Some? && modal.value.value.backdrop {
          topBackdropIndex := i;
        }
      }
      assert forall j :: 0 <= j < |windows| ==> windows[j] == openedWindows.stack[j].value;
    }

    /** `$modalStack.open` */
    method OpenModal(w: Window)
      requires Valid() && IndexOf(Values(openedWindows.stack), w.id) == |openedWindows.stack|
      modifies this, openedWindows, openedClasses
      ensures Valid() && State() == Open(old(State()), w)
    {
      ghost var windows := Values(openedWindows.stack);
      assert forall i :: 0 <= i < |windows| ==> windows[i] == openedWindows.stack[i].value;
      openedWindows.Add(w.id, w);
      assert Values(openedWindows.stack) == windows + [w];
      openedClasses.Put(w.openedClass, w.id);
      entered := entered + [w.id];
      var currBackdropIndex := BackdropIndex();
      if currBackdropIndex >= 0 && !backdropDomEl {
        backdropDomEl := true;
      }
    }

    /** `removeModalWindow`, and `checkRemoveBackdrop` in it */
    method RemoveModalWindow(id: ModalId)
      requires Valid() && IndexOf(Values(openedWindows.stack), id) < |openedWindows.stack|
      modifies this, openedWindows
      ensures Valid() && State() == Remove(old(State()), IndexOf(old(Values(openedWindows.stack)), id))
    {
      ghost var stack, i := openedWindows.stack, IndexOf(Values(openedWindows.stack), id);
      SameIndex(stack, id);
      var modalWindow := openedWindows.Get(id);
      var removed := openedWindows.Remove(id);
      assert openedWindows.stack == RemoveAt(stack, i);
      assert Values(openedWindows.stack) == RemoveAt(Values(stack), i);
      closing := closing + [modalWindow.value.value];
      var index := BackdropIndex();
      if backdropDomEl && index == -1 {
        backdropDomEl := false;
      }
    }

    /** `close` and `dismiss`: vetoed by a listener, or carried out. */
    method CloseOrDismiss(id: ModalId, vetoed: bool) returns (answer: bool)
      requires Valid()
      modifies this, openedWindows
      ensures Valid() && (State(), answer) == CloseModal(old(State()), id, vetoed)
    {
      SameIndex(openedWindows.stack, id);
      var modalWindow := openedWindows.Get(id);
      if modalWindow.Some? && !vetoed {
        RemoveModalWindow(id);
        return true;
      }
      answer := modalWindow.None?;
    }

    /** `dismissAll` */
    method DismissAllModals(vetoes: ModalId -> bool)
      requires Valid()
      modifies this, openedWindows
      ensures Valid() && State() == DismissAll(old(State()), vetoes)
    {
      ghost var left := DismissAll(State(), vetoes);
      var topModal := openedWindows.Top();
      var going := topModal.Some?;
      while going
        invariant Valid() && DismissAll(State(), vetoes) == left
        invariant going ==>
                    openedWindows.stack != [] && topModal == Some(openedWindows.stack[|openedWindows.stack| - 1])
        invariant !going ==> State() == left
        decreases going, |openedWindows.stack|
      {
        going := DismissTop(topModal.value.key, vetoes);
        if going {
          topModal := openedWindows.Top();
          going := topModal.Some?;
        }
      }
    }

    method DismissTop(id: ModalId, vetoes: ModalId -> bool) returns (answer: bool)
      requires Valid() && openedWindows.stack != [] && openedWindows.stack[|openedWindows.stack| - 1].key == id
      modifies this, openedWindows
      ensures Valid() && DismissAll(State(), vetoes) == DismissAll(old(State()), vetoes)
      ensures if answer then |openedWindows.stack| == |old(openedWindows.stack)| - 1
              else openedWindows.stack != [] && State() == DismissAll(State(), vetoes)
      ensures answer && openedWindows.stack == [] ==> State() == DismissAll(State(), vetoes)
    {
      ghost var s := State();
      TopIndex(openedWindows.stack);
      DismissTurn(s, vetoes);
      answer := CloseOrDismiss(id, vetoes(id));
      assert |State().windows| == |openedWindows.stack|;
    }

    lemma DismissTurn(s: Modals, vetoes: ModalId -> bool)
      requires s.windows != []
      ensures var last := |s.windows| - 1;
              if vetoes(s.windows[last].id) then DismissAll(s, vetoes) == s
              else && DismissAll(s, vetoes) == DismissAll(Remove(s, last), vetoes)
                   && Remove(s, last).windows == s.windows[..last]
    {
      var last := |s.windows| - 1;
      assert RemoveAt(s.windows, last) == s.windows[..last];
    }

    lemma TopIndex(stack: seq<Entry<ModalId, Window>>)
      requires stack != [] && KeyedById(stack) && KeysDistinct(stack)
      ensures IndexOf(Values(stack), stack[|stack| - 1].key) == |stack| - 1
      ensures Values(stack)[|stack| - 1].id == stack[|stack| - 1].key
    {
      var last := |stack| - 1;
      var i := IndexOf(Values(stack), stack[last].key);
      assert Values(stack)[last].id == stack[last].key;
      assert i < |stack| ==> stack[i].key == Values(stack)[i].id;
    }

    /** What is left to do when the closing animation is over. */
    method AfterAnimating(i: nat)
      requires i < |closing|
      modifies this, openedClasses
      ensures State() == FinishClosing(old(State()), i)
    {
      openedClasses.Remove(closing[i].openedClass, closing[i].id);
      closing := closing[..i] + closing[i + 1..];
    }

    /** `$modal.open`: a new promise waits for the one in the variable and takes its place. */
    method OpenCall(backdrop: bool, openedClass: string)
      modifies this
      ensures State() == Call(old(State()), backdrop, openedClass)
    {
      var samePromise := |openings|;
      openings := openings + [Opening(Window(samePromise, backdrop, openedClass), Loading, promiseChain, Waiting)];
      promiseChain := Some(samePromise);
    }

    /** `resolveSuccess` or `resolveError` of a call, once its predecessor and its template are settled. */
    method RunTurn(samePromise: nat)
      requires Valid() && CanRun(State(), samePromise)
      requires IndexOf(Values(openedWindows.stack), openings[samePromise].window.id) == |openedWindows.stack|
      modifies this, openedWindows, openedClasses
      ensures Valid() && State() == TakeTurn(old(State()), samePromise)
    {
      var opening := openings[samePromise];
      openings := openings[samePromise := opening.(stage := Ran)];
      if opening.status == Loaded {
        OpenModal(opening.window);
      } else {
        failed := failed + [opening.window.id];
      }
    }

    /** The `finally` of a call. */
    method FinishPromise(samePromise: nat)
      requires samePromise < |openings|
      modifies this
      ensures State() == CleanUp(old(State()), samePromise)
    {
      openings := openings[samePromise := openings[samePromise].(stage := Done)];
      if promiseChain == Some(samePromise) {
        promiseChain := None;
      }
    }
  }
}
