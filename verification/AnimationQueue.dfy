/** What the requests on one element do: the decision table of the $animate queue and its transitions. */
module QueueSpec {
  import opened Wrappers
  import opened AnimationClasses

  datatype Event = Enter | Move | Leave | Animate | AddClassEvent | RemoveClassEvent | SetClassEvent {
    predicate Structural() {
      Enter? || Move? || Leave?
    }
  }

  /**
   * A call of `$animate.push`. `skipped`: animations are off, the page is hidden, or the element is
   * disabled. `allowed`: what `areAnimationsAllowed` answers. `animatesTo`: there are `to` styles.
   */
  datatype Request = Request(event: Event, change: Change, animatesTo: bool, skipped: bool, allowed: bool)

  datatype Phase = PreDigest | Running

  /** An entry of `activeAnimationsLookup`; `owner` is the request whose runner and options it holds. */
  datatype Entry = Entry(event: Event, change: Change, phase: Phase, counter: nat, owner: nat)

  /** A post-digest callback, and later the animation it started: the request and its counter. */
  datatype Callback = Callback(id: nat, counter: nat)

  datatype Element = Element(
    classes: set<ClassName>,
    entry: Option<Entry>,
    options: map<nat, Change>,
    postDigest: seq<Callback>,
    running: set<Callback>,
    nextId: nat)

  // ---------- Pushing a request ----------

  datatype Decision =
    | CloseNow                          // no animation: the classes are set at once
    | Join                              // the request is merged into the pending one
    | Begin(change: Change, closing: bool)  // the request takes over, perhaps closing the pending one first
    | Drop                              // nothing is left to animate and the entry goes

  predicate Matches(c: Change, current: Change) {
    c.add * current.remove != {} || c.remove * current.add != {}
  }

  function Normalize(classes: set<ClassName>, c: Change): Change {
    Merge(classes, c, NO_CHANGE)
  }

  predicate Animates(r: Request, c: Change) {
    r.event.Structural() || (r.event == Animate && r.animatesTo) || !c.Empty()
  }

  function DecideFresh(classes: set<ClassName>, r: Request): Decision {
    var n := Normalize(classes, r.change);
    if !r.allowed then CloseNow else if Animates(r, n) then Begin(n, false) else Drop
  }

  function DecidePending(e: Entry, r: Request): Decision {
    if r.event.Structural() then
      if e.event == Leave then Join
      else if e.event.Structural() then Begin(r.change, true)
      else if Matches(r.change, e.change) then Join
      else Begin(r.change, false)
    else if Matches(r.change, e.change) && e.event.Structural() then Begin(r.change, true)
    else Join
  }

  function DecideRunning(classes: set<ClassName>, e: Entry, r: Request): Decision {
    var n := Normalize(classes, r.change);
    if !r.allowed then CloseNow
    else if r.event.Structural() then (if e.event == Leave then CloseNow else Begin(r.change, false))
    else if r.change.Empty() || e.event.Structural() then CloseNow
    else if Matches(r.change, e.change) then Begin(r.change, false)
    else if Animates(r, n) then Begin(n, false)
    else Drop
  }

  function Decide(s: Element, r: Request): Decision {
    if r.skipped then CloseNow
    else if s.entry.None? then DecideFresh(s.classes, r)
    else if s.entry.value.phase == PreDigest then DecidePending(s.entry.value, r)
    else DecideRunning(s.classes, s.entry.value, r)
  }

  function OptionsOf(s: Element, id: nat): Change {
    if id in s.options then s.options[id] else NO_CHANGE
  }

  /** `close`: the classes still held by the request's options are set and forgotten. */
  function Close(s: Element, id: nat): Element {
    s.(classes := Apply(s.classes, OptionsOf(s, id)), options := s.options[id := NO_CHANGE])
  }

  function BeginPending(s: Element, event: Event, change: Change): Element {
    var counter := if s.entry.Some? then s.entry.value.counter + 1 else 1;
    s.(entry := Some(Entry(event, change, PreDigest, counter, s.nextId)),
       options := s.options[s.nextId := change],
       postDigest := s.postDigest + [Callback(s.nextId, counter)],
       nextId := s.nextId + 1)
  }

  function Push(s: Element, r: Request): Element {
    match Decide(s, r)
    case CloseNow => s.(classes := Apply(s.classes, r.change))
    case Join =>
      if s.entry.None? then s else
      var e := s.entry.value;
      var merged := Merge(s.classes, OptionsOf(s, e.owner), r.change);
      s.(entry := Some(e.(change := merged)), options := s.options[e.owner := merged])
    case Begin(change, closing) =>
      BeginPending(if closing && s.entry.Some? then Close(s, s.entry.value.owner) else s, r.event, change)
    case Drop => s.(entry := None)
  }

  // ---------- The post-digest callbacks ----------

  predicate EntryAnimates(e: Entry) {
    e.event == Animate || e.event.Structural() || !e.change.Empty()
  }

  /** The first callback of the post-digest queue; `parentPresent`: the element still has a parent. */
  function RunCallback(s: Element, parentPresent: bool): Element
    requires s.postDigest != []
  {
    var cb, t := s.postDigest[0], s.(postDigest := s.postDigest[1..]);
    if t.entry.None? then Close(t, cb.id)
    else if !parentPresent || !EntryAnimates(t.entry.value) then t.(entry := None)
    else if t.entry.value.counter != cb.counter then t
    else t.(entry := Some(t.entry.value.(phase := Running)), running := t.running + {cb})
  }

  function Flush(s: Element, parents: seq<bool>): Element
    requires |parents| == |s.postDigest|
    decreases parents
  {
    if parents == [] then s else Flush(RunCallback(s, parents[0]), parents[1..])
  }

  /** A started animation is done. */
  function Complete(s: Element, cb: Callback): Element {
    var t := Close(s, cb.id);
    t.(running := t.running - {cb},
       entry := if t.entry.Some? && t.entry.value.counter == cb.counter then None else t.entry)
  }

  // ---------- Runs ----------

  datatype Step = PushStep(request: Request) | FlushStep(parents: seq<bool>) | CompleteStep(animation: Callback)

  predicate Enabled(s: Element, step: Step) {
    match step
    case PushStep(_) => true
    case FlushStep(parents) => |parents| == |s.postDigest|
    case CompleteStep(cb) => cb in s.running
  }

  function Do(s: Element, step: Step): Element
    requires Enabled(s, step)
  {
    match step
    case PushStep(r) => Push(s, r)
    case FlushStep(parents) => Flush(s, parents)
    case CompleteStep(cb) => Complete(s, cb)
  }
}

/** Theorems about runs of the queue. */
module QueueProof {
  import opened Wrappers
  import opened AnimationClasses
  import opened QueueSpec

  predicate Increasing(cbs: seq<Callback>) {
    forall i, j :: 0 <= i < j < |cbs| ==> cbs[i].counter < cbs[j].counter && cbs[i].id < cbs[j].id
  }

  function LastOf(cbs: seq<Callback>): Callback
    requires cbs != []
  {
    cbs[|cbs| - 1]
  }

  /** The pending entry belongs to the newest callback; a running one has none left. */
  predicate Inv(s: Element) {
    && Increasing(s.postDigest)
    && (forall cb :: cb in s.postDigest ==> cb.id < s.nextId)
    && (forall cb :: cb in s.running ==>
          0 < cb.counter && cb.id < s.nextId && forall q :: q in s.postDigest ==> cb.id < q.id)
    && (s.entry.Some? ==> s.entry.value.owner < s.nextId && s.entry.value.counter > 0)
    && (s.entry.Some? && s.entry.value.phase == PreDigest ==>
          && s.postDigest != []
          && LastOf(s.postDigest) == Callback(s.entry.value.owner, s.entry.value.counter)
          && OptionsOf(s, s.entry.value.owner) == s.entry.value.change)
    && (s.entry.Some? && s.entry.value.phase == Running ==> s.postDigest == [])
  }

  /** Between two flushes: without an entry no callback waits. */
  predicate Settled(s: Element) {
    Inv(s) && (s.entry.None? ==> s.postDigest == [])
  }

  lemma AppendIncreasing(cbs: seq<Callback>, cb: Callback)
    requires Increasing(cbs) && (cbs != [] ==> LastOf(cbs).counter < cb.counter)
    requires forall q :: q in cbs ==> q.id < cb.id
    ensures Increasing(cbs + [cb])
  {
    forall i | 0 <= i < |cbs| ensures cbs[i].counter < cb.counter && cbs[i].id < cb.id {
      assert cbs[i] in cbs;
      assert i < |cbs| - 1 ==> cbs[i].counter < cbs[|cbs| - 1].counter;
    }
  }

  lemma BeginKeepsSettled(s: Element, event: Event, change: Change)
    requires Increasing(s.postDigest)
    requires forall cb :: cb in s.postDigest ==> cb.id < s.nextId
    requires forall cb :: cb in s.running ==>
               0 < cb.counter && cb.id < s.nextId && forall q :: q in s.postDigest ==> cb.id < q.id
    requires s.postDigest != [] ==> s.entry.Some? && LastOf(s.postDigest).counter <= s.entry.value.counter
    ensures Settled(BeginPending(s, event, change))
  {
    var t := BeginPending(s, event, change);
    AppendIncreasing(s.postDigest, LastOf(t.postDigest));
  }

  lemma PushKeepsSettled(s: Element, r: Request)
    requires Settled(s)
    ensures Settled(Push(s, r))
    ensures Push(s, r).running == s.running
  {
    match Decide(s, r)
    case Begin(change, closing) =>
      BeginKeepsSettled(if closing && s.entry.Some? then Close(s, s.entry.value.owner) else s, r.event, change);
    case Join =>
    case Drop =>
      assert s.entry.None? || s.entry.value.phase == Running;
    case CloseNow =>
  }

  /** Whether the flush will start an animation. */
  predicate WillStart(s: Element, parents: seq<bool>) {
    && s.entry.Some? && s.entry.value.phase == PreDigest
    && (forall p :: p in parents ==> p)
    && EntryAnimates(s.entry.value)
  }

  lemma {:induction false} FlushCancelled(s: Element, parents: seq<bool>)
    requires |parents| == |s.postDigest| && Inv(s) && s.entry.None?
    ensures var t := Flush(s, parents);
            t.entry.None? && t.running == s.running && t.postDigest == [] && t.nextId == s.nextId && Settled(t)
    decreases parents
  {
    if parents != [] {
      var t := RunCallback(s, parents[0]);
      assert forall cb :: cb in t.postDigest ==> cb in s.postDigest;
      FlushCancelled(t, parents[1..]);
    }
  }

  /** A callback that is not the newest starts nothing; at most it drops the entry. */
  lemma RunOlder(s: Element, parentPresent: bool)
    requires Settled(s) && |s.postDigest| > 1
    ensures var t := RunCallback(s, parentPresent);
            && Inv(t) && LastOf(t.postDigest) == LastOf(s.postDigest)
            && t == s.(postDigest := s.postDigest[1..],
                       entry := if parentPresent && EntryAnimates(s.entry.value) then s.entry else None)
  {
    IncreasingTail(s.postDigest);
  }

  lemma IncreasingTail(cbs: seq<Callback>)
    requires Increasing(cbs) && |cbs| > 1
    ensures Increasing(cbs[1..]) && LastOf(cbs[1..]) == LastOf(cbs) && cbs[0].counter < LastOf(cbs).counter
    ensures forall cb :: cb in cbs[1..] ==> cb in cbs
  {
  }

  lemma RunNewest(s: Element, parentPresent: bool)
    requires Settled(s) && |s.postDigest| == 1
    ensures var t := RunCallback(s, parentPresent);
            && Settled(t) && t.postDigest == []
            && (if parentPresent && EntryAnimates(s.entry.value)
                then t == s.(postDigest := [], entry := Some(s.entry.value.(phase := Running)),
                             running := s.running + {LastOf(s.postDigest)})
                else t == s.(postDigest := [], entry := None))
  {
  }

  /**
   * A flush starts at most one animation: the one of the newest callback, whose options hold everything
   * merged so far. It does so exactly when no callback finds the parent missing and there is something to animate.
   */
  lemma {:induction false} FlushStartsNewestOnly(s: Element, parents: seq<bool>)
    requires Settled(s) && |parents| == |s.postDigest|
    ensures var t := Flush(s, parents);
            && Settled(t)
            && t.postDigest == []
            && t.nextId == s.nextId
            && t.running == (if WillStart(s, parents) then s.running + {LastOf(s.postDigest)} else s.running)
            && t.entry == (if parents == [] then s.entry
                           else if WillStart(s, parents) then Some(s.entry.value.(phase := Running))
                           else None)
            && (WillStart(s, parents) ==> t.classes == s.classes && t.options == s.options)
    decreases parents
  {
    if parents != [] {
      var t := RunCallback(s, parents[0]);
      assert parents == [parents[0]] + parents[1..];
      if |parents| == 1 {
        RunNewest(s, parents[0]);
        assert Flush(s, parents) == Flush(t, []) == t;
      } else {
        RunOlder(s, parents[0]);
        assert parents[0] in parents && forall p :: p in parents <==> p == parents[0] || p in parents[1..];
        if t.entry.None? {
          FlushCancelled(t, parents[1..]);
        } else {
          FlushStartsNewestOnly(t, parents[1..]);
        }
      }
    }
  }

  // ---------- Completions ----------

  /** Every unfinished animation is older than the entry, or is the entry's own. */
  predicate Tracked(s: Element) {
    forall cb :: cb in s.running ==>
      && s.entry.Some? && cb.counter <= s.entry.value.counter
      && (cb.counter == s.entry.value.counter ==> cb.id == s.entry.value.owner && s.entry.value.phase == Running)
  }

  /**
   * The step drops the element's entry while an animation other than the completing one is unfinished: a
   * request with nothing left to animate, a flush whose callbacks cancel the entry, or a completion out of order.
   */
  predicate Orphans(s: Element, step: Step)
    requires Enabled(s, step)
  {
    match step
    case PushStep(r) => Decide(s, r) == Drop && s.running != {}
    case FlushStep(parents) => parents != [] && !WillStart(s, parents) && s.running != {}
    case CompleteStep(cb) => s.entry.Some? && s.entry.value.counter == cb.counter && s.running != {cb}
  }

  lemma OrphansLoseEntry(s: Element, step: Step)
    requires Settled(s) && Tracked(s) && Enabled(s, step)
    ensures Orphans(s, step) <==> Do(s, step).entry.None? && Do(s, step).running != {}
  {
    match step
    case PushStep(r) =>
      PushKeepsSettled(s, r);
    case FlushStep(parents) =>
      FlushStartsNewestOnly(s, parents);
    case CompleteStep(cb) =>
      assert s.running - {cb} == {} <==> s.running == {cb};
  }

  lemma PushKeepsTracked(s: Element, r: Request)
    requires Settled(s) && Tracked(s)
    ensures Settled(Push(s, r))
    ensures Push(s, r).entry.Some? || s.running == {} ==> Tracked(Push(s, r))
  {
    PushKeepsSettled(s, r);
  }

  lemma FlushKeepsTracked(s: Element, parents: seq<bool>)
    requires Settled(s) && Tracked(s) && |parents| == |s.postDigest|
    ensures Settled(Flush(s, parents))
    ensures Flush(s, parents).entry.Some? || s.running == {} ==> Tracked(Flush(s, parents))
  {
    FlushStartsNewestOnly(s, parents);
  }

  lemma CompleteKeepsTracked(s: Element, cb: Callback)
    requires Settled(s) && Tracked(s) && cb in s.running
    ensures Settled(Complete(s, cb))
    ensures Complete(s, cb).entry.Some? || s.running == {cb} ==> Tracked(Complete(s, cb))
  {
  }

  /** One step keeps the tracking exactly when it orphans nothing. */
  lemma StepKeepsTracked(s: Element, step: Step)
    requires Settled(s) && Tracked(s) && Enabled(s, step)
    ensures Settled(Do(s, step))
    ensures Tracked(Do(s, step)) <==> !Orphans(s, step)
  {
    OrphansLoseEntry(s, step);
    match step
    case PushStep(r) => PushKeepsTracked(s, r);
    case FlushStep(parents) => FlushKeepsTracked(s, parents);
    case CompleteStep(cb) => CompleteKeepsTracked(s, cb);
  }

  /** The completion of `cb` clears an entry that belongs to another request. */
  predicate WrongClear(s: Element, cb: Callback) {
    s.entry.Some? && s.entry.value.owner != cb.id && Complete(s, cb).entry.None?
  }

  /** While tracked, a completion clears its own entry and no other. */
  lemma CompletionClearsOwn(s: Element, cb: Callback)
    requires Tracked(s) && cb in s.running
    ensures !WrongClear(s, cb)
    ensures s.entry.value.phase == Running && s.entry.value.owner == cb.id && s.entry.value.counter == cb.counter
            <==> Complete(s, cb).entry.None?
  {
  }

  predicate RunWithoutOrphans(s: Element, steps: seq<Step>)
    decreases steps
  {
    steps == [] ||
    (Enabled(s, steps[0]) && !Orphans(s, steps[0]) && RunWithoutOrphans(Do(s, steps[0]), steps[1..]))
  }

  function RunFrom(s: Element, steps: seq<Step>): Element
    requires RunWithoutOrphans(s, steps)
    decreases steps
  {
    if steps == [] then s else RunFrom(Do(s, steps[0]), steps[1..])
  }

  /** Over any run that orphans nothing, no completion ever clears its successor's entry. */
  lemma {:induction false} NoWrongClearInRun(s: Element, steps: seq<Step>)
    requires Settled(s) && Tracked(s) && RunWithoutOrphans(s, steps)
    ensures var t := RunFrom(s, steps);
            Settled(t) && Tracked(t) && forall cb :: cb in t.running ==> !WrongClear(t, cb)
    decreases steps
  {
    if steps == [] {
      forall cb | cb in s.running ensures !WrongClear(s, cb) {
        CompletionClearsOwn(s, cb);
      }
    } else {
      StepKeepsTracked(s, steps[0]);
      NoWrongClearInRun(Do(s, steps[0]), steps[1..]);
    }
  }

  /** An element no request was ever made for. */
  function Idle(classes: set<ClassName>): Element {
    Element(classes, None, map[], [], {}, 0)
  }

  /** From an idle element on, in any run that orphans nothing, every flush starts at most the newest callback. */
  lemma EachFlushStartsNewestOnly(classes: set<ClassName>, steps: seq<Step>, parents: seq<bool>)
    requires RunWithoutOrphans(Idle(classes), steps)
    requires |parents| == |RunFrom(Idle(classes), steps).postDigest|
    ensures var s := RunFrom(Idle(classes), steps);
            Flush(s, parents).running
            == (if WillStart(s, parents) && parents != [] then s.running + {LastOf(s.postDigest)} else s.running)
  {
    NoWrongClearInRun(Idle(classes), steps);
    FlushStartsNewestOnly(RunFrom(Idle(classes), steps), parents);
  }

  // ---------- Orphans ----------

  const ENTER := Request(Enter, NO_CHANGE, false, false, true)

  function PushAll(s: Element, rs: seq<Request>): Element
    decreases rs
  {
    if rs == [] then s else PushAll(Push(s, rs[0]), rs[1..])
  }

  /** Every callback of the element finds a parent. */
  function AllPresent(s: Element): (parents: seq<bool>)
    ensures |parents| == |s.postDigest| && forall p :: p in parents ==> p
  {
    seq(|s.postDigest|, _ => true)
  }

  function Digest(s: Element): Element {
    Flush(s, AllPresent(s))
  }

  /** `n` structural requests, one after the other. */
  function Enters(s: Element, n: nat): Element {
    if n == 0 then s else Push(Enters(s, n - 1), ENTER)
  }

  /** After `n` such requests on `s` the last one waits, with counter `n`. */
  predicate Entered(s: Element, t: Element, n: nat) {
    && t.running == s.running && t.nextId == s.nextId + n
    && (forall cb :: cb in s.postDigest ==> cb in t.postDigest)
    && if n == 0 then t.entry.None?
       else && t.entry.Some? && t.entry.value.event == Enter && t.entry.value.phase == PreDigest
            && t.entry.value.counter == n && t.entry.value.owner == t.nextId - 1
            && Callback(t.nextId - 1, n) in t.postDigest
  }

  lemma EnterBegins(s: Element, t: Element, n: nat)
    requires Entered(s, t, n)
    ensures Entered(s, Push(t, ENTER), n + 1)
  {
    assert Decide(t, ENTER).Begin?;
  }

  lemma {:induction false} EntersCount(s: Element, n: nat)
    requires s.entry.None?
    ensures Entered(s, Enters(s, n), n)
  {
    if n > 0 {
      EntersCount(s, n - 1);
      EnterBegins(s, Enters(s, n - 1), n - 1);
    }
  }

  lemma {:induction false} EntersSettled(s: Element, n: nat)
    requires Settled(s)
    ensures Settled(Enters(s, n))
  {
    if n > 0 {
      EntersSettled(s, n - 1);
      PushKeepsSettled(Enters(s, n - 1), ENTER);
    }
  }

  /** With all parents present a flush starts every callback that has the counter of the entry. */
  lemma {:induction false} FlushStartsEqualCounters(s: Element, parents: seq<bool>)
    requires |parents| == |s.postDigest| && (forall p :: p in parents ==> p)
    requires s.entry.Some? && EntryAnimates(s.entry.value)
    ensures Flush(s, parents).running
         == s.running + set cb | cb in s.postDigest && cb.counter == s.entry.value.counter
    decreases parents
  {
    if parents != [] {
      assert parents[0] in parents && forall p :: p in parents[1..] ==> p in parents;
      FlushStartsEqualCounters(RunCallback(s, parents[0]), parents[1..]);
      assert s.postDigest == [s.postDigest[0]] + s.postDigest[1..];
    }
  }

  /** An orphan can go wrong: as many structural requests as its counter give it a successor to clear. */
  lemma OrphanClearsSuccessor(s: Element, orphan: Callback)
    requires Settled(s) && s.entry.None? && orphan in s.running
    ensures var t := Digest(Enters(s, orphan.counter));
            && t.entry.Some? && t.entry.value.phase == Running
            && orphan in t.running && WrongClear(t, orphan)
  {
    EntersCount(s, orphan.counter);
    EntersSettled(s, orphan.counter);
    var t := Enters(s, orphan.counter);
    FlushStartsNewestOnly(t, AllPresent(t));
  }

  /** As many requests as the counter of the orphan, its completion, and as many requests again. */
  function EnteredTwice(s: Element, orphan: Callback): Element {
    Enters(Complete(Enters(s, orphan.counter), orphan), orphan.counter)
  }

  lemma EnteredTwiceWaits(s: Element, orphan: Callback)
    requires s.entry.None? && orphan.counter > 0
    ensures var t, n := EnteredTwice(s, orphan), orphan.counter;
            && t.running == s.running - {orphan}
            && t.entry.Some? && t.entry.value.event == Enter && t.entry.value.counter == n
            && Callback(s.nextId + n - 1, n) in t.postDigest && Callback(s.nextId + 2 * n - 1, n) in t.postDigest
  {
    var n := orphan.counter;
    var u := Enters(s, n);
    EntersCount(s, n);
    var v := Complete(u, orphan);
    assert v.entry.None? && v.postDigest == u.postDigest && v.nextId == u.nextId;
    EntersCount(v, n);
  }

  /** The other way to go wrong: the successor is cleared while it waits, and the one after it has its counter. */
  lemma OrphanStartsTwo(s: Element, orphan: Callback) returns (first: Callback, second: Callback)
    requires Settled(s) && s.entry.None? && orphan in s.running
    ensures var t := EnteredTwice(s, orphan);
            && first.id < second.id && first !in t.running && second !in t.running
            && first in Digest(t).running && second in Digest(t).running
  {
    var t, n := EnteredTwice(s, orphan), orphan.counter;
    EnteredTwiceWaits(s, orphan);
    first, second := Callback(s.nextId + n - 1, n), Callback(s.nextId + 2 * n - 1, n);
    FlushStartsEqualCounters(t, AllPresent(t));
  }

  /**
   * Orphaning is never harmless: after any step that does so, some run ends with a successor cleared, and some
   * run has a flush that starts two animations at once.
   */
  lemma OrphaningGoesWrong(s: Element, step: Step) returns (orphan: Callback, first: Callback, second: Callback)
    requires Settled(s) && Tracked(s) && Enabled(s, step) && Orphans(s, step)
    ensures orphan in Do(s, step).running
    ensures var t := Digest(Enters(Do(s, step), orphan.counter));
            orphan in t.running && WrongClear(t, orphan)
    ensures var t := EnteredTwice(Do(s, step), orphan);
            && first.id < second.id && first !in t.running && second !in t.running
            && first in Digest(t).running && second in Digest(t).running
  {
    OrphansLoseEntry(s, step);
    StepKeepsTracked(s, step);
    orphan :| orphan in Do(s, step).running;
    OrphanClearsSuccessor(Do(s, step), orphan);
    first, second := OrphanStartsTwo(Do(s, step), orphan);
  }

  lemma DigestOfOne(s: Element)
    requires |s.postDigest| == 1
    ensures Digest(s) == RunCallback(s, true)
  {
    var parents, t := AllPresent(s), RunCallback(s, true);
    assert parents[0] in parents && parents[1..] == [];
    assert Flush(t, []) == t;
  }

  function AddRequest(c: ClassName): Request {
    Request(AddClassEvent, Change({c}, {}), false, false, true)
  }

  function RemoveRequest(c: ClassName): Request {
    Request(RemoveClassEvent, Change({}, {c}), false, false, true)
  }

  /** A class animation runs, and a request follows that changes nothing. */
  function AfterNoOp(x: ClassName, y: ClassName): Element {
    Push(Digest(Push(Idle({}), AddRequest(x))), RemoveRequest(y))
  }

  /** Such a request drops the entry of the running animation. */
  lemma NoOpRequestDrops(x: ClassName, y: ClassName)
    requires x != y
    ensures AfterNoOp(x, y).(options := map[]) == Element({}, None, map[], [], {Callback(0, 1)}, 1)
  {
    assert x in Change({x}, {}).add && y in Change({}, {y}).remove;
    assert Normalize({}, Change({x}, {})) == Change({x}, {});
    var p := Push(Idle({}), AddRequest(x));
    assert p.postDigest == [Callback(0, 1)];
    DigestOfOne(p);
    assert Normalize({}, Change({}, {y})) == NO_CHANGE;
  }

  /**
   * So an orphan arises within the queue itself. The next class animation is numbered 1 again and loses its
   * entry when the first one completes.
   */
  lemma NoOpRequestOrphans(x: ClassName, y: ClassName, z: ClassName)
    requires x != y && x != z && y != z
    ensures var s := Digest(Push(AfterNoOp(x, y), AddRequest(z)));
            && s.entry.Some? && s.entry.value.owner == 1 && s.running == {Callback(0, 1), Callback(1, 1)}
            && WrongClear(s, Callback(0, 1))
  {
    NoOpRequestDrops(x, y);
    assert z in Change({z}, {}).add;
    assert Normalize({}, Change({z}, {})) == Change({z}, {});
    var p := Push(AfterNoOp(x, y), AddRequest(z));
    assert p.postDigest == [Callback(1, 1)];
    DigestOfOne(p);
  }

  /** Or an enter is requested, the first animation completes, an enter is requested again: both start at once. */
  lemma NoOpRequestStartsTwo(x: ClassName, y: ClassName)
    requires x != y
    ensures var s := Push(Complete(Push(AfterNoOp(x, y), ENTER), Callback(0, 1)), ENTER);
            s.running == {} && Digest(s).running == {Callback(1, 1), Callback(2, 1)}
  {
    NoOpRequestDrops(x, y);
    var s := Push(Complete(Push(AfterNoOp(x, y), ENTER), Callback(0, 1)), ENTER);
    assert s.postDigest == [Callback(1, 1), Callback(2, 1)];
    FlushStartsEqualCounters(s, AllPresent(s));
    assert Callback(1, 1) in s.postDigest && Callback(2, 1) in s.postDigest;
  }

  // ---------- Class requests in one digest ----------

  predicate ClassRequest(r: Request) {
    && (r.event.AddClassEvent? || r.event.RemoveClassEvent? || r.event.SetClassEvent?)
    && !r.skipped && r.allowed
  }

  function Changes(rs: seq<Request>): seq<Change> {
    seq(|rs|, i requires 0 <= i < |rs| => rs[i].change)
  }

  /** The class change waiting on the element. */
  function Pending(s: Element): Change {
    if s.entry.Some? then s.entry.value.change else NO_CHANGE
  }

  /** At most one class animation waits, and it is the only callback. */
  predicate ClassOnly(s: Element) {
    && Settled(s) && |s.postDigest| <= 1 && s.running == {}
    && (s.entry.Some? ==> s.entry.value.phase == PreDigest && !s.entry.value.event.Structural()
                          && s.entry.value.event != Animate)
  }

  lemma ClassPushMerges(s: Element, r: Request)
    requires ClassOnly(s) && ClassRequest(r)
    ensures var t := Push(s, r);
            && ClassOnly(t) && t.classes == s.classes
            && Pending(t) == Merge(s.classes, Pending(s), r.change)
  {
    assert Merge(s.classes, NO_CHANGE, r.change) == Normalize(s.classes, r.change);
  }

  lemma {:induction false} ClassPushesMerge(s: Element, rs: seq<Request>)
    requires ClassOnly(s) && forall r :: r in rs ==> ClassRequest(r)
    ensures var t := PushAll(s, rs);
            && ClassOnly(t) && t.classes == s.classes
            && Pending(t) == MergeAll(s.classes, Pending(s), Changes(rs))
    decreases rs
  {
    if rs != [] {
      ClassPushMerges(s, rs[0]);
      ClassPushesMerge(Push(s, rs[0]), rs[1..]);
      assert Changes(rs)[1..] == Changes(rs[1..]);
    }
  }

  /** The digest ends: the callbacks run, and whatever was started is completed. */
  function Finish(s: Element): Element {
    var t := Digest(s);
    if s.postDigest != [] && LastOf(s.postDigest) in t.running then Complete(t, LastOf(s.postDigest)) else t
  }

  /**
   * Any class requests on an idle element in one digest end with the classes that applying them in order
   * would leave, exactly when no class of the element is last asked for both ways.
   */
  lemma ClassRequestsInOneDigest(s: Element, rs: seq<Request>)
    requires Settled(s) && s.entry.None? && s.running == {}
    requires forall r :: r in rs ==> ClassRequest(r)
    ensures Finish(PushAll(s, rs)).entry.None?
    ensures Finish(PushAll(s, rs)).classes == ApplyAll(s.classes, Changes(rs))
            <==> forall k :: k in s.classes ==> !ClashesLast(k, Changes(rs))
  {
    ClassPushesMerge(s, rs);
    var t := PushAll(s, rs);
    var parents := AllPresent(t);
    FlushStartsNewestOnly(t, parents);
    MergedEqualsInOrder(s.classes, Changes(rs));
    assert Apply(s.classes, NO_CHANGE) == s.classes;
    if t.entry.Some? {
      assert parents != [];
      if !WillStart(t, parents) {
        assert Pending(t) == NO_CHANGE;
        EmptyFlush(t, parents);
      }
    }
  }

  lemma EmptyFlush(s: Element, parents: seq<bool>)
    requires ClassOnly(s) && s.entry.Some? && |parents| == |s.postDigest|
    requires s.entry.value.change.Empty()
    ensures Flush(s, parents).classes == s.classes
  {
    assert parents[1..] == [];
    assert Flush(s, parents) == RunCallback(s, parents[0]);
  }
}

/** The queue as the service keeps it: fields updated by `queueAnimation` and by its callbacks. */
module AnimateQueue {
  import opened Wrappers
  import opened AnimationClasses
  import opened QueueSpec

  predicate SkipRules(r: Request, current: Entry) {
    || (!r.event.Structural() && r.change.Empty())
    || (current.event == Leave && r.event.Structural())
    || (current.event.Structural() && current.phase == Running && !r.event.Structural())
  }

  predicate CancelRules(r: Request, current: Entry) {
    || (current.event.Structural() && r.event.Structural())
    || (current.phase == Running && r.event.Structural())
    || Matches(r.change, current.change)
  }

  predicate JoinRules(r: Request, current: Entry) {
    !r.event.Structural() && !r.change.Empty()
  }

  class ElementQueue {
    var classes: set<ClassName>
    var active: Option<Entry>
    var options: map<nat, Change>
    var postDigest: seq<Callback>
    var running: set<Callback>
    var nextId: nat

    constructor (classes: set<ClassName>)
      ensures State() == Element(classes, None, map[], [], {}, 0)
    {
      this.classes, active, options, postDigest, running, nextId := classes, None, map[], [], {}, 0;
    }

    function State(): Element
      reads this
    {
      Element(classes, active, options, postDigest, running, nextId)
    }

    method CloseRequest(id: nat)
      modifies this
      ensures State() == Close(old(State()), id)
    {
      if id in options {
        classes := classes + options[id].add - options[id].remove;
      } else {
        assert classes + {} - {} == classes;
      }
      options := options[id := NO_CHANGE];
    }

    /** `mergeAnimationDetails(element, existingAnimation, newAnimation)` */
    method MergeIntoActive(r: Request)
      requires active.Some?
      modifies this
      ensures active.Some?
      ensures active.value.change == Merge(classes, OptionsOf(old(State()), old(active).value.owner), r.change)
      ensures active == Some(old(active).value.(change := active.value.change))
      ensures State() == old(State()).(entry := active,
                                       options := old(options)[old(active).value.owner := active.value.change])
    {
      var e := active.value;
      var target := if e.owner in options then options[e.owner] else NO_CHANGE;
      var merged := Merge(classes, target, r.change);
      options := options[e.owner := merged];
      active := Some(e.(change := merged));
    }

    /** `queueAnimation`: the nested tests of the service, in its order. */
    method QueueAnimation(r: Request)
      modifies this
      ensures State() == Push(old(State()), r)
    {
      ghost var s := State();
      var skipAnimations := r.skipped;
      var existing := if skipAnimations then None else active;
      if !skipAnimations && (existing.None? || existing.value.phase != PreDigest) {
        skipAnimations := !r.allowed;
      }
      if skipAnimations {
        classes := Apply(classes, r.change);
        return;
      }
      var change := r.change;
      if existing.Some? {
        var current := existing.value;
        if SkipRules(r, current) {
          if current.phase == Running {
            classes := Apply(classes, r.change);
          } else {
            MergeIntoActive(r);
          }
          return;
        }
        if CancelRules(r, current) {
          if current.phase == Running {
            // the running animation is told to end; its completion comes later
          } else if current.event.Structural() {
            CloseRequest(current.owner);
          } else {
            MergeIntoActive(r);
            return;
          }
        } else if JoinRules(r, current) {
          if current.phase == Running {
            change := Normalize(classes, change);
          } else {
            MergeIntoActive(r);
            return;
          }
        }
      } else {
        change := Normalize(classes, change);
      }
      if !Animates(r, change) {
        classes := Apply(classes, change);
        active := None;
        return;
      }
      var counter := (if existing.Some? then existing.value.counter else 0) + 1;
      active := Some(Entry(r.event, change, PreDigest, counter, nextId));
      options := options[nextId := change];
      postDigest := postDigest + [Callback(nextId, counter)];
      nextId := nextId + 1;
    }

    /** The head of the post-digest queue. */
    method RunNextCallback(parentPresent: bool)
      requires postDigest != []
      modifies this
      ensures State() == RunCallback(old(State()), parentPresent)
    {
      var cb := postDigest[0];
      postDigest := postDigest[1..];
      var cancelled := active.None?;
      var isValid := parentPresent && active.Some? && EntryAnimates(active.value);
      if cancelled || active.value.counter != cb.counter || !isValid {
        if cancelled {
          CloseRequest(cb.id);
        }
        if !isValid {
          active := None;
        }
        return;
      }
      active := Some(active.value.(phase := Running));
      running := running + {cb};
    }

    method FlushPostDigest(parents: seq<bool>)
      requires |parents| == |postDigest|
      modifies this
      ensures State() == Flush(old(State()), parents)
    {
      for i := 0 to |parents|
        invariant |postDigest| == |parents| - i
        invariant Flush(State(), parents[i..]) == Flush(old(State()), parents)
      {
        assert parents[i..][0] == parents[i] && parents[i..][1..] == parents[i + 1..];
        RunNextCallback(parents[i]);
      }
    }

    method CompleteAnimation(cb: Callback)
      requires cb in running
      modifies this
      ensures State() == Complete(old(State()), cb)
    {
      CloseRequest(cb.id);
      if active.Some? && active.value.counter == cb.counter {
        active := None;
      }
      running := running - {cb};
    }
  }
}
