/** What scheduled functions do when called, and how much work they can still cause. */
module Jobs {
  /**
   * A task of the scheduler or a callback waiting for quiet. While it runs it performs its actions,
   * in order: it waits for quiet with a further callback, or schedules further rows of tasks.
   */
  datatype Job = Job(id: nat, actions: seq<Action>)
  datatype Action = AwaitQuiet(callback: Job) | Schedule(rows: seq<Row>)
  datatype Row = Row(tasks: seq<Job>)

  function JobWork(j: Job): nat
    decreases j, 0
  {
    1 + ActionsWork(j.actions)
  }

  function ActionsWork(actions: seq<Action>): nat
    decreases actions, 0
  {
    if actions == [] then 0 else ActionWork(actions[0]) + ActionsWork(actions[1..])
  }

  function ActionWork(a: Action): nat
    decreases a, 0
  {
    match a
    case AwaitQuiet(callback) => 1 + JobWork(callback)
    case Schedule(rows) => 1 + RowsWork(rows)
  }

  function JobsWork(jobs: seq<Job>): nat
    decreases jobs, 0
  {
    if jobs == [] then 0 else JobWork(jobs[0]) + JobsWork(jobs[1..])
  }

  function RowsWork(rows: seq<Row>): nat
    decreases rows, 0
  {
    if rows == [] then 0 else 1 + JobsWork(rows[0].tasks) + RowsWork(rows[1..])
  }

  lemma {:induction false} RowsWorkConcat(a: seq<Row>, b: seq<Row>)
    ensures RowsWork(a + b) == RowsWork(a) + RowsWork(b)
  {
    if a == [] {
      assert a + b == b;
    } else {
      assert (a + b)[0] == a[0] && (a + b)[1..] == a[1..] + b;
      RowsWorkConcat(a[1..], b);
    }
  }

  lemma {:induction false} JobsWorkConcat(a: seq<Job>, b: seq<Job>)
    ensures JobsWork(a + b) == JobsWork(a) + JobsWork(b)
  {
    if a == [] {
      assert a + b == b;
    } else {
      assert (a + b)[0] == a[0] && (a + b)[1..] == a[1..] + b;
      JobsWorkConcat(a[1..], b);
    }
  }

  lemma JobsWorkPush(jobs: seq<Job>, j: Job)
    ensures JobsWork(jobs + [j]) == JobsWork(jobs) + JobWork(j)
  {
    JobsWorkConcat(jobs, [j]);
    assert [j][1..] == [];
  }

  function Flatten(rows: seq<Row>): seq<Job> {
    if rows == [] then [] else Flatten(rows[..|rows| - 1]) + rows[|rows| - 1].tasks
  }

  lemma FlattenPush(rows: seq<Row>, row: Row)
    ensures Flatten(rows + [row]) == Flatten(rows) + row.tasks
  {
    assert (rows + [row])[..|rows|] == rows;
  }

  // ---------- What jobs ask for ----------

  /** The callbacks that actions hand to waitUntilQuiet, in order. */
  function NamedCallbacks(actions: seq<Action>): seq<Job> {
    if actions == [] then []
    else (if actions[0].AwaitQuiet? then [actions[0].callback] else []) + NamedCallbacks(actions[1..])
  }

  /** The rows that actions schedule, in order. */
  function NamedRows(actions: seq<Action>): seq<Row> {
    if actions == [] then []
    else (if actions[0].Schedule? then actions[0].rows else []) + NamedRows(actions[1..])
  }

  function CallbacksOf(jobs: seq<Job>): seq<Job> {
    if jobs == [] then [] else CallbacksOf(jobs[..|jobs| - 1]) + NamedCallbacks(jobs[|jobs| - 1].actions)
  }

  function RowsOf(jobs: seq<Job>): seq<Row> {
    if jobs == [] then [] else RowsOf(jobs[..|jobs| - 1]) + NamedRows(jobs[|jobs| - 1].actions)
  }

  function Count<T(==)>(values: seq<T>, x: T): nat {
    if values == [] then 0 else Count(values[..|values| - 1], x) + (if values[|values| - 1] == x then 1 else 0)
  }

  lemma {:induction false} CountConcat<T>(a: seq<T>, b: seq<T>, x: T)
    ensures Count(a + b, x) == Count(a, x) + Count(b, x)
    decreases |b|
  {
    if b == [] {
      assert a + b == a;
    } else {
      assert (a + b)[..|a + b| - 1] == a + b[..|b| - 1];
      CountConcat(a, b[..|b| - 1], x);
    }
  }

  lemma {:induction false} CountIs<T>(values: seq<T>, x: T)
    ensures Count(values, x) == multiset(values)[x]
  {
    if values != [] {
      var front := values[..|values| - 1];
      assert values == front + [values[|values| - 1]];
      CountIs(front, x);
    }
  }

  lemma NamedPush(jobs: seq<Job>, j: Job)
    ensures CallbacksOf(jobs + [j]) == CallbacksOf(jobs) + NamedCallbacks(j.actions)
    ensures RowsOf(jobs + [j]) == RowsOf(jobs) + NamedRows(j.actions)
  {
    assert (jobs + [j])[..|jobs|] == jobs;
  }

  /** A job that only ever waits for quiet, as the animation tasks do. */
  predicate Waits(j: Job)
    decreases j, 0
  {
    ActionsWait(j.actions)
  }

  predicate ActionsWait(actions: seq<Action>)
    decreases actions, 0
  {
    actions == [] || (ActionWaits(actions[0]) && ActionsWait(actions[1..]))
  }

  predicate ActionWaits(a: Action)
    decreases a, 0
  {
    a.AwaitQuiet? && Waits(a.callback)
  }

  ghost predicate AllWait(jobs: seq<Job>) {
    forall i :: 0 <= i < |jobs| ==> Waits(jobs[i])
  }

  ghost predicate RowsWait(rows: seq<Row>) {
    forall i :: 0 <= i < |rows| ==> AllWait(rows[i].tasks)
  }
}

/** `$$rAFScheduler` together with `waitUntilQuiet` of `$animateCss`. */
module FrameScheduler {
  import opened Wrappers
  import opened Jobs

  /** A pending animation frame: a tick, or a quiet frame. */
  datatype Frame = Tick | Quiet

  /** The parts of the scheduler's state that a running job may add to, and their history. */
  datatype Progress = Progress(
    quiet: bool,             // a quiet frame is pending
    waiting: seq<Job>,       // rafWaitQueue
    scheduled: seq<Row>,     // rows handed to the scheduler, in order
    started: seq<Row>,       // rows taken off the queue, in order
    ran: seq<Job>,           // tasks called, in order
    awaited: seq<Job>,       // callbacks handed to waitUntilQuiet, in order
    called: seq<Job>)        // callbacks called, in order

  /** What may have happened while the tasks `items` were called. */
  ghost predicate Grew(s: Progress, t: Progress, items: seq<Job>) {
    && t.called == s.called
    && s.waiting <= t.waiting
    && t.awaited == s.awaited + t.waiting[|s.waiting|..]
    && (|t.waiting| > |s.waiting| || s.quiet ==> t.quiet)
    && s.started <= t.started
    && s.scheduled <= t.scheduled
    && forall j :: Balanced(s, t, items, j)
  }

  /** `j` was called as often as `items` and the rows started meanwhile say. */
  ghost predicate Balanced(s: Progress, t: Progress, items: seq<Job>, j: Job) {
    multiset(t.ran)[j] + multiset(Flatten(s.started))[j]
    == multiset(Flatten(t.started))[j] + multiset(s.ran)[j] + multiset(items)[j]
  }

  /** Callbacks awaited, less those that the tasks and callbacks called so far have asked for. */
  ghost function CallbackDebt(s: Progress, j: Job): int {
    Count(s.awaited, j) - Count(CallbacksOf(s.ran), j) - Count(CallbacksOf(s.called), j)
  }

  ghost function RowDebt(s: Progress, r: Row): int {
    Count(s.scheduled, r) - Count(RowsOf(s.ran), r) - Count(RowsOf(s.called), r)
  }

  /** Beyond what is called meanwhile asks for, exactly what the actions name was awaited and scheduled. */
  ghost predicate Honoured(s: Progress, t: Progress, actions: seq<Action>) {
    && (forall j :: CallbackDebt(t, j) == CallbackDebt(s, j) + Count(NamedCallbacks(actions), j))
    && (forall r :: RowDebt(t, r) == RowDebt(s, r) + Count(NamedRows(actions), r))
  }

  lemma NothingNamed(s: Progress, t: Progress)
    requires t.awaited == s.awaited && t.scheduled == s.scheduled && t.ran == s.ran && t.called == s.called
    ensures Honoured(s, t, [])
  {
  }

  lemma HonouredThen(s: Progress, t: Progress, u: Progress, a: seq<Action>, b: seq<Action>)
    requires Honoured(s, t, a) && Honoured(t, u, b)
    ensures Honoured(s, u, a + b) && (b == [] ==> Honoured(s, u, a))
  {
    NamedConcat(a, b);
    assert b == [] ==> a + b == a;
    forall j ensures CallbackDebt(u, j) == CallbackDebt(s, j) + Count(NamedCallbacks(a + b), j) {
      CountConcat(NamedCallbacks(a), NamedCallbacks(b), j);
    }
    forall r ensures RowDebt(u, r) == RowDebt(s, r) + Count(NamedRows(a + b), r) {
      CountConcat(NamedRows(a), NamedRows(b), r);
    }
  }

  lemma {:induction false} NamedConcat(a: seq<Action>, b: seq<Action>)
    ensures NamedCallbacks(a + b) == NamedCallbacks(a) + NamedCallbacks(b)
    ensures NamedRows(a + b) == NamedRows(a) + NamedRows(b)
  {
    if a == [] {
      assert a + b == b;
    } else {
      assert (a + b)[0] == a[0] && (a + b)[1..] == a[1..] + b;
      NamedConcat(a[1..], b);
    }
  }

  lemma CallbackNamed(s: Progress, t: Progress, callback: Job)
    requires t.awaited == s.awaited + [callback] && t.scheduled == s.scheduled && t.ran == s.ran && t.called == s.called
    ensures Honoured(s, t, [AwaitQuiet(callback)])
  {
    assert [AwaitQuiet(callback)][1..] == [];
    forall j ensures CallbackDebt(t, j) == CallbackDebt(s, j) + Count(NamedCallbacks([AwaitQuiet(callback)]), j) {
      CountConcat(s.awaited, [callback], j);
    }
  }

  lemma RowsNamed(s: Progress, t: Progress, rows: seq<Row>)
    requires t.awaited == s.awaited && t.scheduled == s.scheduled + rows && t.ran == s.ran && t.called == s.called
    ensures Honoured(s, t, [Schedule(rows)])
  {
    NamesOne(rows);
    forall r ensures RowDebt(t, r) == RowDebt(s, r) + Count(NamedRows([Schedule(rows)]), r) {
      CountConcat(s.scheduled, rows, r);
    }
  }

  /** A job is called, and its actions are performed: nothing is left to ask for. */
  lemma JobHonoured(s: Progress, t: Progress, u: Progress, job: Job)
    requires t == s.(ran := s.ran + [job]) || t == s.(called := s.called + [job])
    requires Honoured(t, u, job.actions)
    ensures Honoured(s, u, [])
  {
    NamedPush(s.ran, job);
    NamedPush(s.called, job);
    forall j ensures CallbackDebt(u, j) == CallbackDebt(s, j) + Count(NamedCallbacks([]), j) {
      CountConcat(CallbacksOf(s.ran), NamedCallbacks(job.actions), j);
      CountConcat(CallbacksOf(s.called), NamedCallbacks(job.actions), j);
    }
    forall r ensures RowDebt(u, r) == RowDebt(s, r) + Count(NamedRows([]), r) {
      CountConcat(RowsOf(s.ran), NamedRows(job.actions), r);
      CountConcat(RowsOf(s.called), NamedRows(job.actions), r);
    }
  }

  /** All that was awaited and scheduled was asked for, by jobs that were called or from outside. */
  ghost predicate Requested(s: Progress, asked: seq<Job>, given: seq<Row>) {
    && (forall j :: CallbackDebt(s, j) == Count(asked, j))
    && (forall r :: RowDebt(s, r) == Count(given, r))
  }

  lemma RequestedKept(s: Progress, t: Progress, asked: seq<Job>, given: seq<Row>, actions: seq<Action>)
    requires Requested(s, asked, given) && Honoured(s, t, actions)
    ensures Requested(t, asked + NamedCallbacks(actions), given + NamedRows(actions))
  {
    forall j ensures CallbackDebt(t, j) == Count(asked + NamedCallbacks(actions), j) {
      CountConcat(asked, NamedCallbacks(actions), j);
    }
    forall r ensures RowDebt(t, r) == Count(given + NamedRows(actions), r) {
      CountConcat(given, NamedRows(actions), r);
    }
  }

  /** The same as multisets. */
  lemma RequestedAsMultisets(s: Progress, asked: seq<Job>, given: seq<Row>)
    requires Requested(s, asked, given)
    ensures multiset(s.awaited) == multiset(CallbacksOf(s.ran)) + multiset(CallbacksOf(s.called)) + multiset(asked)
    ensures multiset(s.scheduled) == multiset(RowsOf(s.ran)) + multiset(RowsOf(s.called)) + multiset(given)
  {
    var m := multiset(CallbacksOf(s.ran)) + multiset(CallbacksOf(s.called)) + multiset(asked);
    forall j ensures multiset(s.awaited)[j] == m[j] {
      assert CallbackDebt(s, j) == Count(asked, j);
      CountIs(s.awaited, j);
      CountIs(CallbacksOf(s.ran), j);
      CountIs(CallbacksOf(s.called), j);
      CountIs(asked, j);
    }
    var n := multiset(RowsOf(s.ran)) + multiset(RowsOf(s.called)) + multiset(given);
    forall r ensures multiset(s.scheduled)[r] == n[r] {
      assert RowDebt(s, r) == Count(given, r);
      CountIs(s.scheduled, r);
      CountIs(RowsOf(s.ran), r);
      CountIs(RowsOf(s.called), r);
      CountIs(given, r);
    }
  }

  lemma RequestedStill(s: Progress, t: Progress, asked: seq<Job>, given: seq<Row>)
    requires Requested(s, asked, given) && Honoured(s, t, [])
    ensures Requested(t, asked, given)
  {
    RequestedKept(s, t, asked, given, []);
    assert asked + [] == asked && given + [] == given;
  }

  lemma RequestedRows(s: Progress, t: Progress, asked: seq<Job>, given: seq<Row>, rows: seq<Row>)
    requires Requested(s, asked, given) && Honoured(s, t, [Schedule(rows)])
    ensures Requested(t, asked, given + rows)
  {
    RequestedKept(s, t, asked, given, [Schedule(rows)]);
    NamesOne(rows);
    assert asked + [] == asked;
  }

  lemma RequestedCallback(s: Progress, t: Progress, asked: seq<Job>, given: seq<Row>, callback: Job)
    requires Requested(s, asked, given) && Honoured(s, t, [AwaitQuiet(callback)])
    ensures Requested(t, asked + [callback], given)
  {
    RequestedKept(s, t, asked, given, [AwaitQuiet(callback)]);
    assert [AwaitQuiet(callback)][1..] == [];
    assert NamedCallbacks([AwaitQuiet(callback)]) == [callback] + [] == [callback];
    assert NamedRows([AwaitQuiet(callback)]) == [];
    assert given + [] == given;
  }

  lemma NamesOne(rows: seq<Row>)
    ensures NamedRows([Schedule(rows)]) == rows && NamedCallbacks([Schedule(rows)]) == []
  {
    assert [Schedule(rows)][1..] == [];
    assert rows + [] == rows;
  }

  lemma GrewThenGrew(s: Progress, t: Progress, u: Progress, a: seq<Job>, b: seq<Job>)
    requires Grew(s, t, a) && Grew(t, u, b)
    ensures Grew(s, u, a + b) && (b == [] ==> Grew(s, u, a))
  {
    assert b == [] ==> a + b == a;
    assert u.waiting[|s.waiting|..] == t.waiting[|s.waiting|..] + u.waiting[|t.waiting|..];
    forall j ensures Balanced(s, u, a + b, j) {
      assert Balanced(s, t, a, j) && Balanced(t, u, b, j);
    }
  }

  lemma CallbackAwaited(s: Progress, callback: Job)
    ensures Grew(s, s.(quiet := true, waiting := s.waiting + [callback], awaited := s.awaited + [callback]), [])
  {
    assert (s.waiting + [callback])[|s.waiting|..] == [callback];
  }

  lemma TaskCalled(s: Progress, task: Job)
    ensures Grew(s, s.(ran := s.ran + [task]), [task])
  {
  }

  /** A row taken off the queue, then its tasks called. */
  lemma RowAccounted(s: Progress, t: Progress, u: Progress, row: Row)
    requires t == s.(started := s.started + [row]) && Grew(t, u, row.tasks)
    ensures Grew(s, u, [])
  {
    FlattenPush(s.started, row);
    forall j ensures Balanced(s, u, [], j) {
      assert Balanced(t, u, row.tasks, j);
    }
  }

  /** Callbacks are called once each and in order; tasks are called as often as the rows started say. */
  ghost predicate Accounted(s: Progress) {
    && s.awaited == s.called + s.waiting
    && (s.waiting != [] ==> s.quiet)
    && multiset(s.ran) == multiset(Flatten(s.started))
  }

  lemma RanKept(s: Progress, t: Progress)
    requires multiset(s.ran) == multiset(Flatten(s.started)) && Grew(s, t, [])
    ensures multiset(t.ran) == multiset(Flatten(t.started))
  {
    forall j ensures multiset(t.ran)[j] == multiset(Flatten(t.started))[j] {
      assert Balanced(s, t, [], j);
    }
  }

  lemma AwaitedKept(s: Progress, t: Progress)
    requires s.awaited == s.called + s.waiting && Grew(s, t, [])
    ensures t.awaited == t.called + t.waiting
  {
    var more := t.waiting[|s.waiting|..];
    assert t.waiting == s.waiting + more;
    Reassociate(s.called, s.waiting, more);
  }

  lemma GrewAccounted(s: Progress, t: Progress)
    requires Accounted(s) && Grew(s, t, [])
    ensures Accounted(t)
  {
    AwaitedKept(s, t);
    RanKept(s, t);
    assert s.waiting == [] || s.quiet;
  }

  lemma WorkFrom(w: seq<Job>, i: nat)
    requires i <= |w|
    ensures JobsWork(w) == JobsWork(w[..i]) + JobsWork(w[i..])
    ensures i < |w| ==> JobsWork(w[i..]) == JobWork(w[i]) + JobsWork(w[i + 1..])
  {
    assert w == w[..i] + w[i..];
    JobsWorkConcat(w[..i], w[i..]);
    if i < |w| {
      assert w[i..][1..] == w[i + 1..];
    }
  }

  /** A queue that has grown at its end, from position `i` on. */
  lemma QueueGrew(w: seq<Job>, added: seq<Job>, i: nat)
    requires i <= |w|
    ensures (w + added)[i..] == w[i..] + added
    ensures JobsWork(w + added) - JobsWork((w + added)[i..]) == JobsWork(w) - JobsWork(w[i..])
  {
    var grown := w + added;
    assert grown[i..] == w[i..] + added;
    JobsWorkConcat(w, added);
    JobsWorkConcat(w[i..], added);
  }

  /** Something that happens to the scheduler from outside. */
  datatype Move = Enqueueing(rows: seq<Row>) | Awaiting(callback: Job) | FrameAt(id: nat)

  ghost predicate MoveWaits(m: Move) {
    match m
    case Enqueueing(rows) => RowsWait(rows)
    case Awaiting(callback) => Waits(callback)
    case FrameAt(_) => true
  }

  /** One waiting callback is called, and others join the queue meanwhile. */
  lemma DrainOne(waiting: seq<Job>, added: seq<Job>, awaited: seq<Job>, called: seq<Job>, i: nat)
    requires i < |waiting| && awaited == called + waiting[i..]
    ensures awaited + added == (called + [waiting[i]]) + (waiting + added)[i + 1..]
  {
    var w := waiting[i + 1..];
    assert waiting[i..] == [waiting[i]] + w;
    assert (waiting + added)[i + 1..] == w + added;
    assert awaited == (called + [waiting[i]]) + w;
    Reassociate(called + [waiting[i]], w, added);
  }

  lemma Reassociate<T>(a: seq<T>, b: seq<T>, c: seq<T>)
    ensures (a + b) + c == a + (b + c)
  {
  }

  lemma DrainOneWork(waiting: seq<Job>, added: seq<Job>, i: nat)
    requires i < |waiting|
    ensures JobsWork(waiting + added) - JobsWork((waiting + added)[i + 1..])
         == JobsWork(waiting) - JobsWork(waiting[i..]) + JobWork(waiting[i])
  {
    WorkFrom(waiting, i);
    QueueGrew(waiting, added, i + 1);
  }

  class Scheduler {
    var queue: seq<Row>
    var cancelFn: Option<nat>          // the quiet frame that can still be cancelled
    var frames: map<nat, Frame>        // what the browser will call back
    var nextFrame: nat
    var rafWaitQueue: seq<Job>
    ghost var scheduled: seq<Row>
    ghost var started: seq<Row>
    ghost var ran: seq<Job>
    ghost var awaited: seq<Job>
    ghost var called: seq<Job>
    ghost var asked: seq<Job>          // callbacks handed to waitUntilQuiet from outside
    ghost var given: seq<Row>          // rows handed to the scheduler from outside
    ghost var ticks: nat               // how often a tick was asked for

    constructor ()
      ensures AtRest() && queue == [] && rafWaitQueue == [] && frames == map[]
      ensures scheduled == started == given == [] && ran == awaited == called == asked == []
    {
      queue, cancelFn, frames, nextFrame, rafWaitQueue := [], None, map[], 0, [];
      scheduled, started, ran, awaited, called, asked, given, ticks := [], [], [], [], [], [], [], 0;
    }

    ghost function Now(): Progress
      reads this
    {
      Progress(cancelFn.Some?, rafWaitQueue, scheduled, started, ran, awaited, called)
    }

    /** Rows leave the queue in order, and the only quiet frame is the one that can be cancelled. */
    ghost predicate Valid()
      reads this
    {
      && scheduled == started + queue
      && (forall id :: id in frames ==> id < nextFrame)
      && (cancelFn.Some? ==> cancelFn.value in frames)
      && (forall id :: id in frames ==> (frames[id] == Quiet <==> cancelFn == Some(id)))
    }

    /** A frame is pending that will take the next row. */
    ghost predicate FramePending()
      reads this
    {
      cancelFn.Some? || exists id :: id in frames && frames[id] == Tick
    }

    /** Whenever rows remain, such a frame is pending. */
    ghost predicate Advancing()
      reads this
    {
      queue != [] ==> FramePending()
    }

    /**
     * Between frames: each callback awaited and not yet called waits, in order, with a live quiet frame; and what
     * was awaited and scheduled is what jobs that were called, and calls from outside, asked for.
     */
    ghost predicate AtRest()
      reads this
    {
      Valid() && Advancing() && Accounted(Now()) && Requested(Now(), asked, given)
    }

    /** Nothing was handed over from outside. */
    twostate predicate OutsideUntouched()
      reads this
    {
      asked == old(asked) && given == old(given)
    }

    /** No task or callback in the scheduler schedules rows of its own. */
    ghost predicate OnlyWaits()
      reads this
    {
      RowsWait(queue) && AllWait(rafWaitQueue)
    }

    ghost function Work(): nat
      reads this
    {
      RowsWork(queue) + JobsWork(rafWaitQueue)
    }

    /** The rows and tasks are as they were. */
    twostate predicate RowsUntouched()
      reads this
    {
      queue == old(queue) && scheduled == old(scheduled) && started == old(started) && ran == old(ran)
    }

    /** `$$rAF(fn)` */
    method RequestFrame(f: Frame) returns (id: nat)
      modifies this`frames, this`nextFrame, this`ticks
      ensures id == old(nextFrame) && nextFrame == id + 1 && frames == old(frames)[id := f]
      ensures ticks == old(ticks) + if f == Tick then 1 else 0
    {
      ticks := if f == Tick then ticks + 1 else ticks;
      id := nextFrame;
      frames := frames[id := f];
      nextFrame := nextFrame + 1;
    }

    /** Both `waitUntilQuiet` functions: the callback queues up and the quiet frame is put off. */
    method WaitUntilQuiet(callback: Job)
      requires Valid()
      modifies this
      ensures Valid() && Grew(old(Now()), Now(), []) && RowsUntouched()
      ensures rafWaitQueue == old(rafWaitQueue) + [callback]
      ensures awaited == old(awaited) + [callback] && called == old(called) && OutsideUntouched()
      ensures ticks == old(ticks)
      ensures cancelFn == Some(old(nextFrame)) && (old(cancelFn).Some? ==> old(cancelFn).value !in frames)
      ensures Work() == old(Work()) + JobWork(callback)
    {
      ghost var before := Now();
      JobsWorkPush(rafWaitQueue, callback);
      rafWaitQueue := rafWaitQueue + [callback];
      awaited := awaited + [callback];
      if cancelFn.Some? {
        frames := frames - {cancelFn.value};
      }
      var id := RequestFrame(Quiet);
      cancelFn := Some(id);
      CallbackAwaited(before, callback);
    }

    /** Calling a job: its actions, one after the other. */
    method Perform(actions: seq<Action>)
      requires Valid()
      modifies this
      decreases Work() + ActionsWork(actions), 0
      ensures Valid() && Grew(old(Now()), Now(), [])
      ensures Work() <= old(Work()) + ActionsWork(actions)
      ensures Honoured(old(Now()), Now(), actions) && called == old(called) && OutsideUntouched()
      ensures old(Advancing()) ==> Advancing()
      ensures ActionsWait(actions) ==>
                && RowsUntouched() && (old(OnlyWaits()) ==> OnlyWaits())
                && awaited == old(awaited) + NamedCallbacks(actions) && ticks == old(ticks)
    {
      ghost var before := Now();
      if actions != [] {
        assert ActionsWork(actions) == ActionWork(actions[0]) + ActionsWork(actions[1..]);
        assert ActionsWait(actions) ==> ActionWaits(actions[0]) && ActionsWait(actions[1..]);
        match actions[0] {
          case AwaitQuiet(callback) =>
            WaitUntilQuiet(callback);
            CallbackNamed(before, Now(), callback);
            assert RowsUntouched() && (ActionsWait(actions) && old(OnlyWaits()) ==> OnlyWaits());
          case Schedule(rows) => ScheduleRows(rows);
        }
        ghost var between := Now();
        Perform(actions[1..]);
        GrewThenGrew(before, between, Now(), [], []);
        HonouredThen(before, between, Now(), [actions[0]], actions[1..]);
        if actions[0].AwaitQuiet? {
          Reassociate(before.awaited, [actions[0].callback], NamedCallbacks(actions[1..]));
        }
        assert actions == [actions[0]] + actions[1..];
      } else {
        NothingNamed(before, Now());
      }
    }

    /** `scheduler(tasks)` */
    method ScheduleRows(rows: seq<Row>)
      requires Valid()
      modifies this
      decreases Work() + RowsWork(rows), 2
      ensures Valid() && Advancing() && Grew(old(Now()), Now(), [])
      ensures Honoured(old(Now()), Now(), [Schedule(rows)]) && called == old(called) && OutsideUntouched()
      ensures old(scheduled) + rows <= scheduled
      ensures if old(queue) + rows != [] then old(started) < started && FramePending()
              else queue == [] && started == old(started)
      ensures Work() <= old(Work()) + RowsWork(rows)
      ensures old(OnlyWaits()) && RowsWait(rows) ==> OnlyWaits() && scheduled == old(scheduled) + rows
      ensures old(OnlyWaits() && ran == Flatten(started)) && RowsWait(rows) ==> ran == Flatten(started)
    {
      ghost var before := Now();
      RowsWorkConcat(queue, rows);
      queue := queue + rows;
      scheduled := scheduled + rows;
      ghost var between := Now();
      RowsNamed(before, between, rows);
      NextTick();
      GrewThenGrew(before, between, Now(), [], []);
      HonouredThen(before, between, Now(), [Schedule(rows)], []);
    }

    /** `nextTick`: the next row runs, and a tick is requested unless a quiet frame is pending. */
    method NextTick()
      requires Valid()
      modifies this
      decreases Work(), 1
      ensures Valid() && Advancing() && Grew(old(Now()), Now(), [])
      ensures Honoured(old(Now()), Now(), []) && called == old(called) && OutsideUntouched()
      ensures old(queue) != [] ==>
                old(started) + [old(queue)[0]] <= started && FramePending() && Work() < old(Work())
      ensures old(queue) == [] ==> RowsUntouched() && Work() == old(Work()) && frames == old(frames)
                                   && cancelFn == old(cancelFn) && rafWaitQueue == old(rafWaitQueue)
      ensures old(OnlyWaits()) ==> OnlyWaits() && scheduled == old(scheduled)
      ensures old(OnlyWaits()) ==> ticks == old(ticks) + if old(queue) != [] && cancelFn.None? then 1 else 0
      ensures old(OnlyWaits() && ran == Flatten(started)) ==> ran == Flatten(started)
    {
      if queue == [] {
        NothingNamed(Now(), Now());
        return;
      }
      RunNextRow();
      if cancelFn.None? {
        var id := RequestFrame(Tick);
        assert frames[id] == Tick;
      }
    }

    /** The next row leaves the queue and runs. */
    method RunNextRow()
      requires Valid() && queue != []
      modifies this
      decreases Work(), 0
      ensures Valid() && Grew(old(Now()), Now(), [])
      ensures Honoured(old(Now()), Now(), []) && called == old(called) && OutsideUntouched()
      ensures old(started) + [old(queue)[0]] <= started && Work() < old(Work())
      ensures old(OnlyWaits()) ==> OnlyWaits() && scheduled == old(scheduled) && ticks == old(ticks)
      ensures old(OnlyWaits() && ran == Flatten(started)) ==> ran == Flatten(started)
    {
      var items := queue[0].tasks;
      ghost var before := Now();
      FlattenPush(started, queue[0]);
      started := started + [queue[0]];
      queue := queue[1..];
      ghost var between := Now();
      RunRow(items);
      RowAccounted(before, between, Now(), started[|before.started|]);
      NothingNamed(before, between);
      HonouredThen(before, between, Now(), [], []);
    }

    /** A task is called; it may wait for quiet and schedule as it runs. */
    method CallTask(task: Job)
      requires Valid()
      modifies this
      decreases Work() + JobWork(task), 0
      ensures Valid() && Grew(old(Now()), Now(), [task])
      ensures Honoured(old(Now()), Now(), []) && called == old(called) && OutsideUntouched()
      ensures Work() <= old(Work()) + JobWork(task)
      ensures old(OnlyWaits()) && Waits(task) ==>
                && OnlyWaits() && queue == old(queue) && scheduled == old(scheduled) && started == old(started)
                && ran == old(ran) + [task] && awaited == old(awaited) + NamedCallbacks(task.actions)
                && ticks == old(ticks)
    {
      ghost var before := Now();
      ran := ran + [task];
      ghost var entered := Now();
      TaskCalled(before, task);
      Perform(task.actions);
      GrewThenGrew(before, entered, Now(), [task], []);
      JobHonoured(before, entered, Now(), task);
    }

    /** The tasks of one row, in order. */
    method RunRow(items: seq<Job>)
      requires Valid()
      modifies this
      decreases Work() + JobsWork(items), 1
      ensures Valid() && Grew(old(Now()), Now(), items)
      ensures Honoured(old(Now()), Now(), []) && called == old(called) && OutsideUntouched()
      ensures Work() <= old(Work()) + JobsWork(items)
      ensures old(OnlyWaits()) && AllWait(items) ==>
                && OnlyWaits() && queue == old(queue) && scheduled == old(scheduled) && started == old(started)
                && ran == old(ran) + items && awaited == old(awaited) + CallbacksOf(items)
                && ticks == old(ticks)
    {
      ghost var before := Now();
      assert items[0..] == items;
      NothingNamed(before, before);
      for i := 0 to |items|
        invariant Valid() && Grew(before, Now(), items[..i])
        invariant Honoured(before, Now(), []) && called == old(called) && OutsideUntouched()
        invariant Work() + JobsWork(items[i..]) <= old(Work()) + JobsWork(items)
        invariant old(OnlyWaits()) && AllWait(items) ==>
                    && OnlyWaits() && queue == old(queue) && scheduled == old(scheduled) && started == old(started)
                    && ran == old(ran) + items[..i] && awaited == old(awaited) + CallbacksOf(items[..i])
                    && ticks == old(ticks)
      {
        assert items[i..][1..] == items[i + 1..];
        assert items[..i + 1] == items[..i] + [items[i]];
        ghost var between := Now();
        CallTask(items[i]);
        GrewThenGrew(before, between, Now(), items[..i], [items[i]]);
        HonouredThen(before, between, Now(), [], []);
        NamedPush(items[..i], items[i]);
        Reassociate(before.ran, items[..i], [items[i]]);
        Reassociate(before.awaited, CallbacksOf(items[..i]), NamedCallbacks(items[i].actions));
      }
      assert items[..|items|] == items;
    }

    // ---------- Calls from outside, and the frames ----------

    method Enqueue(rows: seq<Row>)
      requires AtRest()
      modifies this
      ensures AtRest() && old(scheduled) + rows <= scheduled && old(awaited) <= awaited && called == old(called)
      ensures given == old(given) + rows && asked == old(asked)
      ensures if old(queue) + rows != [] then old(started) < started && FramePending()
              else queue == [] && started == old(started)
      ensures old(cancelFn).Some? ==> cancelFn.Some?
      ensures old(OnlyWaits()) && RowsWait(rows) ==> OnlyWaits() && scheduled == old(scheduled) + rows
      ensures old(OnlyWaits() && ran == Flatten(started)) && RowsWait(rows) ==> ran == Flatten(started)
    {
      ghost var before := Now();
      ScheduleRows(rows);
      GrewAccounted(before, Now());
      RequestedRows(before, Now(), asked, given, rows);
      given := given + rows;
    }

    method Await(callback: Job)
      requires AtRest()
      modifies this
      ensures AtRest() && awaited == old(awaited) + [callback] && called == old(called) && RowsUntouched()
      ensures cancelFn == Some(old(nextFrame)) && asked == old(asked) + [callback] && given == old(given)
      ensures old(OnlyWaits()) && Waits(callback) ==> OnlyWaits()
    {
      ghost var before := Now();
      WaitUntilQuiet(callback);
      GrewAccounted(before, Now());
      CallbackNamed(before, Now(), callback);
      RequestedCallback(before, Now(), asked, given, callback);
      asked := asked + [callback];
    }

    /** The work left when the callbacks before `i` are done. */
    ghost function WorkLeft(i: nat): nat
      requires i <= |rafWaitQueue|
      reads this
    {
      RowsWork(queue) + JobsWork(rafWaitQueue[i..])
    }

    /** The callbacks before `i` have been called, and those from `i` on have not. */
    ghost predicate Draining(i: nat)
      reads this
    {
      && Valid() && i <= |rafWaitQueue|
      && awaited == called + rafWaitQueue[i..]
      && multiset(ran) == multiset(Flatten(started))
    }

    method CallCallback(callback: Job)
      requires Valid() && multiset(ran) == multiset(Flatten(started))
      modifies this
      ensures Valid() && multiset(ran) == multiset(Flatten(started))
      ensures called == old(called) + [callback]
      ensures old(rafWaitQueue) <= rafWaitQueue
      ensures awaited == old(awaited) + rafWaitQueue[|old(rafWaitQueue)|..]
      ensures old(scheduled) <= scheduled && old(started) <= started
      ensures Honoured(old(Now()), Now(), []) && OutsideUntouched()
      ensures Work() < old(Work()) + JobWork(callback)
      ensures old(OnlyWaits()) && Waits(callback) ==>
                && OnlyWaits() && RowsUntouched() && awaited == old(awaited) + NamedCallbacks(callback.actions)
    {
      ghost var uncalled := Now();
      called := called + [callback];
      ghost var before := Now();
      Perform(callback.actions);
      RanKept(before, Now());
      JobHonoured(uncalled, before, Now(), callback);
    }

    method CallWaitingAt(i: nat)
      requires Draining(i) && i < |rafWaitQueue|
      modifies this
      ensures Draining(i + 1) && WorkLeft(i + 1) < old(WorkLeft(i))
      ensures Honoured(old(Now()), Now(), []) && OutsideUntouched()
      ensures old(awaited) <= awaited && old(scheduled) <= scheduled && old(started) <= started
      ensures old(OnlyWaits()) ==> OnlyWaits() && RowsUntouched()
    {
      ghost var waiting := rafWaitQueue;
      ghost var awaited0, called0 := awaited, called;
      CallCallback(rafWaitQueue[i]);
      ghost var added := rafWaitQueue[|waiting|..];
      assert rafWaitQueue == waiting + added;
      DrainOne(waiting, added, awaited0, called0, i);
      DrainOneWork(waiting, added, i);
    }

    /** The loop over `rafWaitQueue`, which sees the callbacks added while it runs. */
    method CallWaiting()
      requires Draining(0)
      modifies this
      ensures Draining(0) && rafWaitQueue == []
      ensures old(awaited) <= called && old(scheduled) <= scheduled && old(started) <= started
      ensures Honoured(old(Now()), Now(), []) && OutsideUntouched()
      ensures Work() <= old(Work()) && (old(rafWaitQueue) != [] ==> Work() < old(Work()))
      ensures old(rafWaitQueue) == [] ==> frames == old(frames) && RowsUntouched()
      ensures old(OnlyWaits()) ==> OnlyWaits() && RowsUntouched()
    {
      var i := 0;
      ghost var before := Now();
      NothingNamed(before, before);
      assert rafWaitQueue[0..] == rafWaitQueue;
      while i < |rafWaitQueue|
        invariant Draining(i) && old(awaited) <= awaited
        invariant old(scheduled) <= scheduled && old(started) <= started
        invariant Honoured(before, Now(), []) && OutsideUntouched()
        invariant if i == 0 then WorkLeft(i) == old(Work()) else WorkLeft(i) < old(Work())
        invariant i == 0 ==> frames == old(frames) && RowsUntouched() && rafWaitQueue == old(rafWaitQueue)
        invariant i > 0 ==> old(rafWaitQueue) != []
        invariant old(OnlyWaits()) ==> OnlyWaits() && RowsUntouched()
        decreases WorkLeft(i)
      {
        ghost var between := Now();
        CallWaitingAt(i);
        HonouredThen(before, between, Now(), [], []);
        i := i + 1;
      }
      assert rafWaitQueue[i..] == [];
      ghost var drained := Now();
      rafWaitQueue := [];
      NothingNamed(drained, Now());
      HonouredThen(before, drained, Now(), [], []);
    }

    /** A frame is called back by the browser. */
    method CallBack(id: nat)
      requires AtRest() && id in frames
      modifies this
      ensures AtRest() && OutsideUntouched()
      ensures old(frames[id]) == Quiet ==> old(awaited) <= called
      ensures old(frames[id]) == Tick && old(cancelFn).Some? ==>
                RowsUntouched() && called == old(called) && cancelFn == old(cancelFn)
      ensures old(cancelFn.None? || cancelFn == Some(id)) && old(queue) != [] ==> old(started) < started
      ensures old(scheduled) <= scheduled && old(started) <= started && old(awaited) <= awaited
      ensures Work() < old(Work()) || (Work() == old(Work()) && frames == old(frames) - {id})
      ensures old(OnlyWaits()) ==> OnlyWaits() && scheduled == old(scheduled)
      ensures old(OnlyWaits() && ran == Flatten(started)) ==> ran == Flatten(started)
    {
      var frame := frames[id];
      frames := frames - {id};
      match frame {
        case Quiet => QuietFrame(id);
        case Tick => TickFrame();
      }
    }

    /** The frame asked for by `waitUntilQuiet`, when the browser gets to it. */
    method QuietFrame(id: nat)
      requires cancelFn == Some(id) && id !in frames && (forall f :: f in frames ==> f < nextFrame && frames[f] == Tick)
      requires scheduled == started + queue && Accounted(Now()) && Requested(Now(), asked, given)
      modifies this
      ensures AtRest() && OutsideUntouched() && old(awaited) <= called
      ensures old(queue) != [] ==> old(started) < started
      ensures old(scheduled) <= scheduled && old(started) <= started && old(awaited) <= awaited
      ensures Work() < old(Work()) || (Work() == old(Work()) && frames == old(frames))
      ensures old(OnlyWaits()) ==> OnlyWaits() && scheduled == old(scheduled)
      ensures old(OnlyWaits() && ran == Flatten(started)) ==> ran == Flatten(started)
    {
      ghost var at0 := Now();
      cancelFn := None;
      NothingNamed(at0, Now());
      ghost var fired := Now();
      assert rafWaitQueue[0..] == rafWaitQueue;
      CallWaiting();
      ghost var before := Now();
      NextTick();
      GrewAccounted(before, Now());
      HonouredThen(at0, fired, before, [], []);
      HonouredThen(at0, before, Now(), [], []);
      RequestedStill(at0, Now(), asked, given);
    }

    /** The frame asked for by `nextTick`: it does nothing while a quiet frame is pending. */
    method TickFrame()
      requires Valid() && Accounted(Now()) && Requested(Now(), asked, given)
      modifies this
      ensures AtRest() && OutsideUntouched()
      ensures old(cancelFn).Some? ==>
                RowsUntouched() && called == old(called) && frames == old(frames) && cancelFn == old(cancelFn)
      ensures old(cancelFn).None? && old(queue) != [] ==> old(started) < started
      ensures old(scheduled) <= scheduled && old(started) <= started && old(awaited) <= awaited
      ensures Work() < old(Work()) || (Work() == old(Work()) && frames == old(frames))
      ensures old(OnlyWaits()) ==> OnlyWaits() && scheduled == old(scheduled)
      ensures old(OnlyWaits() && ran == Flatten(started)) ==> ran == Flatten(started)
    {
      if cancelFn.None? {
        ghost var before := Now();
        NextTick();
        GrewAccounted(before, Now());
        RequestedStill(before, Now(), asked, given);
      }
    }

    /**
     * Left alone, the frames run out, in whatever order the browser calls them back; by then every
     * row was started and every callback called, each once and in order.
     */
    method Settle()
      requires AtRest()
      modifies this
      ensures AtRest() && frames == map[]
      ensures started == scheduled && called == awaited
      ensures old(scheduled) <= started && old(awaited) <= awaited
      ensures multiset(ran) == multiset(Flatten(scheduled))
      ensures OutsideUntouched()
      ensures multiset(called) == multiset(CallbacksOf(ran)) + multiset(CallbacksOf(called)) + multiset(asked)
      ensures multiset(started) == multiset(RowsOf(ran)) + multiset(RowsOf(called)) + multiset(given)
      ensures old(OnlyWaits() && ran == Flatten(started)) ==> ran == Flatten(scheduled)
    {
      while frames != map[]
        invariant AtRest() && OutsideUntouched()
        invariant old(scheduled) <= scheduled && old(awaited) <= awaited
        invariant old(OnlyWaits() && ran == Flatten(started)) ==> OnlyWaits() && ran == Flatten(started)
        decreases Work(), |frames|
      {
        var id :| id in frames;
        ghost var before := frames;
        CallBack(id);
        assert frames == before - {id} ==> |frames| < |before|;
      }
      assert cancelFn.None? && queue == [];
      assert started + [] == started && called + [] == called;
      RequestedAsMultisets(Now(), asked, given);
    }

    /** A call from outside, or a frame; a frame id that is not pending is passed over. */
    method Make(move: Move)
      requires AtRest()
      modifies this
      ensures AtRest() && old(scheduled) <= scheduled && old(started) <= started && old(awaited) <= awaited
      ensures old(cancelFn).Some? && move != FrameAt(old(cancelFn).value) ==>
                && cancelFn.Some? && called == old(called)
                && (if move.Enqueueing? && old(queue) + move.rows != [] then old(started) < started
                    else started == old(started) && queue == old(queue))
      ensures old(OnlyWaits()) && MoveWaits(move) ==> OnlyWaits()
      ensures old(OnlyWaits() && ran == Flatten(started)) && MoveWaits(move) ==> ran == Flatten(started)
    {
      match move {
        case Enqueueing(rows) => Enqueue(rows);
        case Awaiting(callback) => Await(callback);
        case FrameAt(id) =>
          if id in frames {
            CallBack(id);
          }
      }
    }

    /** Any interleaving of calls and frames. */
    method Run(script: seq<Move>)
      requires AtRest()
      modifies this
      ensures AtRest() && old(scheduled) <= scheduled && old(awaited) <= awaited
      ensures old(OnlyWaits() && ran == Flatten(started)) && (forall m :: m in script ==> MoveWaits(m)) ==>
                OnlyWaits() && ran == Flatten(started)
    {
      for i := 0 to |script|
        invariant AtRest() && old(scheduled) <= scheduled && old(awaited) <= awaited
        invariant old(OnlyWaits() && ran == Flatten(started)) && (forall m :: m in script ==> MoveWaits(m)) ==>
                    OnlyWaits() && ran == Flatten(started)
      {
        assert script[i] in script;
        Make(script[i]);
      }
    }

    /**
     * Any script while a quiet frame is pending, up to the move in which a quiet frame is called back. No awaited
     * callback is called meanwhile, and no row is started either, if and only if the scheduler itself is not
     * called with rows left or given. So the pending quiet frame holds back the ticks and nothing else.
     */
    method RunWhileQuiet(script: seq<Move>) returns (made: nat)
      requires AtRest() && cancelFn.Some?
      modifies this
      ensures AtRest() && cancelFn.Some? && called == old(called)
      ensures made <= |script| && (made < |script| ==> script[made] == FrameAt(cancelFn.value))
      ensures started == old(started) <==>
                forall i :: 0 <= i < made && script[i].Enqueueing? ==> old(queue) + script[i].rows == []
    {
      made := 0;
      while made < |script| && script[made] != FrameAt(cancelFn.value)
        invariant AtRest() && cancelFn.Some? && called == old(called) && made <= |script|
        invariant if forall i :: 0 <= i < made && script[i].Enqueueing? ==> old(queue) + script[i].rows == []
                  then started == old(started) && queue == old(queue)
                  else old(started) < started
      {
        Make(script[made]);
        made := made + 1;
      }
    }
  }

  /** A row handed over while a quiet frame is pending is started before the callback that waits for quiet. */
  method RowBeforeQuietCallback(callback: Job, row: Row) returns (s: Scheduler)
    ensures fresh(s) && s.AtRest() && s.cancelFn.Some?
    ensures [row] <= s.started && s.called == [] && callback in s.rafWaitQueue
  {
    s := new Scheduler();
    s.Await(callback);
    assert s.started == [] && s.scheduled == [];
    s.Enqueue([row]);
    assert s.scheduled[0] == ([] + [row])[0] == row && |s.started| > 0;
    assert s.scheduled == s.started + s.queue && s.awaited == [] + s.rafWaitQueue;
    assert s.awaited[0] == callback;
  }
}
