/** What a run of the modal stack leads to, read off its steps. */
module ModalRuns {
  import opened Wrappers
  import opened ModalCollections
  import opened ModalSpec
  import opened ModalProof

  /** How template and resolves of a call first came out: kept, broken, or not yet. */
  function FirstOutcome(steps: seq<Step>, id: ModalId): Option<bool> {
    if steps == [] then None
    else if steps[0].SettleStep? && steps[0].i == id then Some(steps[0].ok)
    else FirstOutcome(steps[1..], id)
  }

  /** What the calls asked for, in their order. */
  function Calls(steps: seq<Step>): seq<(bool, string)> {
    if steps == [] then []
    else (if steps[0].CallStep? then [(steps[0].backdrop, steps[0].openedClass)] else []) + Calls(steps[1..])
  }

  lemma {:induction false} PopOpenings(s: Modals, k: nat)
    requires k <= |s.windows|
    ensures Pop(s, k).openings == s.openings && Pop(s, k).entered == s.entered && Pop(s, k).failed == s.failed
    ensures forall w :: w in Pop(s, k).windows || w in Pop(s, k).closing <==> w in s.windows || w in s.closing
    decreases |s.windows| - k
  {
    if k < |s.windows| {
      var last := |s.windows| - 1;
      MembersLeft(s.windows, last);
      PopOpenings(Remove(s, last), k);
    }
  }

  /** The openings after a step: a status settles once, a stage moves on, a call adds one. */
  lemma OpeningsAfter(s: Modals, step: Step)
    requires Enabled(s, step)
    ensures var t := Do(s, step);
            && |t.openings| == |s.openings| + (if step.CallStep? then 1 else 0)
            && (step.CallStep? ==> t.openings[|s.openings|].window
                                     == Window(|s.openings|, step.backdrop, step.openedClass)
                                   && t.openings[|s.openings|].status == Loading
                                   && t.openings[|s.openings|].stage == Waiting)
            && (forall id :: 0 <= id < |s.openings| ==>
                  && t.openings[id].window == s.openings[id].window
                  && t.openings[id].status == (if s.openings[id].status == Loading && step.SettleStep? && step.i == id
                                               then (if step.ok then Loaded else Failed) else s.openings[id].status)
                  && (t.openings[id].stage != Waiting <==> s.openings[id].stage != Waiting || step == TurnStep(id)))
  {
    if step.DismissAllStep? {
      PopOpenings(s, Kept(s.windows, id => id in step.vetoing));
    }
  }

  lemma {:induction false} RunOpenings(s: Modals, steps: seq<Step>)
    requires IsRun(s, steps)
    ensures var t := RunFrom(s, steps);
            && |t.openings| == |s.openings| + |Calls(steps)|
            && (forall id :: 0 <= id < |s.openings| ==> t.openings[id].window == s.openings[id].window)
            && (forall i :: 0 <= i < |Calls(steps)| ==>
                  t.openings[|s.openings| + i].window == Window(|s.openings| + i, Calls(steps)[i].0, Calls(steps)[i].1))
    decreases steps
  {
    if steps != [] {
      OpeningsAfter(s, steps[0]);
      RunOpenings(Do(s, steps[0]), steps[1..]);
    }
  }

  /** The status of a call is how its template first came out, and stays so. */
  lemma {:induction false} RunStatus(s: Modals, steps: seq<Step>, id: ModalId)
    requires IsRun(s, steps)
    ensures var t := RunFrom(s, steps);
            && |s.openings| <= |t.openings|
            && (id < |s.openings| && s.openings[id].status != Loading ==>
                  t.openings[id].status == s.openings[id].status)
            && (id < |t.openings| && (id < |s.openings| ==> s.openings[id].status == Loading) ==>
                  t.openings[id].status == match FirstOutcome(steps, id)
                                           case None => Loading
                                           case Some(ok) => if ok then Loaded else Failed)
    decreases steps
  {
    if steps != [] {
      OpeningsAfter(s, steps[0]);
      RunStatus(Do(s, steps[0]), steps[1..], id);
    }
  }

  lemma {:induction false} RunStage(s: Modals, steps: seq<Step>, id: ModalId)
    requires IsRun(s, steps)
    ensures var t := RunFrom(s, steps);
            id < |t.openings| && t.openings[id].stage != Waiting
            <==> (id < |s.openings| && s.openings[id].stage != Waiting) || TurnStep(id) in steps
    decreases steps
  {
    if steps != [] {
      OpeningsAfter(s, steps[0]);
      RunStage(Do(s, steps[0]), steps[1..], id);
      assert TurnStep(id) in steps <==> steps[0] == TurnStep(id) || TurnStep(id) in steps[1..];
    }
  }

  /**
   * In every run a modal enters the stack if and only if it had its turn and its template and resolves were kept,
   * and fails if and only if it had its turn and they were broken; what came first counts.
   */
  lemma EntersExactly(steps: seq<Step>, id: ModalId)
    requires IsRun(NO_MODALS, steps)
    ensures var s := RunFrom(NO_MODALS, steps);
            && (id in s.entered <==> TurnStep(id) in steps && FirstOutcome(steps, id) == Some(true))
            && (id in s.failed <==> TurnStep(id) in steps && FirstOutcome(steps, id) == Some(false))
  {
    NoModalsFit();
    RunKeeps(NO_MODALS, steps);
    RunStatus(NO_MODALS, steps, id);
    RunStage(NO_MODALS, steps, id);
    var s := RunFrom(NO_MODALS, steps);
    assert id in s.entered <==> HadTurn(s.openings, id, Loaded);
    assert id in s.failed <==> HadTurn(s.openings, id, Failed);
  }

  // ---------- The windows ----------

  /** Every window is the one its call asked for. */
  ghost predicate WindowsAsked(s: Modals) {
    && (forall i :: 0 <= i < |s.openings| ==> s.openings[i].window.id == i)
    && (forall w :: w in s.windows || w in s.closing ==> w.id < |s.openings| && s.openings[w.id].window == w)
  }

  lemma WindowsAskedStep(s: Modals, step: Step)
    requires WindowsAsked(s) && Enabled(s, step)
    ensures WindowsAsked(Do(s, step))
  {
    var t := Do(s, step);
    OpeningsAfter(s, step);
    forall w | w in t.windows || w in t.closing
      ensures w in s.windows || w in s.closing || (step.TurnStep? && w == s.openings[step.i].window)
    {
      match step
      case CloseStep(id, _) =>
        if IndexOf(s.windows, id) < |s.windows| {
          MembersLeft(s.windows, IndexOf(s.windows, id));
        }
      case DismissAllStep(vetoing) => PopOpenings(s, Kept(s.windows, id => id in vetoing));
      case FinishStep(i) => MembersLeft(s.closing, i);
      case _ =>
    }
  }

  lemma {:induction false} RunWindowsAsked(s: Modals, steps: seq<Step>)
    requires WindowsAsked(s) && IsRun(s, steps)
    ensures WindowsAsked(RunFrom(s, steps))
    decreases steps
  {
    if steps != [] {
      WindowsAskedStep(s, steps[0]);
      RunWindowsAsked(Do(s, steps[0]), steps[1..]);
    }
  }

  /** In every run an open or closing window has the backdrop and the body class that its call asked for. */
  lemma WindowsOfCalls(steps: seq<Step>)
    requires IsRun(NO_MODALS, steps)
    ensures var s := RunFrom(NO_MODALS, steps);
            forall w :: w in s.windows || w in s.closing ==>
              w.id < |Calls(steps)| && w == Window(w.id, Calls(steps)[w.id].0, Calls(steps)[w.id].1)
  {
    RunWindowsAsked(NO_MODALS, steps);
    RunOpenings(NO_MODALS, steps);
  }

  /**
   * After any run, closing takes exactly the modal named off the stack unless its listeners veto, leaving the order
   * of the others, and answers whether it is closed now.
   */
  lemma ClosesExactly(steps: seq<Step>, id: ModalId, vetoed: bool)
    requires IsRun(NO_MODALS, steps)
    ensures var s := RunFrom(NO_MODALS, steps);
            var (t, answer) := CloseModal(s, id, vetoed);
            && (answer <==> forall w :: w in t.windows ==> w.id != id)
            && (forall w :: w in t.windows <==> w in s.windows && (w.id != id || vetoed))
            && (forall w :: w in t.closing <==> w in s.closing || (w in s.windows && w.id == id && !vetoed))
            && Increasing(Ids(t.windows))
            && t.openings == s.openings && t.entered == s.entered && t.failed == s.failed
  {
    NoModalsFit();
    RunKeeps(NO_MODALS, steps);
    CloseKeepsOthers(RunFrom(NO_MODALS, steps), id, vetoed);
  }

  lemma CloseKeepsOthers(s: Modals, id: ModalId, vetoed: bool)
    requires StackOrdered(s)
    ensures var (t, answer) := CloseModal(s, id, vetoed);
            && (answer <==> forall w :: w in t.windows ==> w.id != id)
            && (forall w :: w in t.windows <==> w in s.windows && (w.id != id || vetoed))
            && (forall w :: w in t.closing <==> w in s.closing || (w in s.windows && w.id == id && !vetoed))
            && Increasing(Ids(t.windows))
            && t.openings == s.openings && t.entered == s.entered && t.failed == s.failed
  {
    var i := IndexOf(s.windows, id);
    if i < |s.windows| {
      MembersLeft(s.windows, i);
      RemoveOrdered(s, i);
      IdsLeft(s.windows, i);
      IncreasingLeft(Ids(s.windows), i);
      forall w | w in RemoveAt(s.windows, i) ensures w.id != id {
        var left := RemoveAt(s.windows, i);
        var j :| 0 <= j < |left| && left[j] == w;
        assert Ids(left)[j] == w.id && Ids(s.windows)[i] == id;
      }
      assert s.windows[i] in s.windows;
    }
  }
}
