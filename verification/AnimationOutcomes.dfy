/** What becomes of the class changes of all requests, said on the fields of requests, entries and elements. */
module QueueOutcomes {
  import opened Wrappers
  import opened AnimationClasses
  import opened QueueSpec
  import opened QueueProof

  predicate IsStructural(e: Event) {
    e == Enter || e == Move || e == Leave
  }

  // ---------- Requests that may not animate ----------

  /** The request is skipped, is not allowed, or has nothing to do beside the running animation. */
  predicate MayNotAnimate(entry: Option<Entry>, r: Request) {
    || r.skipped
    || (!r.allowed && (entry.None? || entry.value.phase == Running))
    || (&& entry.Some? && entry.value.phase == Running
        && if IsStructural(r.event) then entry.value.event == Leave
           else IsStructural(entry.value.event) || (r.change.add == {} && r.change.remove == {}))
  }

  /** Nothing is lost of requests that may not animate: their changes are made at once, in order, and nothing else. */
  lemma {:induction false} ClosedAtOnce(s: Element, rs: seq<Request>)
    requires forall r :: r in rs ==> MayNotAnimate(s.entry, r)
    ensures PushAll(s, rs) == s.(classes := ApplyAll(s.classes, Changes(rs)))
    decreases rs
  {
    if rs != [] {
      assert rs[0] in rs;
      assert Push(s, rs[0]) == s.(classes := Apply(s.classes, rs[0].change));
      ClosedAtOnce(Push(s, rs[0]), rs[1..]);
      assert Changes(rs)[1..] == Changes(rs[1..]);
    }
  }

  // ---------- Requests that take over ----------

  /** One asks for a class the other is to lose. */
  ghost predicate Clash(c: Change, d: Change) {
    exists k :: (k in c.add && k in d.remove) || (k in c.remove && k in d.add)
  }

  /** The request changes some class of the element, and does not ask for it both ways. */
  ghost predicate Effective(classes: set<ClassName>, c: Change) {
    exists k :: (k in c.add && k !in c.remove && k !in classes) || (k in c.remove && k !in c.add && k in classes)
  }

  /** There is something to animate on an element without a pending entry. */
  ghost predicate HasEffect(classes: set<ClassName>, r: Request) {
    IsStructural(r.event) || (r.event == Animate && r.animatesTo) || Effective(classes, r.change)
  }

  /** Without a pending entry, what may animate waits if it has an effect. Pending entries give way to some. */
  ghost predicate TakesOver(s: Element, r: Request) {
    && !MayNotAnimate(s.entry, r)
    && match s.entry
       case None => HasEffect(s.classes, r)
       case Some(e) =>
         if e.phase == Running then
           IsStructural(r.event) || Clash(r.change, e.change) || HasEffect(s.classes, r)
         else if IsStructural(r.event) then
           e.event != Leave && (IsStructural(e.event) || !Clash(r.change, e.change))
         else
           IsStructural(e.event) && Clash(r.change, e.change)
  }

  lemma MatchesIsClash(c: Change, d: Change)
    ensures Matches(c, d) <==> Clash(c, d)
  {
    if Matches(c, d) {
      var k :| k in c.add * d.remove + c.remove * d.add;
    }
    if Clash(c, d) {
      var k :| (k in c.add && k in d.remove) || (k in c.remove && k in d.add);
      assert k in c.add * d.remove || k in c.remove * d.add;
    }
  }

  lemma NormalizeIsEffective(classes: set<ClassName>, c: Change)
    ensures !Normalize(classes, c).Empty() <==> Effective(classes, c)
  {
    var n := Normalize(classes, c);
    assert forall k :: k in n.add <==> k in c.add && k !in c.remove && k !in classes;
    assert forall k :: k in n.remove <==> k in c.remove && k !in c.add && k in classes;
  }

  /** A structural entry waits; what takes it over closes it first. */
  predicate GivesWay(s: Element) {
    && s.entry.Some? && s.entry.value.phase == PreDigest && IsStructural(s.entry.value.event)
    && s.entry.value.owner < s.nextId
  }

  /**
   * A request that takes over waits as a new entry with a callback of its own, one higher than the entry before;
   * a structural entry it took over while pending is closed for good. Any other request queues nothing.
   */
  lemma TakeoverExactly(s: Element, r: Request)
    ensures var t := Push(s, r);
            if TakesOver(s, r) then
              && t.entry.Some? && t.entry.value.event == r.event && t.entry.value.phase == PreDigest
              && t.entry.value.owner == s.nextId && OptionsOf(t, s.nextId) == t.entry.value.change
              && t.entry.value.counter == (if s.entry.Some? then s.entry.value.counter + 1 else 1)
              && t.postDigest == s.postDigest + [Callback(s.nextId, t.entry.value.counter)] && t.nextId == s.nextId + 1
              && (GivesWay(s) ==> OptionsOf(t, s.entry.value.owner) == NO_CHANGE)
            else
              && t.postDigest == s.postDigest && t.nextId == s.nextId
              && (if !MayNotAnimate(s.entry, r) && (s.entry.Some? ==> s.entry.value.phase == Running)
                  then t.entry == None
                  else if s.entry.None? then t.entry == None
                  else t.entry == Some(s.entry.value.(change := Pending(t))))
  {
    NormalizeIsEffective(s.classes, r.change);
    if s.entry.Some? {
      MatchesIsClash(r.change, s.entry.value.change);
    }
  }

  // ---------- What the classes will be ----------

  /** The change that waits for the end of the digest. */
  function Awaiting(s: Element): Change {
    if s.entry.Some? && s.entry.value.phase == PreDigest then s.entry.value.change else NO_CHANGE
  }

  /** The classes once what waits is done. */
  function Outcome(s: Element): set<ClassName> {
    Apply(s.classes, Awaiting(s))
  }

  /** After `p` would come `c`; made in the other order they leave the same. */
  ghost predicate Commutes(p: Change, c: Change) {
    forall k :: !(k in p.add && k !in p.remove && k in c.remove) && !(k in p.remove && k in c.add && k !in c.remove)
  }

  /** Asked for both ways, a class is as the last request wants it. */
  ghost predicate LastWins(classes: set<ClassName>, p: Change, c: Change) {
    forall k :: (k in p.add || k in c.add) && (k in p.remove || k in c.remove) ==>
                  (k in classes <==> k in c.add && k !in c.remove)
  }

  /** What `p` would change, `c` decides. */
  ghost predicate Overrides(classes: set<ClassName>, p: Change, c: Change) {
    forall k :: (k in p.add && k !in p.remove && k !in classes) || (k in p.remove && k in classes) ==>
                  k in c.add || k in c.remove
  }

  /** A class of the element is asked for both ways by one request. */
  ghost predicate AsksBothWays(classes: set<ClassName>, c: Change) {
    exists k :: k in c.add && k in c.remove && k in classes
  }

  /** The request counts in full, as if it were made after all that waits. */
  ghost predicate Kept(s: Element, r: Request) {
    var p, c := Awaiting(s), r.change;
    if MayNotAnimate(s.entry, r) then Commutes(p, c)
    else if s.entry.Some? && s.entry.value.phase == PreDigest then
      if !TakesOver(s, r) then LastWins(s.classes, p, c)
      else IsStructural(s.entry.value.event) || Overrides(s.classes, p, c)
    else if s.entry.Some? && (IsStructural(r.event) || Clash(c, s.entry.value.change)) then true
    else !AsksBothWays(s.classes, c)
  }

  lemma CommutesExactly(classes: set<ClassName>, p: Change, c: Change)
    ensures Apply(Apply(classes, c), p) == Apply(Apply(classes, p), c) <==> Commutes(p, c)
  {
    var a, b := Apply(Apply(classes, c), p), Apply(Apply(classes, p), c);
    forall k ensures (k in a) == (k in b)
      <==> !(k in p.add && k !in p.remove && k in c.remove) && !(k in p.remove && k in c.add && k !in c.remove) {
    }
  }

  lemma LastWinsExactly(classes: set<ClassName>, p: Change, c: Change)
    ensures Apply(classes, Merge(classes, p, c)) == Apply(Apply(classes, p), c) <==> LastWins(classes, p, c)
  {
    var a, b := Apply(classes, Merge(classes, p, c)), Apply(Apply(classes, p), c);
    forall k ensures (k in a) == (k in b)
      <==> ((k in p.add || k in c.add) && (k in p.remove || k in c.remove) ==>
              (k in classes <==> k in c.add && k !in c.remove)) {
    }
  }

  lemma OverridesExactly(classes: set<ClassName>, p: Change, c: Change)
    ensures Apply(classes, c) == Apply(Apply(classes, p), c) <==> Overrides(classes, p, c)
  {
    var a, b := Apply(classes, c), Apply(Apply(classes, p), c);
    forall k ensures (k in a) == (k in b)
      <==> ((k in p.add && k !in p.remove && k !in classes) || (k in p.remove && k in classes) ==>
              k in c.add || k in c.remove) {
    }
  }

  lemma NormalizedExactly(classes: set<ClassName>, c: Change)
    ensures Apply(classes, Normalize(classes, c)) == Apply(classes, c) <==> !AsksBothWays(classes, c)
  {
    var a, b := Apply(classes, Normalize(classes, c)), Apply(classes, c);
    forall k ensures (k in a) == (k in b) <==> !(k in c.add && k in c.remove && k in classes) {
    }
  }

  /** What a request leaves waiting, and the classes it leaves. */
  lemma PushLeaves(s: Element, r: Request)
    requires Settled(s)
    ensures var t, p, c := Push(s, r), Awaiting(s), r.change;
            && Awaiting(t) == (if MayNotAnimate(s.entry, r) then p
                               else if s.entry.Some? && s.entry.value.phase == PreDigest && !TakesOver(s, r)
                               then Merge(s.classes, p, c)
                               else if s.entry.Some? && (s.entry.value.phase == PreDigest || IsStructural(r.event)
                                                         || Clash(c, s.entry.value.change))
                               then c
                               else Normalize(s.classes, c))
            && t.classes == (if MayNotAnimate(s.entry, r) then Apply(s.classes, c)
                             else if TakesOver(s, r) && s.entry.Some? && s.entry.value.phase == PreDigest
                                     && IsStructural(s.entry.value.event)
                             then Apply(s.classes, p)
                             else s.classes)
  {
    NormalizeIsEffective(s.classes, r.change);
    if s.entry.Some? {
      MatchesIsClash(r.change, s.entry.value.change);
    }
  }

  /** The classes to be are those of the request made last, exactly under the condition on its fields. */
  lemma PushOutcome(s: Element, r: Request)
    requires Settled(s)
    ensures Outcome(Push(s, r)) == Apply(Outcome(s), r.change) <==> Kept(s, r)
  {
    var p, c := Awaiting(s), r.change;
    PushLeaves(s, r);
    CommutesExactly(s.classes, p, c);
    LastWinsExactly(s.classes, p, c);
    OverridesExactly(s.classes, p, c);
    NormalizedExactly(s.classes, c);
    assert s.entry.None? || s.entry.value.phase == Running ==> Apply(s.classes, p) == s.classes;
  }

  ghost predicate AllKept(s: Element, rs: seq<Request>)
    decreases rs
  {
    rs == [] || (Kept(s, rs[0]) && AllKept(Push(s, rs[0]), rs[1..]))
  }

  lemma {:induction false} PushesOutcome(s: Element, rs: seq<Request>)
    requires Settled(s) && AllKept(s, rs)
    ensures Outcome(PushAll(s, rs)) == ApplyAll(Outcome(s), Changes(rs))
    ensures Settled(PushAll(s, rs)) && PushAll(s, rs).running == s.running
    decreases rs
  {
    if rs != [] {
      PushOutcome(s, rs[0]);
      PushKeepsSettled(s, rs[0]);
      PushesOutcome(Push(s, rs[0]), rs[1..]);
      assert Changes(rs)[1..] == Changes(rs[1..]);
    }
  }

  // ---------- The end of the digest ----------

  predicate NothingToAnimate(e: Entry) {
    !IsStructural(e.event) && e.event != Animate && e.change.add == {} && e.change.remove == {}
  }

  function FirstMissing(parents: seq<bool>): (i: nat)
    ensures i <= |parents| && (forall j :: 0 <= j < i ==> parents[j]) && (i < |parents| ==> !parents[i])
  {
    if parents == [] || !parents[0] then 0 else 1 + FirstMissing(parents[1..])
  }

  /** The changes that requests still hold, callback by callback. */
  function Held(options: map<nat, Change>, cbs: seq<Callback>): seq<Change> {
    seq(|cbs|, i requires 0 <= i < |cbs| => if cbs[i].id in options then options[cbs[i].id] else NO_CHANGE)
  }

  lemma {:induction false} CancelledFlush(s: Element, parents: seq<bool>)
    requires |parents| == |s.postDigest| && Increasing(s.postDigest) && s.entry.None?
    ensures Flush(s, parents).classes == ApplyAll(s.classes, Held(s.options, s.postDigest))
    decreases parents
  {
    if parents != [] {
      var t := RunCallback(s, parents[0]);
      CancelledFlush(t, parents[1..]);
      assert forall i :: 0 < i < |s.postDigest| ==> s.postDigest[0].id < s.postDigest[i].id;
      assert Held(s.options, s.postDigest)[1..] == Held(t.options, t.postDigest);
    }
  }

  /** `classes` while every callback finds a parent and `e` animates; else what later callbacks hold is made. */
  function ClassesAfter(classes: set<ClassName>, e: Entry, options: map<nat, Change>, cbs: seq<Callback>,
                        parents: seq<bool>): set<ClassName>
    requires |parents| == |cbs| > 0
  {
    var i := if NothingToAnimate(e) then 0 else FirstMissing(parents);
    if i == |parents| then classes else ApplyAll(classes, Held(options, cbs[i + 1..]))
  }

  lemma ClassesAfterNext(classes: set<ClassName>, e: Entry, options: map<nat, Change>, cbs: seq<Callback>,
                         parents: seq<bool>)
    requires |parents| == |cbs| > 1 && parents[0] && !NothingToAnimate(e)
    ensures ClassesAfter(classes, e, options, cbs, parents)
         == ClassesAfter(classes, e, options, cbs[1..], parents[1..])
  {
    var i := FirstMissing(parents[1..]);
    assert i < |parents| - 1 ==> cbs[1..][i + 1..] == cbs[i + 2..];
  }

  lemma FlushOfOneClasses(s: Element, parents: seq<bool>)
    requires |parents| == |s.postDigest| == 1 && s.entry.Some?
    ensures Flush(s, parents).classes == s.classes
    ensures ClassesAfter(s.classes, s.entry.value, s.options, s.postDigest, parents) == s.classes
  {
    assert parents[1..] == [] && s.postDigest[1..] == [];
    assert Flush(RunCallback(s, parents[0]), []) == RunCallback(s, parents[0]);
  }

  /**
   * The classes after a flush: as they were while every callback finds a parent and there is something to animate.
   * Otherwise the entry is dropped with what it holds, but every callback after that makes the change its request
   * still holds.
   */
  lemma {:induction false} FlushClasses(s: Element, parents: seq<bool>)
    requires Settled(s) && |parents| == |s.postDigest| && s.entry.Some? && s.entry.value.phase == PreDigest
    ensures Flush(s, parents).classes
         == ClassesAfter(s.classes, s.entry.value, s.options, s.postDigest, parents)
    decreases parents
  {
    if |parents| == 1 {
      FlushOfOneClasses(s, parents);
    } else {
      var t := RunCallback(s, parents[0]);
      RunOlder(s, parents[0]);
      if t.entry.None? {
        CancelledFlush(t, parents[1..]);
      } else {
        FlushClasses(t, parents[1..]);
        ClassesAfterNext(s.classes, s.entry.value, s.options, s.postDigest, parents);
      }
    }
  }

  /** The digest and the completion of what it starts bring about what was waiting. */
  lemma FinishIsOutcome(s: Element)
    requires Settled(s) && s.running == {}
    requires s.entry.Some? && NothingToAnimate(s.entry.value) ==> |s.postDigest| <= 1
    ensures Finish(s).classes == Outcome(s)
  {
    var parents := AllPresent(s);
    FlushStartsNewestOnly(s, parents);
    assert Apply(s.classes, NO_CHANGE) == s.classes;
    if s.postDigest != [] {
      FlushClasses(s, parents);
    }
  }

  /**
   * So requests of any kind in one digest end with the classes of making their changes in order, if each counts
   * in full when it is made and something is left to animate, or nothing was taken over.
   */
  lemma NoClassLost(s: Element, rs: seq<Request>)
    requires Settled(s) && s.entry.None? && s.running == {} && AllKept(s, rs)
    requires var e := PushAll(s, rs).entry; e.Some? && NothingToAnimate(e.value) ==> |PushAll(s, rs).postDigest| <= 1
    ensures Finish(PushAll(s, rs)).classes == ApplyAll(s.classes, Changes(rs))
  {
    PushesOutcome(s, rs);
    FinishIsOutcome(PushAll(s, rs));
    assert Apply(s.classes, NO_CHANGE) == s.classes;
  }

  // ---------- Requests on an idle element ----------

  /** A single request starts an animation exactly if it is free to and has an effect. */
  lemma StartsExactly(s: Element, r: Request)
    requires Settled(s) && s.entry.None?
    ensures Digest(Push(s, r)).running
         == if !r.skipped && r.allowed && HasEffect(s.classes, r) then s.running + {Callback(s.nextId, 1)}
            else s.running
  {
    TakeoverExactly(s, r);
    PushKeepsSettled(s, r);
    FlushStartsNewestOnly(Push(s, r), AllPresent(Push(s, r)));
    NormalizeIsEffective(s.classes, r.change);
  }

  // ---------- Requests that are lost ----------

  /** An enter takes over a class request that waits, and its change is never made. */
  lemma EnterLosesClass(x: ClassName)
    ensures var rs := [AddRequest(x), ENTER];
            && Finish(PushAll(Idle({}), rs)).classes == {} && ApplyAll({}, Changes(rs)) == {x}
            && !Kept(Push(Idle({}), AddRequest(x)), ENTER)
  {
    var rs, s := [AddRequest(x), ENTER], Push(Idle({}), AddRequest(x));
    assert Effective({}, AddRequest(x).change);
    PushLeaves(Idle({}), AddRequest(x));
    PushKeepsSettled(Idle({}), AddRequest(x));
    TakeoverExactly(Idle({}), AddRequest(x));
    assert Awaiting(s) == Change({x}, {});
    PushLeaves(s, ENTER);
    PushKeepsSettled(s, ENTER);
    assert x in Awaiting(s).add;
    TwoRequests(Idle({}), AddRequest(x), ENTER);
    FinishIsOutcome(Push(s, ENTER));
  }

  lemma TwoRequests(s: Element, a: Request, b: Request)
    ensures PushAll(s, [a, b]) == Push(Push(s, a), b)
    ensures ApplyAll(s.classes, Changes([a, b])) == Apply(Apply(s.classes, a.change), b.change)
  {
    assert [a, b][1..] == [b] && [b][1..] == [];
    assert PushAll(Push(s, a), [b]) == PushAll(Push(Push(s, a), b), []);
    var cs := Changes([a, b]);
    assert cs == [a.change, b.change] && cs[1..] == [b.change] && cs[1..][1..] == [];
    var c := Apply(s.classes, a.change);
    assert ApplyAll(c, [b.change]) == ApplyAll(Apply(c, b.change), []);
  }

  /** A skipped request overtakes the one that waits. */
  lemma SkippedRequestOvertakes(x: ClassName)
    ensures var skipped := Request(RemoveClassEvent, Change({}, {x}), false, true, true);
            var rs := [AddRequest(x), skipped];
            && Finish(PushAll(Idle({}), rs)).classes == {x} && ApplyAll({}, Changes(rs)) == {}
            && !Kept(Push(Idle({}), AddRequest(x)), skipped)
  {
    var s, skipped := Push(Idle({}), AddRequest(x)), Request(RemoveClassEvent, Change({}, {x}), false, true, true);
    assert Effective({}, AddRequest(x).change);
    PushLeaves(Idle({}), AddRequest(x));
    PushKeepsSettled(Idle({}), AddRequest(x));
    TakeoverExactly(Idle({}), AddRequest(x));
    assert Awaiting(s) == Change({x}, {});
    PushLeaves(s, skipped);
    PushKeepsSettled(s, skipped);
    TakeoverExactly(s, skipped);
    assert x in Awaiting(s).add;
    TwoRequests(Idle({}), AddRequest(x), skipped);
    FinishIsOutcome(Push(s, skipped));
  }
}
