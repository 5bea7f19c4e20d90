/** Preparing, committing and resolving routes: the transitions of `$route`. */
module RouteSpec {
  import opened Wrappers

  type Params = map<string, string>

  /** A route object lives under an identity of its own, as every parse of the location makes a new one. */
  type RouteId = nat

  /**
   * A parsed route. `definition` is the `$$route` it inherits from; `redirectNames` are the parameters a
   * textual `redirectTo` uses up.
   */
  datatype Route = Route(
    definition: nat,
    pathParams: Params,
    params: Params,
    reloadOnSearch: bool,
    redirectNames: set<string>)

  /** A commit whose promises are still outstanding. */
  datatype Pending = Pending(serial: nat, next: Option<RouteId>, last: Option<RouteId>)

  datatype Broadcast =
    | ChangeStart(next: Option<RouteId>, last: Option<RouteId>)
    | Updated(route: RouteId)
    | ChangeSuccess(next: Option<RouteId>, last: Option<RouteId>)
    | ChangeError(next: Option<RouteId>, last: Option<RouteId>)

  datatype Service = Service(
    current: Option<RouteId>,
    prepared: Option<RouteId>,
    updateOnly: bool,
    forceReload: bool,
    objects: map<RouteId, Route>,
    routeParams: Params,
    resolving: seq<Pending>,
    log: seq<Broadcast>,
    reloads: nat,      // reloads asked for and not yet run
    commits: nat,      // full commits so far
    nextId: RouteId)

  const INITIAL := Service(None, None, false, false, map[], map[], [], [], 0, 0, 0)

  /** Parameters, path and definition are as before, and nothing asks for a reload. */
  predicate UpdatesOnly(s: Service, parsed: Option<Route>) {
    && parsed.Some? && s.current.Some? && s.current.value in s.objects
    && parsed.value.definition == s.objects[s.current.value].definition
    && parsed.value.pathParams == s.objects[s.current.value].pathParams
    && !parsed.value.reloadOnSearch && !s.forceReload
  }

  /** `$routeChangeStart` is broadcast unless the route is only updated or there is none at all. */
  predicate Starts(s: Service, parsed: Option<Route>) {
    !UpdatesOnly(s, parsed) && (s.current.Some? || parsed.Some?)
  }

  function Prepare(s: Service, parsed: Option<Route>): Service {
    var id := if parsed.Some? then Some(s.nextId) else None;
    s.(prepared := id,
       objects := if parsed.Some? then s.objects[s.nextId := parsed.value] else s.objects,
       nextId := s.nextId + 1,
       updateOnly := UpdatesOnly(s, parsed),
       log := if Starts(s, parsed) then s.log + [ChangeStart(id, s.current)] else s.log)
  }

  function ParamsAt(s: Service, id: RouteId): Params {
    if id in s.objects then s.objects[id].params else map[]
  }

  function SetParams(s: Service, id: RouteId, params: Params): Service {
    if id in s.objects then s.(objects := s.objects[id := s.objects[id].(params := params)]) else s
  }

  function Commit(s: Service): Service {
    if s.updateOnly then
      if s.current.None? || s.prepared.None? then s
      else
        var params := ParamsAt(s, s.prepared.value);
        SetParams(s, s.current.value, params).(routeParams := params, log := s.log + [Updated(s.current.value)])
    else if s.prepared.Some? || s.current.Some? then
      var t := if s.prepared.Some? && s.prepared.value in s.objects
               then SetParams(s, s.prepared.value,
                              ParamsAt(s, s.prepared.value) - s.objects[s.prepared.value].redirectNames)
               else s;
      t.(forceReload := false,
         current := s.prepared,
         commits := s.commits + 1,
         resolving := s.resolving + [Pending(s.commits + 1, s.prepared, s.current)])
    else s
  }

  /** The location changes; `arrives`: no other listener keeps it from doing so. */
  function Navigate(s: Service, parsed: Option<Route>, vetoed: bool, arrives: bool): Service {
    var t := Prepare(s, parsed);
    if arrives && !(vetoed && Starts(s, parsed)) then Commit(t) else t
  }

  function AskReload(s: Service): Service {
    s.(forceReload := true, reloads := s.reloads + 1)
  }

  function RunReload(s: Service, parsed: Option<Route>, vetoed: bool): Service
    requires s.reloads > 0
  {
    var t := Prepare(s.(reloads := s.reloads - 1), parsed);
    if vetoed && Starts(s, parsed) then t.(forceReload := false) else Commit(t)
  }

  /** The promises of the `i`-th outstanding commit are kept, or one is broken. */
  function Resolve(s: Service, i: nat, ok: bool): Service
    requires i < |s.resolving|
  {
    var p := s.resolving[i];
    var t := s.(resolving := s.resolving[..i] + s.resolving[i + 1..]);
    if p.next != s.current then t
    else if !ok then t.(log := s.log + [ChangeError(p.next, p.last)])
    else t.(routeParams := if p.next.Some? then ParamsAt(s, p.next.value) else s.routeParams,
            log := s.log + [ChangeSuccess(p.next, p.last)])
  }

  datatype Step =
    | NavigateStep(parsed: Option<Route>, vetoed: bool, arrives: bool)
    | AskReloadStep
    | RunReloadStep(parsed: Option<Route>, vetoed: bool)
    | ResolveStep(i: nat, ok: bool)

  predicate Enabled(s: Service, step: Step) {
    match step
    case NavigateStep(_, _, _) => true
    case AskReloadStep => true
    case RunReloadStep(_, _) => s.reloads > 0
    case ResolveStep(i, _) => i < |s.resolving|
  }

  function Do(s: Service, step: Step): Service
    requires Enabled(s, step)
  {
    match step
    case NavigateStep(parsed, vetoed, arrives) => Navigate(s, parsed, vetoed, arrives)
    case AskReloadStep => AskReload(s)
    case RunReloadStep(parsed, vetoed) => RunReload(s, parsed, vetoed)
    case ResolveStep(i, ok) => Resolve(s, i, ok)
  }
}

/** What every run of the route service keeps. */
module RouteProof {
  import opened Wrappers
  import opened RouteSpec

  /** The broadcast ends the change to the route object `id`. */
  predicate Settles(b: Broadcast, id: RouteId) {
    (b.ChangeSuccess? || b.ChangeError?) && b.next == Some(id)
  }

  ghost predicate Settled(log: seq<Broadcast>, id: RouteId) {
    exists k :: 0 <= k < |log| && Settles(log[k], id)
  }

  ghost predicate Succeeded(log: seq<Broadcast>, id: RouteId) {
    exists k :: 0 <= k < |log| && log[k].ChangeSuccess? && log[k].next == Some(id)
  }

  /** No route object is settled twice. */
  ghost predicate SettledOnce(log: seq<Broadcast>) {
    forall k, l, id: RouteId :: 0 <= k < l < |log| && Settles(log[k], id) ==> !Settles(log[l], id)
  }

  /** Outstanding commits are numbered; only the newest is of the current route object. */
  ghost predicate PendingFits(s: Service, p: Pending) {
    && 0 < p.serial <= s.commits
    && (p.serial == s.commits ==> p.next == s.current)
    && (p.next.Some? ==>
          && p.next.value in s.objects
          && (p.serial < s.commits ==> p.next != s.current)
          && !Settled(s.log, p.next.value))
  }

  ghost predicate Apart(p: Pending, q: Pending) {
    p.serial != q.serial && (p.next.Some? ==> p.next != q.next)
  }

  ghost predicate Inv(s: Service) {
    && (forall id :: id in s.objects ==> id < s.nextId)
    && (s.current.Some? ==> s.current.value in s.objects)
    && (forall i :: 0 <= i < |s.resolving| ==> PendingFits(s, s.resolving[i]))
    && (forall i, j :: 0 <= i < j < |s.resolving| ==> Apart(s.resolving[i], s.resolving[j]))
    && (forall id: RouteId :: id >= s.nextId ==> !Settled(s.log, id))
    && SettledOnce(s.log)
    && (s.current.Some? && Succeeded(s.log, s.current.value) ==> s.routeParams == ParamsAt(s, s.current.value))
  }

  /** The prepared route object has not been seen by any commit. */
  ghost predicate Fresh(s: Service) {
    s.prepared.Some? ==>
      && s.prepared.value in s.objects && s.current != s.prepared && !Settled(s.log, s.prepared.value)
      && forall i :: 0 <= i < |s.resolving| ==> s.resolving[i].next != s.prepared
  }

  /** A broadcast that settles nothing changes nothing about what is settled. */
  lemma SettledPush(log: seq<Broadcast>, b: Broadcast)
    ensures forall id: RouteId :: Settled(log + [b], id) <==> Settled(log, id) || Settles(b, id)
    ensures forall id: RouteId ::
              Succeeded(log + [b], id) <==> Succeeded(log, id) || (b.ChangeSuccess? && b.next == Some(id))
    ensures SettledOnce(log) && (forall id: RouteId :: Settles(b, id) ==> !Settled(log, id)) ==> SettledOnce(log + [b])
  {
    var more := log + [b];
    forall id: RouteId ensures Settled(more, id) <==> Settled(log, id) || Settles(b, id) {
      if Settled(log, id) {
        var k :| 0 <= k < |log| && Settles(log[k], id);
        assert Settles(more[k], id);
      }
      if Settles(b, id) {
        assert Settles(more[|log|], id);
      }
    }
    forall id: RouteId ensures Succeeded(more, id) <==> Succeeded(log, id) || (b.ChangeSuccess? && b.next == Some(id)) {
      if Succeeded(log, id) {
        var k :| 0 <= k < |log| && log[k].ChangeSuccess? && log[k].next == Some(id);
        assert more[k].ChangeSuccess? && more[k].next == Some(id);
      }
      if b.ChangeSuccess? && b.next == Some(id) {
        assert more[|log|] == b;
      }
    }
  }

  lemma PrepareKeeps(s: Service, parsed: Option<Route>)
    requires Inv(s)
    ensures Inv(Prepare(s, parsed)) && Fresh(Prepare(s, parsed))
    ensures Prepare(s, parsed).updateOnly ==> s.current.Some? && parsed.Some?
  {
    var t := Prepare(s, parsed);
    SettledPush(s.log, ChangeStart(t.prepared, s.current));
    forall i | 0 <= i < |t.resolving| ensures PendingFits(t, t.resolving[i]) {
      assert PendingFits(s, s.resolving[i]);
    }
  }

  lemma CommitKeeps(s: Service)
    requires Inv(s) && Fresh(s) && (s.updateOnly ==> s.current.Some? && s.prepared.Some?)
    ensures Inv(Commit(s))
  {
    var t := Commit(s);
    if s.updateOnly {
      SettledPush(s.log, Updated(s.current.value));
    }
    forall i | 0 <= i < |s.resolving| ensures PendingFits(t, t.resolving[i]) {
      assert PendingFits(s, s.resolving[i]);
    }
    if !s.updateOnly && (s.prepared.Some? || s.current.Some?) {
      assert PendingFits(t, t.resolving[|s.resolving|]);
      forall i | 0 <= i < |s.resolving| ensures Apart(t.resolving[i], t.resolving[|s.resolving|]) {
        assert PendingFits(s, s.resolving[i]);
      }
      if s.prepared.Some? {
        SucceededIsSettled(s.log, s.prepared.value);
      }
    }
  }

  lemma SucceededIsSettled(log: seq<Broadcast>, id: RouteId)
    ensures Succeeded(log, id) ==> Settled(log, id)
  {
    if Succeeded(log, id) {
      var k :| 0 <= k < |log| && log[k].ChangeSuccess? && log[k].next == Some(id);
      assert Settles(log[k], id);
    }
  }

  /** The route whose commit is resolved is settled if it is still current, and nothing else is. */
  lemma ResolveSettles(s: Service, i: nat, ok: bool)
    requires Inv(s) && i < |s.resolving|
    ensures var p, log := s.resolving[i], Resolve(s, i, ok).log;
            && SettledOnce(log)
            && (forall id: RouteId ::
                  Settled(log, id) <==> Settled(s.log, id) || (p.next == s.current && p.next == Some(id)))
            && (forall id: RouteId ::
                  Succeeded(log, id) <==> Succeeded(s.log, id) || (ok && p.next == s.current && p.next == Some(id)))
  {
    var p := s.resolving[i];
    assert PendingFits(s, p);
    SettledPush(s.log, if ok then ChangeSuccess(p.next, p.last) else ChangeError(p.next, p.last));
  }

  lemma ResolveKeepsApart(s: Service, i: nat, ok: bool)
    requires Inv(s) && i < |s.resolving|
    ensures var resolving := Resolve(s, i, ok).resolving;
            && (forall j, k :: 0 <= j < k < |resolving| ==> Apart(resolving[j], resolving[k]))
            && (forall j :: 0 <= j < |resolving| ==>
                  && PendingFits(s, resolving[j])
                  && (resolving[j].next.Some? ==> resolving[j].next != s.resolving[i].next))
  {
    var resolving := Resolve(s, i, ok).resolving;
    forall j, k | 0 <= j < k < |resolving| ensures Apart(resolving[j], resolving[k]) {
      var j', k' := if j < i then j else j + 1, if k < i then k else k + 1;
      assert Apart(s.resolving[j'], s.resolving[k']);
    }
    forall j | 0 <= j < |resolving|
      ensures PendingFits(s, resolving[j]) && (resolving[j].next.Some? ==> resolving[j].next != s.resolving[i].next)
    {
      var j' := if j < i then j else j + 1;
      assert PendingFits(s, s.resolving[j']);
      assert if j' < i then Apart(s.resolving[j'], s.resolving[i]) else Apart(s.resolving[i], s.resolving[j']);
    }
  }

  lemma ResolveKeeps(s: Service, i: nat, ok: bool)
    requires Inv(s) && i < |s.resolving|
    ensures Inv(Resolve(s, i, ok))
  {
    ResolveSettles(s, i, ok);
    ResolveKeepsApart(s, i, ok);
    var t := Resolve(s, i, ok);
    forall j | 0 <= j < |t.resolving| ensures PendingFits(t, t.resolving[j]) {
      assert PendingFits(s, t.resolving[j]);
    }
  }

  lemma NavigateKeeps(s: Service, parsed: Option<Route>, vetoed: bool, arrives: bool)
    requires Inv(s)
    ensures Inv(Navigate(s, parsed, vetoed, arrives))
  {
    PrepareKeeps(s, parsed);
    if arrives && !(vetoed && Starts(s, parsed)) {
      CommitKeeps(Prepare(s, parsed));
    }
  }

  lemma RunReloadKeeps(s: Service, parsed: Option<Route>, vetoed: bool)
    requires Inv(s) && s.reloads > 0
    ensures Inv(RunReload(s, parsed, vetoed))
  {
    var r := s.(reloads := s.reloads - 1);
    SameButReload(s, r);
    PrepareKeeps(r, parsed);
    var t := Prepare(r, parsed);
    if vetoed && Starts(s, parsed) {
      SameButReload(t, t.(forceReload := false));
    } else {
      CommitKeeps(t);
    }
  }

  lemma StepKeeps(s: Service, step: Step)
    requires Inv(s) && Enabled(s, step)
    ensures Inv(Do(s, step))
  {
    match step
    case NavigateStep(parsed, vetoed, arrives) => NavigateKeeps(s, parsed, vetoed, arrives);
    case AskReloadStep => SameButReload(s, AskReload(s));
    case RunReloadStep(parsed, vetoed) => RunReloadKeeps(s, parsed, vetoed);
    case ResolveStep(i, ok) => ResolveKeeps(s, i, ok);
  }

  lemma SameButReload(s: Service, t: Service)
    requires Inv(s) && t == s.(reloads := t.reloads, forceReload := t.forceReload)
    ensures Inv(t)
  {
    forall i | 0 <= i < |t.resolving| ensures PendingFits(t, t.resolving[i]) {
      assert PendingFits(s, s.resolving[i]);
    }
  }

  // ---------- Runs ----------

  predicate IsRun(s: Service, steps: seq<Step>)
    decreases steps
  {
    steps == [] || (Enabled(s, steps[0]) && IsRun(Do(s, steps[0]), steps[1..]))
  }

  function RunFrom(s: Service, steps: seq<Step>): Service
    requires IsRun(s, steps)
    decreases steps
  {
    if steps == [] then s else RunFrom(Do(s, steps[0]), steps[1..])
  }

  lemma {:induction false} RunKeeps(s: Service, steps: seq<Step>)
    requires Inv(s) && IsRun(s, steps)
    ensures Inv(RunFrom(s, steps))
    decreases steps
  {
    if steps != [] {
      StepKeeps(s, steps[0]);
      RunKeeps(Do(s, steps[0]), steps[1..]);
    }
  }

  /** In every run each matched route ends with at most one success or error broadcast. */
  lemma SettledAtMostOnce(steps: seq<Step>)
    requires IsRun(INITIAL, steps)
    ensures SettledOnce(RunFrom(INITIAL, steps).log)
  {
    RunKeeps(INITIAL, steps);
  }

  /** In every run, once the current route has succeeded `$routeParams` are its parameters. */
  lemma ParamsFollowCurrent(steps: seq<Step>)
    requires IsRun(INITIAL, steps)
    ensures var s := RunFrom(INITIAL, steps);
            s.current.Some? && Succeeded(s.log, s.current.value) ==> s.routeParams == ParamsAt(s, s.current.value)
  {
    RunKeeps(INITIAL, steps);
  }

  /** The commit was followed by another full one. */
  predicate Superseded(s: Service, p: Pending) {
    p.serial < s.commits
  }

  /**
   * When the promises of a commit are done after any run: a superseded commit of a matched route does
   * nothing, and a commit that is not superseded broadcasts. A superseded commit without a route
   * broadcasts exactly when there is no current route either.
   */
  lemma WhoBroadcasts(steps: seq<Step>, i: nat, ok: bool)
    requires IsRun(INITIAL, steps) && i < |RunFrom(INITIAL, steps).resolving|
    ensures var s := RunFrom(INITIAL, steps);
            var p, t := s.resolving[i], Resolve(s, i, ok);
            && (t.log != s.log <==> !Superseded(s, p) || (p.next.None? && s.current.None?))
            && (t.log == s.log ==> t == s.(resolving := t.resolving))
            && (t.log != s.log ==>
                  t.log == s.log + [if ok then ChangeSuccess(p.next, p.last) else ChangeError(p.next, p.last)])
            && t.current == s.current && t.objects == s.objects
            && t.routeParams == (if ok && p.next.Some? && t.log != s.log then ParamsAt(s, p.next.value)
                                 else s.routeParams)
            && (Superseded(s, p) && p.next.Some? ==> t.log == s.log && t.routeParams == s.routeParams)
  {
    RunKeeps(INITIAL, steps);
    var s := RunFrom(INITIAL, steps);
    var p := s.resolving[i];
    assert PendingFits(s, p);
    assert s.log + [if ok then ChangeSuccess(p.next, p.last) else ChangeError(p.next, p.last)] != s.log;
  }

  /** Leaving a route twice for nowhere: the first leaving is superseded, yet its success is broadcast. */
  lemma SupersededWithoutRouteBroadcasts(r: Route) returns (steps: seq<Step>)
    ensures IsRun(INITIAL, steps)
    ensures var s := RunFrom(INITIAL, steps);
            && 1 < |s.resolving| && Superseded(s, s.resolving[1])
            && Resolve(s, 1, true).log == s.log + [ChangeSuccess(None, Some(0))]
  {
    var there, nowhere := NavigateStep(Some(r), false, true), NavigateStep(None, false, true);
    steps := [there, nowhere, there, nowhere];
    var s1 := Do(INITIAL, there);
    var s2 := Do(s1, nowhere);
    assert s1.resolving == [Pending(1, Some(0), None)] && s1.current == Some(0);
    assert s2.resolving == s1.resolving + [Pending(2, None, Some(0))];
    var s3 := Do(s2, there);
    var s4 := Do(s3, nowhere);
    assert steps[1..] == [nowhere, there, nowhere] && steps[1..][1..] == [there, nowhere];
    assert steps[1..][1..][1..] == [nowhere] && [nowhere][1..] == [];
    assert IsRun(s3, [nowhere]) && RunFrom(s3, [nowhere]) == s4;
    assert IsRun(s2, [there, nowhere]) && RunFrom(s2, [there, nowhere]) == s4;
    assert IsRun(s1, [nowhere, there, nowhere]) && RunFrom(s1, [nowhere, there, nowhere]) == s4;
  }
}

/** `$route` as the service keeps it. */
module RouteService {
  import opened Wrappers
  import opened RouteSpec

  class RouteService {
    var current: Option<RouteId>
    var preparedRoute: Option<RouteId>
    var preparedRouteIsUpdateOnly: bool
    var forceReload: bool
    var objects: map<RouteId, Route>
    var routeParams: Params
    var resolving: seq<Pending>
    var log: seq<Broadcast>
    var reloads: nat
    var commits: nat
    var nextId: RouteId

    constructor ()
      ensures State() == INITIAL
    {
      current, preparedRoute, preparedRouteIsUpdateOnly, forceReload := None, None, false, false;
      objects, routeParams, resolving, log := map[], map[], [], [];
      reloads, commits, nextId := 0, 0, 0;
    }

    function State(): Service
      reads this
    {
      Service(current, preparedRoute, preparedRouteIsUpdateOnly, forceReload, objects, routeParams,
              resolving, log, reloads, commits, nextId)
    }

    /** `prepareRoute`; the result says whether the location event is prevented. */
    method PrepareRoute(parsed: Option<Route>, vetoed: bool) returns (prevented: bool)
      modifies this
      ensures State() == Prepare(old(State()), parsed)
      ensures prevented == (vetoed && Starts(old(State()), parsed))
    {
      var lastRoute := current;
      preparedRoute := None;
      preparedRouteIsUpdateOnly := false;
      if parsed.Some? {
        preparedRoute := Some(nextId);
        if lastRoute.Some? && lastRoute.value in objects {
          var last := objects[lastRoute.value];
          preparedRouteIsUpdateOnly := parsed.value.definition == last.definition
            && parsed.value.pathParams == last.pathParams
            && !parsed.value.reloadOnSearch && !forceReload;
        }
        objects := objects[nextId := parsed.value];
      }
      nextId := nextId + 1;
      prevented := false;
      if !preparedRouteIsUpdateOnly && (lastRoute.Some? || preparedRoute.Some?) {
        log := log + [ChangeStart(preparedRoute, lastRoute)];
        prevented := vetoed;
      }
    }

    /** `commitRoute`, up to the promises it leaves outstanding. */
    method CommitRoute()
      requires current.Some? ==> current.value in objects
      requires preparedRoute.Some? ==> preparedRoute.value in objects
      requires preparedRouteIsUpdateOnly ==> current.Some? && preparedRoute.Some?
      modifies this
      ensures State() == Commit(old(State()))
    {
      var lastRoute, nextRoute := current, preparedRoute;
      if preparedRouteIsUpdateOnly {
        var params := objects[nextRoute.value].params;
        objects := objects[lastRoute.value := objects[lastRoute.value].(params := params)];
        routeParams := params;
        log := log + [Updated(lastRoute.value)];
      } else if nextRoute.Some? || lastRoute.Some? {
        forceReload := false;
        current := nextRoute;
        if nextRoute.Some? {
          var next := objects[nextRoute.value];
          objects := objects[nextRoute.value := next.(params := next.params - next.redirectNames)];
        }
        commits := commits + 1;
        resolving := resolving + [Pending(commits, nextRoute, lastRoute)];
      }
    }

    method NavigateTo(parsed: Option<Route>, vetoed: bool, arrives: bool)
      requires current.Some? ==> current.value in objects
      modifies this
      ensures State() == Navigate(old(State()), parsed, vetoed, arrives)
    {
      var prevented := PrepareRoute(parsed, vetoed);
      if arrives && !prevented {
        CommitRoute();
      }
    }

    method Reload()
      modifies this
      ensures State() == AskReload(old(State()))
    {
      forceReload := true;
      reloads := reloads + 1;
    }

    /** What `reload` leaves to `$evalAsync`. */
    method RunAskedReload(parsed: Option<Route>, vetoed: bool)
      requires reloads > 0 && (current.Some? ==> current.value in objects)
      modifies this
      ensures State() == RunReload(old(State()), parsed, vetoed)
    {
      reloads := reloads - 1;
      var prevented := PrepareRoute(parsed, vetoed);
      if prevented {
        forceReload := false;
      } else {
        CommitRoute();
      }
    }

    /** The `then` callbacks of an outstanding commit. */
    method ResolveAt(i: nat, ok: bool)
      requires i < |resolving| && (current.Some? ==> current.value in objects)
      modifies this
      ensures State() == Resolve(old(State()), i, ok)
    {
      var nextRoute, lastRoute := resolving[i].next, resolving[i].last;
      resolving := resolving[..i] + resolving[i + 1..];
      if nextRoute == current {
        if ok {
          if nextRoute.Some? {
            routeParams := objects[nextRoute.value].params;
          }
          log := log + [ChangeSuccess(nextRoute, lastRoute)];
        } else {
          log := log + [ChangeError(nextRoute, lastRoute)];
        }
      }
    }
  }
}
