/** What navigations and reloads lead to, said on the routes and on what the run was asked for. */
module RouteRuns {
  import opened Wrappers
  import opened RouteSpec
  import opened RouteProof

  /** The step leaves promises of a new current route outstanding. */
  predicate CommitsFully(s: Service, step: Step)
    requires Enabled(s, step)
  {
    |Do(s, step).resolving| > |s.resolving|
  }

  /** The reload announces a change, and a listener keeps it from being made. */
  predicate PreventsReload(s: Service, step: Step)
    requires Enabled(s, step)
  {
    var log := Do(s, step).log;
    step.RunReloadStep? && step.vetoed && |log| > |s.log| && log[|s.log|].ChangeStart?
  }

  /** Whether a reload was asked for and neither a full commit nor a prevented reload came after it. */
  function ReloadAsked(s: Service, steps: seq<Step>, asked: bool): bool
    requires IsRun(s, steps)
    decreases steps
  {
    if steps == [] then asked
    else
      var asked' := if steps[0].AskReloadStep? then true
                    else asked && !CommitsFully(s, steps[0]) && !PreventsReload(s, steps[0]);
      ReloadAsked(Do(s, steps[0]), steps[1..], asked')
  }

  lemma ForceAfter(s: Service, step: Step)
    requires Enabled(s, step)
    ensures Do(s, step).forceReload
         == (step.AskReloadStep? || (s.forceReload && !CommitsFully(s, step) && !PreventsReload(s, step)))
  {
  }

  lemma {:induction false} ForceIsAsked(s: Service, steps: seq<Step>)
    requires IsRun(s, steps)
    ensures RunFrom(s, steps).forceReload == ReloadAsked(s, steps, s.forceReload)
    decreases steps
  {
    if steps != [] {
      ForceAfter(s, steps[0]);
      ForceIsAsked(Do(s, steps[0]), steps[1..]);
    }
  }

  /** The parsed route is the current one with other search parameters, and says that it need not be reloaded. */
  predicate OnlySearchDiffers(s: Service, parsed: Option<Route>) {
    && s.current.Some? && parsed.Some? && s.current.value in s.objects
    && parsed.value.definition == s.objects[s.current.value].definition
    && parsed.value.pathParams == s.objects[s.current.value].pathParams
    && parsed.value.reloadOnSearch == false
  }

  /** Nothing that a page sees has changed. */
  predicate Unmoved(s: Service, t: Service) {
    t.current == s.current && t.resolving == s.resolving && t.routeParams == s.routeParams
  }

  /**
   * What comes of a parsed location: an update of the current route, nothing at all, or a change that is announced
   * and, unless it is kept from it, made, with promises outstanding and the parameters left as they are.
   */
  ghost predicate LeadsTo(s: Service, t: Service, parsed: Option<Route>, asked: bool, vetoed: bool, arrives: bool) {
    if OnlySearchDiffers(s, parsed) && !asked then
      if arrives then
        && t.log == s.log + [Updated(s.current.value)]
        && t.current == s.current && t.resolving == s.resolving && t.routeParams == parsed.value.params
        && s.current.value in t.objects
        && t.objects[s.current.value] == s.objects[s.current.value].(params := parsed.value.params)
      else t.log == s.log && Unmoved(s, t)
    else if s.current.None? && parsed.None? then t.log == s.log && Unmoved(s, t)
    else
      var next := if parsed.Some? then Some(s.nextId) else None;
      && t.log == s.log + [ChangeStart(next, s.current)]
      && if vetoed || !arrives then Unmoved(s, t)
         else
           && t.current == next && t.routeParams == s.routeParams
           && t.resolving == s.resolving + [Pending(s.commits + 1, next, s.current)]
           && (parsed.Some? ==>
                 && s.nextId in t.objects
                 && t.objects[s.nextId] == parsed.value.(params := parsed.value.params - parsed.value.redirectNames))
  }

  lemma NavigateLeads(s: Service, parsed: Option<Route>, vetoed: bool, arrives: bool)
    requires Inv(s)
    ensures s.nextId !in s.objects && (s.current.Some? ==> s.current.value in s.objects)
    ensures LeadsTo(s, Navigate(s, parsed, vetoed, arrives), parsed, s.forceReload, vetoed, arrives)
  {
  }

  lemma RunReloadLeads(s: Service, parsed: Option<Route>, vetoed: bool)
    requires Inv(s) && s.reloads > 0
    ensures LeadsTo(s, RunReload(s, parsed, vetoed), parsed, s.forceReload, vetoed, true)
  {
  }

  /**
   * After any run a navigation updates the current route in place if and only if it differs in its search alone,
   * asks for no reload of its own, and none was asked for that is still due. Otherwise the change is announced; if
   * no listener keeps it from it, a route object of its own is current then.
   */
  lemma NavigationsLead(steps: seq<Step>, parsed: Option<Route>, vetoed: bool, arrives: bool)
    requires IsRun(INITIAL, steps)
    ensures var s := RunFrom(INITIAL, steps);
            && s.nextId !in s.objects && (s.current.Some? ==> s.current.value in s.objects)
            && LeadsTo(s, Do(s, NavigateStep(parsed, vetoed, arrives)), parsed, ReloadAsked(INITIAL, steps, false),
                       vetoed, arrives)
  {
    RunKeeps(INITIAL, steps);
    ForceIsAsked(INITIAL, steps);
    NavigateLeads(RunFrom(INITIAL, steps), parsed, vetoed, arrives);
  }

  /** The same for a reload that was asked for. */
  lemma ReloadsLead(steps: seq<Step>, parsed: Option<Route>, vetoed: bool)
    requires IsRun(INITIAL, steps) && RunFrom(INITIAL, steps).reloads > 0
    ensures var s := RunFrom(INITIAL, steps);
            LeadsTo(s, Do(s, RunReloadStep(parsed, vetoed)), parsed, ReloadAsked(INITIAL, steps, false), vetoed, true)
  {
    RunKeeps(INITIAL, steps);
    ForceIsAsked(INITIAL, steps);
    RunReloadLeads(RunFrom(INITIAL, steps), parsed, vetoed);
  }
}
