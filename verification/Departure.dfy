/**
  The other outcomes of a reconcile. A service that is to be released ends with no pool recording it that
  is not being deleted, and an empty status, if it has annotations; without any it is left as it is. A
  service whose assignment fails ends like a released one.
 */
module Departure {
  import opened Basics
  import opened Net
  import opened Ranges
  import opened Owners
  import opened Ipam
  import opened Store
  import opened Recovery

  ghost predicate Unrecorded(pools: map<string, Pool>, key: string) {
    forall name, a :: !Recorded(pools, key, name, a)
  }

  /** A reconcile of a departing service under way releases and allocates nothing. */
  ghost predicate Departing(pools: map<string, Pool>, svc: Service, key: string, now: Progress) {
    && (!now.Idle? ==> now.svc == svc)
    && (now.Planned? ==> now.request.allocate.None? && now.request.release.Some?)
    && (now.Released? ==> now.allocate.None? && now.ingress == Some([]))
    && (now.Released? || now.Writing? ==> now.poolLabel.None?)
    && (now.Labelled? ==> svc.poolLabel.None?)
    && (now.Writing? || now.Labelled? ==> !now.failed && now.ingress == Some([]) && Unrecorded(pools, key))
  }

  ghost predicate Leaving(st: State, key: string) {
    && key in st.services && st.services[key].annotated && Unmanaged(st.services[key])
    && Departing(st.pools, st.services[key], key, ProgressOf(st, key))
  }

  /** The service has no annotations, is being deleted, is no load balancer or is not OpenELB's. */
  predicate Unmanaged(svc: Service) {
    !svc.annotated || svc.deleting || !svc.loadBalancer || !svc.openelb
  }

  /** The event does not edit the service. */
  predicate Unedited(e: Event, key: string) {
    (e.PutService? || e.DropService? ==> e.key != key)
  }

  ghost predicate Gone(st: State, key: string) {
    Unrecorded(st.pools, key) && key in st.services && NoStatus(st.services[key].ingress)
  }

  // ---------------------------------------------------------------- no event of others records the key

  lemma PoolNoRecord(st: State, after: State, key: string, n: string, p: Pool)
    requires Unrecorded(st.pools, key) && n in st.pools && after.pools == st.pools[n := p]
    requires !st.pools[n].deleting || p.deleting
    requires forall a :: a in p.used && key in p.used[a] ==> a in st.pools[n].used && key in st.pools[n].used[a]
    ensures Unrecorded(after.pools, key)
  {
    forall name, a ensures !Recorded(after.pools, key, name, a) {
      assert !Recorded(st.pools, key, name, a);
    }
  }

  lemma ReleaseNoRecord(st: State, k: string, ok: bool, key: string)
    requires PoolsOk(st.pools) && Unrecorded(st.pools, key)
    ensures Unrecorded(ReleaseStep(st, k, ok).pools, key)
  {
    var now, after := ProgressOf(st, k), ReleaseStep(st, k, ok);
    if after.pools != st.pools {
      var n := now.request.release.value.eip;
      assert PoolOk(st.pools[n]);
      ReleaseOwners(st.pools[n].used, k);
      PoolNoRecord(st, after, key, n, Release(st.pools[n], k));
    }
  }

  lemma AssignNoRecord(st: State, k: string, ok: bool, key: string)
    requires Unrecorded(st.pools, key) && k != key
    ensures Unrecorded(AssignStep(st, k, ok).pools, key)
  {
    var now, after := ProgressOf(st, k), AssignStep(st, k, ok);
    if after.pools != st.pools {
      var n, want := now.allocate.value.eip, now.allocate.value.ip;
      AssignOwners(st.pools[n], k, want);
      PoolNoRecord(st, after, key, n, Assign(st.pools[n], k, want));
    }
  }

  lemma PoolEventNoRecord(st: State, e: Event, key: string)
    requires PoolsOk(st.pools) && Unrecorded(st.pools, key)
    requires e.SyncPool? || e.CreatePool? || e.EditPool? || e.DeletePool? || e.RemovePool?
    ensures Unrecorded(Step(st, e).pools, key)
  {
    if e.SyncPool? && e.name in st.pools {
      assert PoolOk(st.pools[e.name]);
      UpdateKeeps(st.pools[e.name], e.seen);
      PoolNoRecord(st, Step(st, e), key, e.name, Update(st.pools[e.name], e.seen));
    } else if !e.SyncPool? {
      forall name, a ensures !Recorded(Step(st, e).pools, key, name, a) {
        assert !Recorded(st.pools, key, name, a);
      }
    }
  }

  /** Only an assignment to `key` itself can record it. */
  lemma NoRecordAppears(st: State, e: Event, key: string)
    requires PoolsOk(st.pools) && Unrecorded(st.pools, key) && !(e.AssignIP? && e.key == key)
    ensures Unrecorded(Step(st, e).pools, key)
  {
    if e.ReleaseIP? {
      ReleaseNoRecord(st, e.key, e.ok, key);
    } else if e.AssignIP? {
      AssignNoRecord(st, e.key, e.ok, key);
    } else if e.SyncPool? || e.CreatePool? || e.EditPool? || e.DeletePool? || e.RemovePool? {
      PoolEventNoRecord(st, e, key);
    } else {
      assert Step(st, e).pools == st.pools;
    }
  }

  // ---------------------------------------------------------------- steps

  /** A departing service's plan releases what is recorded; asking for nothing means it is gone. */
  lemma DeparturePlan(pools: map<string, Pool>, key: string, svc: Service, look: Lookup)
    requires PoolsOk(pools) && Lists(pools, look.order) && Finds(pools, key, look.found)
    requires svc.annotated && Unmanaged(svc)
    ensures var r := ConstructRequest(pools, svc, look);
      && r.allocate.None? && ReleasesFound(svc, look, r.release)
      && (r.release.None? <==> Unrecorded(pools, key) && NoStatus(svc.ingress))
  {
  }

  lemma OwnAssignUnrecorded(st: State, key: string, ok: bool)
    requires Inv(st) && Leaving(st, key)
    ensures Leaving(AssignStep(st, key, ok), key)
  {
  }

  lemma OwnWrites(st: State, key: string, ok: bool)
    requires Leaving(st, key)
    ensures Leaving(WriteLabelStep(st, key, ok), key) && Leaving(WriteStatusStep(st, key, ok), key)
    ensures Succeeds(st, WriteStatus(key, ok), key) ==>
      Gone(WriteStatusStep(st, key, ok), key) && WriteStatusStep(st, key, ok).services[key].poolLabel.None?
  {
  }

  lemma OwnPlan(st: State, key: string, look: Lookup)
    requires Inv(st) && Leaving(st, key)
    ensures Leaving(PlanStep(st, key, look), key)
    ensures Succeeds(st, Plan(key, look), key) ==> Gone(PlanStep(st, key, look), key)
  {
  }

  lemma OthersLeaving(st: State, e: Event, key: string)
    requires Inv(st) && Leaving(st, key) && Unedited(e, key) && !OwnEvent(e, key)
    ensures Leaving(Step(st, e), key)
  {
    ForeignProgress(st, e, key);
    ForeignService(st, e, key);
    if Unrecorded(st.pools, key) { NoRecordAppears(st, e, key); }
  }

  lemma ForeignService(st: State, e: Event, key: string)
    requires Unedited(e, key) && !OwnEvent(e, key) && key in st.services
    ensures key in Step(st, e).services && Step(st, e).services[key] == st.services[key]
  {
  }

  lemma LeavingStep(st: State, e: Event, key: string)
    requires Inv(st) && Leaving(st, key) && Unedited(e, key)
    ensures Leaving(Step(st, e), key)
    ensures Succeeds(st, e, key) ==> Gone(Step(st, e), key)
    ensures Succeeds(st, e, key) && e.WriteStatus? ==> Step(st, e).services[key].poolLabel.None?
  {
    if !OwnEvent(e, key) {
      OthersLeaving(st, e, key);
    } else {
      match e
      case Fetch(_) =>
      case Plan(_, look) => OwnPlan(st, key, look);
      case ReleaseIP(_, ok) => assert ProgressOk(st.pools, key, ProgressOf(st, key));
      case AssignIP(_, ok) => OwnAssignUnrecorded(st, key, ok);
      case WriteLabel(_, ok) => OwnWrites(st, key, ok);
      case WriteStatus(_, ok) => OwnWrites(st, key, ok);
      case Crash(_) =>
    }
  }

  lemma {:induction false} LeavingRun(st: State, events: seq<Event>, key: string)
    requires Inv(st) && Leaving(st, key) && forall e :: e in events ==> Unedited(e, key)
    ensures Inv(Run(st, events)) && Leaving(Run(st, events), key)
    decreases |events|
  {
    if events != [] {
      StepKeeps(st, events[0]);
      LeavingStep(st, events[0], key);
      LeavingRun(Step(st, events[0]), events[1..], key);
    }
  }

  /** A reconcile of a service without annotations only ever reads: its plan is empty. */
  ghost predicate Ignored(st: State, key: string) {
    && key in st.services && !st.services[key].annotated
    && (ProgressOf(st, key).Idle? || ProgressOf(st, key) == Fetched(st.services[key]))
  }

  lemma IgnoredStep(st: State, e: Event, key: string)
    requires Ignored(st, key) && Unedited(e, key)
    ensures Ignored(Step(st, e), key)
    ensures Succeeds(st, e, key) ==> e.Plan? && Step(st, e).pools == st.pools && Step(st, e).services == st.services
  {
    if !OwnEvent(e, key) {
      ForeignProgress(st, e, key);
      ForeignService(st, e, key);
    }
  }

  lemma {:induction false} IgnoredRun(st: State, events: seq<Event>, key: string)
    requires Ignored(st, key) && forall e :: e in events ==> Unedited(e, key)
    ensures Ignored(Run(st, events), key)
    decreases |events|
  {
    if events != [] {
      IgnoredStep(st, events[0], key);
      IgnoredRun(Step(st, events[0]), events[1..], key);
    }
  }

  /** Events that leave the service alone, the last of which ends a reconcile of it with success. */
  ghost predicate DepartureSuccess(st: State, events: seq<Event>, last: Event, key: string) {
    && key in st.services && ProgressOf(st, key) == Idle
    && (var svc := st.services[key]; !svc.annotated || svc.deleting || !svc.loadBalancer || !svc.openelb)
    && (forall e :: e in events + [last] ==> Unedited(e, key))
    && Succeeds(Run(st, events), last, key)
  }

  lemma DepartureEnds(st: State, events: seq<Event>, last: Event, key: string)
    requires Inv(st) && DepartureSuccess(st, events, last, key)
    ensures var before := Run(st, events);
      var end := Step(before, last);
      && Inv(end) && key in end.services && Unmanaged(end.services[key])
      && end.services[key].annotated == st.services[key].annotated
      && (Gone(end, key) <==> st.services[key].annotated || Gone(before, key))
      && (last.WriteStatus? ==> end.services[key].poolLabel.None?)
  {
    assert last in events + [last] && forall e :: e in events ==> e in events + [last];
    RunKeeps(st, events);
    StepKeeps(Run(st, events), last);
    if st.services[key].annotated {
      LeavingRun(st, events, key);
      LeavingStep(Run(st, events), last, key);
    } else {
      IgnoredRun(st, events, key);
      IgnoredStep(Run(st, events), last, key);
    }
  }

  /**
    Release. From any reachable store take a service without annotations, being deleted, no load
    balancer or not OpenELB's, and let its reconcile succeed, however interleaved. If the service has
    annotations it ends recorded in no pool that is not being deleted, with an empty status, and
    without the label if anything was written. If it has none, `ConstructRequest` returns before
    looking, so it ends so exactly when it was so already. Either way the next reconcile asks for
    nothing.
   */
  lemma ReconcileReleasesIff(history: seq<Event>, events: seq<Event>, last: Event, key: string, look: Lookup)
    requires DepartureSuccess(Run(INITIAL, history), events, last, key)
    ensures var st := Run(INITIAL, history);
      var before := Run(st, events);
      var end := Step(before, last);
      && key in end.services
      && (Gone(end, key) <==> st.services[key].annotated || Gone(before, key))
      && (last.WriteStatus? ==> end.services[key].poolLabel.None?)
      && (Possible(end, key, look) ==> AsksNothing(end, key, look))
  {
    var st := Run(INITIAL, history);
    var end := Step(Run(st, events), last);
    ReachableInv(history);
    DepartureEnds(st, events, last, key);
    if Possible(end, key, look) && st.services[key].annotated {
      DeparturePlan(end.pools, key, end.services[key], look);
    }
  }

  // ---------------------------------------------------------------- failed assignments

  /** The status that a reconcile under way intends. */
  function Intended(svc: Service, ingress: Option<seq<Text>>): seq<Text> {
    if ingress.Some? then ingress.value else svc.ingress
  }

  /** A reconcile under way that will not assign an address is clearing the status. */
  ghost predicate Clearing(pools: map<string, Pool>, svc: Service, key: string, now: Progress) {
    && (!now.Idle? ==> now.svc == svc)
    && (now.Planned? && now.request.release.None? ==> NoStatus(svc.ingress))
    && (now.Released? ==> NoStatus(Intended(svc, now.ingress)))
    && ((now.Writing? || now.Labelled?) && now.failed ==>
          NoStatus(Intended(svc, now.ingress)) && Unrecorded(pools, key))
  }

  ghost predicate Watched(st: State, key: string) {
    key in st.services && Clearing(st.pools, st.services[key], key, ProgressOf(st, key))
  }

  /** The event ends a reconcile of `key` whose assignment failed, with all service writes accepted. */
  ghost predicate EndsUnassigned(st: State, e: Event, key: string) {
    var now := ProgressOf(st, key);
    && e.WriteStatus? && e.key == key && now.Labelled? && now.failed
    && (SameStatus(now.svc, now.ingress) || (e.ok && Current(st, key, now.svc)))
  }

  /** A plan without a release is made only for a service without a status. */
  lemma PlanWithoutRelease(st: State, key: string, look: Lookup)
    requires Inv(st) && Watched(st, key)
    ensures Watched(PlanStep(st, key, look), key)
  {
  }

  lemma OwnStepsWatched(st: State, key: string, ok: bool)
    requires Inv(st) && Watched(st, key)
    ensures Watched(ReleaseStep(st, key, ok), key) && Watched(AssignStep(st, key, ok), key)
  {
    assert ProgressOk(st.pools, key, ProgressOf(st, key));
  }

  lemma OwnWritesWatched(st: State, key: string, ok: bool)
    requires Watched(st, key)
    ensures Watched(WriteLabelStep(st, key, ok), key) && Watched(WriteStatusStep(st, key, ok), key)
    ensures EndsUnassigned(st, WriteStatus(key, ok), key) ==> Gone(WriteStatusStep(st, key, ok), key)
  {
  }

  lemma WatchedStep(st: State, e: Event, key: string)
    requires Inv(st) && Watched(st, key) && Unedited(e, key)
    ensures Watched(Step(st, e), key)
    ensures EndsUnassigned(st, e, key) ==> Gone(Step(st, e), key)
  {
    if !OwnEvent(e, key) {
      ForeignProgress(st, e, key);
      ForeignService(st, e, key);
      if Unrecorded(st.pools, key) { NoRecordAppears(st, e, key); }
    } else {
      match e
      case Plan(_, look) => PlanWithoutRelease(st, key, look);
      case ReleaseIP(_, ok) => OwnStepsWatched(st, key, ok);
      case AssignIP(_, ok) => OwnStepsWatched(st, key, ok);
      case WriteLabel(_, ok) => OwnWritesWatched(st, key, ok);
      case WriteStatus(_, ok) => OwnWritesWatched(st, key, ok);
      case _ =>
    }
  }

  lemma {:induction false} WatchedRun(st: State, events: seq<Event>, key: string)
    requires Inv(st) && Watched(st, key) && forall e :: e in events ==> Unedited(e, key)
    ensures Inv(Run(st, events)) && Watched(Run(st, events), key)
    decreases |events|
  {
    if events != [] {
      StepKeeps(st, events[0]);
      WatchedStep(st, events[0], key);
      WatchedRun(Step(st, events[0]), events[1..], key);
    }
  }

  /**
    No stale address. From any reachable store, when a reconcile cannot assign an address but its
    service writes go through, the service is recorded nowhere and its status is empty.
   */
  lemma FailedAssignmentClears(history: seq<Event>, events: seq<Event>, last: Event, key: string)
    requires var st := Run(INITIAL, history); key in st.services && ProgressOf(st, key) == Idle
    requires Unedited(last, key) && forall e :: e in events ==> Unedited(e, key)
    requires EndsUnassigned(Run(Run(INITIAL, history), events), last, key)
    ensures Gone(Step(Run(Run(INITIAL, history), events), last), key)
  {
    ReachableInv(history);
    WatchedRun(Run(INITIAL, history), events, key);
    WatchedStep(Run(Run(INITIAL, history), events), last, key);
  }
}
