/**
  `ServiceReconciler.Reconcile` of pkg/controllers/lb/controller.go as it runs: one pass over the
  store with four writes, each of which may fail. The store keeps pools with joined owner lists; a
  pass works on copies of the pool object. It is proved to be the corresponding sequence of events of
  `Store`, so everything proved about runs holds of it.
 */
module Reconciler {
  import opened Basics
  import opened Net
  import opened Ranges
  import opened Owners
  import opened Ipam
  import opened EipObject
  import opened Store
  import opened Recovery
  import opened Departure

  /** Which of the writes of one pass the store accepts. */
  datatype Writes = Writes(release: bool, assign: bool, service: bool, status: bool)

  function Trace(key: string, look: Lookup, w: Writes): seq<Event> {
    [Fetch(key), Plan(key, look), ReleaseIP(key, w.release), AssignIP(key, w.assign), WriteLabel(key, w.service)]
  }

  /** The state in which the status is written, and the state after it. */
  ghost function BeforeStatus(st: State, key: string, look: Lookup, w: Writes): State {
    var planned := PlanStep(FetchStep(st, key), key, look);
    WriteLabelStep(AssignStep(ReleaseStep(planned, key, w.release), key, w.assign), key, w.service)
  }

  ghost function Reconciled(st: State, key: string, look: Lookup, w: Writes): State {
    WriteStatusStep(BeforeStatus(st, key, look, w), key, w.status)
  }

  /** The pass ends without an error. */
  ghost predicate PassSucceeds(st: State, key: string, look: Lookup, w: Writes) {
    || Succeeds(FetchStep(st, key), Plan(key, look), key)
    || Succeeds(BeforeStatus(st, key, look, w), WriteStatus(key, w.status), key)
  }

  lemma RunOfTrace(st: State, key: string, look: Lookup, w: Writes)
    ensures Run(st, Trace(key, look, w)) == BeforeStatus(st, key, look, w)
  {
    var t := Trace(key, look, w);
    var s1 := Step(st, t[0]);
    var s2 := Step(s1, t[1]);
    var s3 := Step(s2, t[2]);
    var s4 := Step(s3, t[3]);
    var s5 := Step(s4, t[4]);
    assert t[4..] == [t[4]] && t[3..][1..] == t[4..] && t[2..][1..] == t[3..] && t[1..][1..] == t[2..];
    assert Run(s5, []) == s5;
    assert Run(s4, t[4..]) == s5;
    assert Run(s3, t[3..]) == s5;
    assert Run(s2, t[2..]) == s5;
    assert Run(s1, t[1..]) == s5;
  }

  /** A pass over a good store keeps it good. */
  lemma PassKeeps(st: State, key: string, look: Lookup, w: Writes)
    requires Inv(st)
    ensures Inv(Reconciled(st, key, look, w))
  {
    var s0 := FetchStep(st, key);
    var s1 := PlanStep(s0, key, look);
    var s2 := ReleaseStep(s1, key, w.release);
    var s3 := AssignStep(s2, key, w.assign);
    StepKeeps(st, Fetch(key));
    PlanKeeps(s0, key, look);
    ReleaseStepKeeps(s1, key, w.release);
    AssignStepKeeps(s2, key, w.assign);
    WriteLabelKeeps(s3, key, w.service);
    WriteStatusKeeps(WriteLabelStep(s3, key, w.service), key, w.status);
  }

  /** A pass that plans nothing ends with planning. */
  lemma EmptyPass(st: State, key: string, look: Lookup, w: Writes)
    requires Succeeds(FetchStep(st, key), Plan(key, look), key)
    ensures Run(st, [Fetch(key)]) == FetchStep(st, key)
    ensures Reconciled(st, key, look, w) == PlanStep(FetchStep(st, key), key, look)
  {
    assert Run(Step(st, Fetch(key)), []) == FetchStep(st, key);
    EndedPass(PlanStep(FetchStep(st, key), key, look), key, w);
  }

  lemma TraceIsOwn(key: string, look: Lookup, w: Writes, last: Event)
    requires OwnEvent(last, key)
    ensures forall e :: e in Trace(key, look, w) + [last] ==> OwnEvent(e, key)
  {
  }

  /** A successful pass is a run of its events up to the one that succeeds. */
  lemma PassIsRun(st: State, key: string, look: Lookup, w: Writes) returns (events: seq<Event>, last: Event)
    requires PassSucceeds(st, key, look, w)
    ensures Succeeds(Run(st, events), last, key)
    ensures Reconciled(st, key, look, w) == Step(Run(st, events), last)
    ensures forall e :: e in events + [last] ==> OwnEvent(e, key)
  {
    if Succeeds(FetchStep(st, key), Plan(key, look), key) {
      EmptyPass(st, key, look, w);
      return [Fetch(key)], Plan(key, look);
    }
    RunOfTrace(st, key, look, w);
    TraceIsOwn(key, look, w, WriteStatus(key, w.status));
    return Trace(key, look, w), WriteStatus(key, w.status);
  }

  /**
    What a successful pass over a good store achieves: a managed service is settled in the pool it
    resolves to; one that is being deleted, is no load balancer or is not OpenELB's is gone; one without
    annotations is gone only if it was.
   */
  lemma PassAchieves(st: State, key: string, look: Lookup, w: Writes, name: string)
    requires Inv(st) && ProgressOf(st, key) == Idle && key in st.services && PassSucceeds(st, key, look, w)
    ensures var svc, end := st.services[key], Reconciled(st, key, look, w);
      && (svc.annotated && svc.openelb && svc.loadBalancer && !svc.deleting && Resolves(st.pools, svc, name) ==>
            Settled(end, key, name, Wish(svc)))
      && (svc.annotated && (svc.deleting || !svc.loadBalancer || !svc.openelb) ==> Gone(end, key))
      && (!svc.annotated ==> (Gone(end, key) <==> Gone(st, key)))
  {
    var events, last := PassIsRun(st, key, look, w);
    if Waiting(st, key, name) {
      QuietSuccessSettles(st, events, last, key, name);
    }
    if Unmanaged(st.services[key]) {
      DepartureEnds(st, events, last, key);
      if !st.services[key].annotated { IgnoredUntouched(st, events, key); }
    }
  }

  /** Its own events do nothing to a service without annotations or to the pools. */
  lemma {:induction false} IgnoredUntouched(st: State, events: seq<Event>, key: string)
    requires Ignored(st, key) && forall e :: e in events ==> OwnEvent(e, key)
    ensures Run(st, events).pools == st.pools && Run(st, events).services == st.services
    decreases |events|
  {
    if events != [] {
      assert events[0] in events;
      IgnoredStep(st, events[0], key);
      assert Step(st, events[0]).pools == st.pools && Step(st, events[0]).services == st.services;
      IgnoredUntouched(Step(st, events[0]), events[1..], key);
    }
  }

  // ---------------------------------------------------------------- when a pass succeeds

  const ALL_ACCEPTED: Writes := Writes(true, true, true, true)

  /** The pools after the release part of a pass. */
  function PoolsReleased(pools: map<string, Pool>, key: string, look: Lookup): map<string, Pool> {
    if look.found.Some? && look.found.value.0 in pools
    then pools[look.found.value.0 := Release(pools[look.found.value.0], key)] else pools
  }

  /** The pool exists, has a family that the service accepts and has an address to give. */
  predicate Assignable(pools: map<string, Pool>, svc: Service, key: string, name: string, want: Text) {
    && name in pools && (if pools[name].block.v6 then svc.wantsV6 else svc.wantsV4)
    && Choice(pools[name], key, want).Some?
  }

  /** Releasing a recorded service changes its pool, so the write is needed. */
  lemma ReleaseChanges(p: Pool, key: string, a: Address)
    requires PoolOk(p) && !p.deleting && a in p.used && key in p.used[a]
    ensures Release(p, key) != p
  {
    ReleaseOwners(p.used, key);
  }

  /** The release part of a pass goes on exactly if nothing is recorded or the write is accepted. */
  lemma ReleaseOutcome(st: State, key: string, look: Lookup, svc: Service, request: Request, ok: bool)
    requires PoolsOk(st.pools) && Finds(st.pools, key, look.found)
    requires ProgressOf(st, key) == Planned(svc, request) && ReleasesFound(svc, look, request.release)
    ensures var after := ReleaseStep(st, key, ok);
      var freed := request.release.Some?;
      && after.services == st.services
      && if look.found.Some? && !ok then ProgressOf(after, key) == Idle
         else
           && after.pools == PoolsReleased(st.pools, key, look)
           && ProgressOf(after, key) == Released(svc, request.allocate, if freed then None else svc.poolLabel,
                                                 if freed then Some([]) else None)
  {
    if look.found.Some? {
      var n, a := look.found.value.0, look.found.value.1;
      assert Recorded(st.pools, key, n, a);
      ReleaseChanges(st.pools[n], key, a);
    }
  }

  /**
    The assignment part of a pass: it records the service at the chosen address exactly if the pool
    is assignable and the write is accepted, and fails without a change otherwise.
   */
  lemma AssignOutcome(st: State, key: string, ok: bool, name: string, want: Text)
    requires Inv(st) && ProgressOf(st, key).Released? && ProgressOf(st, key).allocate == Some(Record(name, want))
    ensures var now, after := ProgressOf(st, key), AssignStep(st, key, ok);
      && after.services == st.services
      && if Assignable(st.pools, now.svc, key, name, want) && ok
         then var c := Choice(st.pools[name], key, want).value;
              && Recorded(after.pools, key, name, c)
              && ProgressOf(after, key) == Writing(now.svc, Some(name), Some([Canon(c)]), false)
         else after.pools == st.pools && ProgressOf(after, key) == Writing(now.svc, now.poolLabel, now.ingress, true)
  {
    assert ProgressOk(st.pools, key, ProgressOf(st, key));
    if Assignable(st.pools, ProgressOf(st, key).svc, key, name, want) {
      var c := Choice(st.pools[name], key, want).value;
      AssignedRecords(st.pools, key, name, want);
      assert !Recorded(st.pools, key, name, c);
      assert Recorded(st.pools[name := Assign(st.pools[name], key, want)], key, name, c);
    }
  }

  /** The service writes go through exactly if each that changes something is accepted. */
  lemma WritesOutcome(st: State, key: string, w: Writes)
    requires ProgressOf(st, key).Writing? && key in st.services && st.services[key] == ProgressOf(st, key).svc
    ensures var now := ProgressOf(st, key);
      Succeeds(WriteLabelStep(st, key, w.service), WriteStatus(key, w.status), key) <==>
        && !now.failed && (now.svc.poolLabel != now.poolLabel ==> w.service)
        && (now.ingress.Some? && (now.ingress.value != now.svc.ingress || now.ingress.value == []) ==> w.status)
  {
  }

  /** Which writes a pass that assigns `c` needs. */
  predicate NeededWrites(svc: Service, look: Lookup, name: string, c: Address, w: Writes) {
    && (look.found.Some? ==> w.release) && w.assign
    && (svc.poolLabel != Some(name) ==> w.service) && (svc.ingress != [Canon(c)] ==> w.status)
  }

  /** A planned pass of a managed service. */
  lemma PlannedPassSucceedsIff(
    st: State, key: string, look: Lookup, request: Request, svc: Service, name: string, w: Writes)
    requires Inv(st) && Finds(st.pools, key, look.found) && key in st.services && st.services[key] == svc
    requires ProgressOf(st, key) == Planned(svc, request) && request.allocate == Some(Record(name, Wish(svc)))
    requires ReleasesFound(svc, look, request.release)
    ensures var pools := PoolsReleased(st.pools, key, look);
      var mid := WriteLabelStep(AssignStep(ReleaseStep(st, key, w.release), key, w.assign), key, w.service);
      Succeeds(mid, WriteStatus(key, w.status), key) <==>
        && Assignable(pools, svc, key, name, Wish(svc))
        && NeededWrites(svc, look, name, Choice(pools[name], key, Wish(svc)).value, w)
  {
    var released := ReleaseStep(st, key, w.release);
    ReleaseOutcome(st, key, look, svc, request, w.release);
    ReleaseStepKeeps(st, key, w.release);
    if look.found.Some? && !w.release {
      EndedPass(released, key, w);
    } else {
      AssignOutcome(released, key, w.assign, name, Wish(svc));
      WritesOutcome(AssignStep(released, key, w.assign), key, w);
    }
  }

  /**
    When a pass of a managed service succeeds: if and only if it is content, or its pool, once its own
    record is released, has a family that it accepts and an address to give, and every write that
    changes something is accepted.
   */
  lemma PassSucceedsIff(st: State, key: string, look: Lookup, name: string, w: Writes)
    requires Inv(st) && Waiting(st, key, name) && IsKey(key) && Possible(st, key, look)
    ensures var svc, pools := st.services[key], PoolsReleased(st.pools, key, look);
      PassSucceeds(st, key, look, w) <==>
        || Content(svc, look, name)
        || (&& Assignable(pools, svc, key, name, Wish(svc))
            && NeededWrites(svc, look, name, Choice(pools[name], key, Wish(svc)).value, w))
  {
    var svc, fetched := st.services[key], FetchStep(st, key);
    var planned := PlanStep(fetched, key, look);
    PlanTarget(st.pools, svc, look, name);
    StepKeeps(st, Fetch(key));
    PlanKeeps(fetched, key, look);
    if Content(svc, look, name) {
      assert Succeeds(fetched, Plan(key, look), key);
    } else {
      PlannedPassSucceedsIff(planned, key, look, ConstructRequest(st.pools, svc, look), svc, name, w);
    }
  }

  /** A planned pass that only releases. */
  lemma PlannedReleaseSucceedsIff(st: State, key: string, look: Lookup, request: Request, svc: Service, w: Writes)
    requires Inv(st) && Finds(st.pools, key, look.found) && key in st.services && st.services[key] == svc
    requires ProgressOf(st, key) == Planned(svc, request) && request.allocate.None? && request.release.Some?
    requires ReleasesFound(svc, look, request.release)
    ensures var mid := WriteLabelStep(AssignStep(ReleaseStep(st, key, w.release), key, w.assign), key, w.service);
      Succeeds(mid, WriteStatus(key, w.status), key) <==>
        (look.found.Some? ==> w.release) && (svc.poolLabel.Some? ==> w.service) && w.status
  {
    var released := ReleaseStep(st, key, w.release);
    ReleaseOutcome(st, key, look, svc, request, w.release);
    if look.found.Some? && !w.release {
      EndedPass(released, key, w);
    } else {
      WritesOutcome(AssignStep(released, key, w.assign), key, w);
    }
  }

  /**
    When a pass of an unmanaged service succeeds: always without annotations, and otherwise if and only
    if there is nothing to release or every write that it needs is accepted. The status is always
    written, because an empty list does not equal the nil list that was read.
   */
  lemma ReleasePassSucceedsIff(st: State, key: string, look: Lookup, w: Writes)
    requires Inv(st) && IsKey(key) && Possible(st, key, look) && ProgressOf(st, key) == Idle && key in st.services
    requires var svc := st.services[key]; !svc.annotated || svc.deleting || !svc.loadBalancer || !svc.openelb
    ensures var svc := st.services[key];
      PassSucceeds(st, key, look, w) <==>
        || !svc.annotated || Gone(st, key)
        || ((look.found.Some? ==> w.release) && (svc.poolLabel.Some? ==> w.service) && w.status)
  {
    var svc, fetched := st.services[key], FetchStep(st, key);
    var request := ConstructRequest(st.pools, svc, look);
    StepKeeps(st, Fetch(key));
    PlanKeeps(fetched, key, look);
    if svc.annotated { DeparturePlan(st.pools, key, svc, look); }
    if request == Request(None, None) {
      assert Succeeds(fetched, Plan(key, look), key);
    } else {
      PlannedReleaseSucceedsIff(PlanStep(fetched, key, look), key, look, request, svc, w);
    }
  }

  // ---------------------------------------------------------------- the reconciler

  function DecodeAll(eips: map<string, Stored>): map<string, Pool> {
    map n | n in eips :: Decoded(eips[n])
  }

  /** A copy of the pool with the service released. */
  method ReleasedCopy(eip: Stored, key: string) returns (clone: Stored)
    requires PoolOk(Decoded(eip))
    ensures Decoded(clone) == Release(Decoded(eip), key)
  {
    UsageBound(Decoded(eip));
    DecodeSize(eip.used);
    var copied := new Eip(eip);
    copied.ReleaseIP(key);
    return copied.Content();
  }

  /** A copy of the pool with an address assigned, if it has one to give. */
  method AssignedCopy(eip: Stored, key: string, want: Text) returns (addr: Option<Address>, clone: Stored)
    requires IsKey(key)
    ensures addr == Choice(Decoded(eip), key, want) && Decoded(clone) == Assign(Decoded(eip), key, want)
  {
    var copied := new Eip(eip);
    addr := copied.AssignIP(key, want);
    clone := copied.Content();
  }

  class ServiceReconciler {
    var eips: map<string, Stored>
    var services: map<string, Service>
    var clock: nat

    /** The decoded store with no reconcile under way. */
    ghost function Snapshot(): State
      reads this
    {
      State(DecodeAll(eips), services, map[], clock)
    }

    /** The store satisfies the run invariant. */
    ghost predicate Valid()
      reads this
    {
      Inv(Snapshot())
    }

    constructor ()
      ensures Valid() && Snapshot() == INITIAL
    {
      eips, services, clock := map[], map[], 0;
    }

    /** The release part of a pass, on a copy of the pool; `s` is the state of the events so far. */
    method ReleaseStage(key: string, svc: Service, request: Request, accepted: bool, ghost s: State)
      returns (err: bool, poolLabel: Option<string>, ingress: Option<seq<Text>>)
      requires s.pools == DecodeAll(eips) && ProgressOf(s, key) == Planned(svc, request)
      requires request.release.Some? && request.release.value.eip in s.pools ==>
        PoolOk(s.pools[request.release.value.eip])
      modifies this`eips
      ensures var t := ReleaseStep(s, key, accepted);
        && t.pools == DecodeAll(eips) && t.services == s.services && t.clock == s.clock
        && ProgressOf(t, key) == if err then Idle else Released(svc, request.allocate, poolLabel, ingress)
    {
      err, poolLabel, ingress := false, svc.poolLabel, None;
      if request.release.None? { return; }
      poolLabel, ingress := None, Some([]);
      var name := request.release.value.eip;
      if name !in eips { return; }
      var clone := ReleasedCopy(eips[name], key);
      ghost var changed := Release(s.pools[name], key) != s.pools[name];
      err := WriteBack(name, clone, accepted);
      assert !changed ==> DecodeAll(eips) == s.pools;
    }

    /** The assignment part of a pass, on a copy of the pool. */
    method AssignStage(key: string, svc: Service, allocate: Option<Record>, oldLabel: Option<string>,
                       oldIngress: Option<seq<Text>>, accepted: bool, ghost s: State)
      returns (failed: bool, poolLabel: Option<string>, ingress: Option<seq<Text>>)
      requires s.pools == DecodeAll(eips) && IsKey(key)
      requires ProgressOf(s, key) == Released(svc, allocate, oldLabel, oldIngress)
      modifies this`eips
      ensures var t := AssignStep(s, key, accepted);
        && t.pools == DecodeAll(eips) && t.services == s.services && t.clock == s.clock
        && ProgressOf(t, key) == Writing(svc, poolLabel, ingress, failed)
    {
      failed, poolLabel, ingress := false, oldLabel, oldIngress;
      if allocate.None? { return; }
      var name := allocate.value.eip;
      if name !in eips || !SameFamily(svc, eips[name].block) { return true, oldLabel, oldIngress; }
      var addr, clone := AssignedCopy(eips[name], key, allocate.value.ip);
      if addr.None? { return true, oldLabel, oldIngress; }
      failed := WriteBack(name, clone, accepted);
      if !failed { poolLabel, ingress := Some(name), Some([Canon(addr.value)]); }
    }

    /** Writes a pool back if it has changed. */
    method WriteBack(name: string, clone: Stored, accepted: bool) returns (err: bool)
      requires name in eips
      modifies this`eips
      ensures err <==> Decoded(clone) != DecodeAll(old(eips))[name] && !accepted
      ensures DecodeAll(eips) == if err then DecodeAll(old(eips)) else DecodeAll(old(eips))[name := Decoded(clone)]
    {
      err := false;
      if clone != eips[name] {
        if Decoded(clone) == Decoded(eips[name]) { DecodedInjective(clone, eips[name]); }
        if !accepted { return true; }
        eips := eips[name := clone];
      }
    }

    /** Labels first, then the status, each only if it changed: the last two events of the pass. */
    method UpdateReconcileResult(key: string, svc: Service, poolLabel: Option<string>, ingress: Option<seq<Text>>,
                                 w: Writes, ghost s: State) returns (err: bool)
      requires s.services == services && s.clock == clock && key in services && services[key] == svc
      requires var now := ProgressOf(s, key); now.Writing? && now == Writing(svc, poolLabel, ingress, now.failed)
      modifies this`services, this`clock
      ensures var mid := WriteLabelStep(s, key, w.service);
        var end := WriteStatusStep(mid, key, w.status);
        && end.pools == s.pools && end.services == services && end.clock == clock
        && (Succeeds(mid, WriteStatus(key, w.status), key) <==> !ProgressOf(s, key).failed && !err)
    {
      var clone := svc;
      ghost var mid := WriteLabelStep(s, key, w.service);
      if svc.poolLabel != poolLabel {
        if !w.service {
          EndedPass(mid, key, w);
          return true;
        }
        clone := svc.(poolLabel := poolLabel, version := clock + 1);
        services := services[key := clone];
        clock := clock + 1;
      }
      assert mid.services == services && mid.clock == clock && mid.pools == s.pools;
      assert ProgressOf(mid, key) == Labelled(clone, ingress, ProgressOf(s, key).failed);
      err := WriteStatusLast(key, clone, ingress, w.status, mid);
    }

    /** The status write, if the status changed. */
    method WriteStatusLast(key: string, clone: Service, ingress: Option<seq<Text>>, accepted: bool, ghost s: State)
      returns (err: bool)
      requires s.services == services && s.clock == clock && key in services && services[key] == clone
      requires var now := ProgressOf(s, key); now.Labelled? && now == Labelled(clone, ingress, now.failed)
      modifies this`services, this`clock
      ensures var end := WriteStatusStep(s, key, accepted);
        && end.pools == s.pools && end.services == services && end.clock == clock
        && (Succeeds(s, WriteStatus(key, accepted), key) <==> !ProgressOf(s, key).failed && !err)
    {
      if !SameStatus(clone, ingress) {
        if !accepted { return true; }
        services := services[key := clone.(ingress := ingress.value, version := clock + 1)];
        clock := clock + 1;
      }
      return false;
    }

    /** The writes of a pass with a request; `s` is the state after planning. */
    method Perform(key: string, svc: Service, request: Request, w: Writes, ghost s: State) returns (err: bool)
      requires s.pools == DecodeAll(eips) && s.services == services && s.clock == clock
      requires PoolsOk(s.pools) && IsKey(key)
      requires ProgressOf(s, key) == Planned(svc, request) && key in services && services[key] == svc
      modifies this
      ensures var mid := WriteLabelStep(AssignStep(ReleaseStep(s, key, w.release), key, w.assign), key, w.service);
        var end := WriteStatusStep(mid, key, w.status);
        && end.pools == DecodeAll(eips) && end.services == services && end.clock == clock
        && (!err <==> Succeeds(mid, WriteStatus(key, w.status), key))
    {
      var poolLabel, ingress, failed;
      ghost var s2 := ReleaseStep(s, key, w.release);
      err, poolLabel, ingress := ReleaseStage(key, svc, request, w.release, s);
      if err {
        EndedPass(s2, key, w);
        return true;
      }
      failed, poolLabel, ingress := AssignStage(key, svc, request.allocate, poolLabel, ingress, w.assign, s2);
      err := UpdateReconcileResult(key, svc, poolLabel, ingress, w, AssignStep(s2, key, w.assign));
      return failed || err;
    }

    /**
      One pass. It is the corresponding events of `Store` on the decoded pools, reports success exactly
      when they succeed, and keeps the run invariant. On success a managed service is settled in the
      pool it resolves to; one that is being deleted, is no load balancer or is not OpenELB's is gone;
      one without annotations is gone only if it was.
     */
    method Reconcile(key: string, look: Lookup, w: Writes) returns (err: bool)
      requires Valid() && IsKey(key) && Possible(Snapshot(), key, look)
      modifies this
      ensures Valid()
      ensures Snapshot() == Reconciled(old(Snapshot()), key, look, w).(progress := map[])
      ensures key in old(services) ==> (!err <==> PassSucceeds(old(Snapshot()), key, look, w))
      ensures !err && key in old(services) ==>
        var svc := old(services)[key];
        && (svc.annotated && svc.openelb && svc.loadBalancer && !svc.deleting ==>
              forall name :: Resolves(old(Snapshot()).pools, svc, name) ==> Settled(Snapshot(), key, name, Wish(svc)))
        && (svc.annotated && (svc.deleting || !svc.loadBalancer || !svc.openelb) ==> Gone(Snapshot(), key))
        && (!svc.annotated ==> (Gone(Snapshot(), key) <==> Gone(old(Snapshot()), key)))
    {
      ghost var before := Snapshot();
      err := Pass(key, look, w);
      PassKeeps(before, key, look, w);
      ghost var end := Reconciled(before, key, look, w);
      RestingInv(end);
      if !err && key in before.services {
        ghost var svc := before.services[key];
        forall name | Waiting(before, key, name) ensures Settled(Snapshot(), key, name, Wish(svc)) {
          PassAchieves(before, key, look, w, name);
          var a :| SettledAt(end, key, name, Wish(svc), a);
          assert SettledAt(Snapshot(), key, name, Wish(svc), a);
        }
        PassAchieves(before, key, look, w, "");
        assert Gone(Snapshot(), key) <==> Gone(end, key);
      }
    }

    /** One pass as events of the store. */
    method Pass(key: string, look: Lookup, w: Writes) returns (err: bool)
      requires Valid() && IsKey(key) && Possible(Snapshot(), key, look)
      modifies this
      ensures Snapshot() == Reconciled(old(Snapshot()), key, look, w).(progress := map[])
      ensures key in old(services) ==> (!err <==> PassSucceeds(old(Snapshot()), key, look, w))
    {
      ghost var s := PlanStep(FetchStep(Snapshot(), key), key, look);
      if key !in services {
        EndedPass(s, key, w);
        return false;
      }
      var svc := services[key];
      var request := ConstructRequest(DecodeAll(eips), svc, look);
      if request.release.None? && request.allocate.None? {
        EndedPass(s, key, w);
        return false;
      }
      err := Perform(key, svc, request, w, s);
    }
  }

  /** Forgetting the reconciles under way keeps the run invariant. */
  lemma RestingInv(st: State)
    requires Inv(st)
    ensures Inv(st.(progress := map[]))
  {
  }

  /** Once a pass has ended, its remaining events do nothing. */
  lemma EndedPass(st: State, key: string, w: Writes)
    requires ProgressOf(st, key) == Idle
    ensures ReleaseStep(st, key, w.release) == st && AssignStep(st, key, w.assign) == st
    ensures WriteLabelStep(st, key, w.service) == st && WriteStatusStep(st, key, w.status) == st
    ensures !Succeeds(st, WriteStatus(key, w.status), key)
  {
  }
}
