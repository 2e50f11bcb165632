/**
  What a reconcile achieves: from every reachable store, crashes included, a successful reconcile
  leaves the service settled at the one address recorded for it, and the next reconcile asks for
  nothing exactly when the service asks for something the pool can give.
 */
module Recovery {
  import opened Basics
  import opened Net
  import opened Ranges
  import opened Owners
  import opened Ipam
  import opened Store

  // ---------------------------------------------------------------- which pool is meant

  /** The address a service wishes for: its annotation goes before its specification. */
  function Wish(svc: Service): Text {
    match svc.ipAnnotation
    case Some(t) => t
    case None => svc.specIP
  }

  /** The status names no address. */
  predicate NoStatus(ingress: seq<Text>) {
    ingress == [] || ingress == [Empty]
  }

  /** The reconciler will use pool `name`: by annotation, or because it covers the wanted address. */
  predicate Resolves(pools: map<string, Pool>, svc: Service, name: string) {
    && name != ""
    && (svc.eipAnnotation == name || (svc.eipAnnotation == "" && Serves(pools, name, Wish(svc))))
  }

  /** The pool gives addresses and covers the wanted one; a text that is no address reads as 0. */
  predicate Serves(pools: map<string, Pool>, name: string, t: Text) {
    && name in pools && !pools[name].deleting && !pools[name].disabled && t != Empty
    && Covers(pools[name].block, if t.Spelled? then t.addr else Address(true, 0))
  }

  lemma CoverUnique(pools: map<string, Pool>, m: string, n: string, a: Address)
    requires PoolsOk(pools) && Admitted(pools) && m in pools && n in pools
    requires Covers(pools[m].block, a) && Covers(pools[n].block, a)
    ensures m == n
  {
  }

  /** Disjoint pools: the pool that covers an address is found whatever the list order. */
  lemma {:induction false} CoveringPoolFound(pools: map<string, Pool>, order: seq<string>, name: string, t: Text)
    requires PoolsOk(pools) && Admitted(pools)
    requires (forall n :: n in order ==> n in pools) && name in order && Covers(pools[name].block, ParseOrZero(t))
    ensures GetEIPBasedOnIP(pools, order, t) ==
      if !pools[name].deleting && !pools[name].disabled then Some(name) else None
  {
    if Covers(pools[order[0]].block, ParseOrZero(t)) {
      CoverUnique(pools, order[0], name, ParseOrZero(t));
    } else {
      CoveringPoolFound(pools, order[1..], name, t);
    }
  }

  lemma {:induction false} NoCoveringPool(pools: map<string, Pool>, order: seq<string>, t: Text)
    requires forall n :: n in order ==> n in pools && !Covers(pools[n].block, ParseOrZero(t))
    ensures GetEIPBasedOnIP(pools, order, t) == None
  {
    if order != [] { NoCoveringPool(pools, order[1..], t); }
  }

  /** The pool found for a requested address does not depend on the list order. */
  lemma ListOrderIrrelevant(pools: map<string, Pool>, x: seq<string>, y: seq<string>, t: Text)
    requires PoolsOk(pools) && Admitted(pools) && Lists(pools, x) && Lists(pools, y)
    ensures GetEIPBasedOnIP(pools, x, t) == GetEIPBasedOnIP(pools, y, t)
  {
    if name :| name in pools && Covers(pools[name].block, ParseOrZero(t)) {
      CoveringPoolFound(pools, x, name, t);
      CoveringPoolFound(pools, y, name, t);
    } else {
      NoCoveringPool(pools, x, t);
      NoCoveringPool(pools, y, t);
    }
  }

  // ---------------------------------------------------------------- tracking one reconcile

  /** `a` is recorded in `name` for `key`, and is the wanted address exactly when the pool has it. */
  ghost predicate Held(pools: map<string, Pool>, key: string, name: string, want: Text, a: Address) {
    && Recorded(pools, key, name, a)
    && (want.Spelled? ==> (want.addr == a <==> Within(pools[name].block, want.addr)))
  }

  ghost predicate Granted(pools: map<string, Pool>, key: string, name: string, want: Text, ingress: Option<seq<Text>>) {
    ingress.Some? && |ingress.value| == 1 && ingress.value[0].Spelled?
    && ingress.value == [Canon(ingress.value[0].addr)] && Held(pools, key, name, want, ingress.value[0].addr)
  }

  /** A reconcile of `key` under way works on the stored service and towards pool `name`. */
  ghost predicate OnCourse(
    pools: map<string, Pool>, svc: Service, key: string, name: string, want: Text, now: Progress)
  {
    && (!now.Idle? ==> now.svc == svc)
    && (now.Planned? ==> now.request.allocate == Some(Record(name, want)))
    && (now.Released? ==> now.allocate == Some(Record(name, want)))
    && (now.Writing? && !now.failed ==> now.poolLabel == Some(name) && Granted(pools, key, name, want, now.ingress))
    && (now.Labelled? && !now.failed ==> svc.poolLabel == Some(name) && Granted(pools, key, name, want, now.ingress))
  }

  /** The service has OpenELB give it an address. */
  predicate Managed(svc: Service) {
    svc.annotated && svc.openelb && svc.loadBalancer && !svc.deleting
  }

  /** `key` is a managed service meant for pool `name`, perhaps by name, and its reconcile is on course. */
  ghost predicate Tracked(st: State, key: string, name: string, want: Text, named: bool) {
    && key in st.services
    && var svc := st.services[key];
       && Managed(svc) && Wish(svc) == want && Resolves(st.pools, svc, name)
       && (named ==> svc.eipAnnotation == name)
       && OnCourse(st.pools, svc, key, name, want, ProgressOf(st, key))
  }

  /**
    The event does not edit the service, take away its pool or miss that the service exists. Disabling
    the pool is harmless to a service that names it (`named`).
   */
  predicate Quiet(e: Event, key: string, name: string, named: bool) {
    match e
    case PutService(k, _) => k != key
    case DropService(k) => k != key
    case DeletePool(n) => n != name
    case RemovePool(n) => n != name
    case EditPool(n, disabled, _) => n != name || !disabled || named
    case SyncPool(n, seen) => n != name || key in seen
    case _ => true
  }

  /** The event ends a reconcile of `key` without an error. */
  ghost predicate Succeeds(st: State, e: Event, key: string) {
    var now := ProgressOf(st, key);
    || (e.Plan? && e.key == key && now.Fetched? && Possible(st, key, e.look)
        && ConstructRequest(st.pools, now.svc, e.look) == Request(None, None))
    || (e.WriteStatus? && e.key == key && now.Labelled? && !now.failed
        && (SameStatus(now.svc, now.ingress) || (e.ok && Current(st, key, now.svc))))
  }

  /** `key` is recorded at `a` of pool `name` and nowhere else. */
  ghost predicate OnlyRecord(pools: map<string, Pool>, key: string, name: string, a: Address) {
    forall n, b :: Recorded(pools, key, n, b) <==> n == name && b == a
  }

  /** The service is recorded at one address of its pool, labelled, and its status says so. */
  ghost predicate SettledAt(st: State, key: string, name: string, want: Text, a: Address) {
    && key in st.services
    && Held(st.pools, key, name, want, a)
    && st.services[key].poolLabel.Some?
    && (st.services[key].ingress == [Canon(a)] || (want == Canon(a) && !NoStatus(st.services[key].ingress)))
  }

  ghost predicate Settled(st: State, key: string, name: string, want: Text) {
    exists a :: SettledAt(st, key, name, want, a)
  }

  // ---------------------------------------------------------------- foreign events

  /** Nothing that `key` and its pool rely on changes. */
  ghost predicate Undisturbed(st: State, after: State, key: string, name: string, named: bool) {
    && (key in st.services ==> key in after.services && after.services[key] == st.services[key])
    && (name in st.pools ==>
          && name in after.pools && after.pools[name].block == st.pools[name].block
          && (named || after.pools[name].deleting ==> named || st.pools[name].deleting)
          && (named || after.pools[name].disabled ==> named || st.pools[name].disabled))
    && (forall a :: Recorded(st.pools, key, name, a) ==> Recorded(after.pools, key, name, a))
  }

  lemma UndisturbedKeeps(st: State, after: State, key: string, name: string, want: Text, named: bool)
    requires Tracked(st, key, name, want, named) && Undisturbed(st, after, key, name, named)
    requires ProgressOf(after, key) == ProgressOf(st, key)
    ensures Tracked(after, key, name, want, named)
  {
  }

  /** Replacing a pool by one with its address that still lists `key` where it did disturbs nothing. */
  lemma PoolUndisturbed(st: State, after: State, key: string, name: string, named: bool, n: string, p: Pool)
    requires n in st.pools && after.pools == st.pools[n := p] && after.services == st.services
    requires p.block == st.pools[n].block && p.deleting == st.pools[n].deleting && p.disabled == st.pools[n].disabled
    requires forall a :: a in st.pools[n].used && key in st.pools[n].used[a] ==> a in p.used && key in p.used[a]
    ensures Undisturbed(st, after, key, name, named)
  {
  }

  lemma ReleaseUndisturbed(st: State, k: string, ok: bool, key: string, name: string, named: bool)
    requires PoolsOk(st.pools) && k != key
    ensures Undisturbed(st, ReleaseStep(st, k, ok), key, name, named)
  {
    var now := ProgressOf(st, k);
    if now.Planned? && now.request.release.Some? && now.request.release.value.eip in st.pools {
      var n := now.request.release.value.eip;
      var p := st.pools[n];
      if Release(p, k) != p && ok {
        assert PoolOk(p);
        ReleaseOwners(p.used, k);
        PoolUndisturbed(st, ReleaseStep(st, k, ok), key, name, named, n, Release(p, k));
      }
    }
  }

  lemma AssignUndisturbed(st: State, k: string, ok: bool, key: string, name: string, named: bool)
    requires k != key
    ensures Undisturbed(st, AssignStep(st, k, ok), key, name, named)
  {
  }

  lemma SyncUndisturbed(st: State, n: string, seen: set<string>, key: string, name: string, named: bool)
    requires PoolsOk(st.pools) && (n != name || key in seen)
    ensures Undisturbed(st, Step(st, SyncPool(n, seen)), key, name, named)
  {
    if n in st.pools && n == name {
      assert PoolOk(st.pools[n]);
      UpdateKeeps(st.pools[n], seen);
      PoolUndisturbed(st, Step(st, SyncPool(n, seen)), key, name, named, n, Update(st.pools[n], seen));
    }
  }

  /** The key a service event belongs to. */
  predicate OwnEvent(e: Event, key: string) {
    (e.Fetch? || e.Plan? || e.ReleaseIP? || e.AssignIP? || e.WriteLabel? || e.WriteStatus? || e.Crash?) && e.key == key
  }

  lemma PoolEventUndisturbed(st: State, e: Event, key: string, name: string, named: bool)
    requires Quiet(e, key, name, named) && (e.CreatePool? || e.EditPool? || e.DeletePool? || e.RemovePool?)
    ensures Undisturbed(st, Step(st, e), key, name, named)
  {
  }

  lemma ServiceEventUndisturbed(st: State, e: Event, key: string, name: string, named: bool)
    requires Quiet(e, key, name, named) && !OwnEvent(e, key)
    requires e.Fetch? || e.Plan? || e.WriteLabel? || e.WriteStatus? || e.Crash? || e.PutService? || e.DropService?
    ensures Undisturbed(st, Step(st, e), key, name, named)
  {
  }

  lemma ForeignProgress(st: State, e: Event, key: string)
    requires !OwnEvent(e, key)
    ensures ProgressOf(Step(st, e), key) == ProgressOf(st, key)
  {
  }

  lemma ForeignUndisturbed(st: State, e: Event, key: string, name: string, named: bool)
    requires PoolsOk(st.pools) && key in st.services && Quiet(e, key, name, named) && !OwnEvent(e, key)
    ensures Undisturbed(st, Step(st, e), key, name, named)
  {
    if e.ReleaseIP? {
      ReleaseUndisturbed(st, e.key, e.ok, key, name, named);
    } else if e.AssignIP? {
      AssignUndisturbed(st, e.key, e.ok, key, name, named);
    } else if e.SyncPool? {
      SyncUndisturbed(st, e.name, e.seen, key, name, named);
    } else if e.CreatePool? || e.EditPool? || e.DeletePool? || e.RemovePool? {
      PoolEventUndisturbed(st, e, key, name, named);
    } else {
      ServiceEventUndisturbed(st, e, key, name, named);
    }
  }

  lemma ForeignKeeps(st: State, e: Event, key: string, name: string, want: Text, named: bool)
    requires Inv(st) && Tracked(st, key, name, want, named) && Quiet(e, key, name, named) && !OwnEvent(e, key)
    ensures Tracked(Step(st, e), key, name, want, named)
  {
    ForeignUndisturbed(st, e, key, name, named);
    ForeignProgress(st, e, key);
    UndisturbedKeeps(st, Step(st, e), key, name, want, named);
  }

  // ---------------------------------------------------------------- own events

  /** The service is recorded in `name` where it wishes to be, labelled, and its status says so. */
  predicate Content(svc: Service, look: Lookup, name: string) {
    && svc.poolLabel.Some? && look.found.Some? && look.found.value.0 == name
    && var a := look.found.value.1;
       || (Wish(svc) == Canon(a) && !NoStatus(svc.ingress))
       || (Wish(svc) == Empty && svc.ingress == [Canon(a)])
  }

  /** What a request releases: the record found, or else a status without a record. */
  predicate ReleasesFound(svc: Service, look: Lookup, release: Option<Record>) {
    && (release.Some? <==> look.found.Some? || !NoStatus(svc.ingress))
    && (look.found.Some? ==> release == Some(Record(look.found.value.0, Canon(look.found.value.1))))
    && (look.found.None? && release.Some? ==> release.value.eip == "")
  }

  /**
    Planning for a managed service that resolves to `name`: nothing exactly if it is content, and
    otherwise the release of what is found and the wish addressed to `name`.
   */
  lemma PlanTarget(pools: map<string, Pool>, svc: Service, look: Lookup, name: string)
    requires PoolsOk(pools) && Admitted(pools) && Lists(pools, look.order)
    requires Managed(svc) && Resolves(pools, svc, name)
    ensures var r := ConstructRequest(pools, svc, look);
      if Content(svc, look, name) then r == Request(None, None)
      else r.allocate == Some(Record(name, Wish(svc))) && ReleasesFound(svc, look, r.release)
  {
    if svc.eipAnnotation == "" { CoveringPoolFound(pools, look.order, name, Wish(svc)); }
  }

  /**
    Planning for a managed service that names neither pool nor address: the pool chosen for its
    namespace is asked, and without one it only loses what it has.
   */
  lemma PlanByNamespace(pools: map<string, Pool>, svc: Service, look: Lookup)
    requires PoolsOk(pools) && Lists(pools, look.order) && Managed(svc) && svc.eipAnnotation == "" && Wish(svc) == Empty
    requires look.byNamespace.Some? ==> look.byNamespace.value in pools
    ensures var r := ConstructRequest(pools, svc, look);
      if look.byNamespace.None? then r.allocate.None? && ReleasesFound(svc, look, r.release)
      else if Content(svc, look, look.byNamespace.value) then r == Request(None, None)
      else r.allocate == Some(Record(look.byNamespace.value, Empty)) && ReleasesFound(svc, look, r.release)
  {
  }

  /** Planning for a managed service whose wanted address no usable pool covers: it loses what it has. */
  lemma PlanUncovered(pools: map<string, Pool>, svc: Service, look: Lookup)
    requires PoolsOk(pools) && Admitted(pools) && Lists(pools, look.order)
    requires Managed(svc) && svc.eipAnnotation == "" && Wish(svc) != Empty
    requires forall name :: !Serves(pools, name, Wish(svc))
    ensures var r := ConstructRequest(pools, svc, look); r.allocate.None? && ReleasesFound(svc, look, r.release)
  {
    if name :| name in pools && Covers(pools[name].block, ParseOrZero(Wish(svc))) {
      CoveringPoolFound(pools, look.order, name, Wish(svc));
      assert !Serves(pools, name, Wish(svc));
    } else {
      NoCoveringPool(pools, look.order, Wish(svc));
    }
  }

  /** Asking for nothing means the service is settled. */
  lemma PlanSettles(st: State, key: string, look: Lookup, name: string, want: Text, named: bool)
    requires Inv(st) && Tracked(st, key, name, want, named) && Succeeds(st, Plan(key, look), key)
    ensures Settled(PlanStep(st, key, look), key, name, want)
  {
    PlanTarget(st.pools, st.services[key], look, name);
    assert look.found.Some? && look.found.value.0 == name;
    var a := look.found.value.1;
    assert PoolOk(st.pools[name]) && Within(st.pools[name].block, a);
    assert SettledAt(PlanStep(st, key, look), key, name, want, a);
  }

  lemma PlanStaysOnCourse(st: State, key: string, look: Lookup, name: string, want: Text, named: bool)
    requires Inv(st) && Tracked(st, key, name, want, named)
    ensures Tracked(PlanStep(st, key, look), key, name, want, named)
  {
    if Possible(st, key, look) { PlanTarget(st.pools, st.services[key], look, name); }
  }

  lemma ReleaseOnCourse(st: State, key: string, ok: bool, name: string, want: Text, named: bool)
    requires Tracked(st, key, name, want, named)
    ensures Tracked(ReleaseStep(st, key, ok), key, name, want, named)
  {
  }

  lemma WritesOnCourse(st: State, key: string, ok: bool, name: string, want: Text, named: bool)
    requires Tracked(st, key, name, want, named)
    ensures Tracked(WriteLabelStep(st, key, ok), key, name, want, named)
    ensures Tracked(WriteStatusStep(st, key, ok), key, name, want, named)
  {
  }

  /** The address chosen for `key` is held: recorded, and the wanted one exactly when the pool has it. */
  lemma ChoiceHeld(pools: map<string, Pool>, key: string, name: string, want: Text)
    requires PoolsOk(pools) && name in pools && Choice(pools[name], key, want).Some?
    ensures Held(pools[name := Assign(pools[name], key, want)], key, name, want, Choice(pools[name], key, want).value)
  {
    var p := pools[name];
    assert PoolOk(p);
    AssignedRecords(pools, key, name, want);
    ChoiceWithin(p, key, want);
    if want.Spelled? { RequestedChoice(p, key, want); }
  }

  lemma AssignOnCourse(st: State, key: string, ok: bool, name: string, want: Text, named: bool)
    requires PoolsOk(st.pools) && Tracked(st, key, name, want, named)
    ensures Tracked(AssignStep(st, key, ok), key, name, want, named)
  {
    if name in st.pools && Choice(st.pools[name], key, want).Some? { ChoiceHeld(st.pools, key, name, want); }
  }

  /** A status write that ends the reconcile well leaves the service settled. */
  lemma StatusSettles(st: State, key: string, ok: bool, name: string, want: Text, named: bool)
    requires Tracked(st, key, name, want, named) && Succeeds(st, WriteStatus(key, ok), key)
    ensures Settled(WriteStatusStep(st, key, ok), key, name, want)
  {
    assert SettledAt(WriteStatusStep(st, key, ok), key, name, want, ProgressOf(st, key).ingress.value[0].addr);
  }

  /** One quiet event keeps the reconcile on course; if it ends it well, the service is settled. */
  lemma TrackStep(st: State, e: Event, key: string, name: string, want: Text, named: bool)
    requires Inv(st) && Tracked(st, key, name, want, named) && Quiet(e, key, name, named)
    ensures Tracked(Step(st, e), key, name, want, named)
    ensures Succeeds(st, e, key) ==> Settled(Step(st, e), key, name, want)
  {
    if !OwnEvent(e, key) {
      ForeignKeeps(st, e, key, name, want, named);
    } else {
      match e
      case Fetch(_) =>
      case Plan(_, look) =>
        PlanStaysOnCourse(st, key, look, name, want, named);
        if Succeeds(st, e, key) { PlanSettles(st, key, look, name, want, named); }
      case ReleaseIP(_, ok) => ReleaseOnCourse(st, key, ok, name, want, named);
      case AssignIP(_, ok) => AssignOnCourse(st, key, ok, name, want, named);
      case WriteLabel(_, ok) => WritesOnCourse(st, key, ok, name, want, named);
      case WriteStatus(_, ok) =>
        WritesOnCourse(st, key, ok, name, want, named);
        if Succeeds(st, e, key) { StatusSettles(st, key, ok, name, want, named); }
      case Crash(_) =>
    }
  }

  lemma {:induction false} TrackRun(st: State, events: seq<Event>, key: string, name: string, want: Text, named: bool)
    requires Inv(st) && Tracked(st, key, name, want, named)
    requires forall e :: e in events ==> Quiet(e, key, name, named)
    ensures Inv(Run(st, events)) && Tracked(Run(st, events), key, name, want, named)
    decreases |events|
  {
    if events != [] {
      StepKeeps(st, events[0]);
      TrackStep(st, events[0], key, name, want, named);
      TrackRun(Step(st, events[0]), events[1..], key, name, want, named);
    }
  }

  // ---------------------------------------------------------------- main results

  /** No reconcile of `key` is under way, and it is a managed service that resolves to pool `name`. */
  ghost predicate Waiting(st: State, key: string, name: string) {
    && key in st.services && ProgressOf(st, key) == Idle
    && var svc := st.services[key];
       svc.annotated && svc.openelb && svc.loadBalancer && !svc.deleting && Resolves(st.pools, svc, name)
  }

  /** Quiet events, the last of which ends a reconcile of `key` that was waiting in `st` with success. */
  ghost predicate QuietSuccess(st: State, events: seq<Event>, last: Event, key: string, name: string) {
    && Waiting(st, key, name)
    && (forall e :: e in events + [last] ==> Quiet(e, key, name, st.services[key].eipAnnotation == name))
    && Succeeds(Run(st, events), last, key)
  }

  /** The state before the last event of a quiet success is on course, the one after it settled. */
  lemma QuietSuccessSettles(st: State, events: seq<Event>, last: Event, key: string, name: string)
    requires Inv(st) && QuietSuccess(st, events, last, key, name)
    ensures var want, named := Wish(st.services[key]), st.services[key].eipAnnotation == name;
      var end := Step(Run(st, events), last);
      Inv(end) && Tracked(end, key, name, want, named) && Settled(end, key, name, want)
  {
    var want, named := Wish(st.services[key]), st.services[key].eipAnnotation == name;
    assert forall e :: e in events ==> e in events + [last];
    assert last in events + [last];
    TrackRun(st, events, key, name, want, named);
    TrackStep(Run(st, events), last, key, name, want, named);
    StepKeeps(Run(st, events), last);
  }

  /**
    Recovery. Take any reachable store in which no reconcile of `key` is under way, for example one
    left by a crash, and a managed service that resolves to pool `name`. However its reconcile
    interleaves with other services, the pool controller and other pools, once it succeeds the
    service is settled; if it asks for no address its status is the one address recorded for it.
   */
  lemma ReconcileRecovers(history: seq<Event>, events: seq<Event>, last: Event, key: string, name: string)
    requires QuietSuccess(Run(INITIAL, history), events, last, key, name)
    ensures var want := Wish(Run(INITIAL, history).services[key]);
      var end := Step(Run(Run(INITIAL, history), events), last);
      && Settled(end, key, name, want)
      && (want == Empty ==> exists a :: end.services[key].ingress == [Canon(a)] && OnlyRecord(end.pools, key, name, a))
  {
    var st := Run(INITIAL, history);
    var end := Step(Run(st, events), last);
    ReachableInv(history);
    QuietSuccessSettles(st, events, last, key, name);
    var a :| SettledAt(end, key, name, Wish(st.services[key]), a);
    assert OnlyRecord(end.pools, key, name, a);
  }

  /** What a caller can check: no address wanted, or a canonical one of the pool's own. */
  predicate Satisfiable(pools: map<string, Pool>, name: string, want: Text)
    requires name in pools
  {
    want == Empty || (want.Spelled? && want == Canon(want.addr) && Within(pools[name].block, want.addr))
  }

  /** The next reconcile would ask for nothing. */
  predicate AsksNothing(st: State, key: string, look: Lookup)
    requires key in st.services && Lists(st.pools, look.order)
  {
    ConstructRequest(st.pools, st.services[key], look) == Request(None, None)
  }

  /**
    Fixpoint. For a settled service the next reconcile asks for nothing if and only if the service
    wants no address or a canonical one that the pool contains.
   */
  lemma NextPlanEmptyIff(st: State, key: string, look: Lookup, name: string, want: Text, named: bool)
    requires Inv(st) && Tracked(st, key, name, want, named) && Settled(st, key, name, want)
    requires Possible(st, key, look)
    ensures name in st.pools && (AsksNothing(st, key, look) <==> Satisfiable(st.pools, name, want))
  {
    PlanTarget(st.pools, st.services[key], look, name);
    var a :| SettledAt(st, key, name, want, a);
    assert look.found == Some((name, a));
  }

  /**
    The two together: after a reconcile that succeeded in any quiet interleaving, the next one asks
    for nothing exactly when the request was satisfiable.
   */
  lemma ReconcileIsFixpointIff(
    history: seq<Event>, events: seq<Event>, last: Event, key: string, name: string, look: Lookup)
    requires QuietSuccess(Run(INITIAL, history), events, last, key, name)
    requires Possible(Step(Run(Run(INITIAL, history), events), last), key, look)
    ensures var want := Wish(Run(INITIAL, history).services[key]);
      var end := Step(Run(Run(INITIAL, history), events), last);
      && key in end.services && name in end.pools
      && (AsksNothing(end, key, look) <==> Satisfiable(end.pools, name, want))
  {
    var st := Run(INITIAL, history);
    ReachableInv(history);
    QuietSuccessSettles(st, events, last, key, name);
    NextPlanEmptyIff(Step(Run(st, events), last), key, look, name, Wish(st.services[key]),
                     st.services[key].eipAnnotation == name);
  }
}
