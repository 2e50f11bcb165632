/**
  The cluster as one state machine: several pools, several services, one reconcile in progress per
  service key (pkg/controllers/lb/controller.go over pkg/controllers/ipam/ipam.go), the pool
  controller (pkg/controllers/ipam/controller.go) and admission (api/v1alpha2/eip_types.go).

  Every store write is one event and may fail; events of different services, the pool controller,
  users and crashes interleave freely. A write of a service fails when the object has changed since
  it was read, which `version` models. `seen` is what one pass of the pool controller found of the
  services, at whatever moments it looked.
 */
module Store {
  import opened Basics
  import opened Net
  import opened Ranges
  import opened Owners
  import opened Ipam

  /** What the reconciler reads and writes of a service; `poolLabel` and `ingress` are its results. */
  datatype Service = Service(
    annotated: bool, openelb: bool, loadBalancer: bool, deleting: bool,
    eipAnnotation: string, ipAnnotation: Option<Text>, specIP: Text, wantsV4: bool, wantsV6: bool,
    poolLabel: Option<string>, ingress: seq<Text>, version: nat)

  datatype Record = Record(eip: string, ip: Text)

  datatype Request = Request(release: Option<Record>, allocate: Option<Record>)

  /**
    How far the reconcile of one key has come, and the service it read. `ingress` is the status to
    write, `None` while it is still the one that was read.
   */
  datatype Progress =
    | Idle
    | Fetched(svc: Service)
    | Planned(svc: Service, request: Request)
    | Released(svc: Service, allocate: Option<Record>, poolLabel: Option<string>, ingress: Option<seq<Text>>)
    | Writing(svc: Service, poolLabel: Option<string>, ingress: Option<seq<Text>>, failed: bool)
    | Labelled(svc: Service, ingress: Option<seq<Text>>, failed: bool)

  datatype State = State(
    pools: map<string, Pool>, services: map<string, Service>, progress: map<string, Progress>, clock: nat)

  /** What list order, map order and namespace matching leave open in one reconcile. */
  datatype Lookup = Lookup(found: Option<(string, Address)>, order: seq<string>, byNamespace: Option<string>)

  datatype Event =
    | Fetch(key: string)
    | Plan(key: string, look: Lookup)
    | ReleaseIP(key: string, ok: bool)
    | AssignIP(key: string, ok: bool)
    | WriteLabel(key: string, ok: bool)
    | WriteStatus(key: string, ok: bool)
    | Crash(key: string)
    | SyncPool(name: string, seen: set<string>)
    | CreatePool(name: string, block: Block, isDefault: bool)
    | EditPool(name: string, disabled: bool, isDefault: bool)
    | DeletePool(name: string)
    | RemovePool(name: string)
    | PutService(key: string, svc: Service)
    | DropService(key: string)

  // ---------------------------------------------------------------- planning

  /** `key` owns address `a` of the pool `name`, which is not being deleted. */
  predicate Recorded(pools: map<string, Pool>, key: string, name: string, a: Address) {
    name in pools && !pools[name].deleting && a in pools[name].used && key in pools[name].used[a]
  }

  /** What `getAllocatedEIPInfo` may return: any record of `key`, or nothing when there is none. */
  ghost predicate Finds(pools: map<string, Pool>, key: string, found: Option<(string, Address)>) {
    match found
    case Some(r) => Recorded(pools, key, r.0, r.1)
    case None => forall name, a :: !Recorded(pools, key, name, a)
  }

  /** `order` lists every pool. */
  predicate Lists(pools: map<string, Pool>, order: seq<string>) {
    (forall name :: name in pools ==> name in order) && (forall name :: name in order ==> name in pools)
  }

  ghost predicate Possible(st: State, key: string, look: Lookup) {
    && Finds(st.pools, key, look.found)
    && Lists(st.pools, look.order)
    && (look.byNamespace.Some? ==> look.byNamespace.value in st.pools && Usable(st.pools[look.byNamespace.value]))
  }

  predicate Usable(p: Pool) {
    !p.deleting && !p.disabled
  }

  /** The status texts joined with ";": several texts are never the text of one address. */
  function Joined(ingress: seq<Text>): Text {
    if ingress == [] then Empty else if |ingress| == 1 then ingress[0] else Garbage("several addresses")
  }

  function WantedIP(svc: Service): Text {
    if svc.ipAnnotation.Some? then svc.ipAnnotation.value else svc.specIP
  }

  predicate NeedRelease(svc: Service) {
    !svc.annotated || svc.deleting || !svc.loadBalancer || !svc.openelb
  }

  /** The value an unparsable text reads as is 0. */
  function ParseOrZero(t: Text): Address {
    if t.Spelled? then t.addr else Address(true, 0)
  }

  /** `getEIPBasedOnIP`: the first listed pool that covers the address decides. */
  function GetEIPBasedOnIP(pools: map<string, Pool>, order: seq<string>, t: Text): Option<string>
    requires forall name :: name in order ==> name in pools
  {
    if order == [] then None
    else if Covers(pools[order[0]].block, ParseOrZero(t)) then
      if Usable(pools[order[0]]) then Some(order[0]) else None
    else GetEIPBasedOnIP(pools, order[1..], t)
  }

  function GetEIP(pools: map<string, Pool>, look: Lookup, t: Text): Option<string>
    requires Lists(pools, look.order)
  {
    if t != Empty then GetEIPBasedOnIP(pools, look.order, t) else look.byNamespace
  }

  function ConstructRelease(eip: string, ip: Text, status: Text): Option<Record> {
    if eip == "" && ip == Empty then
      if status == Empty then None else Some(Record("", status))
    else Some(Record(eip, ip))
  }

  predicate NeedUpdate(specEip: string, specIP: Text, status: Text, allocatedEip: string, allocatedIP: Text) {
    if specEip == "" && specIP == Empty && status == allocatedIP then false
    else if specEip == allocatedEip && specIP == allocatedIP && status != Empty then false
    else if specEip == allocatedEip && specIP == Empty && status == allocatedIP then false
    else true
  }

  function ConstructRequest(pools: map<string, Pool>, svc: Service, look: Lookup): Request
    requires Lists(pools, look.order)
  {
    if !svc.annotated then Request(None, None)
    else
      var allocatedEip := if look.found.Some? then look.found.value.0 else "";
      var allocatedIP := if look.found.Some? then Canon(look.found.value.1) else Empty;
      var status := Joined(svc.ingress);
      var release := ConstructRelease(allocatedEip, allocatedIP, status);
      if NeedRelease(svc) then Request(release, None)
      else
        var specIP := WantedIP(svc);
        var target := if svc.eipAnnotation != "" then Some(svc.eipAnnotation) else GetEIP(pools, look, specIP);
        if target.None? then Request(release, None)
        else if !NeedUpdate(target.value, specIP, status, allocatedEip, allocatedIP) && svc.poolLabel.Some?
        then Request(None, None)
        else Request(release, Some(Record(target.value, specIP)))
  }

  // ---------------------------------------------------------------- steps

  function ProgressOf(st: State, key: string): Progress {
    if key in st.progress then st.progress[key] else Idle
  }

  function Move(st: State, key: string, p: Progress): State {
    st.(progress := st.progress[key := p])
  }

  function SetPool(st: State, name: string, p: Pool): State {
    st.(pools := st.pools[name := p])
  }

  /** Reads the service; there is nothing to do for a missing one. */
  function FetchStep(st: State, key: string): State {
    if ProgressOf(st, key) != Idle || key !in st.services || !IsKey(key) then st
    else Move(st, key, Fetched(st.services[key]))
  }

  /** Reads the pools and plans; the service may have changed since it was read. */
  ghost function PlanStep(st: State, key: string, look: Lookup): State {
    var now := ProgressOf(st, key);
    if !now.Fetched? || !Possible(st, key, look) then st
    else
      var request := ConstructRequest(st.pools, now.svc, look);
      Move(st, key, if request == Request(None, None) then Idle else Planned(now.svc, request))
  }

  function ReleaseStep(st: State, key: string, ok: bool): State {
    var now := ProgressOf(st, key);
    if !now.Planned? then st
    else
      var svc, request := now.svc, now.request;
      if request.release.None? then Move(st, key, Released(svc, request.allocate, svc.poolLabel, None))
      else
        var name, next := request.release.value.eip, Released(svc, request.allocate, None, Some([]));
        if name !in st.pools || Release(st.pools[name], key) == st.pools[name] then Move(st, key, next)
        else if !ok then Move(st, key, Idle)
        else Move(SetPool(st, name, Release(st.pools[name], key)), key, next)
  }

  predicate SameFamily(svc: Service, block: Block) {
    if block.v6 then svc.wantsV6 else svc.wantsV4
  }

  function AssignStep(st: State, key: string, ok: bool): State {
    var now := ProgressOf(st, key);
    if !now.Released? then st
    else if now.allocate.None? then Move(st, key, Writing(now.svc, now.poolLabel, now.ingress, false))
    else
      var name, want := now.allocate.value.eip, now.allocate.value.ip;
      var failed := Move(st, key, Writing(now.svc, now.poolLabel, now.ingress, true));
      if name !in st.pools || !SameFamily(now.svc, st.pools[name].block) then failed
      else
        var choice, pool := Choice(st.pools[name], key, want), Assign(st.pools[name], key, want);
        if choice.None? || (pool != st.pools[name] && !ok) then failed
        else Move(SetPool(st, name, pool), key, Writing(now.svc, Some(name), Some([Canon(choice.value)]), false))
  }

  /** The stored service is still the one that was read. */
  predicate Current(st: State, key: string, svc: Service) {
    key in st.services && st.services[key].version == svc.version
  }

  /**
    `reflect.DeepEqual` of the two statuses. A service without addresses is read with a nil list, which
    an empty list made here does not equal.
   */
  predicate SameStatus(svc: Service, ingress: Option<seq<Text>>) {
    ingress.None? || (ingress.value == svc.ingress && ingress.value != [])
  }

  function WriteLabelStep(st: State, key: string, ok: bool): State {
    var now := ProgressOf(st, key);
    if !now.Writing? then st
    else if now.svc.poolLabel == now.poolLabel then Move(st, key, Labelled(now.svc, now.ingress, now.failed))
    else if !ok || !Current(st, key, now.svc) then Move(st, key, Idle)
    else
      var stored := st.services[key].(poolLabel := now.poolLabel, version := st.clock + 1);
      var read := now.svc.(poolLabel := now.poolLabel, version := st.clock + 1);
      var written := st.(services := st.services[key := stored], clock := st.clock + 1);
      Move(written, key, Labelled(read, now.ingress, now.failed))
  }

  function WriteStatusStep(st: State, key: string, ok: bool): State {
    var now := ProgressOf(st, key);
    if !now.Labelled? then st
    else if SameStatus(now.svc, now.ingress) || !ok || !Current(st, key, now.svc) then Move(st, key, Idle)
    else
      var stored := st.services[key].(ingress := now.ingress.value, version := st.clock + 1);
      Move(st.(services := st.services[key := stored], clock := st.clock + 1), key, Idle)
  }

  /** `validateOverlap` and `validateDefault` against the listed pools other than `name`. */
  predicate NoOverlap(pools: map<string, Pool>, name: string, block: Block) {
    forall n :: n in pools && n != name ==> !Overlaps(block, pools[n].block)
  }

  predicate NoOtherDefault(pools: map<string, Pool>, name: string) {
    forall n :: n in pools && n != name ==> !pools[n].isDefault
  }

  ghost function Step(st: State, e: Event): State {
    match e
    case Fetch(key) => FetchStep(st, key)
    case Plan(key, look) => PlanStep(st, key, look)
    case ReleaseIP(key, ok) => ReleaseStep(st, key, ok)
    case AssignIP(key, ok) => AssignStep(st, key, ok)
    case WriteLabel(key, ok) => WriteLabelStep(st, key, ok)
    case WriteStatus(key, ok) => WriteStatusStep(st, key, ok)
    case Crash(key) => Move(st, key, Idle)
    case SyncPool(name, seen) =>
      if name !in st.pools then st else SetPool(st, name, Update(st.pools[name], seen))
    case CreatePool(name, block, isDefault) =>
      if name == "" || name in st.pools || !Formed(block) || !NoOverlap(st.pools, name, block)
         || (isDefault && !NoOtherDefault(st.pools, name)) then st
      else SetPool(st, name, Pool(block, false, false, isDefault, false, 0, map[], 0, false))
    case EditPool(name, disabled, isDefault) =>
      if name !in st.pools || (isDefault && !st.pools[name].isDefault && !NoOtherDefault(st.pools, name)) then st
      else SetPool(st, name, st.pools[name].(disabled := disabled, isDefault := isDefault))
    case DeletePool(name) =>
      if name !in st.pools then st else SetPool(st, name, st.pools[name].(deleting := true))
    case RemovePool(name) =>
      if name !in st.pools || !st.pools[name].deleting then st else st.(pools := st.pools - {name})
    case PutService(key, svc) =>
      if !IsKey(key) then st
      else st.(services := st.services[key := svc.(version := st.clock + 1)], clock := st.clock + 1)
    case DropService(key) => st.(services := st.services - {key})
  }

  ghost function Run(st: State, events: seq<Event>): State
    decreases |events|
  {
    if events == [] then st else Run(Step(st, events[0]), events[1..])
  }

  const INITIAL: State := State(map[], map[], map[], 0)

  // ---------------------------------------------------------------- the invariant

  /** Every service owns at most one address in all pools that are not being deleted. */
  ghost predicate AtMostOnce(pools: map<string, Pool>) {
    forall key, m, n, a, b :: Recorded(pools, key, m, a) && Recorded(pools, key, n, b) ==> m == n && a == b
  }

  ghost predicate PoolsOk(pools: map<string, Pool>) {
    forall name :: name in pools ==> name != "" && PoolOk(pools[name])
  }

  /** No two pools overlap as `IsOverlap` sees them, and at most one is the default. */
  ghost predicate Admitted(pools: map<string, Pool>) {
    && (forall m, n :: m in pools && n in pools && m != n ==> !Overlaps(pools[m].block, pools[n].block))
    && (forall m, n :: m in pools && n in pools && pools[m].isDefault && pools[n].isDefault ==> m == n)
  }

  /** What a reconcile in progress still has to release. */
  ghost predicate ProgressOk(pools: map<string, Pool>, key: string, now: Progress) {
    && (!now.Idle? ==> IsKey(key))
    && (now.Planned? ==> forall name, a :: Recorded(pools, key, name, a) ==>
          now.request.release.Some? && now.request.release.value.eip == name)
    && (now.Released? ==> forall name, a :: !Recorded(pools, key, name, a))
  }

  ghost predicate Inv(st: State) {
    && PoolsOk(st.pools) && Admitted(st.pools) && AtMostOnce(st.pools)
    && (forall key :: ProgressOk(st.pools, key, ProgressOf(st, key)))
  }

  // ---------------------------------------------------------------- preservation

  /** No record appears. */
  ghost predicate Shrinks(before: map<string, Pool>, after: map<string, Pool>) {
    forall key, name, a :: Recorded(after, key, name, a) ==> Recorded(before, key, name, a)
  }

  /** The pool keeps its address and its default mark. */
  ghost predicate SameSpec(p: Pool, q: Pool) {
    p.block == q.block && p.isDefault == q.isDefault
  }

  lemma ShrinkKeeps(st: State, after: State)
    requires Inv(st) && Shrinks(st.pools, after.pools) && PoolsOk(after.pools) && Admitted(after.pools)
    requires forall key :: ProgressOf(after, key) == ProgressOf(st, key)
    ensures Inv(after)
  {
  }

  /** Replacing one pool by one with the same address and no new owners adds no record. */
  lemma PoolShrinks(pools: map<string, Pool>, name: string, p: Pool)
    requires name in pools && (pools[name].deleting ==> p.deleting)
    requires forall a, k :: a in p.used && k in p.used[a] ==> a in pools[name].used && k in pools[name].used[a]
    ensures Shrinks(pools, pools[name := p])
  {
    forall key, n, a | Recorded(pools[name := p], key, n, a) ensures Recorded(pools, key, n, a) {
      if n == name { assert a in p.used && key in p.used[a]; }
    }
  }

  /** And it keeps the invariant. */
  lemma PoolShrinkKeeps(st: State, name: string, p: Pool)
    requires Inv(st) && name in st.pools && PoolOk(p) && SameSpec(p, st.pools[name])
    requires st.pools[name].deleting ==> p.deleting
    requires forall a, k :: a in p.used && k in p.used[a] ==> a in st.pools[name].used && k in st.pools[name].used[a]
    ensures Inv(SetPool(st, name, p))
  {
    PoolShrinks(st.pools, name, p);
    ShrinkKeeps(st, SetPool(st, name, p));
  }

  /** Moving one reconcile on keeps the invariant when its own condition holds. */
  lemma MoveKeeps(st: State, key: string, p: Progress)
    requires Inv(st) && ProgressOk(st.pools, key, p)
    ensures Inv(Move(st, key, p))
  {
    var after := Move(st, key, p);
    forall k ensures ProgressOk(after.pools, k, ProgressOf(after, k)) {
      assert ProgressOk(st.pools, k, ProgressOf(st, k));
    }
  }

  /** Planning plans to release every record of the service. */
  lemma PlanKeeps(st: State, key: string, look: Lookup)
    requires Inv(st)
    ensures Inv(PlanStep(st, key, look))
  {
    var now := ProgressOf(st, key);
    assert ProgressOk(st.pools, key, now);
    if now.Fetched? && Possible(st, key, look) {
      var request := ConstructRequest(st.pools, now.svc, look);
      if request == Request(None, None) {
        MoveKeeps(st, key, Idle);
      } else {
        forall name, a | Recorded(st.pools, key, name, a)
          ensures request.release.Some? && request.release.value.eip == name
        {
          assert look.found.Some?;
        }
        MoveKeeps(st, key, Planned(now.svc, request));
      }
    }
  }

  /** The pool part of a release: the invariant holds and `key` is recorded nowhere. */
  lemma ReleasedPoolKeeps(st: State, key: string, name: string)
    requires Inv(st) && name in st.pools && forall n, a :: Recorded(st.pools, key, n, a) ==> n == name
    ensures var after := SetPool(st, name, Release(st.pools[name], key));
            Inv(after) && forall n, a :: !Recorded(after.pools, key, n, a)
  {
    var p := st.pools[name];
    ReleaseKeeps(p, key);
    ReleaseOwners(p.used, key);
    PoolShrinks(st.pools, name, Release(p, key));
    PoolShrinkKeeps(st, name, Release(p, key));
  }

  lemma ReleaseStepKeeps(st: State, key: string, ok: bool)
    requires Inv(st)
    ensures Inv(ReleaseStep(st, key, ok))
  {
    var now := ProgressOf(st, key);
    assert ProgressOk(st.pools, key, now);
    if now.Planned? {
      var svc, request := now.svc, now.request;
      MoveKeeps(st, key, Idle);
      if request.release.None? {
        MoveKeeps(st, key, Released(svc, request.allocate, svc.poolLabel, None));
      } else {
        var name, next := request.release.value.eip, Released(svc, request.allocate, None, Some([]));
        if name !in st.pools {
          MoveKeeps(st, key, next);
        } else {
          var released := SetPool(st, name, Release(st.pools[name], key));
          ReleasedPoolKeeps(st, key, name);
          MoveKeeps(released, key, next);
          if Release(st.pools[name], key) == st.pools[name] { assert released.pools == st.pools; }
        }
      }
    }
  }

  /** An assignment records `key` at the chosen address and changes no other record. */
  lemma AssignedRecords(pools: map<string, Pool>, key: string, name: string, want: Text)
    requires name in pools && Choice(pools[name], key, want).Some?
    ensures var after, c := pools[name := Assign(pools[name], key, want)], Choice(pools[name], key, want).value;
            forall k, n, a ::
              Recorded(after, k, n, a) <==> Recorded(pools, k, n, a) || (k == key && n == name && a == c)
  {
  }

  lemma AssignedOnce(pools: map<string, Pool>, key: string, name: string, want: Text)
    requires name in pools && Choice(pools[name], key, want).Some?
    requires AtMostOnce(pools) && forall n, a :: !Recorded(pools, key, n, a)
    ensures AtMostOnce(pools[name := Assign(pools[name], key, want)])
  {
    AssignedRecords(pools, key, name, want);
  }

  lemma AssignedPools(pools: map<string, Pool>, key: string, name: string, want: Text)
    requires name in pools && Choice(pools[name], key, want).Some? && IsKey(key)
    requires PoolsOk(pools) && Admitted(pools) && forall n, a :: !Recorded(pools, key, n, a)
    ensures var after := pools[name := Assign(pools[name], key, want)]; PoolsOk(after) && Admitted(after)
  {
    var p := pools[name];
    forall a | a in p.used ensures key !in p.used[a] {
      assert !Recorded(pools, key, name, a);
    }
    AssignKeeps(p, key, want);
    assert SameSpec(p, Assign(p, key, want));
  }

  lemma AssignStepKeeps(st: State, key: string, ok: bool)
    requires Inv(st)
    ensures Inv(AssignStep(st, key, ok))
  {
    var now := ProgressOf(st, key);
    assert ProgressOk(st.pools, key, now);
    if now.Released? {
      MoveKeeps(st, key, Writing(now.svc, now.poolLabel, now.ingress, now.allocate.Some?));
      if now.allocate.Some? && now.allocate.value.eip in st.pools {
        var name, want := now.allocate.value.eip, now.allocate.value.ip;
        if Choice(st.pools[name], key, want).Some? {
          AssignedPools(st.pools, key, name, want);
          AssignedOnce(st.pools, key, name, want);
          AssignedRecords(st.pools, key, name, want);
          var granted := SetPool(st, name, Assign(st.pools[name], key, want));
          var ingress := Some([Canon(Choice(st.pools[name], key, want).value)]);
          var after := Move(granted, key, Writing(now.svc, Some(name), ingress, false));
          forall k ensures ProgressOk(after.pools, k, ProgressOf(after, k)) {
            assert ProgressOk(st.pools, k, ProgressOf(st, k));
          }
        }
      }
    }
  }

  /** Label and status writes, users and crashes touch no pool. */
  lemma ServiceStepKeeps(st: State, after: State, key: string)
    requires Inv(st) && after.pools == st.pools
    requires forall k :: k != key ==> ProgressOf(after, k) == ProgressOf(st, k)
    requires var now := ProgressOf(after, key);
             now == ProgressOf(st, key) || now.Idle? || (now.Labelled? && ProgressOf(st, key).Writing?)
    ensures Inv(after)
  {
  }

  /** The pool controller's write and the start of a deletion. */
  lemma PoolControllerKeeps(st: State, name: string, seen: set<string>)
    requires Inv(st) && name in st.pools
    ensures Inv(SetPool(st, name, Update(st.pools[name], seen)))
    ensures Inv(SetPool(st, name, st.pools[name].(deleting := true)))
  {
    UpdateKeeps(st.pools[name], seen);
    PoolShrinkKeeps(st, name, Update(st.pools[name], seen));
    PoolShrinkKeeps(st, name, st.pools[name].(deleting := true));
  }

  /** A pool that passes `validateOverlap` and `validateDefault` may be added or replaced. */
  lemma AdmitKeeps(pools: map<string, Pool>, name: string, p: Pool)
    requires PoolsOk(pools) && Admitted(pools) && name != "" && PoolOk(p) && NoOverlap(pools, name, p.block)
    requires p.isDefault ==> NoOtherDefault(pools, name)
    ensures PoolsOk(pools[name := p]) && Admitted(pools[name := p])
  {
  }

  lemma CreateKeeps(st: State, name: string, block: Block, isDefault: bool)
    requires Inv(st)
    ensures Inv(Step(st, CreatePool(name, block, isDefault)))
  {
    var after := Step(st, CreatePool(name, block, isDefault));
    if after != st {
      AdmitKeeps(st.pools, name, after.pools[name]);
      forall key, n, a | Recorded(after.pools, key, n, a) ensures Recorded(st.pools, key, n, a) {}
      ShrinkKeeps(st, after);
    }
  }

  lemma EditKeeps(st: State, name: string, disabled: bool, isDefault: bool)
    requires Inv(st)
    ensures Inv(Step(st, EditPool(name, disabled, isDefault)))
  {
    var after := Step(st, EditPool(name, disabled, isDefault));
    if after != st {
      assert PoolOk(st.pools[name]);
      AdmitKeeps(st.pools, name, after.pools[name]);
      forall key, n, a | Recorded(after.pools, key, n, a) ensures Recorded(st.pools, key, n, a) {}
      ShrinkKeeps(st, after);
    }
  }

  lemma RemoveKeeps(st: State, name: string)
    requires Inv(st)
    ensures Inv(Step(st, RemovePool(name)))
  {
    var after := Step(st, RemovePool(name));
    if after != st {
      forall key, n, a | Recorded(after.pools, key, n, a) ensures Recorded(st.pools, key, n, a) {}
      ShrinkKeeps(st, after);
    }
  }

  lemma WriteLabelKeeps(st: State, key: string, ok: bool)
    requires Inv(st)
    ensures Inv(WriteLabelStep(st, key, ok))
  {
    ServiceStepKeeps(st, WriteLabelStep(st, key, ok), key);
  }

  lemma WriteStatusKeeps(st: State, key: string, ok: bool)
    requires Inv(st)
    ensures Inv(WriteStatusStep(st, key, ok))
  {
    ServiceStepKeeps(st, WriteStatusStep(st, key, ok), key);
  }

  lemma PutKeeps(st: State, key: string, svc: Service)
    requires Inv(st)
    ensures Inv(Step(st, PutService(key, svc)))
  {
    ServiceStepKeeps(st, Step(st, PutService(key, svc)), key);
  }

  /** Every event keeps the invariant. */
  lemma StepKeeps(st: State, e: Event)
    requires Inv(st)
    ensures Inv(Step(st, e))
  {
    match e
    case Fetch(key) => if FetchStep(st, key) != st { MoveKeeps(st, key, Fetched(st.services[key])); }
    case Plan(key, look) => PlanKeeps(st, key, look);
    case ReleaseIP(key, ok) => ReleaseStepKeeps(st, key, ok);
    case AssignIP(key, ok) => AssignStepKeeps(st, key, ok);
    case WriteLabel(key, ok) => WriteLabelKeeps(st, key, ok);
    case WriteStatus(key, ok) => WriteStatusKeeps(st, key, ok);
    case Crash(key) => MoveKeeps(st, key, Idle);
    case PutService(key, svc) => PutKeeps(st, key, svc);
    case DropService(key) => ServiceStepKeeps(st, Step(st, e), key);
    case SyncPool(name, seen) => if name in st.pools { PoolControllerKeeps(st, name, seen); }
    case DeletePool(name) => if name in st.pools { PoolControllerKeeps(st, name, {}); }
    case CreatePool(name, block, isDefault) => CreateKeeps(st, name, block, isDefault);
    case EditPool(name, disabled, isDefault) => EditKeeps(st, name, disabled, isDefault);
    case RemovePool(name) => RemoveKeeps(st, name);
  }

  lemma {:induction false} RunKeeps(st: State, events: seq<Event>)
    requires Inv(st)
    ensures Inv(Run(st, events))
    decreases |events|
  {
    if events != [] {
      StepKeeps(st, events[0]);
      RunKeeps(Step(st, events[0]), events[1..]);
    }
  }

  /**
    Whole-run safety. Whatever interleaving of reconciles, pool controller, admission, users and
    crashes leads to a state: no service owns two addresses among the pools that are not being deleted,
    none appears twice in a list, every pool status is truthful and within the pool, no two pools
    overlap as `IsOverlap` sees them and at most one is the default.
   */
  lemma ReachableInv(events: seq<Event>)
    ensures Inv(Run(INITIAL, events))
  {
    RunKeeps(INITIAL, events);
  }

  /** In every reachable state the status of an initialised pool is the truth about its addresses. */
  lemma ReachablePoolTruthful(events: seq<Event>, name: string)
    requires var st := Run(INITIAL, events); name in st.pools && st.pools[name].ready
    ensures var p := Run(INITIAL, events).pools[name];
      && (forall a :: a in p.used ==> Within(p.block, a))
      && p.poolSize == p.block.size && p.usage == |p.used| && (p.usage == 0 || p.usage <= p.poolSize)
      && (p.occupied <==> forall a :: Within(p.block, a) ==> a in p.used)
  {
    ReachableInv(events);
    assert PoolOk(Run(INITIAL, events).pools[name]);
    UsageBound(Run(INITIAL, events).pools[name]);
  }

  /** An assignment only records an address of a family that the service accepts. */
  lemma AssignRespectsFamily(st: State, key: string, ok: bool, name: string, a: Address)
    requires Inv(st) && !Recorded(st.pools, key, name, a) && Recorded(AssignStep(st, key, ok).pools, key, name, a)
    ensures var svc := ProgressOf(st, key).svc; if a.v6 then svc.wantsV6 else svc.wantsV4
  {
    var now := ProgressOf(st, key);
    var n, want := now.allocate.value.eip, now.allocate.value.ip;
    AssignedRecords(st.pools, key, n, want);
    assert PoolOk(st.pools[n]);
    ChoiceWithin(st.pools[n], key, want);
  }
}
