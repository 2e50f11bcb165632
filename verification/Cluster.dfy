/**
  The whole store as it is kept, pools with joined owner lists, driven event by event in any
  interleaving. Every event is proved to do to the decoded store what `Store.Step` does, so what holds
  in every run of `Store` holds of the strings.
 */
module Cluster {
  import opened Basics
  import opened Net
  import opened Ranges
  import opened Owners
  import opened Ipam
  import opened EipObject
  import opened Store
  import opened Reconciler

  /** A pool as it is created. */
  function NewPool(block: Block, isDefault: bool): Stored {
    Stored(block, false, false, isDefault, false, 0, map[], 0, false)
  }

  /** Every planning event of the run finds what the store holds. */
  ghost predicate Feasible(events: seq<Event>) {
    forall i :: 0 <= i < |events| && events[i].Plan? ==>
      Possible(Run(INITIAL, events[..i]), events[i].key, events[i].look)
  }

  lemma {:induction false} RunLast(st: State, events: seq<Event>)
    requires events != []
    ensures Run(st, events) == Step(Run(st, events[..|events| - 1]), events[|events| - 1])
    decreases |events|
  {
    if |events| == 1 {
      assert Run(Step(st, events[0]), events[1..]) == Step(st, events[0]);
      assert Run(st, events[..0]) == st;
    } else {
      RunLast(Step(st, events[0]), events[1..]);
      assert events[1..][..|events| - 2] == events[..|events| - 1][1..];
    }
  }

  class Cluster {
    const store: ServiceReconciler
    var progress: map<string, Progress>

    /** The decoded store with the reconciles under way. */
    ghost function State(): State
      reads this, store
    {
      store.Snapshot().(progress := progress)
    }

    ghost predicate Valid()
      reads this, store
    {
      Inv(State())
    }

    constructor ()
      ensures Valid() && State() == INITIAL && fresh(store)
    {
      store := new ServiceReconciler();
      progress := map[];
    }

    function ProgressNow(key: string): Progress
      reads this
    {
      if key in progress then progress[key] else Idle
    }

    method Fetch(key: string)
      requires Valid()
      modifies this
      ensures State() == FetchStep(old(State()), key)
    {
      if ProgressNow(key) == Idle && key in store.services && IsKey(key) {
        progress := progress[key := Fetched(store.services[key])];
      }
    }

    method Plan(key: string, look: Lookup)
      requires Valid() && Possible(State(), key, look)
      modifies this
      ensures State() == PlanStep(old(State()), key, look)
    {
      var now := ProgressNow(key);
      if !now.Fetched? { return; }
      var request := ConstructRequest(DecodeAll(store.eips), now.svc, look);
      progress := progress[key := if request == Request(None, None) then Idle else Planned(now.svc, request)];
    }

    method ReleaseIP(key: string, ok: bool)
      requires Valid()
      modifies this, store
      ensures State() == ReleaseStep(old(State()), key, ok)
    {
      var now := ProgressNow(key);
      if !now.Planned? { return; }
      ghost var before := State();
      assert PoolsOk(before.pools);
      var err, poolLabel, ingress := store.ReleaseStage(key, now.svc, now.request, ok, before);
      progress := progress[key := if err then Idle else Released(now.svc, now.request.allocate, poolLabel, ingress)];
    }

    method AssignIP(key: string, ok: bool)
      requires Valid()
      modifies this, store
      ensures State() == AssignStep(old(State()), key, ok)
    {
      var now := ProgressNow(key);
      if !now.Released? { return; }
      ghost var before := State();
      assert ProgressOk(before.pools, key, ProgressOf(before, key));
      var failed, poolLabel, ingress :=
        store.AssignStage(key, now.svc, now.allocate, now.poolLabel, now.ingress, ok, before);
      progress := progress[key := Writing(now.svc, poolLabel, ingress, failed)];
    }

    /** The store as the compiled steps take it. */
    function Now(): State
      reads this, store
    {
      Store.State(DecodeAll(store.eips), store.services, progress, store.clock)
    }

    /** Takes over the services, the clock and the progress of a step that touches no pool. */
    method TakeOver(after: State)
      requires after.pools == State().pools
      modifies this, store
      ensures State() == after
    {
      store.services, store.clock, progress := after.services, after.clock, after.progress;
    }

    /** The two service writes. */
    method WriteService(e: Event)
      requires e.WriteLabel? || e.WriteStatus?
      modifies this, store
      ensures State() == Step(old(State()), e)
    {
      if e.WriteLabel? {
        TakeOver(WriteLabelStep(Now(), e.key, e.ok));
      } else {
        TakeOver(WriteStatusStep(Now(), e.key, e.ok));
      }
    }

    /** Users and crashes. */
    method EditServices(e: Event)
      requires e.Crash? || e.PutService? || e.DropService?
      modifies this, store
      ensures State() == Step(old(State()), e)
    {
      if e.Crash? {
        progress := progress[e.key := Idle];
      } else if e.DropService? {
        store.services := store.services - {e.key};
      } else if IsKey(e.key) {
        store.clock := store.clock + 1;
        store.services := store.services[e.key := e.svc.(version := store.clock)];
      }
    }

    /** `Reconcile` of the pool controller: a copy is updated and written back. */
    method SyncPool(name: string, seen: set<string>)
      requires Valid()
      modifies store
      ensures State() == Step(old(State()), Store.SyncPool(name, seen))
    {
      if name !in store.eips { return; }
      var clone := UpdatedCopy(store.eips[name], seen);
      store.eips := store.eips[name := clone];
    }

    /** Writes one stored pool. */
    method PutPool(name: string, eip: Stored)
      modifies store
      ensures State() == SetPool(old(State()), name, Decoded(eip))
    {
      store.eips := store.eips[name := eip];
    }

    /** Creation, if it passes admission. */
    method CreatePool(name: string, block: Block, isDefault: bool)
      modifies store
      ensures State() == Step(old(State()), Store.CreatePool(name, block, isDefault))
    {
      var pools := DecodeAll(store.eips);
      if name != "" && name !in store.eips && Formed(block) && NoOverlap(pools, name, block)
         && (isDefault ==> NoOtherDefault(pools, name))
      {
        assert Decode(map[]) == map[];
        PutPool(name, NewPool(block, isDefault));
      }
    }

    /** Updates that pass admission. */
    method EditPool(name: string, disabled: bool, isDefault: bool)
      modifies store
      ensures State() == Step(old(State()), Store.EditPool(name, disabled, isDefault))
    {
      var eips := store.eips;
      if name in eips && (isDefault && !eips[name].isDefault ==> NoOtherDefault(DecodeAll(eips), name)) {
        PutPool(name, eips[name].(disabled := disabled, isDefault := isDefault));
      }
    }

    /** The start and the end of a deletion. */
    method DeletePool(name: string, remove: bool)
      modifies store
      ensures State() == Step(old(State()), if remove then Store.RemovePool(name) else Store.DeletePool(name))
    {
      var eips := store.eips;
      if name !in eips { return; }
      if !remove {
        PutPool(name, eips[name].(deleting := true));
      } else if eips[name].deleting {
        store.eips := eips - {name};
      }
    }

    /** Any event: the decoded store makes the step, and keeps the run invariant. */
    method Apply(e: Event)
      requires Valid() && (e.Plan? ==> Possible(State(), e.key, e.look))
      modifies this, store
      ensures Valid() && State() == Step(old(State()), e)
    {
      StepKeeps(State(), e);
      match e
      case Fetch(key) => Fetch(key);
      case Plan(key, look) => Plan(key, look);
      case ReleaseIP(key, ok) => ReleaseIP(key, ok);
      case AssignIP(key, ok) => AssignIP(key, ok);
      case SyncPool(name, seen) => SyncPool(name, seen);
      case WriteLabel(_, _) => WriteService(e);
      case WriteStatus(_, _) => WriteService(e);
      case Crash(_) => EditServices(e);
      case PutService(_, _) => EditServices(e);
      case DropService(_) => EditServices(e);
      case CreatePool(name, block, isDefault) => CreatePool(name, block, isDefault);
      case EditPool(name, disabled, isDefault) => EditPool(name, disabled, isDefault);
      case DeletePool(name) => DeletePool(name, false);
      case RemovePool(name) => DeletePool(name, true);
    }
  }

  /** A copy of the pool, initialised and pruned. */
  method UpdatedCopy(eip: Stored, seen: set<string>) returns (clone: Stored)
    ensures Decoded(clone) == Update(Decoded(eip), seen)
  {
    var copied := new Eip(eip);
    var ok := copied.UpdateEip(seen, {});
    assert AllReadable(eip.used, {});
    clone := copied.Content();
  }

  /** Any run of events on joined strings is the run of `Store` on decoded pools. */
  method Execute(events: seq<Event>) returns (c: Cluster)
    requires Feasible(events)
    ensures fresh(c) && fresh(c.store) && c.Valid() && c.State() == Run(INITIAL, events)
  {
    c := new Cluster();
    for i := 0 to |events|
      invariant fresh(c) && fresh(c.store) && c.Valid() && c.State() == Run(INITIAL, events[..i])
    {
      assert events[..i + 1][..i] == events[..i];
      RunLast(INITIAL, events[..i + 1]);
      c.Apply(events[i]);
    }
    assert events[..|events|] == events;
  }
}
