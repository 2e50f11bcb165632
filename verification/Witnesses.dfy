/**
  Runs that show the failing side of the reconcile results: they are reachable, for every pool and
  every address of it.
 */
module Witnesses {
  import opened Basics
  import opened Net
  import opened Ranges
  import opened Owners
  import opened Ipam
  import opened Store
  import opened Recovery
  import opened Departure
  import opened Reconciler

  const KEY: string := "n/s"
  const POOL: string := "p"

  /** A managed service that names the pool. */
  function Asking(want: Text): Service {
    Service(true, true, true, false, POOL, None, want, true, true, None, [], 0)
  }

  /** A pool is created and initialised, then the service. */
  function Setup(block: Block, want: Text): seq<Event> {
    [CreatePool(POOL, block, false), SyncPool(POOL, {}), PutService(KEY, Asking(want))]
  }

  lemma KeyIsKey()
    ensures IsKey(KEY)
  {
    SplitWord("s", '/');
    SplitAt("n", "s", '/');
    assert KEY == "n" + ['/'] + "s";
  }

  lemma {:induction false} RunAppend(st: State, x: seq<Event>, y: seq<Event>)
    ensures Run(st, x + y) == Run(Run(st, x), y)
    decreases |x|
  {
    if x == [] {
      assert x + y == y;
    } else {
      assert (x + y)[1..] == x[1..] + y;
      RunAppend(Step(st, x[0]), x[1..], y);
    }
  }

  lemma RunOne(st: State, e: Event)
    ensures Run(st, [e]) == Step(st, e)
  {
    assert Run(Step(st, e), []) == Step(st, e);
  }

  // ---------------------------------------------------------------- accepted passes, one after another

  /** The pool alone, initialised and usable, and the service waiting for an address of it. */
  ghost predicate Stage(st: State, block: Block, want: Text) {
    && Inv(st) && Waiting(st, KEY, POOL) && Wish(st.services[KEY]) == want
    && st.services[KEY].wantsV4 && st.services[KEY].wantsV6
    && st.pools.Keys == {POOL} && SameShape(st.pools[POOL], block)
  }

  predicate SameShape(p: Pool, block: Block) {
    p.block == block && p.ready && Usable(p)
  }

  lemma SetupReaches(block: Block, want: Text)
    requires Sound(block)
    ensures Stage(Run(INITIAL, Setup(block, want)), block, want)
  {
    var events := Setup(block, want);
    KeyIsKey();
    ReachableInv(events);
    var newPool := Pool(block, false, false, false, false, 0, map[], 0, false);
    var created := Step(INITIAL, events[0]);
    assert created.pools == map[POOL := newPool];
    var synced := Step(created, events[1]);
    assert synced.pools == map[POOL := Update(newPool, {})];
    RunOne(synced, events[2]);
    assert events[2..] == [events[2]] && events[1..][1..] == events[2..];
    assert Run(created, events[1..]) == Run(synced, events[2..]);
  }

  /** What the next reconcile finds. */
  ghost function LookOf(st: State): Lookup {
    if a :| Recorded(st.pools, KEY, POOL, a) then Lookup(Some((POOL, a)), [POOL], None)
    else Lookup(None, [POOL], None)
  }

  lemma LookOfPossible(st: State)
    requires st.pools.Keys == {POOL}
    ensures Possible(st, KEY, LookOf(st))
    ensures (exists a :: Recorded(st.pools, KEY, POOL, a)) ==> LookOf(st).found.Some?
  {
  }

  /** The state after one more pass with all writes accepted. */
  ghost function NextPass(st: State): State {
    Reconciled(st, KEY, LookOf(st), ALL_ACCEPTED)
  }

  /** The service's own events change neither the set of pools nor what a pool or the service is. */
  ghost predicate SameSetting(st: State, after: State) {
    && after.pools.Keys == st.pools.Keys
    && (forall n, block :: n in st.pools && SameShape(st.pools[n], block) ==> SameShape(after.pools[n], block))
    && (KEY in st.services ==>
          && KEY in after.services && after.services[KEY].wantsV4 == st.services[KEY].wantsV4
          && after.services[KEY].wantsV6 == st.services[KEY].wantsV6)
  }

  lemma OwnStepKeepsSetting(st: State, e: Event)
    requires OwnEvent(e, KEY)
    ensures SameSetting(st, Step(st, e))
  {
  }

  lemma {:induction false} OwnEventsKeepSetting(st: State, events: seq<Event>)
    requires forall e :: e in events ==> OwnEvent(e, KEY)
    ensures SameSetting(st, Run(st, events))
    decreases |events|
  {
    if events != [] {
      assert events[0] in events;
      OwnStepKeepsSetting(st, events[0]);
      OwnEventsKeepSetting(Step(st, events[0]), events[1..]);
    }
  }

  lemma SuccessEnds(st: State, e: Event, key: string)
    requires Succeeds(st, e, key)
    ensures ProgressOf(Step(st, e), key) == Idle
  {
  }

  /** A pool that contains the wanted address gives it, whoever else owns it. */
  lemma StagePassSucceeds(st: State, block: Block, want: Text)
    requires Stage(st, block, want) && want.Spelled? && Within(block, want.addr)
    ensures PassSucceeds(st, KEY, LookOf(st), ALL_ACCEPTED)
  {
    KeyIsKey();
    LookOfPossible(st);
    var look := LookOf(st);
    var released := PoolsReleased(st.pools, KEY, look);
    assert PoolOk(st.pools[POOL]);
    ReleaseKeeps(st.pools[POOL], KEY);
    ChoiceMadeIff(released[POOL], KEY, want);
    OrdinalInverse(block, want.addr, 0);
    assert Assignable(released, st.services[KEY], KEY, POOL, want);
    PassSucceedsIff(st, KEY, look, POOL, ALL_ACCEPTED);
  }

  /** The pass as events: they lead to the next stage, and the service is settled there. */
  lemma StageRepeats(st: State, block: Block, want: Text) returns (events: seq<Event>)
    requires Stage(st, block, want) && want.Spelled? && Within(block, want.addr)
    ensures NextPass(st) == Run(st, events)
    ensures Stage(NextPass(st), block, want) && Settled(NextPass(st), KEY, POOL, want)
  {
    StagePassSucceeds(st, block, want);
    var before, last := PassIsRun(st, KEY, LookOf(st), ALL_ACCEPTED);
    QuietSuccessSettles(st, before, last, KEY, POOL);
    SuccessEnds(Run(st, before), last, KEY);
    events := before + [last];
    RunAppend(st, before, [last]);
    RunOne(Run(st, before), last);
    OwnEventsKeepSetting(st, events);
  }

  // ---------------------------------------------------------------- odd spellings

  /** `next` is the stage after one more accepted pass, which settles the service, and a run of events. */
  ghost predicate Passed(st: State, next: State, block: Block, want: Text) {
    && Stage(next, block, want) && Settled(next, KEY, POOL, want)
    && next == NextPass(st) && exists events :: next == Run(st, events)
  }

  ghost function OnePassOn(block: Block, want: Text): (State, State) -> bool {
    (st, next) => Passed(st, next, block, want)
  }

  /** The states of accepted passes, one after another. */
  ghost predicate Passes(states: seq<State>, block: Block, want: Text) {
    states != [] && Stage(states[0], block, want) && Chain(states, OnePassOn(block, want))
  }

  ghost function Latest(states: seq<State>): State
    requires states != []
  {
    states[|states| - 1]
  }

  lemma LatestIsStage(states: seq<State>, block: Block, want: Text)
    requires Passes(states, block, want)
    ensures Stage(Latest(states), block, want)
    ensures |states| > 1 ==> Settled(Latest(states), KEY, POOL, want)
  {
    if |states| > 1 {
      var k := |states| - 2;
      assert OnePassOn(block, want)(states[k], states[k + 1]);
    }
  }

  lemma OnePass(st: State, block: Block, want: Text) returns (next: State)
    requires Stage(st, block, want) && want.Spelled? && Within(block, want.addr)
    ensures Passed(st, next, block, want)
  {
    var events := StageRepeats(st, block, want);
    next := NextPass(st);
  }

  lemma PassesGoOn(st: State, block: Block, want: Text, n: nat) returns (states: seq<State>)
    requires Stage(st, block, want) && want.Spelled? && Within(block, want.addr)
    ensures |states| == n + 1 && Passes(states, block, want) && states[0] == st
  {
    states := [st];
    for k := 0 to n
      invariant |states| == k + 1 && Passes(states, block, want) && states[0] == st
    {
      LatestIsStage(states, block, want);
      var next := OnePass(Latest(states), block, want);
      ChainExtend(states, next, OnePassOn(block, want));
      states := states + [next];
    }
  }

  /** A state after any number of passes is reachable. */
  lemma PassesReachable(states: seq<State>, block: Block, want: Text) returns (history: seq<Event>)
    requires Passes(states, block, want) && states[0] == Run(INITIAL, Setup(block, want))
    ensures Run(INITIAL, history) == Latest(states)
  {
    history := Setup(block, want);
    for k := 0 to |states| - 1
      invariant Run(INITIAL, history) == states[k]
    {
      assert OnePassOn(block, want)(states[k], states[k + 1]);
      var events :| states[k + 1] == Run(states[k], events);
      RunAppend(INITIAL, history, events);
      history := history + events;
    }
  }

  /** A service that spells its address in another than the canonical way always asks. */
  lemma OddSpellingAsks(st: State, block: Block, a: Address, form: nat, look: Lookup)
    requires Stage(st, block, Spelled(a, form)) && form > 0 && Possible(st, KEY, look)
    ensures !AsksNothing(st, KEY, look)
  {
    PlanTarget(st.pools, st.services[KEY], look, POOL);
  }

  /**
    A service that spells an address of its pool in another than the canonical way asks again for
    ever: however many accepted passes have settled it, each in a reachable state, the next one asks.
   */
  lemma OddSpellingAsksForever(block: Block, a: Address, form: nat, n: nat, look: Lookup)
    returns (states: seq<State>, history: seq<Event>)
    requires Sound(block) && Within(block, a) && form > 0
    ensures |states| == n + 1 && Passes(states, block, Spelled(a, form))
    ensures var end := Latest(states);
      && Run(INITIAL, history) == end && KEY in end.services && Possible(end, KEY, LookOf(end))
      && (Possible(end, KEY, look) ==> !AsksNothing(end, KEY, look))
  {
    var want := Spelled(a, form);
    SetupReaches(block, want);
    states := PassesGoOn(Run(INITIAL, Setup(block, want)), block, want, n);
    history := PassesReachable(states, block, want);
    LatestIsStage(states, block, want);
    LookOfPossible(Latest(states));
    if Possible(Latest(states), KEY, look) { OddSpellingAsks(Latest(states), block, a, form, look); }
  }

  // ---------------------------------------------------------------- services without annotations

  /** A pass of a recorded service without annotations succeeds and leaves it recorded. */
  lemma IgnoredPass(st: State, key: string, look: Lookup)
    requires IsKey(key) && ProgressOf(st, key) == Idle && key in st.services && !st.services[key].annotated
    requires Possible(st, key, look) && look.found.Some?
    ensures DepartureSuccess(st, [Fetch(key)], Plan(key, look), key)
    ensures !Gone(Step(Run(st, [Fetch(key)]), Plan(key, look)), key)
  {
    RunOne(st, Fetch(key));
    assert Recorded(st.pools, key, look.found.value.0, look.found.value.1);
  }

  lemma EditThenIgnoredPass(st: State, svc: Service, look: Lookup)
    requires ProgressOf(st, KEY) == Idle && !svc.annotated && Possible(st, KEY, look) && look.found.Some?
    ensures var edited := Step(st, PutService(KEY, svc));
      && DepartureSuccess(edited, [Fetch(KEY)], Plan(KEY, look), KEY)
      && !Gone(Step(Run(edited, [Fetch(KEY)]), Plan(KEY, look)), KEY)
  {
    KeyIsKey();
    var edited := Step(st, PutService(KEY, svc));
    assert edited.pools == st.pools && Possible(edited, KEY, look);
    IgnoredPass(edited, KEY, look);
  }

  /**
    A service that loses all its annotations keeps its address: its reconcile succeeds, and it stays
    recorded in a pool that is not being deleted.
   */
  lemma UnannotatedKeepsAddress(block: Block, a: Address, svc: Service) returns (history: seq<Event>, last: Event)
    requires Sound(block) && Within(block, a) && !svc.annotated
    ensures var st := Run(INITIAL, history);
      DepartureSuccess(st, [Fetch(KEY)], last, KEY) && !Gone(Step(Run(st, [Fetch(KEY)]), last), KEY)
  {
    var want, put := Canon(a), PutService(KEY, svc);
    SetupReaches(block, want);
    var states := PassesGoOn(Run(INITIAL, Setup(block, want)), block, want, 1);
    var earlier := PassesReachable(states, block, want);
    var st := Latest(states);
    LatestIsStage(states, block, want);
    LookOfPossible(st);
    var b :| SettledAt(st, KEY, POOL, want, b);
    EditThenIgnoredPass(st, svc, LookOf(st));
    RunAppend(INITIAL, earlier, [put]);
    RunOne(st, put);
    history, last := earlier + [put], Plan(KEY, LookOf(st));
  }
}
