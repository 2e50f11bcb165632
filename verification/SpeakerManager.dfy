/**
  The speaker manager of pkg/speaker/manager.go: it follows pool events incrementally and tells the
  speaker of each protocol which addresses to announce.

  A speaker is the set of addresses it announces. Maps are walked in any order, left open by
  nondeterministic choice. Unless the environment is `healthy`, its calls may fail, with or without
  having taken effect.
 */
module SpeakerManager {

  datatype Eip = Eip(name: string, protocol: string, iface: string, deleting: bool, used: map<string, string>)

  /** The pools held and the addresses announced by the speaker of each registered protocol. */
  datatype State = State(pools: map<string, Eip>, announced: map<string, set<string>>)

  function GetProtocol(e: Eip): string {
    if e.protocol == "layer2" then "layer2" else if e.protocol == "vip" then "vip" else "bgp"
  }

  /** `isSpeakerConfigUpdate`, called with the new pool first. */
  predicate IsSpeakerConfigUpdate(e: Eip, held: Eip) {
    e.protocol != held.protocol || (held.protocol != "bgp" && e.iface != held.iface)
  }

  // ---------------------------------------------------------------- one event, as a whole

  function Announce(st: State, protocol: string, ips: set<string>): State
    requires protocol in st.announced
  {
    st.(announced := st.announced[protocol := st.announced[protocol] + ips])
  }

  function Withdraw(st: State, protocol: string, ips: set<string>): State
    requires protocol in st.announced
  {
    st.(announced := st.announced[protocol := st.announced[protocol] - ips])
  }

  /** Every held pool has a registered speaker. */
  ghost predicate Registered(st: State) {
    forall n :: n in st.pools ==> st.pools[n].name == n && GetProtocol(st.pools[n]) in st.announced
  }

  /** The addresses an event has the speaker announce. */
  function Newly(st: State, e: Eip): set<string> {
    if e.name !in st.pools then e.used.Keys
    else if e.deleting then {}
    else if IsSpeakerConfigUpdate(e, st.pools[e.name]) then e.used.Keys
    else e.used.Keys - st.pools[e.name].used.Keys
  }

  /**
    The state after `HandleEIP` runs through without an error; `ready` holds the addresses whose
    services have nodes, others are skipped.
   */
  function Handled(st: State, e: Eip, ready: set<string>): State
    requires Registered(st)
  {
    var p, news := GetProtocol(e), Newly(st, e) * ready;
    if p !in st.announced then st
    else if e.name !in st.pools then Hold(Announce(st, p, news), e)
    else
      var held := st.pools[e.name];
      if e.deleting then Drop(Withdraw(st, GetProtocol(held), held.used.Keys), e.name)
      else if IsSpeakerConfigUpdate(e, held) then
        Hold(Announce(Drop(Withdraw(st, GetProtocol(held), held.used.Keys), e.name), p, news), e)
      else if e.used != held.used then
        Hold(Announce(Withdraw(st, p, held.used.Keys - e.used.Keys), p, news), e)
      else st
  }

  function Hold(st: State, e: Eip): State {
    st.(pools := st.pools[e.name := e])
  }

  function Drop(st: State, name: string): State {
    st.(pools := st.pools - {name})
  }

  // ---------------------------------------------------------------- incremental is from scratch

  /** The speaker that serves a pool by its `spec.protocol`: layer2 and vip their own, bgp all others. */
  predicate Serves(speaker: string, protocol: string) {
    if speaker == "layer2" || speaker == "vip" then protocol == speaker
    else speaker == "bgp" && protocol != "layer2" && protocol != "vip"
  }

  /** What a speaker would announce if told everything anew. */
  ghost function FromScratch(pools: map<string, Eip>, speaker: string): set<string> {
    set n, ip | n in pools && Serves(speaker, pools[n].protocol) && ip in pools[n].used :: ip
  }

  ghost predicate InStep(st: State) {
    forall p :: p in st.announced ==> st.announced[p] == FromScratch(st.pools, p)
  }

  /** The used addresses of the held pools lie in the pools' own, pairwise disjoint ranges. */
  ghost predicate Partitioned(pools: map<string, Eip>, range: string -> set<string>) {
    forall n :: n in pools ==> pools[n].used.Keys <= range(n)
  }

  ghost predicate Disjoint(range: string -> set<string>) {
    forall m, n :: m != n ==> range(m) !! range(n)
  }

  /** The announcements due to the pools other than `name` stay clear of its range. */
  lemma OthersClear(pools: map<string, Eip>, name: string, protocol: string, range: string -> set<string>)
    requires Disjoint(range) && Partitioned(pools, range)
    ensures FromScratch(pools - {name}, protocol) !! range(name)
  {
  }

  /** What pool `e` contributes to a protocol. */
  ghost function Share(e: Eip, protocol: string): set<string> {
    if Serves(protocol, e.protocol) then e.used.Keys else {}
  }

  lemma FromScratchWith(pools: map<string, Eip>, e: Eip, protocol: string)
    ensures FromScratch(pools[e.name := e], protocol) == FromScratch(pools - {e.name}, protocol) + Share(e, protocol)
  {
    var rest, all := pools - {e.name}, pools[e.name := e];
    forall ip | ip in FromScratch(all, protocol)
      ensures ip in FromScratch(rest, protocol) || ip in Share(e, protocol)
    {
      var n :| n in all && Serves(protocol, all[n].protocol) && ip in all[n].used;
      if n != e.name { assert n in rest && rest[n] == all[n] && ip in rest[n].used; }
    }
    forall ip | ip in FromScratch(rest, protocol) ensures ip in FromScratch(all, protocol) {
      var n :| n in rest && Serves(protocol, rest[n].protocol) && ip in rest[n].used;
      assert n in all && all[n] == rest[n] && ip in all[n].used;
    }
    forall ip | ip in Share(e, protocol) ensures ip in FromScratch(all, protocol) {
      assert all[e.name] == e && ip in all[e.name].used;
    }
  }

  /** The three ways the held pools change. */
  lemma PoolsAfter(st: State, e: Eip, protocol: string)
    requires Registered(st)
    ensures var rest := FromScratch(st.pools - {e.name}, protocol);
      && FromScratch(st.pools[e.name := e], protocol) == rest + Share(e, protocol)
      && FromScratch((st.pools - {e.name})[e.name := e], protocol) == rest + Share(e, protocol)
      && FromScratch(st.pools, protocol) ==
           rest + (if e.name in st.pools then Share(st.pools[e.name], protocol) else {})
  {
    FromScratchWith(st.pools, e, protocol);
    assert (st.pools - {e.name})[e.name := e] == st.pools[e.name := e];
    if e.name in st.pools {
      FromScratchWith(st.pools, st.pools[e.name], protocol);
      assert st.pools[e.name := st.pools[e.name]] == st.pools;
    } else {
      assert st.pools - {e.name} == st.pools;
    }
  }

  lemma HandledKeeps(st: State, e: Eip, ready: set<string>, range: string -> set<string>)
    requires Registered(st) && Partitioned(st.pools, range) && e.used.Keys <= range(e.name)
    ensures var next := Handled(st, e, ready);
      Registered(next) && Partitioned(next.pools, range) && next.announced.Keys == st.announced.Keys
  {
    if e.name in st.pools { assert GetProtocol(st.pools[e.name]) in st.announced; }
  }

  /** Over disjoint pools one event stays in step exactly when newly announced addresses have nodes. */
  lemma StaysInStepIff(st: State, e: Eip, ready: set<string>, range: string -> set<string>)
    requires Registered(st) && InStep(st)
    requires Disjoint(range) && Partitioned(st.pools, range) && e.used.Keys <= range(e.name)
    requires GetProtocol(e) in st.announced
    ensures InStep(Handled(st, e, ready)) <==> Newly(st, e) <= ready
  {
    EventInStepIff(st, e, ready);
    OthersClear(st.pools, e.name, GetProtocol(e), range);
    OthersClear(st.pools, e.name, HeldProtocol(st, e), range);
    assert Withdrawn(st, e) <= range(e.name) && Newly(st, e) <= range(e.name);
  }

  /** An event for the manager: a pool and the addresses that have nodes when it is handled. */
  datatype PoolEvent = PoolEvent(eip: Eip, ready: set<string>)

  function Follow(st: State, events: seq<PoolEvent>): State
    requires Registered(st)
    decreases |events|
  {
    if events == [] then st
    else
      assert Registered(Handled(st, events[0].eip, events[0].ready)) by {
        HandledKeeps(st, events[0].eip, events[0].ready,
          n => (if n in st.pools then st.pools[n].used.Keys else {}) +
               (if n == events[0].eip.name then events[0].eip.used.Keys else {}));
      }
      Follow(Handled(st, events[0].eip, events[0].ready), events[1..])
  }

  /** The pools as the events report them: the last report of each that is not being deleted. */
  function Reported(pools: map<string, Eip>, e: Eip): map<string, Eip> {
    if e.deleting then pools - {e.name} else pools[e.name := e]
  }

  function Reports(pools: map<string, Eip>, events: seq<PoolEvent>): map<string, Eip>
    decreases |events|
  {
    if events == [] then pools else Reports(Reported(pools, events[0].eip), events[1..])
  }

  /**
    The manager holds every reported pool with its addresses, protocol and, where the speaker needs
    it, interface; what it holds beyond that has no addresses.
   */
  ghost predicate Agree(held: map<string, Eip>, reported: map<string, Eip>) {
    && (forall n :: n in reported ==> n in held && SameForSpeaker(held[n], reported[n]))
    && (forall n :: n in held && n !in reported ==> held[n].used == map[])
  }

  predicate SameForSpeaker(x: Eip, y: Eip) {
    x.used == y.used && x.protocol == y.protocol && (x.protocol == "bgp" || x.iface == y.iface)
  }

  /** `HandleEIP` takes a deleting pool that it does not hold for a new one. */
  predicate Resurrects(st: State, e: Eip) {
    e.deleting && e.name !in st.pools
  }

  /** The manager goes on holding what has been reported, unless a deleted pool with addresses comes back. */
  lemma HandledAgrees(st: State, e: Eip, ready: set<string>, reported: map<string, Eip>)
    requires Registered(st) && Agree(st.pools, reported) && GetProtocol(e) in st.announced
    requires Resurrects(st, e) ==> e.used == map[]
    ensures Agree(Handled(st, e, ready).pools, Reported(reported, e))
  {
    if e.name in st.pools { assert GetProtocol(st.pools[e.name]) in st.announced; }
  }

  lemma AgreeScratch(held: map<string, Eip>, reported: map<string, Eip>, protocol: string)
    requires Agree(held, reported)
    ensures FromScratch(held, protocol) == FromScratch(reported, protocol)
  {
    forall ip | ip in FromScratch(held, protocol) ensures ip in FromScratch(reported, protocol) {
      var n :| n in held && Serves(protocol, held[n].protocol) && ip in held[n].used;
      assert n in reported && ip in reported[n].used;
    }
    forall ip | ip in FromScratch(reported, protocol) ensures ip in FromScratch(held, protocol) {
      var n :| n in reported && Serves(protocol, reported[n].protocol) && ip in reported[n].used;
      assert n in held && ip in held[n].used;
    }
  }

  /** Every speaker announces the union of the used addresses of the pools of its protocol. */
  ghost predicate Announces(st: State, pools: map<string, Eip>) {
    forall p :: p in st.announced ==> st.announced[p] == FromScratch(pools, p)
  }

  /** A resurrected pool is announced beside what should be announced, and held. */
  lemma ResurrectionAnnounces(st: State, e: Eip, ready: set<string>, reported: map<string, Eip>,
                              range: string -> set<string>)
    requires Registered(st) && InStep(st) && Agree(st.pools, reported) && GetProtocol(e) in st.announced
    requires Disjoint(range) && Partitioned(st.pools, range) && e.used.Keys <= range(e.name) && Resurrects(st, e)
    ensures var next := Handled(st, e, ready);
      && e.name in next.pools && e.used.Keys * ready <= next.announced[GetProtocol(e)]
      && (Announces(next, Reported(reported, e)) <==> e.used.Keys * ready == {})
  {
    var p, next := GetProtocol(e), Handled(st, e, ready);
    assert e.name !in reported && Reported(reported, e) == reported;
    forall q | q in st.announced ensures st.announced[q] == FromScratch(reported, q) {
      AgreeScratch(st.pools, reported, q);
    }
    assert st.pools - {e.name} == st.pools;
    OthersClear(st.pools, e.name, p, range);
    if ip :| ip in e.used.Keys * ready {
      assert ip in next.announced[p] && ip !in FromScratch(reported, p);
    }
  }

  /**
    One event leaves every speaker announcing what has been reported if and only if it resurrects no
    address of a deleted pool and every other newly announced address has a node.
   */
  lemma AnnouncesReportedIff(st: State, e: Eip, ready: set<string>, reported: map<string, Eip>,
                             range: string -> set<string>)
    requires Registered(st) && InStep(st) && Agree(st.pools, reported) && GetProtocol(e) in st.announced
    requires Disjoint(range) && Partitioned(st.pools, range) && e.used.Keys <= range(e.name)
    ensures Announces(Handled(st, e, ready), Reported(reported, e)) <==>
      if Resurrects(st, e) then e.used.Keys * ready == {} else Newly(st, e) <= ready
  {
    var next := Handled(st, e, ready);
    if Resurrects(st, e) {
      ResurrectionAnnounces(st, e, ready, reported, range);
    } else {
      StaysInStepIff(st, e, ready, range);
      HandledAgrees(st, e, ready, reported);
      forall p | p in next.announced ensures FromScratch(next.pools, p) == FromScratch(Reported(reported, e), p) {
        AgreeScratch(next.pools, Reported(reported, e), p);
      }
    }
  }

  /** Handling the deletion of a held pool twice announces all its addresses again. */
  lemma SecondDeletionResurrects(st: State, e: Eip, ready: set<string>)
    requires Registered(st) && e.name in st.pools && e.deleting && GetProtocol(e) in st.announced
    ensures var once := Handled(st, e, ready);
      && Registered(once) && e.name !in once.pools
      && var twice := Handled(once, e, ready);
         e.name in twice.pools && e.used.Keys * ready <= twice.announced[GetProtocol(e)]
  {
    assert GetProtocol(st.pools[e.name]) in st.announced;
  }

  /** The event is within its pool's range, has nodes for its addresses and a registered speaker. */
  ghost predicate Clean(x: PoolEvent, range: string -> set<string>, protocols: set<string>) {
    x.eip.used.Keys <= range(x.eip.name) && x.eip.used.Keys <= x.ready && GetProtocol(x.eip) in protocols
  }

  /** No event of the sequence brings back a deleted pool with addresses. */
  ghost predicate NoResurrection(st: State, events: seq<PoolEvent>)
    requires Registered(st)
    decreases |events|
  {
    events != [] ==>
      && (Resurrects(st, events[0].eip) ==> events[0].eip.used == map[])
      && Registered(Handled(st, events[0].eip, events[0].ready))
      && NoResurrection(Handled(st, events[0].eip, events[0].ready), events[1..])
  }

  /**
    Incremental equals from scratch: over disjoint pools, after any error-free sequence of events for
    addresses with nodes that resurrects no deleted pool, every speaker announces exactly the union of
    `Used` over the pools of its protocol as last reported and not deleted.
   */
  lemma {:induction false} FollowsFromScratch(
    st: State, events: seq<PoolEvent>, reported: map<string, Eip>, range: string -> set<string>)
    requires Registered(st) && InStep(st) && Disjoint(range) && Partitioned(st.pools, range)
    requires Agree(st.pools, reported) && NoResurrection(st, events)
    requires forall x :: x in events ==> Clean(x, range, st.announced.Keys)
    ensures var end := Follow(st, events);
      InStep(end) && end.announced.Keys == st.announced.Keys && Announces(end, Reports(reported, events))
    decreases |events|
  {
    if events == [] {
      forall p | p in st.announced ensures st.announced[p] == FromScratch(reported, p) {
        AgreeScratch(st.pools, reported, p);
      }
    } else {
      var e, ready := events[0].eip, events[0].ready;
      assert events[0] in events;
      HandledKeeps(st, e, ready, range);
      assert Newly(st, e) <= e.used.Keys;
      StaysInStepIff(st, e, ready, range);
      HandledAgrees(st, e, ready, reported);
      FollowsFromScratch(Handled(st, e, ready), events[1..], Reported(reported, e), range);
    }
  }

  // ---------------------------------------------------------------- overlapping pools

  /** The addresses an event has the speaker of the held pool withdraw. */
  function Withdrawn(st: State, e: Eip): set<string> {
    if e.name !in st.pools then {}
    else if e.deleting || IsSpeakerConfigUpdate(e, st.pools[e.name]) then st.pools[e.name].used.Keys
    else st.pools[e.name].used.Keys - e.used.Keys
  }

  /** The addresses of `ips` if they are meant for the speaker of protocol `p`. */
  function Only(p: string, q: string, ips: set<string>): set<string> {
    if p == q then ips else {}
  }

  function HeldProtocol(st: State, e: Eip): string {
    if e.name in st.pools then GetProtocol(st.pools[e.name]) else GetProtocol(e)
  }

  /** What one event does to the announcements of a protocol. */
  lemma HandledAnnounced(st: State, e: Eip, ready: set<string>, p: string)
    requires Registered(st) && GetProtocol(e) in st.announced && p in st.announced
    ensures var next := Handled(st, e, ready);
      && p in next.announced
      && next.announced[p] == (st.announced[p] - Only(p, HeldProtocol(st, e), Withdrawn(st, e)))
                              + Only(p, GetProtocol(e), Newly(st, e) * ready)
  {
    if e.name in st.pools { assert GetProtocol(st.pools[e.name]) in st.announced; }
  }

  /** What the event's own pool contributes to a protocol afterwards. */
  function ShareAfter(st: State, e: Eip, p: string): set<string> {
    if e.name in st.pools && e.deleting then {}
    else if e.name in st.pools && !IsSpeakerConfigUpdate(e, st.pools[e.name])
    then Only(p, HeldProtocol(st, e), e.used.Keys)
    else Only(p, GetProtocol(e), e.used.Keys)
  }

  lemma HandledDue(st: State, e: Eip, ready: set<string>, p: string)
    requires Registered(st) && GetProtocol(e) in st.announced
    ensures FromScratch(Handled(st, e, ready).pools, p) ==
      FromScratch(st.pools - {e.name}, p) + ShareAfter(st, e, p)
  {
    PoolsAfter(st, e, p);
    if e.name in st.pools { assert GetProtocol(st.pools[e.name]) in st.announced; }
  }

  /**
    No address falls out: one that is withdrawn while another pool of that protocol uses it is
    announced again at once, and one that is newly announced has a node or stays announced for another
    pool of its protocol.
   */
  ghost predicate NothingLost(st: State, e: Eip, ready: set<string>) {
    var p, q := GetProtocol(e), HeldProtocol(st, e);
    && (forall ip :: ip in Withdrawn(st, e) && ip in FromScratch(st.pools - {e.name}, q) ==>
          p == q && ip in Newly(st, e) && ip in ready)
    && (forall ip :: ip in Newly(st, e) && ip !in ready ==>
          ip in FromScratch(st.pools - {e.name}, p) && !(p == q && ip in Withdrawn(st, e)))
  }

  /** One protocol: sets as they are and as they should be. */
  lemma SameSetsIff(rest: set<string>, held: set<string>, gone: set<string>, news: set<string>, own: set<string>,
                    ready: set<string>)
    requires gone <= held && news <= own && held - gone <= own && own <= news + (held - gone)
    ensures ((rest + held) - gone) + news * ready == rest + own <==>
      && (forall ip :: ip in gone && ip in rest ==> ip in news && ip in ready)
      && (forall ip :: ip in news && ip !in ready ==> (ip in rest || ip in held) && ip !in gone)
  {
    var now, due := ((rest + held) - gone) + news * ready, rest + own;
    if now == due {
      assert forall ip :: ip in due ==> ip in now;
    }
  }

  /** The sets of one protocol before and after an event fit `SameSetsIff`. */
  lemma EventSets(st: State, e: Eip, ready: set<string>, p: string)
    requires Registered(st) && InStep(st) && GetProtocol(e) in st.announced && p in st.announced
    ensures var next, rest := Handled(st, e, ready), FromScratch(st.pools - {e.name}, p);
      var gone := Only(p, HeldProtocol(st, e), Withdrawn(st, e));
      var news := Only(p, GetProtocol(e), Newly(st, e));
      && p in next.announced
      && (next.announced[p] == FromScratch(next.pools, p) <==>
            && (forall ip :: ip in gone && ip in rest ==> ip in news && ip in ready)
            && (forall ip :: ip in news && ip !in ready ==> ip in rest && ip !in gone))
  {
    var rest := FromScratch(st.pools - {e.name}, p);
    var held := if e.name in st.pools then Share(st.pools[e.name], p) else {};
    HandledAnnounced(st, e, ready, p);
    HandledDue(st, e, ready, p);
    PoolsAfter(st, e, p);
    SameSetsIff(rest, held, Only(p, HeldProtocol(st, e), Withdrawn(st, e)), Only(p, GetProtocol(e), Newly(st, e)),
                ShareAfter(st, e, p), ready);
  }

  /** Over any pools, overlapping or not, one event keeps the announcements in step if and only if nothing is lost. */
  lemma EventInStepIff(st: State, e: Eip, ready: set<string>)
    requires Registered(st) && InStep(st) && GetProtocol(e) in st.announced
    ensures InStep(Handled(st, e, ready)) <==> NothingLost(st, e, ready)
  {
    var next, p, q := Handled(st, e, ready), GetProtocol(e), HeldProtocol(st, e);
    HandledKeys(st, e, ready);
    EventSets(st, e, ready, p);
    EventSets(st, e, ready, q);
    forall r | r in next.announced && r != p && r != q ensures next.announced[r] == FromScratch(next.pools, r) {
      EventSets(st, e, ready, r);
    }
  }

  lemma HandledKeys(st: State, e: Eip, ready: set<string>)
    requires Registered(st)
    ensures Handled(st, e, ready).announced.Keys == st.announced.Keys
    ensures GetProtocol(e) in st.announced ==> HeldProtocol(st, e) in st.announced
  {
    if e.name in st.pools { assert GetProtocol(st.pools[e.name]) in st.announced; }
  }

  /** For a deletion that means: no other held pool of the protocol uses one of the pool's addresses. */
  lemma DeletionInStepIff(st: State, e: Eip, ready: set<string>)
    requires Registered(st) && InStep(st) && GetProtocol(e) in st.announced && e.name in st.pools && e.deleting
    ensures var held := st.pools[e.name];
      InStep(Handled(st, e, ready)) <==>
        forall n :: n in st.pools && n != e.name && GetProtocol(st.pools[n]) == GetProtocol(held) ==>
          st.pools[n].used.Keys !! held.used.Keys
  {
    var held, rest := st.pools[e.name], st.pools - {e.name};
    var q := GetProtocol(held);
    EventInStepIff(st, e, ready);
    if n :| n in rest && Serves(q, rest[n].protocol) && !(rest[n].used.Keys !! held.used.Keys) {
      var ip :| ip in rest[n].used && ip in held.used;
      assert ip in FromScratch(rest, q) && ip in Withdrawn(st, e);
      assert n in st.pools && !(st.pools[n].used.Keys !! held.used.Keys);
    } else {
      forall ip | ip in FromScratch(rest, q) ensures ip !in held.used {
        var n :| n in rest && Serves(q, rest[n].protocol) && ip in rest[n].used;
      }
      forall n | n in st.pools && n != e.name && GetProtocol(st.pools[n]) == q
        ensures st.pools[n].used.Keys !! held.used.Keys
      {
        assert n in rest;
      }
    }
  }

  // ---------------------------------------------------------------- failure and retry

  /** `some` lies between `all` applied and nothing applied. */
  ghost predicate Between(low: set<string>, some: set<string>, high: set<string>) {
    low <= some <= high
  }

  /** `t` differs from `s` at most in what the speaker of `p` announces, which lies between the bounds. */
  ghost predicate Moved(s: State, t: State, p: string, low: set<string>, high: set<string>)
    requires p in s.announced
  {
    && t.pools == s.pools && p in t.announced
    && t.announced == s.announced[p := t.announced[p]] && Between(low, t.announced[p], high)
  }

  /** Where a `HandleEIP` that failed may have left the manager. */
  ghost predicate Partial(s: State, t: State, e: Eip, ready: set<string>)
    requires Registered(s)
  {
    var p, news := GetProtocol(e), Newly(s, e) * ready;
    if p !in s.announced then t == s
    else if e.name !in s.pools then Moved(s, t, p, s.announced[p], s.announced[p] + news)
    else
      var held := s.pools[e.name];
      var q := GetProtocol(held);
      if e.deleting then Moved(s, t, q, s.announced[q] - held.used.Keys, s.announced[q])
      else if IsSpeakerConfigUpdate(e, held) then
        || Moved(s, t, q, s.announced[q] - held.used.Keys, s.announced[q])
        || (var d := Drop(Withdraw(s, q, held.used.Keys), e.name);
            Moved(d, t, p, d.announced[p], d.announced[p] + news))
      else e.used != held.used && Moved(s, t, p, s.announced[p] - (held.used.Keys - e.used.Keys), s.announced[p] + news)
  }

  /** After a move, one more write of the same speaker's set makes the states equal. */
  lemma MovedAway(s: State, t: State, p: string, low: set<string>, high: set<string>, all: set<string>)
    requires p in s.announced && Moved(s, t, p, low, high)
    ensures t.(announced := t.announced[p := all]) == s.(announced := s.announced[p := all])
  {
  }

  /** A failed attempt changes nothing about where a successful one will end. */
  lemma PartialKeepsGoal(s: State, t: State, e: Eip, ready: set<string>)
    requires Registered(s) && Partial(s, t, e, ready)
    ensures Registered(t) && t.announced.Keys == s.announced.Keys && Handled(t, e, ready) == Handled(s, e, ready)
  {
    var p, news := GetProtocol(e), Newly(s, e) * ready;
    if p in s.announced && e.name !in s.pools {
      assert t.announced[p] + news == s.announced[p] + news;
      MovedAway(s, t, p, s.announced[p], s.announced[p] + news, s.announced[p] + news);
    } else if p in s.announced {
      var held := s.pools[e.name];
      var q, gone := GetProtocol(held), held.used.Keys;
      assert q in s.announced;
      var d := Drop(Withdraw(s, q, gone), e.name);
      if e.deleting || (IsSpeakerConfigUpdate(e, held) && e.name in t.pools) {
        assert t.announced[q] - gone == s.announced[q] - gone;
        MovedAway(s, t, q, s.announced[q] - gone, s.announced[q], s.announced[q] - gone);
      } else if IsSpeakerConfigUpdate(e, held) {
        assert t.announced[p] + news == d.announced[p] + news;
        MovedAway(d, t, p, d.announced[p], d.announced[p] + news, d.announced[p] + news);
      } else {
        var less := gone - e.used.Keys;
        var goal := s.announced[p] - less + news;
        assert t.announced[p] - less + news == goal;
        MovedAway(s, t, p, s.announced[p] - less, s.announced[p] + news, goal);
        assert Announce(Withdraw(t, p, less), p, news) == t.(announced := t.announced[p := goal]);
        assert Announce(Withdraw(s, p, less), p, news) == s.(announced := s.announced[p := goal]);
      }
    }
  }

  /**
    An event that leaves the protocol and, where the speaker needs it, the interface alone never
    interrupts an address: used before and after, it stays announced at the end and in every failed
    attempt on the way.
   */
  lemma KeptAddressesStay(s: State, t: State, e: Eip, ready: set<string>, ip: string)
    requires Registered(s) && e.name in s.pools && !e.deleting
    requires var held := s.pools[e.name];
      e.protocol == held.protocol && (e.protocol == "bgp" || e.iface == held.iface) && ip in held.used && ip in e.used
    ensures Partial(s, t, e, ready) || t == Handled(s, e, ready) ==>
      forall p :: p in s.announced && ip in s.announced[p] ==> p in t.announced && ip in t.announced[p]
  {
    assert GetProtocol(s.pools[e.name]) in s.announced;
  }

  /** Retrying the same pool until it succeeds ends where one error-free call would have ended. */
  lemma {:induction false} RetryReachesGoal(attempts: seq<State>, e: Eip, ready: set<string>)
    requires attempts != [] && Registered(attempts[0])
    requires forall i :: 0 <= i < |attempts| - 1 && Registered(attempts[i]) ==>
      Partial(attempts[i], attempts[i + 1], e, ready)
    ensures var last := attempts[|attempts| - 1];
      Registered(last) && Handled(last, e, ready) == Handled(attempts[0], e, ready)
    decreases |attempts|
  {
    if |attempts| > 1 {
      PartialKeepsGoal(attempts[0], attempts[1], e, ready);
      RetryReachesGoal(attempts[1..], e, ready);
    }
  }

  // ---------------------------------------------------------------- the manager

  /** `util.DiffMaps`. */
  method DiffMaps(before: map<string, string>, after: map<string, string>)
    returns (add: map<string, string>, del: map<string, string>)
    ensures add == map k | k in after && k !in before :: after[k]
    ensures del == map k | k in before && k !in after :: before[k]
  {
    add := KeysMissing(after, before);
    del := KeysMissing(before, after);
  }

  /** One loop of `DiffMaps`: the entries of `from` whose key `other` lacks. */
  method KeysMissing(from: map<string, string>, other: map<string, string>) returns (r: map<string, string>)
    ensures r == map k | k in from && k !in other :: from[k]
  {
    r := map[];
    var todo := from.Keys;
    while todo != {}
      invariant todo <= from.Keys
      invariant r == map k | k in from && k !in other && k !in todo :: from[k]
      decreases todo
    {
      var k :| k in todo;
      if k !in other { r := r[k := from[k]]; }
      todo := todo - {k};
    }
  }

  class Manager {
    var pools: map<string, Eip>
    var announced: map<string, set<string>>

    ghost function Value(): State
      reads this
    {
      State(pools, announced)
    }

    constructor (protocols: set<string>)
      ensures Value() == State(map[], map p | p in protocols :: {})
      ensures Registered(Value()) && InStep(Value())
    {
      pools := map[];
      announced := map p | p in protocols :: {};
    }

    /** A call of the speaker's `SetBalancer`; a failed call may have taken effect. */
    method SpeakerSet(protocol: string, ip: string, healthy: bool) returns (ok: bool)
      requires protocol in announced
      modifies this`announced
      ensures protocol in announced && announced == old(announced)[protocol := announced[protocol]]
      ensures announced[protocol] == old(announced)[protocol] + {ip}
           || (!ok && announced[protocol] == old(announced)[protocol])
      ensures healthy ==> ok
    {
      ok := *;
      ok := ok || healthy;
      var effect: bool := *;
      if ok || effect { announced := announced[protocol := announced[protocol] + {ip}]; }
    }

    /** A call of the speaker's `DelBalancer`; a failed call may have taken effect. */
    method SpeakerDel(protocol: string, ip: string, healthy: bool) returns (ok: bool)
      requires protocol in announced
      modifies this`announced
      ensures protocol in announced && announced == old(announced)[protocol := announced[protocol]]
      ensures announced[protocol] == old(announced)[protocol] - {ip}
           || (!ok && announced[protocol] == old(announced)[protocol])
      ensures healthy ==> ok
    {
      ok := *;
      ok := ok || healthy;
      var effect: bool := *;
      if ok || effect { announced := announced[protocol := announced[protocol] - {ip}]; }
    }

    method SetBalancer(protocol: string, usage: map<string, string>, ready: set<string>, healthy: bool)
      returns (ok: bool)
      requires protocol in announced
      modifies this`announced
      ensures healthy ==> ok
      ensures ok ==> Value() == Announce(old(Value()), protocol, usage.Keys * ready)
      ensures var was := old(announced)[protocol];
        !ok ==> Moved(old(Value()), Value(), protocol, was, was + usage.Keys * ready)
    {
      ghost var before := announced[protocol];
      var todo := usage.Keys;
      while todo != {}
        invariant todo <= usage.Keys && protocol in announced
        invariant announced == old(announced)[protocol := announced[protocol]]
        invariant announced[protocol] == before + (usage.Keys - todo) * ready
        decreases todo
      {
        var ip :| ip in todo;
        var read: bool := *;
        if !read && !healthy { return false; }
        if ip in ready {
          ok := SpeakerSet(protocol, ip, healthy);
          if !ok { return false; }
        }
        todo := todo - {ip};
      }
      assert (usage.Keys - todo) * ready == usage.Keys * ready;
      return true;
    }

    method DelBalancer(protocol: string, usage: map<string, string>, healthy: bool) returns (ok: bool)
      requires protocol in announced
      modifies this`announced
      ensures healthy ==> ok
      ensures ok ==> Value() == Withdraw(old(Value()), protocol, usage.Keys)
      ensures var was := old(announced)[protocol];
        !ok ==> Moved(old(Value()), Value(), protocol, was - usage.Keys, was)
    {
      ghost var before := announced[protocol];
      var todo := usage.Keys;
      while todo != {}
        invariant todo <= usage.Keys && protocol in announced
        invariant announced == old(announced)[protocol := announced[protocol]]
        invariant announced[protocol] == before - (usage.Keys - todo)
        decreases todo
      {
        var ip :| ip in todo;
        ok := SpeakerDel(protocol, ip, healthy);
        if !ok { return false; }
        todo := todo - {ip};
      }
      assert usage.Keys - todo == usage.Keys;
      return true;
    }

    /** Configures the speaker for the pool, then announces its addresses. */
    method SetBalancerWithEIP(e: Eip, ready: set<string>, healthy: bool) returns (ok: bool)
      requires GetProtocol(e) in announced
      modifies this`announced
      ensures healthy ==> ok
      ensures var p := GetProtocol(e);
        && (ok ==> Value() == Announce(old(Value()), p, e.used.Keys * ready))
        && (!ok ==> Moved(old(Value()), Value(), p, old(announced)[p], old(announced)[p] + e.used.Keys * ready))
    {
      var configured: bool := *;
      if !configured && !healthy { return false; }
      ok := SetBalancer(GetProtocol(e), e.used, ready, healthy);
    }

    /** Withdraws the pool's addresses, then removes it from the speaker's configuration. */
    method DelBalancerWithEIP(e: Eip, healthy: bool) returns (ok: bool)
      requires GetProtocol(e) in announced
      modifies this`announced
      ensures healthy ==> ok
      ensures var p := GetProtocol(e);
        && (ok ==> Value() == Withdraw(old(Value()), p, e.used.Keys))
        && (!ok ==> Moved(old(Value()), Value(), p, old(announced)[p] - e.used.Keys, old(announced)[p]))
    {
      ok := DelBalancer(GetProtocol(e), e.used, healthy);
      if !ok { return false; }
      var configured: bool := *;
      return configured || healthy;
    }

    /** `HandleEIP` from the lookup of the held pool on. */
    method Apply(e: Eip, ready: set<string>, healthy: bool) returns (ok: bool)
      requires Registered(Value()) && GetProtocol(e) in announced
      modifies this
      ensures healthy ==> ok
      ensures Registered(Value()) && announced.Keys == old(announced.Keys)
      ensures ok ==> Value() == Handled(old(Value()), e, ready)
      ensures !ok ==> Partial(old(Value()), Value(), e, ready)
    {
      var p := GetProtocol(e);
      if e.name !in pools {
        ok := SetBalancerWithEIP(e, ready, healthy);
        if !ok { return false; }
        pools := pools[e.name := e];
        return true;
      }
      var held := pools[e.name];
      if e.deleting {
        ok := DelBalancerWithEIP(held, healthy);
        if !ok { return false; }
        pools := pools - {e.name};
        return true;
      }
      if IsSpeakerConfigUpdate(e, held) {
        ok := DelBalancerWithEIP(held, healthy);
        if !ok { return false; }
        pools := pools - {e.name};
        ok := SetBalancerWithEIP(e, ready, healthy);
        if !ok { return false; }
        pools := pools[e.name := e];
        return true;
      }
      if e.used != held.used {
        var add, del := DiffMaps(held.used, e.used);
        assert add.Keys == e.used.Keys - held.used.Keys && del.Keys == held.used.Keys - e.used.Keys;
        ok := DelBalancer(p, del, healthy);
        if !ok { return false; }
        ok := SetBalancer(p, add, ready, healthy);
        if !ok { return false; }
        pools := pools[e.name := e];
      }
      return true;
    }

    /**
      One event; success is the whole event, failure a state from which a retry reaches the same end.
      Only an unregistered protocol makes it fail in a healthy environment. A success leaves every
      speaker announcing the addresses of the pools it serves exactly if nothing was lost.
     */
    method HandleEIP(e: Eip, ready: set<string>, healthy: bool) returns (ok: bool)
      requires Registered(Value())
      modifies this
      ensures Registered(Value()) && announced.Keys == old(announced.Keys)
      ensures healthy ==> (ok <==> exists p :: p in announced && Serves(p, e.protocol))
      ensures ok ==> Value() == Handled(old(Value()), e, ready) && GetProtocol(e) in announced
      ensures ok && InStep(old(Value())) ==> (InStep(Value()) <==> NothingLost(old(Value()), e, ready))
      ensures !ok ==> Partial(old(Value()), Value(), e, ready)
    {
      assert forall p :: p in announced && Serves(p, e.protocol) ==> p == GetProtocol(e);
      if GetProtocol(e) !in announced { return false; }
      if InStep(Value()) { EventInStepIff(Value(), e, ready); }
      ok := Apply(e, ready, healthy);
    }

    /**
      Retries until the first success, at the latest in a healthy environment: the end is that of one
      error-free call.
     */
    method HandleUntilSuccess(e: Eip, ready: set<string>, health: seq<bool>) returns (ok: bool)
      requires Registered(Value())
      modifies this
      ensures Registered(Value())
      ensures true in health && GetProtocol(e) in old(announced) ==> ok
      ensures ok ==> Value() == Handled(old(Value()), e, ready)
      ensures !ok ==> Handled(Value(), e, ready) == Handled(old(Value()), e, ready)
    {
      ok := false;
      for i := 0 to |health|
        invariant !ok && Registered(Value()) && announced.Keys == old(announced.Keys)
        invariant GetProtocol(e) in announced ==> true !in health[..i]
        invariant Handled(Value(), e, ready) == Handled(old(Value()), e, ready)
      {
        ghost var before := Value();
        ok := HandleEIP(e, ready, health[i]);
        if ok { return true; }
        assert health[..i + 1] == health[..i] + [health[i]];
        PartialKeepsGoal(before, Value(), e, ready);
      }
    }
  }
}
