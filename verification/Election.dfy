/**
  The layer-2 election of pkg/speaker/layer2/memberlist.go: every node ranks the candidates it can
  see by the hash of node and address, and announces the address if it is first. The cluster is a
  state machine with one view of the membership per node.
 */
module Election {
  import opened Basics
  import opened Net

  /** The order of hashes, as an integer. */
  function Rank(sha256: string -> Digest, node: string, ip: string): nat {
    Big(sha256(node + "#" + ip))
  }

  /** The comparison the sort uses: byte-wise on the digests. */
  predicate Before(sha256: string -> Digest, ip: string, m: string, n: string) {
    Compare(sha256(m + "#" + ip), sha256(n + "#" + ip)) < 0
  }

  lemma BeforeIsRank(sha256: string -> Digest, ip: string, m: string, n: string)
    ensures Before(sha256, ip, m, n) <==> Rank(sha256, m, ip) < Rank(sha256, n, ip)
  {
    CompareIsOrder(sha256(m + "#" + ip), sha256(n + "#" + ip));
  }

  function SortByHash(sha256: string -> Digest, ip: string, nodes: seq<string>): (r: seq<string>)
    ensures multiset(r) == multiset(nodes) && |r| == |nodes|
  {
    if nodes == [] then []
    else
      assert nodes == [nodes[0]] + nodes[1..];
      InsertByHash(sha256, ip, nodes[0], SortByHash(sha256, ip, nodes[1..]))
  }

  function InsertByHash(sha256: string -> Digest, ip: string, x: string, s: seq<string>): (r: seq<string>)
    ensures multiset(r) == multiset(s) + multiset{x} && |r| == |s| + 1
  {
    if s == [] then [x]
    else
      assert s == [s[0]] + s[1..];
      if !Before(sha256, ip, s[0], x) then [x] + s else [s[0]] + InsertByHash(sha256, ip, x, s[1..])
  }

  /** `node` ranks first among `nodes`. */
  ghost predicate Wins(sha256: string -> Digest, ip: string, nodes: set<string>, node: string) {
    node in nodes && forall n :: n in nodes ==> Rank(sha256, node, ip) <= Rank(sha256, n, ip)
  }

  /** No two of the nodes hash alike for this address. */
  ghost predicate Injective(sha256: string -> Digest, ip: string, nodes: set<string>) {
    forall m, n :: m in nodes && n in nodes && Rank(sha256, m, ip) == Rank(sha256, n, ip) ==> m == n
  }

  lemma {:induction false} SortedHeadWins(sha256: string -> Digest, ip: string, nodes: seq<string>)
    requires nodes != []
    ensures Wins(sha256, ip, (set n | n in nodes), SortByHash(sha256, ip, nodes)[0])
  {
    var x, rest := nodes[0], SortByHash(sha256, ip, nodes[1..]);
    assert nodes == [x] + nodes[1..];
    if rest != [] {
      SortedHeadWins(sha256, ip, nodes[1..]);
      BeforeIsRank(sha256, ip, rest[0], x);
    }
  }

  /** Whatever the order of the candidate list, the node sorted first is the one that wins. */
  lemma ElectionIsWinner(sha256: string -> Digest, ip: string, nodes: seq<string>, node: string)
    requires nodes != [] && Injective(sha256, ip, set n | n in nodes)
    ensures SortByHash(sha256, ip, nodes)[0] == node <==> Wins(sha256, ip, (set n | n in nodes), node)
  {
    SortedHeadWins(sha256, ip, nodes);
  }

  lemma {:induction false} SomeoneWins(sha256: string -> Digest, ip: string, nodes: set<string>) returns (node: string)
    requires nodes != {}
    ensures Wins(sha256, ip, nodes, node)
    decreases |nodes|
  {
    node :| node in nodes;
    var rest := nodes - {node};
    if rest != {} {
      var best := SomeoneWins(sha256, ip, rest);
      assert nodes == rest + {node};
      if Rank(sha256, best, ip) <= Rank(sha256, node, ip) { node := best; }
    } else {
      assert nodes == {node};
    }
  }

  // ---------------------------------------------------------------- the cluster

  /** What every node knows and does: who is alive, whom each node sees, what it announces and has resynced. */
  datatype Cluster = Cluster(
    live: set<string>, views: map<string, set<string>>,
    announcing: set<(string, string)>, synced: set<(string, string)>)

  /** What stays fixed during a run. */
  datatype Setting = Setting(sha256: string -> Digest, candidates: string -> set<string>)

  datatype Event =
    | Leave(node: string)
    | Forget(node: string, gone: string)
    | Resync(node: string, ip: string)
    | Stop(node: string, ip: string)

  /** `SetBalancer` on one node: the winner among the candidates it sees starts announcing, others do nothing. */
  ghost function ResyncStep(k: Setting, c: Cluster, node: string, ip: string): Cluster {
    if node !in c.live || node !in c.views then c
    else
      var won := WinsInView(k, c, node, ip);
      c.(announcing := if won then c.announcing + {(node, ip)} else c.announcing, synced := c.synced + {(node, ip)})
  }

  ghost function Step(k: Setting, c: Cluster, e: Event): Cluster {
    match e
    case Leave(node) =>
      c.(live := c.live - {node}, announcing := set x | x in c.announcing && x.0 != node)
    case Forget(node, gone) =>
      if gone in c.live || node !in c.views then c
      else c.(views := c.views[node := c.views[node] - {gone}], synced := set x | x in c.synced && x.0 != node)
    case Resync(node, ip) => ResyncStep(k, c, node, ip)
    case Stop(node, ip) =>
      c.(announcing := c.announcing - {(node, ip)}, synced := c.synced - {(node, ip)})
  }

  ghost function Run(k: Setting, c: Cluster, events: seq<Event>): Cluster
    decreases |events|
  {
    if events == [] then c else Run(k, Step(k, c, events[0]), events[1..])
  }

  /** Everybody sees everybody and nothing is announced. */
  function Initial(nodes: set<string>): Cluster {
    Cluster(nodes, map n | n in nodes :: nodes, {}, {})
  }

  /** The node ranks first among the candidates it sees. */
  ghost predicate WinsInView(k: Setting, c: Cluster, node: string, ip: string) {
    node in c.views && Wins(k.sha256, ip, k.candidates(ip) * c.views[node], node)
  }

  /** Views never miss a live node, announcers win among the living, and resynced winners announce. */
  ghost predicate Inv(k: Setting, c: Cluster) {
    && (forall n :: n in c.live ==> n in c.views && c.live <= c.views[n])
    && (forall x :: x in c.announcing ==> x.0 in c.live && Wins(k.sha256, x.1, k.candidates(x.1) * c.live, x.0))
    && (forall x :: x in c.synced && x.0 in c.live && WinsInView(k, c, x.0, x.1) ==> x in c.announcing)
  }

  lemma StepKeeps(k: Setting, c: Cluster, e: Event)
    requires Inv(k, c)
    ensures Inv(k, Step(k, c, e))
  {
  }

  lemma {:induction false} RunKeeps(k: Setting, c: Cluster, events: seq<Event>)
    requires Inv(k, c)
    ensures Inv(k, Run(k, c, events))
    decreases |events|
  {
    if events != [] {
      StepKeeps(k, c, events[0]);
      RunKeeps(k, Step(k, c, events[0]), events[1..]);
    }
  }

  /**
    Safety. While members only leave and views drop a member only after it has left, at most one
    node announces an address in every reachable state, however stale the views are.
   */
  lemma AtMostOneAnnouncer(k: Setting, nodes: set<string>, events: seq<Event>, ip: string, m: string, n: string)
    requires Injective(k.sha256, ip, k.candidates(ip))
    requires var c := Run(k, Initial(nodes), events); (m, ip) in c.announcing && (n, ip) in c.announcing
    ensures m == n
  {
    RunKeeps(k, Initial(nodes), events);
  }

  /** Every live node sees exactly the living and has resynced the address since. */
  ghost predicate Quiescent(c: Cluster, ip: string) {
    forall n :: n in c.live ==> n in c.views && c.views[n] == c.live && (n, ip) in c.synced
  }

  /** Once all views are current and all nodes have resynced, exactly the winner announces. */
  lemma ExactlyOneAnnouncer(k: Setting, nodes: set<string>, events: seq<Event>, ip: string) returns (winner: string)
    requires Injective(k.sha256, ip, k.candidates(ip))
    requires var c := Run(k, Initial(nodes), events); Quiescent(c, ip) && k.candidates(ip) * c.live != {}
    ensures var c := Run(k, Initial(nodes), events);
      && Wins(k.sha256, ip, k.candidates(ip) * c.live, winner)
      && forall n :: (n, ip) in c.announcing <==> n == winner
  {
    RunKeeps(k, Initial(nodes), events);
    winner := WinnerAnnounces(k, Run(k, Initial(nodes), events), ip);
  }

  lemma WinnerAnnounces(k: Setting, c: Cluster, ip: string) returns (winner: string)
    requires Injective(k.sha256, ip, k.candidates(ip)) && Inv(k, c) && Quiescent(c, ip)
    requires k.candidates(ip) * c.live != {}
    ensures Wins(k.sha256, ip, k.candidates(ip) * c.live, winner)
    ensures forall n :: (n, ip) in c.announcing <==> n == winner
  {
    winner := SomeoneWins(k.sha256, ip, k.candidates(ip) * c.live);
    assert (winner, ip) in c.synced;
    forall n | (n, ip) in c.announcing ensures n == winner {
      assert Wins(k.sha256, ip, k.candidates(ip) * c.live, n);
    }
  }

  // ---------------------------------------------------------------- failover and withdrawal

  /** Each survivor in turn notices that `gone` has left and resyncs. */
  function Noticing(survivors: seq<string>, gone: string, ip: string): seq<Event> {
    if survivors == [] then []
    else [Forget(survivors[0], gone), Resync(survivors[0], ip)] + Noticing(survivors[1..], gone, ip)
  }

  /** The node sees exactly the living and has resynced the address since. */
  ghost predicate CaughtUp(c: Cluster, n: string, ip: string) {
    n in c.views && c.views[n] == c.live && (n, ip) in c.synced
  }

  /** Every live node sees the living and at most `gone` beside them. */
  ghost predicate OneBehind(c: Cluster, gone: string) {
    forall n :: n in c.live ==> n in c.views && c.live <= c.views[n] <= c.live + {gone}
  }

  lemma NoticeOne(k: Setting, c: Cluster, n: string, gone: string, ip: string)
    requires n in c.live && gone !in c.live && OneBehind(c, gone)
    ensures var d := Step(k, Step(k, c, Forget(n, gone)), Resync(n, ip));
      && d.live == c.live && OneBehind(d, gone) && CaughtUp(d, n, ip)
      && forall m :: CaughtUp(c, m, ip) ==> CaughtUp(d, m, ip)
  {
  }

  lemma {:induction false} NoticingCatchesUp(k: Setting, c: Cluster, survivors: seq<string>, gone: string, ip: string)
    requires gone !in c.live && OneBehind(c, gone) && forall n :: n in survivors ==> n in c.live
    ensures var d := Run(k, c, Noticing(survivors, gone, ip));
      && d.live == c.live
      && (forall n :: n in survivors ==> CaughtUp(d, n, ip))
      && (forall n :: CaughtUp(c, n, ip) ==> CaughtUp(d, n, ip))
    decreases |survivors|
  {
    if survivors != [] {
      var n, rest := survivors[0], Noticing(survivors[1..], gone, ip);
      NoticeOne(k, c, n, gone, ip);
      var d := Step(k, Step(k, c, Forget(n, gone)), Resync(n, ip));
      NoticingCatchesUp(k, d, survivors[1..], gone, ip);
      var events := Noticing(survivors, gone, ip);
      assert events[1..][1..] == rest && events[0] == Forget(n, gone) && events[1..][0] == Resync(n, ip);
      assert Run(k, c, events) == Run(k, d, rest);
    }
  }

  /**
    Failover. After any run that has settled, once a node leaves and each survivor, in any order, has
    noticed it and resynced, exactly the node that ranks first among the remaining candidates announces.
   */
  lemma FailOver(k: Setting, nodes: set<string>, events: seq<Event>, gone: string, survivors: seq<string>, ip: string)
    returns (winner: string)
    requires Injective(k.sha256, ip, k.candidates(ip)) && Quiescent(Run(k, Initial(nodes), events), ip)
    requires var live := Run(k, Initial(nodes), events).live;
      (forall n :: n in survivors <==> n in live - {gone}) && k.candidates(ip) * (live - {gone}) != {}
    ensures var c := Run(k, Initial(nodes), events);
      var d := Run(k, Step(k, c, Leave(gone)), Noticing(survivors, gone, ip));
      && Wins(k.sha256, ip, k.candidates(ip) * (c.live - {gone}), winner)
      && forall n :: (n, ip) in d.announcing <==> n == winner
  {
    var c := Run(k, Initial(nodes), events);
    var left := Step(k, c, Leave(gone));
    RunKeeps(k, Initial(nodes), events);
    StepKeeps(k, c, Leave(gone));
    RunKeeps(k, left, Noticing(survivors, gone, ip));
    NoticingCatchesUp(k, left, survivors, gone, ip);
    var d := Run(k, left, Noticing(survivors, gone, ip));
    assert forall n :: n in d.live ==> CaughtUp(d, n, ip);
    winner := WinnerAnnounces(k, d, ip);
  }

  function Stops(nodes: seq<string>, ip: string): seq<Event> {
    if nodes == [] then [] else [Stop(nodes[0], ip)] + Stops(nodes[1..], ip)
  }

  /** Withdrawing an address on some nodes takes away exactly their announcements of it. */
  lemma {:induction false} Withdrawal(k: Setting, c: Cluster, nodes: seq<string>, ip: string)
    ensures var d := Run(k, c, Stops(nodes, ip));
      d.live == c.live && d.views == c.views &&
      forall x :: x in d.announcing <==> x in c.announcing && !(x.0 in nodes && x.1 == ip)
    decreases |nodes|
  {
    if nodes != [] {
      assert Stops(nodes, ip)[1..] == Stops(nodes[1..], ip);
      Withdrawal(k, Step(k, c, Stop(nodes[0], ip)), nodes[1..], ip);
      assert nodes == [nodes[0]] + nodes[1..];
    }
  }

  // ---------------------------------------------------------------- joining nodes

  /** A node joins and everybody sees it at once. */
  function Joined(c: Cluster, node: string): Cluster {
    var live := c.live + {node};
    c.(live := live, views := map n | n in live :: live)
  }

  ghost predicate AtMostOne(c: Cluster, ip: string) {
    forall m, n :: (m, ip) in c.announcing && (n, ip) in c.announcing ==> m == n
  }

  /**
    Joins are outside the guarantee: a loser does not withdraw. When a candidate joins a settled
    cluster and resyncs, the address keeps a single announcer exactly when the newcomer ranks behind
    the present one, and no resync of any node afterwards changes that.
   */
  lemma JoinKeepsSingleIff(k: Setting, c: Cluster, ip: string, holder: string, newcomer: string, other: string)
    requires Injective(k.sha256, ip, k.candidates(ip)) && Inv(k, c)
    requires newcomer !in c.live && newcomer in k.candidates(ip)
    requires forall n :: (n, ip) in c.announcing <==> n == holder
    ensures var e := ResyncStep(k, Joined(c, newcomer), newcomer, ip);
      && (AtMostOne(e, ip) <==> Rank(k.sha256, holder, ip) < Rank(k.sha256, newcomer, ip))
      && (AtMostOne(ResyncStep(k, e, other, ip), ip) <==> AtMostOne(e, ip))
  {
    var d := Joined(c, newcomer);
    var e := ResyncStep(k, d, newcomer, ip);
    assert (holder, ip) in c.announcing && Wins(k.sha256, ip, k.candidates(ip) * c.live, holder);
    assert holder in c.live && holder != newcomer;
    var rivals := k.candidates(ip) * d.views[newcomer];
    assert holder in rivals && newcomer in rivals;
    assert rivals <= k.candidates(ip) * c.live + {newcomer};
    if Rank(k.sha256, newcomer, ip) < Rank(k.sha256, holder, ip) {
      assert Wins(k.sha256, ip, rivals, newcomer);
      assert (holder, ip) in e.announcing && (newcomer, ip) in e.announcing;
      assert forall x :: x in e.announcing ==> x in ResyncStep(k, e, other, ip).announcing;
    } else {
      assert other in rivals && other != newcomer ==> other in k.candidates(ip) * c.live;
    }
  }
}
