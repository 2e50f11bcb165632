/**
  Do all nodes give a VRRP instance the same router identifier? Every node allocates by itself, in the
  order in which it learns of the instances (pkg/speaker/vip/keepalived.go:92-106 over
  pkg/util/idalloc/idalloc.go:73-98), so the question is whether that order matters.
 */
module RouteAgreement {
  import opened Basics
  import opened IdAlloc
  import opened Vip

  // ---------------------------------------------------------------- serving requests in order

  /** The first free identifier at or after the `k`-th probe. */
  ghost function Grant(ids: set<nat>, start: nat, n: nat, k: nat): Allocation
    requires n > 0
    decreases n - k
  {
    if k >= n then Exhausted
    else if Probe(start, k, n) !in ids then Granted(Probe(start, k, n))
    else Grant(ids, start, n, k + 1)
  }

  lemma {:induction false} GrantIs(ids: set<nat>, start: nat, n: nat, k: nat)
    requires n > 0
    ensures var r := Grant(ids, start, n, k);
      && (r.Exhausted? <==> forall j: nat :: k <= j < n ==> Probe(start, j, n) in ids)
      && (r.Granted? ==> r.id < n && r.id !in ids)
    decreases n - k
  {
    if k < n && Probe(start, k, n) in ids { GrantIs(ids, start, n, k + 1); }
  }

  /** The identifier first free in probing order is the one granted. */
  lemma {:induction false} FirstFreeIsGrant(ids: set<nat>, start: nat, n: nat, k: nat, m: nat)
    requires 0 < n && k <= m < n && Probe(start, m, n) !in ids
    requires forall j: nat :: k <= j < m ==> Probe(start, j, n) in ids
    ensures Grant(ids, start, n, k) == Granted(Probe(start, m, n))
    decreases m - k
  {
    if k < m { FirstFreeIsGrant(ids, start, n, k + 1, m); }
  }

  ghost function Request(name: InstanceName, ids: set<nat>, n: nat): Allocation
    requires n > 0
  {
    Grant(ids, Start(name.digest) % n, n, 0)
  }

  ghost function Taken(ids: set<nat>, a: Allocation): set<nat> {
    if a.Granted? then ids + {a.id} else ids
  }

  /** What each instance gets when the instances come in this order. */
  ghost function Serve(ids: set<nat>, names: seq<InstanceName>, n: nat): map<InstanceName, Allocation>
    requires n > 0
    decreases |names|
  {
    if names == [] then map[]
    else
      var a := Request(names[0], ids, n);
      Serve(Taken(ids, a), names[1..], n)[names[0] := a]
  }

  /** The allocator serves requests exactly so. */
  method ServeAll(a: IDAllocator, names: seq<InstanceName>) returns (grants: map<InstanceName, Allocation>)
    requires a.Valid() && a.Capacity() <= PROBE_LIMIT && NoDuplicates(names)
    modifies a
    ensures a.Valid()
    ensures grants == Serve(old(a.Ids()), names, a.Capacity())
  {
    grants := map[];
    ghost var ids, n := a.Ids(), a.Capacity();
    assert names[0..] == names;
    for i := 0 to |names|
      invariant a.Valid()
      invariant forall k :: i <= k < |names| ==> names[k] !in grants
      invariant Serve(ids, names, n) == Serve(a.Ids(), names[i..], n) + grants
    {
      ghost var now := a.Ids();
      var r := Next(a, names[i]);
      ServeStep(now, names, i, n, grants);
      grants := grants[names[i] := r];
    }
  }

  method Next(a: IDAllocator, name: InstanceName) returns (r: Allocation)
    requires a.Valid() && a.Capacity() <= PROBE_LIMIT
    modifies a
    ensures a.Valid() && r == Request(name, old(a.Ids()), a.Capacity()) && a.Ids() == Taken(old(a.Ids()), r)
  {
    ghost var ids := a.Ids();
    r := a.AllocateWithHash(name.digest);
    AllocationIsRequest(ids, name, a.Capacity(), r);
  }

  lemma ServeStep(ids: set<nat>, names: seq<InstanceName>, i: nat, n: nat, grants: map<InstanceName, Allocation>)
    requires n > 0 && i < |names| && names[i] !in grants
    ensures var r := Request(names[i], ids, n);
      Serve(ids, names[i..], n) + grants == Serve(Taken(ids, r), names[i + 1..], n) + grants[names[i] := r]
  {
    assert names[i..][0] == names[i] && names[i..][1..] == names[i + 1..];
  }

  lemma AllocationIsRequest(ids: set<nat>, name: InstanceName, n: nat, r: Allocation)
    requires 0 < n <= PROBE_LIMIT
    requires r.Exhausted? <==> AllTaken(ids, n)
    requires r.Granted? ==> FirstFree(ids, Start(name.digest) % n, n, r.id)
    ensures r == Request(name, ids, n)
  {
    var start := Start(name.digest) % n;
    GrantIs(ids, start, n, 0);
    if r.Granted? {
      var m: nat :| m < n && r.id == Probe(start, m, n) && r.id !in ids &&
        forall j: nat :: j < m ==> Probe(start, j, n) in ids;
      FirstFreeIsGrant(ids, start, n, 0, m);
    }
  }

  // ---------------------------------------------------------------- when the order does not matter

  /** The identifier an instance gets if nobody is in its way; identifier 0 always is. */
  function Home(name: InstanceName, n: nat): nat
    requires n > 0
  {
    if Start(name.digest) % n == 0 then 1 else Start(name.digest) % n
  }

  ghost predicate DistinctHomes(names: seq<InstanceName>, n: nat)
    requires n > 0
  {
    forall i, j :: 0 <= i < j < |names| ==> Home(names[i], n) != Home(names[j], n)
  }

  /** Whatever the order in which the instances come, each gets the same identifier. */
  ghost predicate OrderIrrelevant(names: seq<InstanceName>, n: nat)
    requires n > 0
  {
    forall order: seq<InstanceName> :: multiset(order) == multiset(names) ==>
      Serve({0}, order, n) == Serve({0}, names, n)
  }

  lemma RequestIsHome(name: InstanceName, ids: set<nat>, n: nat)
    requires 2 <= n <= PROBE_LIMIT && 0 in ids
    ensures Home(name, n) !in ids ==> Request(name, ids, n) == Granted(Home(name, n))
    ensures Home(name, n) in ids ==> Request(name, ids, n) != Granted(Home(name, n))
  {
    var start := Start(name.digest) % n;
    ProbeIsCyclic(start, 0, n);
    ProbeIsCyclic(start, 1, n);
    GrantIs(ids, start, n, 0);
    if Home(name, n) !in ids { FirstFreeIsGrant(ids, start, n, 0, if start == 0 then 1 else 0); }
  }

  /** With homes of their own all instances get them. */
  lemma {:induction false} AllGetHomes(ids: set<nat>, names: seq<InstanceName>, n: nat)
    requires 2 <= n <= PROBE_LIMIT && 0 in ids && DistinctHomes(names, n)
    requires forall i :: 0 <= i < |names| ==> Home(names[i], n) !in ids
    ensures Serve(ids, names, n) == map x | x in names :: Granted(Home(x, n))
    decreases |names|
  {
    if names != [] {
      RequestIsHome(names[0], ids, n);
      var rest := names[1..];
      AllGetHomes(ids + {Home(names[0], n)}, rest, n);
      assert names == [names[0]] + rest;
    }
  }

  lemma {:induction false} HomesOfReordering(names: seq<InstanceName>, order: seq<InstanceName>, n: nat)
    requires n > 0 && NoDuplicates(names) && DistinctHomes(names, n) && multiset(order) == multiset(names)
    ensures NoDuplicates(order) && DistinctHomes(order, n)
  {
    forall i, j | 0 <= i < j < |order| ensures order[i] != order[j] && Home(order[i], n) != Home(order[j], n) {
      if order[i] == order[j] {
        TwiceInOrder(order, i, j);
        OnceInNames(names, order[i]);
      }
      assert order[i] in multiset(order) && order[j] in multiset(order);
      assert order[i] in multiset(names) && order[j] in multiset(names);
      var k :| 0 <= k < |names| && names[k] == order[i];
      var l :| 0 <= l < |names| && names[l] == order[j];
    }
  }

  lemma TwiceInOrder(order: seq<InstanceName>, i: nat, j: nat)
    requires i < j < |order| && order[i] == order[j]
    ensures multiset(order)[order[i]] >= 2
  {
    assert order == order[..j] + [order[j]] + order[j + 1..];
    assert order[i] in order[..j];
  }

  lemma {:induction false} OnceInNames(names: seq<InstanceName>, x: InstanceName)
    requires NoDuplicates(names)
    ensures multiset(names)[x] <= 1
  {
    if names != [] {
      OnceInNames(names[1..], x);
      assert names == [names[0]] + names[1..];
      assert names[0] !in names[1..];
    }
  }

  /** Two instances with one home: whoever comes first gets it. */
  lemma FirstComeFirstServed(x: InstanceName, y: InstanceName, others: seq<InstanceName>, n: nat)
    requires 2 <= n <= PROBE_LIMIT && x != y && Home(x, n) == Home(y, n) && x !in others && y !in others
    ensures var first, second := Serve({0}, [x, y] + others, n), Serve({0}, [y, x] + others, n);
      && x in first && first[x] == Granted(Home(x, n))
      && x in second && second[x] != Granted(Home(x, n))
  {
    var ids := {0, Home(x, n)};
    RequestIsHome(x, {0}, n);
    RequestIsHome(y, {0}, n);
    RequestIsHome(x, ids, n);
    assert ([x, y] + others)[1..] == [y] + others && ([y, x] + others)[1..] == [x] + others;
    assert Taken({0}, Granted(Home(y, n))) == ids;
    assert Serve({0}, [y, x] + others, n) == Serve(ids, [x] + others, n)[y := Granted(Home(y, n))];
    assert Serve(ids, [x] + others, n)[x] == Request(x, ids, n);
  }

  function Removed(names: seq<InstanceName>, i: nat): seq<InstanceName>
    requires i < |names|
  {
    names[..i] + names[i + 1..]
  }

  lemma RemovedElements(names: seq<InstanceName>, i: nat)
    requires i < |names|
    ensures multiset(names) == multiset{names[i]} + multiset(Removed(names, i))
  {
    assert names == names[..i] + [names[i]] + names[i + 1..];
  }

  /** Two orders of the same instances that serve one of them differently. */
  lemma ClashDisagrees(names: seq<InstanceName>, i: nat, j: nat, n: nat)
    returns (first: seq<InstanceName>, second: seq<InstanceName>)
    requires 2 <= n <= PROBE_LIMIT && NoDuplicates(names) && i < j < |names| && Home(names[i], n) == Home(names[j], n)
    ensures multiset(first) == multiset(names) == multiset(second)
    ensures Serve({0}, first, n) != Serve({0}, second, n)
  {
    var x, y := names[i], names[j];
    var others := Removed(Removed(names, j), i);
    RemovedElements(names, j);
    RemovedElements(Removed(names, j), i);
    OnceInNames(names, x);
    OnceInNames(names, y);
    assert multiset(names) == multiset{x, y} + multiset(others);
    assert multiset(others)[x] == 0 && multiset(others)[y] == 0;
    FirstComeFirstServed(x, y, others, n);
    return [x, y] + others, [y, x] + others;
  }

  /**
    All nodes give every instance the same router identifier, whatever the order in which each learns
    of the instances, if and only if no two instances have the same home.
   */
  lemma OrderIrrelevantIff(names: seq<InstanceName>, n: nat)
    requires 2 <= n <= PROBE_LIMIT && NoDuplicates(names)
    ensures OrderIrrelevant(names, n) <==> DistinctHomes(names, n)
  {
    if DistinctHomes(names, n) {
      forall order: seq<InstanceName> | multiset(order) == multiset(names)
        ensures Serve({0}, order, n) == Serve({0}, names, n)
      {
        HomesOfReordering(names, order, n);
        AllGetHomes({0}, order, n);
        AllGetHomes({0}, names, n);
        SameElements(order, names);
      }
    } else {
      var i, j :| 0 <= i < j < |names| && Home(names[i], n) == Home(names[j], n);
      var first, second := ClashDisagrees(names, i, j, n);
    }
  }

  lemma SameElements(a: seq<InstanceName>, b: seq<InstanceName>)
    requires multiset(a) == multiset(b)
    ensures forall x :: x in a <==> x in b
  {
    forall x ensures x in a <==> x in b {
      assert x in a <==> x in multiset(a);
      assert x in b <==> x in multiset(b);
    }
  }

  /** One set of nodes announcing on two interfaces is enough: the two instances have one digest. */
  lemma TwoInterfacesDisagree(digest: Digest, i: string, j: string, n: nat)
    requires 2 <= n <= PROBE_LIMIT && i != j
    ensures !OrderIrrelevant([InstanceName(digest, i), InstanceName(digest, j)], n)
  {
    var names := [InstanceName(digest, i), InstanceName(digest, j)];
    OrderIrrelevantIff(names, n);
    assert Home(names[0], n) == Home(names[1], n);
  }
}
