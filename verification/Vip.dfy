/**
  The VIP speaker of pkg/speaker/vip/keepalived.go: every virtual address is listed in one VRRP
  instance, every instance owns one router identifier taken from the bitmap allocator.

  The index is a value of type `Index`; the class updates it step by step and is proved against the
  functions on it. Address ranges are sets of addresses, and SHA-256 is a function of the class.
 */
module Vip {
  import opened Basics
  import opened IdAlloc
  import NameOrder
  import Owners

  /** "<hex digest>-<interface>"; both parts can be read back from the text. */
  datatype InstanceName = InstanceName(digest: Digest, iface: string)

  datatype Instance = Instance(iface: string, routeID: nat, svcips: seq<string>, enabled: bool)

  datatype Index = Index(instances: map<InstanceName, Instance>, vips: map<string, InstanceName>)

  datatype Config = Config(iface: string, range: set<string>)

  datatype Outcome = Done | NoInterface | Refused | WriteFailed

  // ---------------------------------------------------------------- the index

  predicate Listed(x: Index, vip: string, name: InstanceName) {
    name in x.instances && vip in x.instances[name].svcips
  }

  /** The identifiers owned by live instances. */
  function RouteIDs(instances: map<InstanceName, Instance>): set<nat> {
    set name | name in instances :: instances[name].routeID
  }

  /** The joint invariant of the index and the allocator. */
  ghost predicate Consistent(x: Index, ids: set<nat>) {
    && ids == {0} + RouteIDs(x.instances)
    && (forall name :: name in x.instances ==> WellFormed(x.instances[name]) && x.instances[name].iface == name.iface)
    && (forall m, n ::
          m in x.instances && n in x.instances && x.instances[m].routeID == x.instances[n].routeID ==> m == n)
    && (forall vip, name :: Listed(x, vip, name) ==> vip in x.vips && x.vips[vip] == name)
  }

  /** A live instance lists some address, none twice, and has a VRRP router identifier. */
  ghost predicate WellFormed(i: Instance) {
    1 <= i.routeID <= 255 && i.svcips != [] && NoDuplicates(i.svcips)
  }

  /** The instances in both maps, other than `except`, are the same instance. */
  ghost predicate SameElsewhere(
    a: map<InstanceName, Instance>, b: map<InstanceName, Instance>, except: set<InstanceName>)
  {
    forall n :: n in a && n !in except ==>
      n in b && a[n].routeID == b[n].routeID && a[n].iface == b[n].iface && a[n].enabled == b[n].enabled
  }

  /** Addresses that the index still maps to an instance that does not list them. */
  ghost function Dangling(x: Index): set<string> {
    set vip | vip in x.vips && !Listed(x, vip, x.vips[vip])
  }

  function RemoveFirst(s: seq<string>, v: string): seq<string> {
    if s == [] then []
    else if s[0] == v then s[1..]
    else [s[0]] + RemoveFirst(s[1..], v)
  }

  lemma {:induction false} RemoveFirstIs(s: seq<string>, v: string)
    requires NoDuplicates(s)
    ensures NoDuplicates(RemoveFirst(s, v))
    ensures forall w :: w in RemoveFirst(s, v) <==> w in s && w != v
  {
    if s != [] {
      var rest := RemoveFirst(s[1..], v);
      RemoveFirstIs(s[1..], v);
      assert s == [s[0]] + s[1..] && s[0] !in s[1..];
      forall i, j | 0 <= i < j < |[s[0]] + rest| ensures ([s[0]] + rest)[i] != ([s[0]] + rest)[j] {
        if i == 0 { assert rest[j - 1] in rest; }
      }
    }
  }

  lemma {:induction false} RemoveFirstAt(s: seq<string>, v: string, i: nat)
    requires i < |s| && s[i] == v && v !in s[..i]
    ensures RemoveFirst(s, v) == s[..i] + s[i + 1..]
  {
    if i > 0 {
      assert s[0] in s[..i];
      assert s[1..][..i - 1] == s[..i][1..];
      RemoveFirstAt(s[1..], v, i - 1);
    }
  }

  lemma {:induction false} RemoveFirstAbsent(s: seq<string>, v: string)
    requires v !in s
    ensures RemoveFirst(s, v) == s
  {
    if s != [] { RemoveFirstAbsent(s[1..], v); }
  }

  /** `cleanRecord`: the instances after taking `vip` off the list of `name`. */
  function Clean(instances: map<InstanceName, Instance>, vip: string, name: InstanceName): map<InstanceName, Instance> {
    if name !in instances then instances
    else
      var rest := RemoveFirst(instances[name].svcips, vip);
      if rest == [] then instances - {name} else instances[name := instances[name].(svcips := rest)]
  }

  /** The identifiers `cleanRecord` gives back. */
  function Freed(instances: map<InstanceName, Instance>, vip: string, name: InstanceName): set<nat> {
    if name in instances && RemoveFirst(instances[name].svcips, vip) == [] then {instances[name].routeID} else {}
  }

  /** The index after listing `vip` in `name`, which gets `routeID` when it is new. */
  function Place(x: Index, vip: string, name: InstanceName, routeID: nat, enabled: bool): Index {
    var i := if name in x.instances then x.instances[name] else Instance(name.iface, routeID, [], false);
    Index(x.instances[name := i.(enabled := enabled, svcips := i.svcips + [vip])], x.vips[vip := name])
  }

  lemma RouteIDsUpdated(instances: map<InstanceName, Instance>, name: InstanceName, i: Instance)
    ensures RouteIDs(instances[name := i]) == RouteIDs(instances - {name}) + {i.routeID}
    ensures name in instances ==> RouteIDs(instances) == RouteIDs(instances - {name}) + {instances[name].routeID}
  {
    var rest, updated := instances - {name}, instances[name := i];
    forall id | id in RouteIDs(updated) ensures id in RouteIDs(rest) + {i.routeID} {
      var n :| n in updated && updated[n].routeID == id;
      assert n != name ==> n in rest && rest[n].routeID == id;
    }
    forall id | id in RouteIDs(rest) ensures id in RouteIDs(updated) && id in RouteIDs(instances) {
      var n :| n in rest && rest[n].routeID == id;
      assert n in updated && updated[n].routeID == id;
    }
    assert updated[name].routeID in RouteIDs(updated);
    forall id | id in RouteIDs(instances) && name in instances
      ensures id in RouteIDs(rest) + {instances[name].routeID}
    {
      var n :| n in instances && instances[n].routeID == id;
      assert n != name ==> n in rest && rest[n].routeID == id;
    }
  }

  lemma CleanLists(x: Index, ids: set<nat>, vip: string)
    requires Consistent(x, ids) && vip in x.vips
    ensures var cleaned := Index(Clean(x.instances, vip, x.vips[vip]), x.vips);
      forall v, n :: Listed(cleaned, v, n) <==> Listed(x, v, n) && v != vip
  {
    var name := x.vips[vip];
    var cleaned := Index(Clean(x.instances, vip, name), x.vips);
    if name in x.instances { RemoveFirstIs(x.instances[name].svcips, vip); }
    forall v, n ensures Listed(cleaned, v, n) <==> Listed(x, v, n) && v != vip {
      if Listed(x, v, n) && v != vip && n == name { assert v in RemoveFirst(x.instances[name].svcips, vip); }
    }
  }

  /** Taking an address off the list the index names for it keeps the joint invariant. */
  lemma CleanKeeps(x: Index, ids: set<nat>, vip: string)
    requires Consistent(x, ids) && vip in x.vips
    ensures var cleaned := Index(Clean(x.instances, vip, x.vips[vip]), x.vips);
            && Consistent(cleaned, ids - Freed(x.instances, vip, x.vips[vip]))
            && (forall v, n :: Listed(cleaned, v, n) <==> Listed(x, v, n) && v != vip)
            && Dangling(cleaned) == Dangling(x) + {vip}
  {
    var name := x.vips[vip];
    var cleaned := Index(Clean(x.instances, vip, name), x.vips);
    if name in x.instances {
      RemoveFirstIs(x.instances[name].svcips, vip);
      var left := if name in cleaned.instances then cleaned.instances[name] else x.instances[name];
      RouteIDsUpdated(x.instances, name, left);
      assert x.instances[name].routeID !in RouteIDs(x.instances - {name});
      assert 0 !in Freed(x.instances, vip, name);
    }
    CleanLists(x, ids, vip);
  }

  /** Dropping the mapping of an address that is listed nowhere keeps the joint invariant. */
  lemma ForgetKeeps(x: Index, ids: set<nat>, vip: string)
    requires Consistent(x, ids) && forall name :: !Listed(x, vip, name)
    ensures var forgot := x.(vips := x.vips - {vip});
            Consistent(forgot, ids) && Dangling(forgot) == Dangling(x) - {vip}
  {
    var forgot := x.(vips := x.vips - {vip});
    assert forall v, n :: Listed(forgot, v, n) <==> Listed(x, v, n);
  }

  /** Listing an address that is listed nowhere, with a fresh identifier if need be, keeps it too. */
  lemma PlaceKeeps(x: Index, ids: set<nat>, vip: string, name: InstanceName, routeID: nat, enabled: bool)
    requires Consistent(x, ids) && forall n :: !Listed(x, vip, n)
    requires name in x.instances || (1 <= routeID <= 255 && routeID !in ids)
    ensures var placed := Place(x, vip, name, routeID, enabled);
            && Consistent(placed, if name in x.instances then ids else ids + {routeID})
            && (forall v, n :: Listed(placed, v, n) <==> Listed(x, v, n) || (v == vip && n == name))
            && Dangling(placed) == Dangling(x) - {vip}
  {
    var placed := Place(x, vip, name, routeID, enabled);
    assert !Listed(x, vip, name);
    PlaceLists(x, vip, name, routeID, enabled);
    RouteIDsUpdated(x.instances, name, placed.instances[name]);
    assert name !in x.instances ==> x.instances - {name} == x.instances;
    forall m, n |
      m in placed.instances && n in placed.instances && placed.instances[m].routeID == placed.instances[n].routeID
      ensures m == n
    {
      assert m in x.instances ==> x.instances[m].routeID in ids;
      assert n in x.instances ==> x.instances[n].routeID in ids;
    }
  }

  lemma PlaceLists(x: Index, vip: string, name: InstanceName, routeID: nat, enabled: bool)
    requires forall n :: !Listed(x, vip, n)
    requires name in x.instances ==> WellFormed(x.instances[name])
    ensures var placed := Place(x, vip, name, routeID, enabled);
            && (forall v, n :: Listed(placed, v, n) <==> Listed(x, v, n) || (v == vip && n == name))
            && placed.instances[name].svcips != [] && NoDuplicates(placed.instances[name].svcips)
            && Dangling(placed) == Dangling(x) - {vip}
  {
    var placed := Place(x, vip, name, routeID, enabled);
    assert !Listed(x, vip, name);
    var list := placed.instances[name].svcips;
    assert vip == list[|list| - 1];
    forall v, n ensures Listed(placed, v, n) <==> Listed(x, v, n) || (v == vip && n == name) {
    }
    forall v | v in placed.vips ensures v in Dangling(placed) <==> v in Dangling(x) && v != vip {
      assert v != vip ==> placed.vips[v] == x.vips[v];
    }
  }

  // ---------------------------------------------------------------- counting

  lemma {:induction false} RouteIDCount(instances: map<InstanceName, Instance>)
    requires forall m, n :: m in instances && n in instances && instances[m].routeID == instances[n].routeID ==> m == n
    ensures |RouteIDs(instances)| == |instances|
    decreases |instances|
  {
    if instances != map[] {
      var name :| name in instances;
      var rest := instances - {name};
      RouteIDCount(rest);
      RouteIDsUpdated(instances, name, instances[name]);
      assert instances[name].routeID !in RouteIDs(rest);
      assert |rest| == |instances| - 1 by { assert rest.Keys == instances.Keys - {name}; }
    } else {
      assert RouteIDs(instances) == {};
    }
  }

  ghost function Below(n: nat): (r: set<nat>)
    ensures |r| == n
    ensures forall k: nat :: k in r <==> k < n
  {
    if n == 0 then {} else Below(n - 1) + {n - 1}
  }

  lemma TakenIffCount(ids: set<nat>, n: nat)
    requires forall k :: k in ids ==> k < n
    ensures |ids| <= n
    ensures AllTaken(ids, n) <==> |ids| == n
  {
    SubsetSize(ids, Below(n));
  }

  /** The allocator is full exactly when 255 instances are live. */
  lemma FullIff255(x: Index, ids: set<nat>)
    requires Consistent(x, ids)
    ensures AllTaken(ids, 256) <==> |x.instances| == 255
    ensures |x.instances| <= 255
  {
    RouteIDCount(x.instances);
    TakenIffCount(ids, 256);
  }

  /** Instances that are all among at most as many others are the others. */
  lemma SameInstances(a: map<InstanceName, Instance>, b: map<InstanceName, Instance>)
    requires SameElsewhere(a, b, {}) && |b| <= |a|
    ensures a.Keys == b.Keys && |a| == |b|
  {
    assert a.Keys <= b.Keys;
    SubsetSize(a.Keys, b.Keys);
    assert |a| == |a.Keys| && |b| == |b.Keys|;
  }

  /** If 255 instances are live after cleaning, they are the ones that were live before. */
  lemma CleanFull(x: Index, ids: set<nat>, vip: string)
    requires Consistent(x, ids) && vip in x.vips
    ensures var left := Clean(x.instances, vip, x.vips[vip]);
      |left| == 255 ==> |x.instances| == 255 && left.Keys == x.instances.Keys
  {
    FullIff255(x, ids);
    var left := Clean(x.instances, vip, x.vips[vip]);
    if |left| == 255 { SameInstances(left, x.instances); }
  }

  // ---------------------------------------------------------------- node digests

  /** `getNodeSha256Bytes`. */
  function NodesDigest(sha256: string -> Digest, nodes: seq<string>): Digest {
    sha256(Owners.Join(NameOrder.Sort(nodes), ','))
  }

  /** The instance chosen for an address does not depend on the order of the node list. */
  lemma InstanceIgnoresNodeOrder(sha256: string -> Digest, a: seq<string>, b: seq<string>, iface: string)
    requires multiset(a) == multiset(b)
    ensures InstanceName(NodesDigest(sha256, a), iface) == InstanceName(NodesDigest(sha256, b), iface)
  {
    NameOrder.SortForgetsOrder(a, b);
  }

  /** Different nodes give different digests as far as the hash tells the two texts apart. */
  lemma DigestSeparatesNodes(sha256: string -> Digest, a: seq<string>, b: seq<string>)
    requires a != [] && b != [] && Owners.Free(a, ',') && Owners.Free(b, ',')
    requires sha256(Owners.Join(NameOrder.Sort(a), ',')) == sha256(Owners.Join(NameOrder.Sort(b), ',')) ==>
      Owners.Join(NameOrder.Sort(a), ',') == Owners.Join(NameOrder.Sort(b), ',')
    ensures NodesDigest(sha256, a) == NodesDigest(sha256, b) <==> multiset(a) == multiset(b)
  {
    if multiset(a) == multiset(b) {
      NameOrder.SortForgetsOrder(a, b);
    } else {
      SortedFree(a);
      SortedFree(b);
      Owners.SplitOfJoin(NameOrder.Sort(a), ',');
      Owners.SplitOfJoin(NameOrder.Sort(b), ',');
    }
  }

  lemma SortedFree(a: seq<string>)
    requires Owners.Free(a, ',')
    ensures Owners.Free(NameOrder.Sort(a), ',') && |NameOrder.Sort(a)| == |a|
  {
    var s := NameOrder.Sort(a);
    assert |multiset(s)| == |multiset(a)|;
    forall i | 0 <= i < |s| ensures ',' !in s[i] {
      assert s[i] in multiset(s);
      assert s[i] in multiset(a);
    }
  }

  // ---------------------------------------------------------------- the speaker

  datatype Call =
    | Set(vip: string, nodes: seq<string>, writeOk: bool)
    | Del(delVip: string, delWriteOk: bool)
    | Configure(name: string, config: Config, deleted: bool)

  class KeepAlived {
    var instances: map<InstanceName, Instance>
    var vips: map<string, InstanceName>
    var configs: map<string, Config>
    const idAlloc: IDAllocator
    const sha256: string -> Digest
    const nodeName: string

    ghost function State(): Index
      reads this
    {
      Index(instances, vips)
    }

    ghost predicate Valid()
      reads this, idAlloc
    {
      && idAlloc.Valid() && idAlloc.Capacity() == 256
      && Consistent(State(), idAlloc.Ids())
    }

    constructor (sha256: string -> Digest, nodeName: string)
      ensures Valid() && fresh(idAlloc)
      ensures State() == Index(map[], map[]) && configs == map[]
    {
      this.sha256 := sha256;
      this.nodeName := nodeName;
      idAlloc := new IDAllocator(256);
      instances, vips, configs := map[], map[], map[];
    }

    /** Some interface configured for a range that holds `vip`; the map is read in any order. */
    method GetInterfaces(vip: string) returns (iface: string)
      ensures (exists c :: c in configs.Values && vip in c.range && iface == c.iface)
           || (iface == "" && forall c :: c in configs.Values ==> vip !in c.range)
    {
      var todo := configs.Keys;
      while todo != {}
        invariant todo <= configs.Keys
        invariant forall k :: k in configs && k !in todo ==> vip !in configs[k].range
        decreases todo
      {
        var k :| k in todo;
        if vip in configs[k].range { return configs[k].iface; }
        todo := todo - {k};
      }
      return "";
    }

    method CleanRecord(vip: string, name: InstanceName)
      requires idAlloc.Valid()
      requires name in instances ==> instances[name].routeID in idAlloc.Ids()
      modifies this`instances, idAlloc
      ensures idAlloc.Valid()
      ensures instances == Clean(old(instances), vip, name)
      ensures idAlloc.Ids() == old(idAlloc.Ids()) - Freed(old(instances), vip, name)
    {
      if name !in instances { return; }
      var instance := instances[name];
      var svcips := instance.svcips;
      var i := 0;
      while i < |svcips| && svcips[i] != vip
        invariant i <= |svcips| && vip !in svcips[..i]
      {
        i := i + 1;
      }
      if i < |svcips| {
        RemoveFirstAt(svcips, vip, i);
        if i == 0 {
          assert svcips[..i] + svcips[i + 1..] == svcips[1..];
          svcips := svcips[1..];
        } else if i == |svcips| - 1 {
          assert svcips[..i] + svcips[i + 1..] == svcips[..|svcips| - 1];
          svcips := svcips[..|svcips| - 1];
        } else {
          svcips := svcips[..i] + svcips[i + 1..];
        }
      } else {
        assert svcips[..i] == svcips;
        RemoveFirstAbsent(svcips, vip);
      }
      assert svcips == RemoveFirst(instance.svcips, vip);
      if |svcips| == 0 {
        instances := instances - {name};
        idAlloc.Free(instance.routeID);
      } else {
        instances := instances[name := instance.(svcips := svcips)];
      }
    }

    /** Takes a router identifier; refused exactly when none of 1..255 is left. */
    method AllocateRoute(digest: Digest) returns (a: Allocation)
      requires idAlloc.Valid() && idAlloc.Capacity() == 256 && 0 in idAlloc.Ids()
      modifies idAlloc
      ensures idAlloc.Valid()
      ensures a.Exhausted? <==> AllTaken(old(idAlloc.Ids()), 256)
      ensures a.Exhausted? ==> idAlloc.Ids() == old(idAlloc.Ids())
      ensures a.Granted? ==> 1 <= a.id <= 255 && a.id !in old(idAlloc.Ids())
      ensures a.Granted? ==> idAlloc.Ids() == old(idAlloc.Ids()) + {a.id}
    {
      a := idAlloc.AllocateWithHash(digest);
    }

    /** The first half of `SetBalancer`: takes the address off the list it is on. */
    method CleanOldRecord(vip: string)
      requires Valid()
      modifies this`instances, idAlloc
      ensures Valid()
      ensures forall v, n :: Listed(State(), v, n) <==> Listed(old(State()), v, n) && v != vip
      ensures Dangling(State()) == old(Dangling(State())) + (if vip in vips then {vip} else {})
      ensures SameElsewhere(instances, old(instances), {})
      ensures |instances| == 255 ==> |old(instances)| == 255 && instances.Keys == old(instances.Keys)
    {
      if vip in vips {
        CleanKeeps(State(), idAlloc.Ids(), vip);
        CleanFull(State(), idAlloc.Ids(), vip);
        CleanRecord(vip, vips[vip]);
      }
    }

    /** The second half of `SetBalancer`: lists an address that no instance lists. */
    method GenerateRecord(vip: string, name: InstanceName, enabled: bool) returns (listed: bool)
      requires Valid() && forall n :: !Listed(State(), vip, n)
      modifies this`instances, this`vips, idAlloc
      ensures Valid()
      ensures !listed <==> name !in old(instances) && |old(instances)| == 255
      ensures !listed ==> State() == old(State())
      ensures listed ==> vips == old(vips)[vip := name] && Dangling(State()) == old(Dangling(State())) - {vip}
      ensures listed ==> forall v, n :: Listed(State(), v, n) <==> Listed(old(State()), v, n) || (v == vip && n == name)
      ensures listed ==> name in instances && instances[name].enabled == enabled
      ensures SameElsewhere(instances, old(instances), {name})
    {
      ghost var before, ids := State(), idAlloc.Ids();
      var routeID := 0;
      if name !in instances {
        FullIff255(before, ids);
        var a := AllocateRoute(name.digest);
        if a.Exhausted? { return false; }
        routeID := a.id;
      }
      PlaceKeeps(before, ids, vip, name, routeID, enabled);
      var instance := if name in instances then instances[name] else Instance(name.iface, routeID, [], false);
      instances := instances[name := instance.(enabled := enabled, svcips := instance.svcips + [vip])];
      vips := vips[vip := name];
      assert State() == Place(before, vip, name, routeID, enabled);
      return true;
    }

    /** Both halves: the address moves to `name`, unless that is new while 255 instances are live. */
    method Relist(vip: string, name: InstanceName, enabled: bool) returns (listed: bool)
      requires Valid()
      modifies this`instances, this`vips, idAlloc
      ensures Valid()
      ensures !listed ==> |old(instances)| == |instances| == 255 && name !in old(instances) && vips == old(vips)
      ensures !listed ==> forall n :: !Listed(State(), vip, n)
      ensures !listed ==> Dangling(State()) == old(Dangling(State())) + (if vip in old(vips) then {vip} else {})
      ensures listed ==> vips == old(vips)[vip := name] && Dangling(State()) == old(Dangling(State())) - {vip}
      ensures listed ==> Listed(State(), vip, name) && instances[name].enabled == enabled
      ensures SameElsewhere(instances, old(instances), {name})
      ensures forall v, n :: v != vip ==> (Listed(State(), v, n) <==> Listed(old(State()), v, n))
    {
      CleanOldRecord(vip);
      listed := GenerateRecord(vip, name, enabled);
    }

    /** Some configured range holds the address. */
    ghost predicate Covered(vip: string)
      reads this
    {
      exists c :: c in configs.Values && vip in c.range
    }

    /** `name` is the instance for these nodes on the interface of a range that holds the address. */
    ghost predicate Chosen(vip: string, nodes: seq<string>, name: InstanceName)
      reads this
    {
      && name.digest == NodesDigest(sha256, nodes)
      && exists c :: c in configs.Values && vip in c.range && c.iface == name.iface
    }

    /**
      Announces `vip` from `nodes`. An address that no configured range holds has no interface, and one
      whose ranges all have interfaces does. It is refused only if its instance is new while 255
      instances are live, and fails otherwise only if the configuration cannot be written. Whatever the
      outcome the joint invariant holds, and only a refusal leaves the address dangling.
     */
    method SetBalancer(vip: string, nodes: seq<string>, writeOk: bool) returns (r: Outcome)
      requires Valid()
      modifies this`instances, this`vips, idAlloc
      ensures Valid()
      ensures !Covered(vip) ==> r.NoInterface?
      ensures Covered(vip) && (forall c :: c in configs.Values && vip in c.range ==> c.iface != "") ==> !r.NoInterface?
      ensures r.NoInterface? ==> State() == old(State())
      ensures r.Refused? ==> |old(instances)| == |instances| == 255 && vips == old(vips)
      ensures r.Refused? ==> exists name :: Chosen(vip, nodes, name) && name !in old(instances)
      ensures r.Refused? ==> forall n :: !Listed(State(), vip, n)
      ensures r.Refused? ==> Dangling(State()) == old(Dangling(State())) + (if vip in old(vips) then {vip} else {})
      ensures r.Done? || r.WriteFailed? ==>
        && Dangling(State()) == old(Dangling(State())) - {vip}
        && vip in vips && Listed(State(), vip, vips[vip]) && Chosen(vip, nodes, vips[vip])
        && instances[vips[vip]].enabled == (nodeName in nodes)
        && SameElsewhere(instances, old(instances), {vips[vip]})
      ensures forall v, n :: v != vip ==> (Listed(State(), v, n) <==> Listed(old(State()), v, n))
      ensures (r.Done? ==> writeOk) && (r.WriteFailed? ==> !writeOk)
    {
      var iface := GetInterfaces(vip);
      if iface == "" { return NoInterface; }
      var name := InstanceName(NodesDigest(sha256, nodes), iface);
      assert Chosen(vip, nodes, name);
      var listed := Relist(vip, name, nodeName in nodes);
      if !listed { return Refused; }
      return if writeOk then Done else WriteFailed;
    }

    /** Withdraws `vip`; afterwards no instance lists it and the index does not know it. */
    method DelBalancer(vip: string, writeOk: bool) returns (r: Outcome)
      requires Valid()
      modifies this`instances, this`vips, idAlloc
      ensures Valid()
      ensures vips == old(vips) - {vip} && forall n :: !Listed(State(), vip, n)
      ensures forall v, n :: v != vip ==> (Listed(State(), v, n) <==> Listed(old(State()), v, n))
      ensures Dangling(State()) == old(Dangling(State())) - {vip}
      ensures SameElsewhere(instances, old(instances), {})
      ensures (r.Done? || r.WriteFailed?) && (writeOk ==> r.Done?) && (vip !in old(vips) ==> r.Done?)
    {
      if vip !in vips { return Done; }
      var name := vips[vip];
      CleanKeeps(State(), idAlloc.Ids(), vip);
      ForgetKeeps(Index(Clean(instances, vip, name), vips), idAlloc.Ids() - Freed(instances, vip, name), vip);
      vips := vips - {vip};
      if name !in instances { return Done; }
      CleanRecord(vip, name);
      return if writeOk then Done else WriteFailed;
    }

    method ConfigureWithEIP(name: string, config: Config, deleted: bool)
      modifies this`configs
      ensures configs == if deleted then old(configs) - {name} else old(configs)[name := config]
    {
      if deleted {
        configs := configs - {name};
      } else {
        configs := configs[name := config];
      }
    }
  }

  /** Any sequence of calls, failed ones included, on a new speaker: the invariant holds after each. */
  method Drive(sha256: string -> Digest, nodeName: string, calls: seq<Call>) returns (k: KeepAlived)
    ensures fresh(k) && k.Valid()
    ensures |k.instances| <= 255
  {
    k := new KeepAlived(sha256, nodeName);
    for i := 0 to |calls|
      invariant fresh(k) && fresh(k.idAlloc) && k.Valid()
    {
      match calls[i]
      case Set(vip, nodes, writeOk) => var _ := k.SetBalancer(vip, nodes, writeOk);
      case Del(vip, writeOk) => var _ := k.DelBalancer(vip, writeOk);
      case Configure(name, config, deleted) => k.ConfigureWithEIP(name, config, deleted);
    }
    FullIff255(k.State(), k.idAlloc.Ids());
  }
}
