/**
  Announcers and their speaker on one node: pkg/speaker/layer2/arp_announcer.go and the bookkeeping of
  pkg/speaker/layer2/memberlist.go. Sockets are left out; sending a packet succeeds or fails.

  Address ranges are sets of addresses, and a pool has one range for as long as it exists.
 */
module Layer2 {
  import opened Basics
  import opened Election

  /** An announcer as a value: its reply entries and its registered ranges. */
  datatype Port = Port(entries: set<string>, ranges: map<string, set<string>>)

  /** Some registered range holds the address. */
  ghost predicate Ranged(ranges: map<string, set<string>>, ip: string) {
    exists name :: name in ranges && ip in ranges[name]
  }

  /** The announcer has a range, and replies only for addresses in its ranges. */
  ghost predicate PortOk(p: Port, rangeOf: string -> set<string>) {
    && p.ranges != map[]
    && (forall name :: name in p.ranges ==> p.ranges[name] == rangeOf(name))
    && (forall ip :: ip in p.entries ==> Ranged(p.ranges, ip))
  }

  function Register(p: Port, name: string, r: set<string>): Port {
    p.(ranges := p.ranges[name := r])
  }

  function Unregister(p: Port, name: string): Port {
    if name !in p.ranges then p else Port(p.entries - p.ranges[name], p.ranges - {name})
  }

  /** Registering a pool's own range keeps every reply entry covered. */
  lemma RegisterKeeps(p: Port, name: string, rangeOf: string -> set<string>)
    requires forall n :: n in p.ranges ==> p.ranges[n] == rangeOf(n)
    requires forall ip :: ip in p.entries ==> Ranged(p.ranges, ip)
    ensures PortOk(Register(p, name, rangeOf(name)), rangeOf)
  {
    var q := Register(p, name, rangeOf(name));
    forall ip | ip in q.entries ensures Ranged(q.ranges, ip) {
      var n :| n in p.ranges && ip in p.ranges[n];
      assert n in q.ranges && ip in q.ranges[n];
    }
    assert name in q.ranges;
  }

  /** Dropping a range drops its entries, so the rest stay covered by the ranges that are left. */
  lemma UnregisterKeeps(p: Port, name: string, rangeOf: string -> set<string>)
    requires PortOk(p, rangeOf)
    ensures var q := Unregister(p, name); q.ranges != map[] ==> PortOk(q, rangeOf)
    ensures var q := Unregister(p, name); q.ranges == map[] ==> q.entries == {}
  {
    var q := Unregister(p, name);
    forall ip | ip in q.entries ensures Ranged(q.ranges, ip) {
      var n :| n in p.ranges && ip in p.ranges[n];
      assert n in q.ranges && ip in q.ranges[n];
    }
  }

  /** With a changed range the entries stay covered exactly when no entry depended on the old one. */
  lemma RenewedRangeIff(p: Port, name: string, r: set<string>)
    requires forall ip :: ip in p.entries ==> Ranged(p.ranges, ip)
    ensures (forall ip :: ip in p.entries ==> Ranged(Register(p, name, r).ranges, ip))
       <==> forall ip :: ip in p.entries && ip !in r ==> Ranged(p.ranges - {name}, ip)
  {
    var q, rest := Register(p, name, r), p.ranges - {name};
    forall ip ensures Ranged(q.ranges, ip) <==> ip in r || Ranged(rest, ip) {
      if Ranged(q.ranges, ip) {
        var n :| n in q.ranges && ip in q.ranges[n];
        assert n != name ==> n in rest && ip in rest[n];
      }
      if Ranged(rest, ip) {
        var n :| n in rest && ip in rest[n];
        assert n in q.ranges && ip in q.ranges[n];
      }
      if ip in r { assert name in q.ranges && ip in q.ranges[name]; }
    }
  }

  ghost predicate PortsOk(ports: map<string, Port>, rangeOf: string -> set<string>) {
    forall i :: i in ports ==> PortOk(ports[i], rangeOf)
  }

  class ArpAnnouncer {
    var ip2mac: map<string, string>
    var ipranges: map<string, set<string>>
    const mac: string

    ghost function Value(): Port
      reads this
    {
      Port(ip2mac.Keys, ipranges)
    }

    constructor (mac: string)
      ensures Value() == Port({}, map[])
    {
      this.mac := mac;
      ip2mac, ipranges := map[], map[];
    }

    method RegisterIPRange(name: string, r: set<string>)
      modifies this`ipranges
      ensures Value() == Register(old(Value()), name, r)
    {
      ipranges := ipranges[name := r];
    }

    method UnregisterIPRange(name: string)
      modifies this
      ensures Value() == Unregister(old(Value()), name)
      ensures forall x :: x in ip2mac ==> ip2mac[x] == old(ip2mac)[x]
    {
      if name !in ipranges { return; }
      var r := ipranges[name];
      var todo := ip2mac.Keys;
      while todo != {}
        invariant todo <= ip2mac.Keys && ipranges == old(ipranges)
        invariant ip2mac.Keys == old(ip2mac).Keys - (r - todo)
        invariant forall x :: x in ip2mac ==> ip2mac[x] == old(ip2mac)[x]
        decreases todo
      {
        var ip :| ip in todo;
        if ip in r { ip2mac := ip2mac - {ip}; }
        todo := todo - {ip};
      }
      ipranges := ipranges - {name};
    }

    method ContainsIP(ip: string) returns (b: bool)
      ensures b <==> Ranged(ipranges, ip)
    {
      var todo := ipranges.Keys;
      while todo != {}
        invariant todo <= ipranges.Keys
        invariant forall n :: n in ipranges && n !in todo ==> ip !in ipranges[n]
        decreases todo
      {
        var n :| n in todo;
        if ip in ipranges[n] { return true; }
        todo := todo - {n};
      }
      return false;
    }

    /** Stores the reply entry, then sends; a failed send leaves the entry. */
    method AddAnnouncedIP(ip: string, sent: bool) returns (ok: bool)
      modifies this`ip2mac
      ensures Value() == old(Value()).(entries := old(Value()).entries + {ip})
      ensures forall x :: x in ip2mac ==> ip2mac[x] == if x in old(ip2mac) then old(ip2mac)[x] else mac
      ensures ok <==> ip in old(ip2mac) || sent
    {
      if ip in ip2mac { return true; }
      ip2mac := ip2mac[ip := mac];
      return sent;
    }

    method DelAnnouncedIP(ip: string)
      modifies this`ip2mac
      ensures Value() == old(Value()).(entries := old(Value()).entries - {ip})
      ensures forall x :: x in ip2mac ==> ip2mac[x] == old(ip2mac)[x]
    {
      ip2mac := ip2mac - {ip};
    }
  }

  class Layer2Speaker {
    var announcers: map<string, ArpAnnouncer>
    const sha256: string -> Digest
    const nodeName: string

    /** No announcer serves two interfaces. */
    ghost predicate Separate()
      reads this
    {
      forall i, j :: i in announcers && j in announcers && announcers[i] == announcers[j] ==> i == j
    }

    /** The announcers by interface, as values. */
    ghost function Ports(): map<string, Port>
      reads this, announcers.Values
    {
      map i | i in announcers :: announcers[i].Value()
    }

    /** An announcer exists exactly while it has a range, and replies only inside its ranges. */
    ghost predicate Valid(rangeOf: string -> set<string>)
      reads this, announcers.Values
    {
      Separate() && PortsOk(Ports(), rangeOf)
    }

    constructor (sha256: string -> Digest, nodeName: string)
      ensures Ports() == map[] && announcers == map[] && Separate()
    {
      this.sha256, this.nodeName := sha256, nodeName;
      announcers := map[];
    }

    /** Creates the announcer of an interface that has none. */
    method EnsureAnnouncer(iface: string)
      requires Separate()
      modifies this`announcers
      ensures Separate() && iface in announcers
      ensures forall a :: a in announcers.Values ==> a in old(announcers.Values) || fresh(a)
      ensures Ports() == if iface in old(announcers) then old(Ports()) else old(Ports())[iface := Port({}, map[])]
    {
      if iface !in announcers {
        var a := new ArpAnnouncer(iface);
        announcers := announcers[iface := a];
      }
    }

    method RegisterAnnouncer(name: string, iface: string, r: set<string>, ghost rangeOf: string -> set<string>)
      requires Valid(rangeOf) && r == rangeOf(name)
      modifies this, announcers.Values
      ensures Valid(rangeOf)
      ensures forall a :: a in announcers.Values ==> a in old(announcers.Values) || fresh(a)
      ensures var p := if iface in old(announcers) then old(Ports())[iface] else Port({}, map[]);
        Ports() == old(Ports())[iface := Register(p, name, r)]
    {
      ghost var p := if iface in announcers then Ports()[iface] else Port({}, map[]);
      assert iface in announcers ==> PortOk(p, rangeOf);
      RegisterKeeps(p, name, rangeOf);
      EnsureAnnouncer(iface);
      AddRange(name, iface, r);
    }

    /** Adds a range to the announcer of an interface. */
    method AddRange(name: string, iface: string, r: set<string>)
      requires Separate() && iface in announcers
      modifies announcers[iface]
      ensures Ports() == old(Ports())[iface := Register(old(Ports())[iface], name, r)]
    {
      announcers[iface].RegisterIPRange(name, r);
    }

    /** Takes a range off the announcer of an interface. */
    method DropRange(name: string, iface: string)
      requires Separate() && iface in announcers
      modifies announcers[iface]
      ensures Ports() == old(Ports())[iface := Unregister(old(Ports())[iface], name)]
    {
      announcers[iface].UnregisterIPRange(name);
    }

    /** Forgets the announcer of an interface. */
    method RemoveAnnouncer(iface: string)
      requires Separate()
      modifies this`announcers
      ensures Separate() && announcers.Values <= old(announcers.Values)
      ensures Ports() == old(Ports()) - {iface}
    {
      announcers := announcers - {iface};
    }

    method UnregisterAnnouncer(name: string, iface: string, ghost rangeOf: string -> set<string>)
      requires Valid(rangeOf)
      modifies this, announcers.Values
      ensures Valid(rangeOf) && announcers.Values <= old(announcers.Values)
      ensures Ports() == Unregistered(old(Ports()), name, iface)
    {
      if iface !in announcers { return; }
      ghost var before := Ports();
      UnregisteredKeeps(before, name, iface, rangeOf);
      DropRange(name, iface);
      if |announcers[iface].ipranges| == 0 {
        assert Ports()[iface].ranges == map[];
        RemoveAnnouncer(iface);
        assert Ports() == before - {iface};
      }
    }

    /** Some interface whose announcer covers the address; the map is read in any order. */
    method FindAnnouncer(ip: string) returns (found: bool, iface: string)
      ensures found ==> iface in Ports() && Ranged(Ports()[iface].ranges, ip)
      ensures found <==> Reachable(Ports(), ip)
    {
      var todo := announcers.Keys;
      while todo != {}
        invariant todo <= announcers.Keys
        invariant forall i :: i in announcers && i !in todo ==> !Ranged(announcers[i].ipranges, ip)
        decreases todo
      {
        var i :| i in todo;
        var within := announcers[i].ContainsIP(ip);
        if within {
          assert Ranged(Ports()[i].ranges, ip);
          return true, i;
        }
        todo := todo - {i};
      }
      assert forall i :: i in Ports() ==> Ports()[i].ranges == announcers[i].ipranges;
      return false, "";
    }

    /** Elects among the cluster nodes that are members, and stores a reply entry if this node wins. */
    method SetBalancer(ip: string, clusterNodes: seq<string>, members: set<string>, sent: bool,
                       ghost rangeOf: string -> set<string>) returns (ok: bool)
      requires Valid(rangeOf)
      modifies announcers.Values
      ensures Valid(rangeOf) && announcers == old(announcers)
      ensures var nodes := Candidates(clusterNodes, members);
        if Reachable(old(Ports()), ip) && nodes != [] && SortByHash(sha256, ip, nodes)[0] == nodeName
        then exists i :: Wrote(old(Ports()), Ports(), i, ip, true) && (ok <==> ip in old(Ports())[i].entries || sent)
        else ok && Ports() == old(Ports())
    {
      var found, i := FindAnnouncer(ip);
      if !found { return true; }
      var nodes := SelectCandidates(clusterNodes, members);
      if |nodes| == 0 { return true; }
      if SortByHash(sha256, ip, nodes)[0] != nodeName { return true; }
      EntryKeeps(Ports(), i, ip, true, rangeOf);
      ok := WriteEntry(i, ip, true, sent);
      assert Wrote(old(Ports()), Ports(), i, ip, true);
    }

    /** Sets or clears the reply entry of one address on one interface. */
    method WriteEntry(i: string, ip: string, on: bool, sent: bool) returns (ok: bool)
      requires Separate() && i in announcers
      modifies announcers[i]
      ensures Ports() == old(Ports())[i := WithEntry(old(Ports())[i], ip, on)]
      ensures ok <==> !on || ip in old(Ports())[i].entries || sent
    {
      ok := true;
      if on {
        ok := announcers[i].AddAnnouncedIP(ip, sent);
      } else {
        announcers[i].DelAnnouncedIP(ip);
      }
    }

    /** Removes the reply entry from the first announcer found to cover the address. */
    method DelBalancer(ip: string, ghost rangeOf: string -> set<string>)
      requires Valid(rangeOf)
      modifies announcers.Values
      ensures Valid(rangeOf) && announcers == old(announcers)
      ensures if Reachable(old(Ports()), ip)
        then exists i :: Wrote(old(Ports()), Ports(), i, ip, false)
        else Ports() == old(Ports())
    {
      var found, i := FindAnnouncer(ip);
      if found {
        EntryKeeps(Ports(), i, ip, false, rangeOf);
        var _ := WriteEntry(i, ip, false, true);
        assert Wrote(old(Ports()), Ports(), i, ip, false);
      }
    }
  }

  /** A port with the reply entry of one address set or cleared. */
  function WithEntry(p: Port, ip: string, on: bool): Port {
    p.(entries := if on then p.entries + {ip} else p.entries - {ip})
  }

  lemma EntryKeeps(ports: map<string, Port>, i: string, ip: string, on: bool, rangeOf: string -> set<string>)
    requires PortsOk(ports, rangeOf) && i in ports && Ranged(ports[i].ranges, ip)
    ensures PortsOk(ports[i := WithEntry(ports[i], ip, on)], rangeOf)
  {
  }

  /** The ports after a pool leaves an interface: without ranges the announcer goes. */
  function Unregistered(ports: map<string, Port>, name: string, iface: string): map<string, Port> {
    if iface !in ports then ports
    else
      var q := Unregister(ports[iface], name);
      if q.ranges == map[] then ports - {iface} else ports[iface := q]
  }

  lemma UnregisteredKeeps(ports: map<string, Port>, name: string, iface: string, rangeOf: string -> set<string>)
    requires PortsOk(ports, rangeOf)
    ensures PortsOk(Unregistered(ports, name, iface), rangeOf)
  {
    if iface in ports { UnregisterKeeps(ports[iface], name, rangeOf); }
  }

  /** Some announcer covers the address. */
  ghost predicate Reachable(ports: map<string, Port>, ip: string) {
    exists i :: i in ports && Ranged(ports[i].ranges, ip)
  }

  /** Interface `i`, which covers the address, gains or loses its entry; nothing else changes. */
  ghost predicate Wrote(before: map<string, Port>, after: map<string, Port>, i: string, ip: string, on: bool) {
    i in before && Ranged(before[i].ranges, ip) && after == before[i := WithEntry(before[i], ip, on)]
  }

  /** The cluster nodes that are members, in the order of the list. */
  function Candidates(clusterNodes: seq<string>, members: set<string>): (r: seq<string>)
    ensures forall n :: n in r <==> n in clusterNodes && n in members
  {
    if clusterNodes == [] then []
    else (if clusterNodes[0] in members then [clusterNodes[0]] else []) + Candidates(clusterNodes[1..], members)
  }

  lemma {:induction false} CandidatesAppend(nodes: seq<string>, x: string, members: set<string>)
    ensures Candidates(nodes + [x], members) == Candidates(nodes, members) + (if x in members then [x] else [])
  {
    if nodes == [] {
      assert nodes + [x] == [x];
    } else {
      assert (nodes + [x])[1..] == nodes[1..] + [x];
      CandidatesAppend(nodes[1..], x, members);
    }
  }

  method SelectCandidates(clusterNodes: seq<string>, members: set<string>) returns (nodes: seq<string>)
    ensures nodes == Candidates(clusterNodes, members)
  {
    nodes := [];
    for i := 0 to |clusterNodes|
      invariant nodes == Candidates(clusterNodes[..i], members)
    {
      assert clusterNodes[..i + 1] == clusterNodes[..i] + [clusterNodes[i]];
      CandidatesAppend(clusterNodes[..i], clusterNodes[i], members);
      if clusterNodes[i] in members { nodes := nodes + [clusterNodes[i]]; }
    }
    assert clusterNodes[..|clusterNodes|] == clusterNodes;
  }

  /** What one node does agrees with the cluster model: it announces exactly if it wins among the candidates it sees. */
  lemma SpeakerElectsWinner(
    sha256: string -> Digest, ip: string, clusterNodes: seq<string>, members: set<string>, node: string)
    requires Injective(sha256, ip, set n | n in clusterNodes)
    ensures var nodes := Candidates(clusterNodes, members);
      var seen := (set n | n in clusterNodes) * members;
      (nodes != [] && SortByHash(sha256, ip, nodes)[0] == node) <==> Wins(sha256, ip, seen, node)
  {
    var nodes := Candidates(clusterNodes, members);
    assert (set n | n in nodes) == (set n | n in clusterNodes) * members;
    if nodes != [] { ElectionIsWinner(sha256, ip, nodes, node); }
  }

  datatype Call =
    | Configure(name: string, iface: string)
    | Unconfigure(name: string, iface: string)
    | Set(ip: string, clusterNodes: seq<string>, members: set<string>, sent: bool)
    | Del(ip: string)

  /** Any sequence of calls on a new speaker, each pool with its one range, keeps the invariant. */
  method Drive(sha256: string -> Digest, nodeName: string, rangeOf: string -> set<string>, calls: seq<Call>)
    returns (l: Layer2Speaker)
    ensures fresh(l) && l.Valid(rangeOf)
    ensures forall i, ip :: i in l.Ports() && ip in l.Ports()[i].entries ==>
      exists name :: name in l.Ports()[i].ranges && ip in rangeOf(name)
  {
    l := new Layer2Speaker(sha256, nodeName);
    for k := 0 to |calls|
      invariant fresh(l) && (forall a :: a in l.announcers.Values ==> fresh(a)) && l.Valid(rangeOf)
    {
      match calls[k]
      case Configure(name, iface) => l.RegisterAnnouncer(name, iface, rangeOf(name), rangeOf);
      case Unconfigure(name, iface) => l.UnregisterAnnouncer(name, iface, rangeOf);
      case Set(ip, nodes, members, sent) => var _ := l.SetBalancer(ip, nodes, members, sent, rangeOf);
      case Del(ip) => l.DelBalancer(ip, rangeOf);
    }
    forall i, ip | i in l.Ports() && ip in l.Ports()[i].entries
      ensures exists name :: name in l.Ports()[i].ranges && ip in rangeOf(name)
    {
      assert PortOk(l.Ports()[i], rangeOf);
      var name :| name in l.Ports()[i].ranges && ip in l.Ports()[i].ranges[name];
    }
  }
}
