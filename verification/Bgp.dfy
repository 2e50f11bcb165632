/**
  Route updates of pkg/speaker/bgp/bgp/path.go: the next hops of one address are moved from the old
  set to the new one, one path at a time, additions first.

  The routing table holds for each address its paths by path identifier (section 2 of RFC 7911), so
  adding a path replaces one with the same identifier. Next hops are in canonical text, and the hash
  that gives their identifiers is a function. Which calls of the BGP server fail is a parameter.
 */
module Bgp {

  type Paths = map<nat, string>

  function Hops(t: Paths): set<string> {
    t.Values
  }

  /** Every path is stored under the identifier of its next hop. */
  ghost predicate Keyed(pathId: string -> nat, t: Paths) {
    forall id :: id in t ==> id == pathId(t[id])
  }

  ghost predicate Injective(pathId: string -> nat, hops: set<string>) {
    forall x, y :: x in hops && y in hops && pathId(x) == pathId(y) ==> x == y
  }

  function Added(pathId: string -> nat, t: Paths, hops: seq<string>): Paths {
    if hops == [] then t
    else
      var last := hops[|hops| - 1];
      Added(pathId, t, hops[..|hops| - 1])[pathId(last) := last]
  }

  function Deleted(pathId: string -> nat, t: Paths, hops: seq<string>): Paths {
    if hops == [] then t else Deleted(pathId, t, hops[..|hops| - 1]) - {pathId(hops[|hops| - 1])}
  }

  ghost function Elements(s: seq<string>): set<string> {
    set x | x in s
  }

  lemma LastElement(s: seq<string>)
    requires s != []
    ensures Elements(s) == Elements(s[..|s| - 1]) + {s[|s| - 1]}
  {
  }

  /** One of the next hops has this identifier. */
  ghost predicate Hit(pathId: string -> nat, hops: set<string>, id: nat) {
    exists h :: h in hops && pathId(h) == id
  }

  /** After additions an identifier holds one of the hops that hit it, or what it held before. */
  lemma {:induction false} AddedEntries(pathId: string -> nat, t: Paths, hops: seq<string>, id: nat)
    ensures var after := Added(pathId, t, hops);
      && (id in after <==> id in t || Hit(pathId, Elements(hops), id))
      && (id in after && Hit(pathId, Elements(hops), id) ==> after[id] in hops && pathId(after[id]) == id)
      && (id in after && !Hit(pathId, Elements(hops), id) ==> after[id] == t[id])
  {
    if hops != [] {
      var rest, last := hops[..|hops| - 1], hops[|hops| - 1];
      AddedEntries(pathId, t, rest, id);
      assert hops == rest + [last];
      LastElement(hops);
      assert pathId(last) == id ==> last in Elements(hops);
      assert forall h :: h in Elements(rest) ==> h in Elements(hops);
    }
  }

  /** Deletions take out the identifiers that are hit and nothing else. */
  lemma {:induction false} DeletedEntries(pathId: string -> nat, t: Paths, hops: seq<string>, id: nat)
    ensures var after := Deleted(pathId, t, hops);
      (id in after <==> id in t && !Hit(pathId, Elements(hops), id)) && (id in after ==> after[id] == t[id])
  {
    if hops != [] {
      var rest, last := hops[..|hops| - 1], hops[|hops| - 1];
      DeletedEntries(pathId, t, rest, id);
      LastElement(hops);
      assert pathId(last) == id ==> last in Elements(hops);
      assert forall h :: h in Elements(rest) ==> h in Elements(hops);
    }
  }

  /** What `retriveRoutes` may hand out: the missing and the superfluous next hops, in any order. */
  ghost predicate Diff(t: Paths, wanted: set<string>, toAdd: seq<string>, toDelete: seq<string>) {
    Elements(toAdd) == wanted - Hops(t) && Elements(toDelete) == Hops(t) - wanted
  }

  ghost function Final(pathId: string -> nat, t: Paths, toAdd: seq<string>, toDelete: seq<string>): Paths {
    Deleted(pathId, Added(pathId, t, toAdd), toDelete)
  }

  /** The path at `id` is neither overwritten by an addition nor taken out by a deletion. */
  ghost predicate Survives(pathId: string -> nat, t: Paths, wanted: set<string>, id: nat) {
    !Hit(pathId, wanted - Hops(t), id) && !Hit(pathId, Hops(t) - wanted, id)
  }

  /**
    No identifier stands in the way: every path with an unwanted next hop is overwritten or deleted,
    the new next hops have identifiers of their own, and every next hop to keep has a path that survives.
   */
  ghost predicate Unhindered(pathId: string -> nat, t: Paths, wanted: set<string>) {
    && (forall id :: id in t && t[id] !in wanted ==> !Survives(pathId, t, wanted, id))
    && Injective(pathId, wanted - Hops(t))
    && (forall x :: x in wanted - Hops(t) ==> !Hit(pathId, Hops(t) - wanted, pathId(x)))
    && (forall x :: x in wanted * Hops(t) ==> Kept(pathId, t, wanted, x))
  }

  ghost predicate Kept(pathId: string -> nat, t: Paths, wanted: set<string>, x: string) {
    exists id :: id in t && t[id] == x && Survives(pathId, t, wanted, id)
  }

  /** What additions and deletions make of one identifier. */
  ghost predicate EntryOutcome(pathId: string -> nat, t: Paths, wanted: set<string>, end: Paths, id: nat) {
    var added, gone := Hit(pathId, wanted - Hops(t), id), Hit(pathId, Hops(t) - wanted, id);
    && (id in end <==> (id in t || added) && !gone)
    && (id in end && added ==> end[id] in wanted - Hops(t) && pathId(end[id]) == id)
    && (id in end && !added ==> end[id] == t[id])
  }

  ghost predicate Outcome(pathId: string -> nat, t: Paths, wanted: set<string>, end: Paths) {
    forall id :: EntryOutcome(pathId, t, wanted, end, id)
  }

  lemma FinalOutcome(pathId: string -> nat, t: Paths, wanted: set<string>, toAdd: seq<string>, toDelete: seq<string>)
    requires Diff(t, wanted, toAdd, toDelete)
    ensures Outcome(pathId, t, wanted, Final(pathId, t, toAdd, toDelete))
  {
    forall id ensures EntryOutcome(pathId, t, wanted, Final(pathId, t, toAdd, toDelete), id) {
      AddedEntries(pathId, t, toAdd, id);
      DeletedEntries(pathId, Added(pathId, t, toAdd), toDelete, id);
      assert forall h :: h in toAdd ==> h in Elements(toAdd);
    }
  }

  /**
    From any table: it ends with exactly the wanted next hops if and only if no identifier stands in
    the way.
   */
  lemma EndsExactIff(pathId: string -> nat, t: Paths, wanted: set<string>, toAdd: seq<string>, toDelete: seq<string>)
    requires Diff(t, wanted, toAdd, toDelete)
    ensures Hops(Final(pathId, t, toAdd, toDelete)) == wanted <==> Unhindered(pathId, t, wanted)
  {
    var end := Final(pathId, t, toAdd, toDelete);
    FinalOutcome(pathId, t, wanted, toAdd, toDelete);
    if Unhindered(pathId, t, wanted) { UnhinderedIsExact(pathId, t, wanted, end); }
    if Hops(end) == wanted { ExactIsUnhindered(pathId, t, wanted, end); }
  }

  lemma UnhinderedIsExact(pathId: string -> nat, t: Paths, wanted: set<string>, end: Paths)
    requires Outcome(pathId, t, wanted, end) && Unhindered(pathId, t, wanted)
    ensures Hops(end) == wanted
  {
    forall x | x in wanted ensures x in Hops(end) {
      if x in Hops(t) {
        assert Kept(pathId, t, wanted, x);
        var id :| id in t && t[id] == x && Survives(pathId, t, wanted, id);
        assert EntryOutcome(pathId, t, wanted, end, id);
        assert end[id] == x;
      } else {
        assert EntryOutcome(pathId, t, wanted, end, pathId(x));
        assert Hit(pathId, wanted - Hops(t), pathId(x));
        assert end[pathId(x)] == x;
      }
    }
    forall x | x in Hops(end) ensures x in wanted {
      var id :| id in end && end[id] == x;
      assert EntryOutcome(pathId, t, wanted, end, id);
      if !Hit(pathId, wanted - Hops(t), id) { assert t[id] == x && Survives(pathId, t, wanted, id); }
    }
  }

  lemma ExactIsUnhindered(pathId: string -> nat, t: Paths, wanted: set<string>, end: Paths)
    requires Outcome(pathId, t, wanted, end) && Hops(end) == wanted
    ensures Unhindered(pathId, t, wanted)
  {
    var news := wanted - Hops(t);
    forall id | id in t && t[id] !in wanted ensures !Survives(pathId, t, wanted, id) {
      assert EntryOutcome(pathId, t, wanted, end, id);
      StoredHop(end, id);
    }
    forall x | x in news ensures pathId(x) in end && end[pathId(x)] == x && !Hit(pathId, Hops(t) - wanted, pathId(x)) {
      var id :| id in end && end[id] == x;
      assert EntryOutcome(pathId, t, wanted, end, id);
      StoredHop(t, id);
    }
    forall x | x in wanted * Hops(t) ensures Kept(pathId, t, wanted, x) {
      var id :| id in end && end[id] == x;
      assert EntryOutcome(pathId, t, wanted, end, id);
      assert Survives(pathId, t, wanted, id);
    }
  }

  // ---------------------------------------------------------------- keyed tables

  lemma StoredHop(t: Paths, id: nat)
    ensures id in t ==> t[id] in Hops(t)
  {
  }

  /** Membership of a next hop in a keyed table is decided at its identifier. */
  lemma HopAt(pathId: string -> nat, t: Paths, x: string)
    requires Keyed(pathId, t)
    ensures x in Hops(t) <==> pathId(x) in t && t[pathId(x)] == x
  {
  }

  /**
    In a table that only this speaker writes, nothing stands in the way exactly when no two of the
    old and wanted next hops share an identifier; then additions overwrite nothing either.
   */
  lemma KeyedUnhinderedIff(pathId: string -> nat, t: Paths, wanted: set<string>)
    requires Keyed(pathId, t)
    ensures Unhindered(pathId, t, wanted) <==> Injective(pathId, Hops(t) + wanted)
    ensures Injective(pathId, Hops(t) + wanted) ==> Undisplaced(pathId, t, wanted)
  {
    var news, gone := wanted - Hops(t), Hops(t) - wanted;
    if Injective(pathId, Hops(t) + wanted) {
      forall id | id in t && t[id] !in wanted ensures !Survives(pathId, t, wanted, id) {
        assert t[id] in gone && pathId(t[id]) == id;
      }
      forall x | x in wanted * Hops(t) ensures Kept(pathId, t, wanted, x) {
        HopAt(pathId, t, x);
        assert Survives(pathId, t, wanted, pathId(x));
      }
      forall x | x in news ensures pathId(x) !in t {
        StoredHop(t, pathId(x));
      }
    }
    if Unhindered(pathId, t, wanted) {
      forall x, y | x in Hops(t) + wanted && y in Hops(t) + wanted && pathId(x) == pathId(y) ensures x == y {
        HopAt(pathId, t, x);
        HopAt(pathId, t, y);
        if x in Hops(t) && y in news { OldAndNewApart(pathId, t, wanted, x, y); }
        if y in Hops(t) && x in news { OldAndNewApart(pathId, t, wanted, y, x); }
      }
    }
  }

  lemma OldAndNewApart(pathId: string -> nat, t: Paths, wanted: set<string>, x: string, y: string)
    requires Keyed(pathId, t) && Unhindered(pathId, t, wanted) && x in Hops(t) && y in wanted - Hops(t)
    ensures pathId(x) != pathId(y)
  {
    if x in wanted {
      assert Kept(pathId, t, wanted, x);
      var id :| id in t && t[id] == x && Survives(pathId, t, wanted, id);
    } else {
      assert x in Hops(t) - wanted;
    }
  }

  /** The speaker's own writes keep a keyed table keyed. */
  lemma KeyedKept(pathId: string -> nat, t: Paths, added: seq<string>, deleted: seq<string>)
    ensures Keyed(pathId, t) ==> Keyed(pathId, Deleted(pathId, Added(pathId, t, added), deleted))
  {
    var after := Deleted(pathId, Added(pathId, t, added), deleted);
    forall id | id in after && Keyed(pathId, t) ensures id == pathId(after[id]) {
      AddedEntries(pathId, t, added, id);
      DeletedEntries(pathId, Added(pathId, t, added), deleted, id);
    }
  }

  // ---------------------------------------------------------------- make before break

  /** No addition overwrites a path. */
  ghost predicate Undisplaced(pathId: string -> nat, t: Paths, wanted: set<string>) {
    forall x :: x in wanted - Hops(t) ==> pathId(x) !in t
  }

  /** Traffic is never cut: all the former or all the wanted next hops are in the table. */
  ghost predicate Bridged(t: Paths, former: set<string>, wanted: set<string>) {
    former <= Hops(t) || wanted <= Hops(t)
  }

  lemma FormerStay(pathId: string -> nat, t: Paths, wanted: set<string>, some: seq<string>)
    requires Undisplaced(pathId, t, wanted) && Elements(some) <= wanted - Hops(t)
    ensures Hops(t) <= Hops(Added(pathId, t, some))
  {
    forall x | x in Hops(t) ensures x in Hops(Added(pathId, t, some)) {
      var id :| id in t && t[id] == x;
      AddedEntries(pathId, t, some, id);
      assert Added(pathId, t, some)[id] == x;
    }
  }

  lemma WantedStay(pathId: string -> nat, t: Paths, wanted: set<string>, toAdd: seq<string>, some: seq<string>)
    requires Unhindered(pathId, t, wanted) && Elements(toAdd) == wanted - Hops(t) && Elements(some) <= Hops(t) - wanted
    ensures wanted <= Hops(Deleted(pathId, Added(pathId, t, toAdd), some))
  {
    var added := Added(pathId, t, toAdd);
    var end := Deleted(pathId, added, some);
    forall x | x in wanted ensures x in Hops(end) {
      var id := WantedAt(pathId, t, wanted, toAdd, x);
      DeletedEntries(pathId, added, some, id);
      assert end[id] == x;
    }
  }

  /** Where a wanted next hop is found after the additions, out of reach of the deletions. */
  lemma WantedAt(pathId: string -> nat, t: Paths, wanted: set<string>, toAdd: seq<string>, x: string) returns (id: nat)
    requires Unhindered(pathId, t, wanted) && Elements(toAdd) == wanted - Hops(t) && x in wanted
    ensures var added := Added(pathId, t, toAdd);
      id in added && added[id] == x && !Hit(pathId, Hops(t) - wanted, id)
  {
    if x in Hops(t) {
      assert Kept(pathId, t, wanted, x);
      id :| id in t && t[id] == x && Survives(pathId, t, wanted, id);
      AddedEntries(pathId, t, toAdd, id);
    } else {
      id := pathId(x);
      AddedEntries(pathId, t, toAdd, id);
      assert x in Elements(toAdd);
      assert Added(pathId, t, toAdd)[id] in Elements(toAdd);
    }
  }

  /** Make before break: after every single addition and every single deletion one set is whole. */
  lemma MakeBeforeBreak(
    pathId: string -> nat, t: Paths, wanted: set<string>, toAdd: seq<string>, toDelete: seq<string>, k: nat)
    requires Diff(t, wanted, toAdd, toDelete) && Unhindered(pathId, t, wanted) && Undisplaced(pathId, t, wanted)
    ensures k <= |toAdd| ==> Hops(t) <= Hops(Added(pathId, t, toAdd[..k]))
    ensures k <= |toDelete| ==> wanted <= Hops(Deleted(pathId, Added(pathId, t, toAdd), toDelete[..k]))
  {
    if k <= |toAdd| {
      assert Elements(toAdd[..k]) <= Elements(toAdd);
      FormerStay(pathId, t, wanted, toAdd[..k]);
    }
    if k <= |toDelete| {
      assert Elements(toDelete[..k]) <= Elements(toDelete);
      WantedStay(pathId, t, wanted, toAdd, toDelete[..k]);
    }
  }

  /** The table after each of the first additions. */
  ghost predicate AddSteps(pathId: string -> nat, t: Paths, hops: seq<string>, steps: seq<Paths>) {
    |steps| <= |hops| && forall k :: 0 <= k < |steps| ==> steps[k] == Added(pathId, t, hops[..k + 1])
  }

  /** The table after each of the first deletions. */
  ghost predicate DeleteSteps(pathId: string -> nat, t: Paths, hops: seq<string>, steps: seq<Paths>) {
    |steps| <= |hops| && forall k :: 0 <= k < |steps| ==> steps[k] == Deleted(pathId, t, hops[..k + 1])
  }

  ghost predicate AllBridged(trace: seq<Paths>, former: set<string>, wanted: set<string>) {
    forall k :: 0 <= k < |trace| ==> Bridged(trace[k], former, wanted)
  }

  lemma StepsBridged(pathId: string -> nat, t: Paths, wanted: set<string>, toAdd: seq<string>, toDelete: seq<string>,
                     adds: seq<Paths>, deletes: seq<Paths>)
    requires Diff(t, wanted, toAdd, toDelete) && Unhindered(pathId, t, wanted) && Undisplaced(pathId, t, wanted)
    requires AddSteps(pathId, t, toAdd, adds) && DeleteSteps(pathId, Added(pathId, t, toAdd), toDelete, deletes)
    ensures AllBridged(adds + deletes, Hops(t), wanted)
  {
    forall k | 0 <= k < |adds| ensures Bridged(adds[k], Hops(t), wanted) {
      MakeBeforeBreak(pathId, t, wanted, toAdd, toDelete, k + 1);
    }
    forall k | 0 <= k < |deletes| ensures Bridged(deletes[k], Hops(t), wanted) {
      MakeBeforeBreak(pathId, t, wanted, toAdd, toDelete, k + 1);
    }
  }

  // ---------------------------------------------------------------- the speaker

  class BgpSpeaker {
    var table: map<string, Paths>
    const pathId: string -> nat

    function PathsOf(ip: string): Paths
      reads this
    {
      if ip in table then table[ip] else map[]
    }

    constructor (pathId: string -> nat)
      ensures table == map[] && this.pathId == pathId
    {
      this.pathId, table := pathId, map[];
    }

    /** `retriveRoutes`: compares the listed paths with the wanted next hops. */
    method RetriveRoutes(ip: string, nexthops: seq<string>) returns (toAdd: seq<string>, toDelete: seq<string>)
      ensures Diff(PathsOf(ip), Elements(nexthops), toAdd, toDelete)
    {
      if ip !in table { return nexthops, []; }
      var news := set x | x in nexthops;
      toDelete := Missing(table[ip].Values, news);
      toAdd := Missing(news, table[ip].Values);
    }

    /** The server's `AddPath`. */
    method AddPath(ip: string, hop: string)
      modifies this
      ensures PathsOf(ip) == old(PathsOf(ip))[pathId(hop) := hop]
      ensures forall other :: other != ip ==> PathsOf(other) == old(PathsOf(other))
    {
      table := table[ip := PathsOf(ip)[pathId(hop) := hop]];
    }

    /** The server's `DeletePath`; an address without paths leaves the table. */
    method DeletePath(ip: string, hop: string)
      modifies this
      ensures PathsOf(ip) == old(PathsOf(ip)) - {pathId(hop)}
      ensures forall other :: other != ip ==> PathsOf(other) == old(PathsOf(other))
    {
      var left := PathsOf(ip) - {pathId(hop)};
      table := if left == map[] then table - {ip} else table[ip := left];
    }

    /** `AddPath` for each next hop until one is refused; `steps` are the paths after each. */
    method AddMultiRoutes(ip: string, hops: seq<string>, refused: set<string>)
      returns (ok: bool, ghost steps: seq<Paths>)
      modifies this
      ensures AddSteps(pathId, old(PathsOf(ip)), hops, steps) && (ok ==> |steps| == |hops|)
      ensures ok <==> Elements(hops) !! refused
      ensures PathsOf(ip) == Added(pathId, old(PathsOf(ip)), hops[..|steps|])
      ensures forall other :: other != ip ==> PathsOf(other) == old(PathsOf(other))
    {
      steps := [];
      for i := 0 to |hops|
        invariant |steps| == i && AddSteps(pathId, old(PathsOf(ip)), hops, steps)
        invariant PathsOf(ip) == Added(pathId, old(PathsOf(ip)), hops[..i])
        invariant forall other :: other != ip ==> PathsOf(other) == old(PathsOf(other))
        invariant forall j :: 0 <= j < i ==> hops[j] !in refused
      {
        if hops[i] in refused { return false, steps; }
        assert hops[..i + 1][..i] == hops[..i];
        AddPath(ip, hops[i]);
        steps := steps + [PathsOf(ip)];
      }
      return true, steps;
    }

    /** `DeletePath` for each next hop until one is refused; `steps` are the paths after each. */
    method DeleteMultiRoutes(ip: string, hops: seq<string>, refused: set<string>)
      returns (ok: bool, ghost steps: seq<Paths>)
      modifies this
      ensures DeleteSteps(pathId, old(PathsOf(ip)), hops, steps) && (ok ==> |steps| == |hops|)
      ensures ok <==> Elements(hops) !! refused
      ensures PathsOf(ip) == Deleted(pathId, old(PathsOf(ip)), hops[..|steps|])
      ensures forall other :: other != ip ==> PathsOf(other) == old(PathsOf(other))
    {
      steps := [];
      for i := 0 to |hops|
        invariant |steps| == i && DeleteSteps(pathId, old(PathsOf(ip)), hops, steps)
        invariant PathsOf(ip) == Deleted(pathId, old(PathsOf(ip)), hops[..i])
        invariant forall other :: other != ip ==> PathsOf(other) == old(PathsOf(other))
        invariant forall j :: 0 <= j < i ==> hops[j] !in refused
      {
        if hops[i] in refused { return false, steps; }
        assert hops[..i + 1][..i] == hops[..i];
        DeletePath(ip, hops[i]);
        steps := steps + [PathsOf(ip)];
      }
      return true, steps;
    }

    /**
      `setBalancer`: additions, then deletions, from any table. It succeeds if and only if the paths
      can be listed and no missing next hop is refused, nor the deletion of a superfluous one. Then it
      ends with exactly the wanted next hops if and only if no identifier stands in the way. In that
      case, failed or not, as long as no addition overwrites a path, every single step leaves all the
      former or all the wanted next hops in the table.
     */
    method SetBalancer(ip: string, nexthops: seq<string>, listed: bool, refused: set<string>, kept: set<string>)
      returns (ok: bool, ghost trace: seq<Paths>)
      modifies this
      ensures var former, wanted := Hops(old(PathsOf(ip))), Elements(nexthops);
        ok <==> listed && wanted - former !! refused && former - wanted !! kept
      ensures forall other :: other != ip ==> PathsOf(other) == old(PathsOf(other))
      ensures PathsOf(ip) == if trace == [] then old(PathsOf(ip)) else trace[|trace| - 1]
      ensures var former, wanted := Hops(old(PathsOf(ip))), Elements(nexthops);
        && (ok ==> (Hops(PathsOf(ip)) == wanted <==> Unhindered(pathId, old(PathsOf(ip)), wanted)))
        && (Unhindered(pathId, old(PathsOf(ip)), wanted) && Undisplaced(pathId, old(PathsOf(ip)), wanted) ==>
              AllBridged(trace, former, wanted))
      ensures Keyed(pathId, old(PathsOf(ip))) ==> Keyed(pathId, PathsOf(ip))
    {
      ghost var t, wanted := PathsOf(ip), Elements(nexthops);
      if !listed { return false, []; }
      var toAdd, toDelete := RetriveRoutes(ip, nexthops);
      ghost var adds, deletes := [], [];
      ok, adds := AddMultiRoutes(ip, toAdd, refused);
      KeyedKept(pathId, t, toAdd[..|adds|], []);
      if ok {
        assert toAdd[..|adds|] == toAdd;
        ok, deletes := DeleteMultiRoutes(ip, toDelete, kept);
        KeyedKept(pathId, t, toAdd, toDelete[..|deletes|]);
      }
      if Unhindered(pathId, t, wanted) && Undisplaced(pathId, t, wanted) {
        StepsBridged(pathId, t, wanted, toAdd, toDelete, adds, deletes);
      }
      if ok {
        assert toDelete[..|deletes|] == toDelete;
        EndsExactIff(pathId, t, wanted, toAdd, toDelete);
      }
      return ok, adds + deletes;
    }
  }

  /** The elements of `from` that `other` lacks, in any order. */
  method Missing(from: set<string>, other: set<string>) returns (r: seq<string>)
    ensures Elements(r) == from - other
  {
    r := [];
    var todo := from;
    while todo != {}
      invariant todo <= from && Elements(r) == (from - other) - todo
      decreases todo
    {
      var x :| x in todo;
      if x !in other {
        LastElement(r + [x]);
        assert (r + [x])[..|r|] == r;
        r := r + [x];
      }
      todo := todo - {x};
    }
  }
}
