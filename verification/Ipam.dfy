/**
  One pool: its status as a value, and what assigning, releasing and pruning do to it
  (pkg/controllers/ipam/ipam.go and pkg/controllers/ipam/controller.go).
 */
module Ipam {
  import opened Basics
  import opened Net
  import opened Ranges
  import opened Owners

  /**
    The text of an address field. A text is empty, not an address, or one of the spellings of an
    address; spelling 0 is the canonical one, so two texts of one address can differ.
   */
  datatype Text = Empty | Garbage(raw: string) | Spelled(addr: Address, form: nat)

  /** The canonical text of an address. */
  function Canon(a: Address): Text {
    Spelled(a, 0)
  }

  /** `net.ParseIP`. */
  function Parse(t: Text): Option<Address> {
    if t.Spelled? then Some(t.addr) else None
  }

  /**
    A pool. `ready` says that `FirstIP` has been written, `used` maps each address in use to the
    services that own it.
   */
  datatype Pool = Pool(
    block: Block, disabled: bool, deleting: bool, isDefault: bool,
    ready: bool, poolSize: int, used: map<Address, seq<string>>, usage: int, occupied: bool)

  predicate IsKey(k: string) {
    ';' !in k && |Split(k, '/')| == 2
  }

  // ---------------------------------------------------------------- operations on pool values

  function LeastFree(p: Pool, offset: nat): Option<Address>
    decreases p.poolSize - offset
  {
    if offset >= p.poolSize then None
    else if At(p.block, offset) !in p.used then Some(At(p.block, offset))
    else LeastFree(p, offset + 1)
  }

  /** The address `assignIPFromEip` returns, if any. */
  function Choice(p: Pool, key: string, want: Text): Option<Address> {
    if p.deleting || p.disabled then None
    else if want.Spelled? && want == Canon(want.addr) && want.addr in p.used && key in p.used[want.addr]
    then Some(want.addr)
    else match Parse(want)
      case Some(a) =>
        var offset := Ordinal(p.block, a);
        if offset < 0 || offset >= p.poolSize then None else Some(At(p.block, offset))
      case None => LeastFree(p, 0)
  }

  /** The pool after `assignIPFromEip`. */
  function Assign(p: Pool, key: string, want: Text): Pool {
    match Choice(p, key, want)
    case None => p
    case Some(a) =>
      if a !in p.used then
        var used := p.used[a := [key]];
        p.(used := used, usage := |used|, occupied := p.occupied || |used| == p.poolSize)
      else if want == Canon(a) && key in p.used[a] then p
      else p.(used := p.used[a := p.used[a] + [key]])
  }

  /** What is left of an owner list; the empty list is written as "" and read back as [""]. */
  function Remaining(l: seq<string>, key: string): seq<string> {
    if key !in l then l else if Without(l, key) == [] then [""] else Without(l, key)
  }

  function ReleasedUsed(used: map<Address, seq<string>>, key: string): map<Address, seq<string>> {
    map a | a in used && used[a] != [key] :: Remaining(used[a], key)
  }

  /** The pool after `releaseIPFromEip`. */
  function Release(p: Pool, key: string): Pool {
    if p.deleting then p
    else
      var used := ReleasedUsed(p.used, key);
      p.(used := used, usage := |used|, occupied := p.occupied && |used| == |p.used|)
  }

  /** The service an owner names still exists. */
  predicate Alive(owner: string, live: set<string>) {
    var parts := Split(owner, '/');
    |parts| >= 2 && parts[0] + "/" + parts[1] in live
  }

  function KeepAlive(l: seq<string>, live: set<string>): (r: seq<string>)
    ensures forall x :: x in r <==> x in l && Alive(x, live)
  {
    if l == [] then []
    else if Alive(l[0], live) then [l[0]] + KeepAlive(l[1..], live)
    else KeepAlive(l[1..], live)
  }

  function SyncedUsed(used: map<Address, seq<string>>, live: set<string>): map<Address, seq<string>> {
    map a | a in used && KeepAlive(used[a], live) != [] :: KeepAlive(used[a], live)
  }

  /** The pool after `updateEip`: initialised if need be, then pruned by `syncEip`. */
  function Update(p: Pool, live: set<string>): Pool {
    var size := if p.ready then p.poolSize else p.block.size;
    var used := SyncedUsed(p.used, live);
    p.(ready := true, poolSize := size, used := used, usage := |used|, occupied := |used| >= size)
  }

  // ---------------------------------------------------------------- the pool invariant

  ghost predicate OwnersOk(used: map<Address, seq<string>>) {
    forall a :: a in used ==> used[a] != [] && NoDuplicates(used[a]) && forall k :: k in used[a] ==> IsKey(k)
  }

  /** The status of a pool says what is in use. */
  ghost predicate PoolOk(p: Pool) {
    && Formed(p.block)
    && p.poolSize == (if p.ready then p.block.size else 0)
    && (!p.ready ==> p.used == map[] && !p.occupied)
    && (forall a :: a in p.used ==> Within(p.block, a))
    && p.usage == |p.used|
    && (p.ready ==> (p.occupied <==> p.usage >= p.poolSize))
    && OwnersOk(p.used)
  }

  ghost function AddressesBelow(b: Block, n: nat): (r: set<Address>)
    ensures forall a :: a in r <==> a.v6 == b.v6 && b.first <= a.value < b.first + n
    ensures |r| == n
  {
    if n == 0 then {} else AddressesBelow(b, n - 1) + {At(b, n - 1)}
  }

  /** Usage never exceeds the pool, and it reaches the pool size exactly when every address is used. */
  lemma UsageBound(p: Pool)
    requires Formed(p.block) && forall a :: a in p.used ==> Within(p.block, a)
    ensures |p.used| == 0 || |p.used| <= p.block.size
    ensures |p.used| >= p.block.size <==> forall a :: Within(p.block, a) ==> a in p.used
  {
    var all := AddressesBelow(p.block, if p.block.size < 0 then 0 else p.block.size);
    assert forall a :: a in all <==> Within(p.block, a);
    SubsetSize(p.used.Keys, all);
    assert |p.used| == |p.used.Keys|;
  }

  lemma {:induction false} LeastFreeIs(p: Pool, offset: nat)
    ensures var r := LeastFree(p, offset);
      && (r.None? ==> forall k :: offset <= k < p.poolSize ==> At(p.block, k) in p.used)
      && (r.Some? ==> exists k :: offset <= k < p.poolSize && r.value == At(p.block, k) && r.value !in p.used
                                  && forall j :: offset <= j < k ==> At(p.block, j) in p.used)
    decreases p.poolSize - offset
  {
    if offset < p.poolSize && At(p.block, offset) in p.used { LeastFreeIs(p, offset + 1); }
  }

  /** Automatic assignment on an enabled pool: the lowest free address, refused exactly when full. */
  lemma AutomaticChoice(p: Pool, key: string, want: Text)
    requires PoolOk(p) && p.ready && !p.deleting && !p.disabled && Parse(want).None?
    ensures Choice(p, key, want).None? <==> p.occupied
    ensures Choice(p, key, want).Some? ==>
      var a := Choice(p, key, want).value;
      Within(p.block, a) && a !in p.used && forall b :: Within(p.block, b) && b.value < a.value ==> b in p.used
  {
    LeastFreeIs(p, 0);
    UsageBound(p);
    forall a | Within(p.block, a) ensures a == At(p.block, a.value - p.block.first) {}
  }

  /** A requested address that lies in the pool is the address given, and no other request is. */
  lemma RequestedChoice(p: Pool, key: string, want: Text)
    requires PoolOk(p) && p.ready && !p.deleting && !p.disabled && want.Spelled?
    ensures Choice(p, key, want) == Some(want.addr) <==> Within(p.block, want.addr)
  {
  }

  /** When a pool gives an address: usable, initialised, and not full or covering the wanted ordinal. */
  lemma ChoiceMadeIff(p: Pool, key: string, want: Text)
    requires PoolOk(p)
    ensures Choice(p, key, want).Some? <==>
      !p.deleting && !p.disabled && p.ready && if want.Spelled? then Ordinal(p.block, want.addr) >= 0 else !p.occupied
  {
    if p.ready && !p.deleting && !p.disabled && !want.Spelled? { AutomaticChoice(p, key, want); }
    if want.Spelled? { OrdinalInverse(p.block, want.addr, 0); }
  }

  lemma ChoiceWithin(p: Pool, key: string, want: Text)
    requires PoolOk(p) && Choice(p, key, want).Some?
    ensures p.ready && Within(p.block, Choice(p, key, want).value)
  {
    if Parse(want).None? { LeastFreeIs(p, 0); }
  }

  /** Assigning to a service that the pool does not list keeps the pool invariant. */
  lemma AssignKeeps(p: Pool, key: string, want: Text)
    requires PoolOk(p) && IsKey(key) && forall a :: a in p.used ==> key !in p.used[a]
    ensures PoolOk(Assign(p, key, want))
  {
    if Choice(p, key, want).Some? {
      var a := Choice(p, key, want).value;
      ChoiceWithin(p, key, want);
      UsageBound(p);
      UsageBound(Assign(p, key, want));
    }
  }

  /** The owner map after an assignment, by the case taken. */
  lemma AssignedUsed(p: Pool, key: string, want: Text)
    requires Choice(p, key, want).Some?
    ensures var a, q := Choice(p, key, want).value, Assign(p, key, want);
      q.used == if a !in p.used then p.used[a := [key]]
                else if want == Canon(a) && key in p.used[a] then p.used
                else p.used[a := p.used[a] + [key]]
  {
  }

  /** What assigning does to the owners: `key` joins the chosen address, all else stays. */
  lemma AssignOwners(p: Pool, key: string, want: Text)
    requires Choice(p, key, want).Some?
    ensures var a, q := Choice(p, key, want).value, Assign(p, key, want);
      && q.used.Keys == p.used.Keys + {a}
      && (forall b, k :: b in q.used && k in q.used[b] <==> (b in p.used && k in p.used[b]) || (b == a && k == key))
      && (forall b :: b in p.used && b != a ==> q.used[b] == p.used[b])
  {
    AssignedUsed(p, key, want);
    OwnersJoined(p.used, Choice(p, key, want).value, key, want == Canon(Choice(p, key, want).value));
  }

  lemma OwnersJoined(used: map<Address, seq<string>>, a: Address, key: string, skip: bool)
    ensures var after := if a !in used then used[a := [key]]
                         else if skip && key in used[a] then used
                         else used[a := used[a] + [key]];
      && after.Keys == used.Keys + {a}
      && (forall b, k :: b in after && k in after[b] <==> (b in used && k in used[b]) || (b == a && k == key))
      && (forall b :: b in used && b != a ==> after[b] == used[b])
  {
  }

  /** Releasing keeps the pool invariant. */
  lemma ReleaseKeeps(p: Pool, key: string)
    requires PoolOk(p)
    ensures PoolOk(Release(p, key))
  {
    var q := Release(p, key);
    if !p.deleting {
      ReleaseOwners(p.used, key);
      UsageBound(p);
      assert q.used.Keys <= p.used.Keys;
      SubsetSize(q.used.Keys, p.used.Keys);
      assert |q.used.Keys| == |q.used| && |p.used.Keys| == |p.used|;
    }
  }

  /** What releasing does to the owners: `key` leaves every list, an address goes with its last owner. */
  lemma ReleaseOwners(used: map<Address, seq<string>>, key: string)
    requires OwnersOk(used)
    ensures var after := ReleasedUsed(used, key);
      && OwnersOk(after)
      && (forall a :: a in after <==> a in used && exists k :: k in used[a] && k != key)
      && (forall a :: a in after ==> after[a] == Without(used[a], key))
      && (forall a, k :: a in after && k in after[a] <==> a in used && k in used[a] && k != key)
  {
    var after := ReleasedUsed(used, key);
    forall a | a in used
      ensures var rest := Without(used[a], key);
        used[a] == [key] || (Remaining(used[a], key) == rest != [] && NoDuplicates(rest))
      ensures used[a] != [key] ==> exists k :: k in used[a] && k != key
    {
      WithoutNoDuplicates(used[a], key);
      WithoutAbsent(used[a], key);
      if used[a] != [key] {
        if |used[a]| == 1 { assert used[a] == [used[a][0]]; }
        var rest := Without(used[a], key);
        assert rest[0] in rest;
      }
    }
  }

  lemma {:induction false} WithoutAbsent(l: seq<string>, w: string)
    ensures w !in l ==> Without(l, w) == l
  {
    if l != [] { WithoutAbsent(l[1..], w); }
  }

  /** On a list that repeats its only owner the release leaves the address taken by the owner "". */
  lemma ReleaseFreesIff(used: map<Address, seq<string>>, key: string, a: Address)
    requires a in used && used[a] != [] && forall k :: k in used[a] ==> k == key
    ensures a !in ReleasedUsed(used, key) <==> NoDuplicates(used[a])
    ensures a in ReleasedUsed(used, key) ==> ReleasedUsed(used, key)[a] == [""]
  {
    assert used[a][0] in used[a];
    if |used[a]| >= 2 {
      assert used[a][1] in used[a];
      assert used[a][0] == used[a][1];
    }
  }

  lemma AliveKey(key: string, live: set<string>)
    requires IsKey(key)
    ensures Alive(key, live) <==> key in live
  {
    JoinOfSplit(key, '/');
    var parts := Split(key, '/');
    assert Join(parts, '/') == parts[0] + "/" + Join(parts[1..], '/') == parts[0] + "/" + parts[1];
  }

  lemma {:induction false} KeepAliveNoDuplicates(l: seq<string>, live: set<string>)
    requires NoDuplicates(l)
    ensures NoDuplicates(KeepAlive(l, live))
  {
    if l != [] {
      KeepAliveNoDuplicates(l[1..], live);
      var rest := KeepAlive(l[1..], live);
      assert l == [l[0]] + l[1..] && l[0] !in l[1..];
      forall i, j | 0 <= i < j < |[l[0]] + rest| ensures ([l[0]] + rest)[i] != ([l[0]] + rest)[j] {
        if i == 0 { assert rest[j - 1] in rest; }
      }
    }
  }

  /** Initialising and pruning keep the pool invariant; exactly the dead owners leave. */
  lemma UpdateKeeps(p: Pool, live: set<string>)
    requires PoolOk(p)
    ensures PoolOk(Update(p, live))
    ensures var q := Update(p, live);
      forall a, k :: a in q.used && k in q.used[a] <==> a in p.used && k in p.used[a] && k in live
  {
    var q := Update(p, live);
    forall a | a in p.used ensures NoDuplicates(KeepAlive(p.used[a], live)) {
      KeepAliveNoDuplicates(p.used[a], live);
    }
    forall a, k | a in p.used && k in p.used[a] ensures Alive(k, live) <==> k in live {
      AliveKey(k, live);
    }
    UsageBound(q);
  }
}
