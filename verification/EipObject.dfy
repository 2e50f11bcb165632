/**
  The pool object as the controllers change it in place: owner lists are ";"-joined strings, maps are
  walked in any order. Every method is proved to do to the decoded pool what `Ipam` says.
 */
module EipObject {
  import opened Basics
  import opened Net
  import opened Ranges
  import opened Owners
  import opened Ipam

  function Decode(used: map<Address, string>): map<Address, seq<string>> {
    map a | a in used :: Split(used[a], ';')
  }

  lemma DecodeSize(used: map<Address, string>)
    ensures Decode(used).Keys == used.Keys && |Decode(used)| == |used|
  {
  }

  /** A pool as the store keeps it, owner lists joined. */
  datatype Stored = Stored(
    block: Block, disabled: bool, deleting: bool, isDefault: bool,
    ready: bool, poolSize: int, used: map<Address, string>, usage: int, occupied: bool)

  function Decoded(s: Stored): Pool {
    Pool(s.block, s.disabled, s.deleting, s.isDefault, s.ready, s.poolSize, Decode(s.used), s.usage, s.occupied)
  }

  /** Nothing is lost in joined lists: stored pools that decode alike are alike. */
  lemma DecodedInjective(s: Stored, t: Stored)
    requires Decoded(s) == Decoded(t)
    ensures s == t
  {
    assert Decode(s.used).Keys == s.used.Keys && Decode(t.used).Keys == t.used.Keys;
    forall a | a in s.used ensures s.used[a] == t.used[a] {
      assert Split(s.used[a], ';') == Decode(s.used)[a] == Decode(t.used)[a] == Split(t.used[a], ';');
      JoinOfSplit(s.used[a], ';');
      JoinOfSplit(t.used[a], ';');
    }
  }

  /** The service an owner string names, if it names one. */
  function LookupKey(owner: string): Option<string> {
    var parts := Split(owner, '/');
    if |parts| < 2 then None else Some(parts[0] + "/" + parts[1])
  }

  lemma {:induction false} KeepAliveAppend(l: seq<string>, x: string, live: set<string>)
    ensures KeepAlive(l + [x], live) == KeepAlive(l, live) + (if Alive(x, live) then [x] else [])
  {
    if l == [] {
      assert l + [x] == [x];
    } else {
      assert (l + [x])[1..] == l[1..] + [x];
      KeepAliveAppend(l[1..], x, live);
    }
  }

  lemma KeepAliveFree(l: seq<string>, live: set<string>, sep: char)
    requires Free(l, sep)
    ensures Free(KeepAlive(l, live), sep)
  {
  }

  /** Writing a shortened list back and reading it again. */
  lemma ShortenedList(s: string, key: string)
    requires key in Split(s, ';')
    ensures Split(Join(Without(Split(s, ';'), key), ';'), ';') == Remaining(Split(s, ';'), key)
  {
    var rest := Without(Split(s, ';'), key);
    JoinOfSplit(s, ';');
    if rest != [] {
      forall i | 0 <= i < |rest| ensures ';' !in rest[i] { assert rest[i] in rest; }
      SplitOfJoin(rest, ';');
    }
  }

  class Eip {
    const block: Block
    var disabled: bool
    var deleting: bool
    var isDefault: bool
    var ready: bool
    var poolSize: int
    var used: map<Address, string>
    var usage: int
    var occupied: bool

    /** The object as the store would keep it. */
    function Content(): Stored
      reads this
    {
      Stored(block, disabled, deleting, isDefault, ready, poolSize, used, usage, occupied)
    }

    ghost function Value(): Pool
      reads this
    {
      Decoded(Content())
    }

    /** `DeepCopy` of a stored pool. */
    constructor (s: Stored)
      ensures Content() == s
    {
      block, disabled, deleting, isDefault := s.block, s.disabled, s.deleting, s.isDefault;
      ready, poolSize, used, usage, occupied := s.ready, s.poolSize, s.used, s.usage, s.occupied;
    }

    /** The first loop of `assignIPFromEip`: the service already owns the address it asks for. */
    method AlreadyOwns(key: string, want: Text) returns (owns: bool)
      ensures owns <==> exists a :: a in used && want == Canon(a) && key in Split(used[a], ';')
    {
      var todo := used.Keys;
      while todo != {}
        invariant todo <= used.Keys
        invariant forall a :: a in used && a !in todo && want == Canon(a) ==> key !in Split(used[a], ';')
        decreases todo
      {
        var addr :| addr in todo;
        var owners := Split(used[addr], ';');
        for i := 0 to |owners|
          invariant want == Canon(addr) ==> key !in owners[..i]
        {
          if owners[i] == key && want == Canon(addr) { return true; }
        }
        assert owners[..|owners|] == owners;
        todo := todo - {addr};
      }
      return false;
    }

    /** Gives a free address to its first owner. */
    method Take(addr: Address, key: string)
      requires ';' !in key && addr !in used
      modifies this`used, this`usage, this`occupied
      ensures Decode(used) == Decode(old(used))[addr := [key]]
      ensures usage == |Decode(used)| && occupied == (old(occupied) || usage == poolSize)
    {
      SplitWord(key, ';');
      used := used[addr := key];
      usage := |used|;
      if usage == poolSize { occupied := true; }
      DecodeSize(used);
    }

    /** Adds an owner to an address in use. */
    method Share(addr: Address, key: string)
      requires ';' !in key && addr in used
      modifies this`used
      ensures Decode(used) == Decode(old(used))[addr := Decode(old(used))[addr] + [key]]
    {
      SplitAppend(used[addr], key, ';');
      used := used[addr := used[addr] + ";" + key];
    }

    /** `assignIPFromEip`. */
    method AssignIP(key: string, want: Text) returns (r: Option<Address>)
      requires ';' !in key
      modifies this`used, this`usage, this`occupied
      ensures r == Choice(old(Value()), key, want)
      ensures Value() == Assign(old(Value()), key, want)
    {
      if deleting || disabled { return None; }
      var owns := AlreadyOwns(key, want);
      if owns { return Some(want.addr); }

      var offset := 0;
      if want.Spelled? {
        offset := Ordinal(block, want.addr);
        if offset < 0 { return None; }
      }
      ghost var before := Value();
      while offset < poolSize
        invariant 0 <= offset && Value() == before
        invariant want.Spelled? ==> offset == Ordinal(block, want.addr)
        invariant !want.Spelled? ==> LeastFree(before, offset) == LeastFree(before, 0)
        decreases poolSize - offset
      {
        var addr := At(block, offset);
        if addr !in used {
          Take(addr, key);
          return Some(addr);
        } else if want.Spelled? {
          Share(addr, key);
          return Some(addr);
        }
        offset := offset + 1;
      }
      return None;
    }

    /** Frees an address whose only owner leaves. */
    method Vacate(addr: Address)
      requires addr in used && usage == |used| <= poolSize
      modifies this`used, this`usage, this`occupied
      ensures used == old(used) - {addr} && usage == |used| && !occupied
    {
      ReleasedSizes(used, addr, "");
      used := used - {addr};
      usage := |used|;
      if usage != poolSize { occupied := false; }
    }

    /** Rewrites the owner list of a shared address once for every occurrence of `key`. */
    method Shorten(addr: Address, key: string)
      requires addr in used && |Split(used[addr], ';')| > 1
      modifies this`used
      ensures addr in used && used == old(used)[addr := used[addr]]
      ensures Split(used[addr], ';') == Remaining(Split(old(used)[addr], ';'), key)
    {
      var owners := Split(used[addr], ';');
      var joined := Rejoin(used[addr], key);
      var text := used[addr];
      for i := 0 to |owners|
        invariant addr in used && used == old(used)[addr := used[addr]]
        invariant used[addr] == if key in owners[..i] then joined else text
      {
        assert owners[..i + 1] == owners[..i] + [owners[i]];
        if owners[i] == key { used := used[addr := joined]; }
      }
      assert owners[..|owners|] == owners;
    }

    /** The body of the loop of `releaseIPFromEip`: takes `key` off one address. */
    method ReleaseAt(addr: Address, key: string)
      requires addr in used && usage == |used| <= poolSize
      modifies this`used, this`usage, this`occupied
      ensures Released(old(used), used, addr, key)
      ensures usage == |used|
      ensures occupied == (old(occupied) && addr in used)
    {
      var owners := Split(used[addr], ';');
      if |owners| > 1 {
        Shorten(addr, key);
        ReleasedSizes(old(used), addr, used[addr]);
      } else if owners[0] == key {
        Vacate(addr);
      }
    }

    /** The loop of `releaseIPFromEip`, in any map order. */
    method ReleaseEverywhere(key: string)
      requires usage == |used| && (used == map[] || |used| <= poolSize)
      modifies this`used, this`usage, this`occupied
      ensures PartlyReleased(old(used), used, {}, key)
      ensures usage == |used| && occupied == (old(occupied) && |used| == |old(used)|)
    {
      ghost var before := used;
      var todo := used.Keys;
      while todo != {}
        invariant todo <= used.Keys && PartlyReleased(before, used, todo, key)
        invariant usage == |used| <= |before|
        invariant occupied == (old(occupied) && |used| == |before|)
        decreases todo
      {
        var addr :| addr in todo;
        ghost var entry := used;
        assert addr in before;
        ReleaseAt(addr, key);
        ReleasedOne(before, entry, used, todo, addr, key);
        todo := todo - {addr};
      }
    }

    /** `releaseIPFromEip`. */
    method ReleaseIP(key: string)
      requires usage == |used| && (used == map[] || |used| <= poolSize)
      modifies this`used, this`usage, this`occupied
      ensures Value() == Release(old(Value()), key)
    {
      if deleting { return; }
      ghost var before := used;
      ReleaseEverywhere(key);
      FullyReleased(before, used, key);
    }

    /** `syncEip`: rebuilds the map from the owners that exist; a failed read leaves it alone. */
    method SyncEip(live: set<string>, broken: set<string>) returns (ok: bool)
      modifies this`used, this`usage, this`occupied
      ensures ok <==> AllReadable(old(used), broken)
      ensures ok ==> Decode(used) == SyncedUsed(Decode(old(used)), live)
      ensures ok ==> usage == |Decode(used)| && occupied == (usage >= poolSize)
      ensures !ok ==> used == old(used) && usage == old(usage) && occupied == old(occupied)
    {
      var rebuilt: map<Address, string> := map[];
      var todo := used.Keys;
      while todo != {}
        invariant todo <= used.Keys && PartlySynced(used, rebuilt, todo, live)
        invariant forall a :: a in used && a !in todo ==> Readable(Split(used[a], ';'), broken)
        invariant used == old(used) && usage == old(usage) && occupied == old(occupied)
        decreases todo
      {
        var addr :| addr in todo;
        var kept := SyncOwners(Split(used[addr], ';'), live, broken);
        if kept.None? { return false; }
        if |kept.value| != 0 {
          JoinOfSplit(used[addr], ';');
          KeepAliveFree(Split(used[addr], ';'), live, ';');
          SplitOfJoin(kept.value, ';');
          rebuilt := rebuilt[addr := Join(kept.value, ';')];
        }
        todo := todo - {addr};
      }
      FullySynced(used, rebuilt, live);
      used := rebuilt;
      usage := |used|;
      occupied := usage >= poolSize;
      return true;
    }

    /** `updateEip`: writes the size and the first address once, then synchronises. */
    method UpdateEip(live: set<string>, broken: set<string>) returns (ok: bool)
      modifies this`ready, this`poolSize, this`used, this`usage, this`occupied
      ensures ok <==> AllReadable(old(used), broken)
      ensures ok ==> Value() == Update(old(Value()), live)
      ensures !ok ==> used == old(used) && usage == old(usage) && occupied == old(occupied)
    {
      if !ready {
        poolSize := block.size;
        ready := true;
      }
      ok := SyncEip(live, broken);
      assert ok ==> Value().used == SyncedUsed(Decode(old(used)), live);
    }
  }

  /** No owner names a service whose read fails. */
  ghost predicate Readable(owners: seq<string>, broken: set<string>) {
    forall o :: o in owners && LookupKey(o).Some? ==> LookupKey(o).value !in broken
  }

  ghost predicate AllReadable(used: map<Address, string>, broken: set<string>) {
    forall a :: a in used ==> Readable(Split(used[a], ';'), broken)
  }

  /** The inner loop of `syncEip`. */
  method SyncOwners(owners: seq<string>, live: set<string>, broken: set<string>) returns (kept: Option<seq<string>>)
    ensures kept.Some? <==> Readable(owners, broken)
    ensures kept.Some? ==> kept.value == KeepAlive(owners, live)
  {
    var sync := [];
    for i := 0 to |owners|
      invariant sync == KeepAlive(owners[..i], live) && Readable(owners[..i], broken)
    {
      assert owners[..i + 1] == owners[..i] + [owners[i]];
      KeepAliveAppend(owners[..i], owners[i], live);
      var key := LookupKey(owners[i]);
      if key.None? { continue; }
      if key.value in broken { return None; }
      if key.value !in live { continue; }
      sync := sync + [owners[i]];
    }
    assert owners[..|owners|] == owners;
    return Some(sync);
  }

  /** The addresses outside `todo` have been copied with their living owners. */
  ghost predicate PartlySynced(
    used: map<Address, string>, now: map<Address, string>, todo: set<Address>, live: set<string>)
  {
    && (forall a :: a in now <==> a in used && a !in todo && KeepAlive(Split(used[a], ';'), live) != [])
    && (forall a :: a in now && a in used ==> Split(now[a], ';') == KeepAlive(Split(used[a], ';'), live))
  }

  lemma FullySynced(used: map<Address, string>, now: map<Address, string>, live: set<string>)
    requires PartlySynced(used, now, {}, live)
    ensures Decode(now) == SyncedUsed(Decode(used), live) && |Decode(now)| == |now|
  {
    DecodeSize(now);
  }

  /** `strings.Join(util.RemoveString(…), ";")`. */
  method Rejoin(text: string, key: string) returns (joined: string)
    ensures key in Split(text, ';') ==> Split(joined, ';') == Remaining(Split(text, ';'), key)
  {
    var rest := RemoveString(Split(text, ';'), key);
    if key in Split(text, ';') { ShortenedList(text, key); }
    return Join(rest, ';');
  }

  /** `after` is `before` with `key` taken off the address `addr`. */
  ghost predicate Released(before: map<Address, string>, after: map<Address, string>, addr: Address, key: string)
    requires addr in before
  {
    var owners := Split(before[addr], ';');
    if owners == [key] then after == before - {addr}
    else addr in after && after == before[addr := after[addr]] && Split(after[addr], ';') == Remaining(owners, key)
  }

  /** `key` has been taken off every address outside `todo`. */
  ghost predicate PartlyReleased(
    before: map<Address, string>, now: map<Address, string>, todo: set<Address>, key: string)
  {
    && now.Keys <= before.Keys
    && (forall a :: a in before ==> (a in now <==> a in todo || Split(before[a], ';') != [key]))
    && (forall a :: a in now && a in todo ==> now[a] == before[a])
    && (forall a :: a in now && a !in todo ==> Split(now[a], ';') == Remaining(Split(before[a], ';'), key))
  }

  lemma FullyReleased(before: map<Address, string>, now: map<Address, string>, key: string)
    requires PartlyReleased(before, now, {}, key)
    ensures Decode(now) == ReleasedUsed(Decode(before), key)
    ensures |Decode(now)| == |now| && |Decode(before)| == |before|
  {
    DecodeSize(now);
    DecodeSize(before);
  }

  lemma ReleasedSizes(used: map<Address, string>, addr: Address, text: string)
    requires addr in used
    ensures |used - {addr}| == |used| - 1 && |used[addr := text]| == |used|
  {
  }

  lemma ReleasedOne(before: map<Address, string>, entry: map<Address, string>, now: map<Address, string>,
                    todo: set<Address>, addr: Address, key: string)
    requires PartlyReleased(before, entry, todo, key) && addr in todo && todo <= entry.Keys
    requires Released(entry, now, addr, key)
    ensures PartlyReleased(before, now, todo - {addr}, key)
    ensures todo - {addr} <= now.Keys
    ensures |now| == |entry| - (if addr in now then 0 else 1)
  {
  }
}
