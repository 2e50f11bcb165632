/**
  The growing bitmap allocator of pkg/util/idalloc/idalloc.go.

  `IDAllocator` keeps its identifiers in 64-bit words and extends the word list on demand. A word is
  the row of its 64 bits, lowest first. Everything the allocator promises is stated about `Ids()`,
  the plain set of identifiers whose bit is set.
 */
module IdAlloc {
  import opened Basics
  import Net

  const UINT32_RANGE: nat := 0x1_0000_0000
  /** Up to this many identifiers the 32-bit probing sum cannot wrap. */
  const PROBE_LIMIT: nat := 0x8000_0000

  type Word = w: seq<bool> | |w| == 64 witness EMPTY_WORD

  const EMPTY_WORD: seq<bool> := seq(64, _ => false)
  const FULL_WORD: seq<bool> := seq(64, _ => true)

  /** The error carries the identifier 2^32 - 1 in the source; here it has its own constructor. */
  datatype Allocation = Granted(id: nat) | Exhausted

  // ---------------------------------------------------------------- bitmaps as sets

  predicate Has(bits: seq<Word>, id: nat) {
    id / 64 < |bits| && bits[id / 64][id % 64]
  }

  /** The identifiers recorded in a bitmap. */
  ghost function IdsOf(bits: seq<Word>): set<nat> {
    set id: nat | id < 64 * |bits| && Has(bits, id)
  }

  /** All of the first `n` identifiers are in `ids`. */
  ghost predicate AllTaken(ids: set<nat>, n: nat) {
    forall id: nat :: id < n ==> id in ids
  }

  /** `bits.TrailingZeros` of the complement, counted from `k`: the first clear bit, or 64. */
  function FirstClear(w: Word, k: nat): (r: nat)
    requires k <= 64
    requires forall j: nat :: j < k ==> w[j]
    ensures r <= 64 && (r < 64 ==> !w[r])
    ensures forall j: nat :: j < r ==> w[j]
    decreases 64 - k
  {
    if k == 64 || !w[k] then k else FirstClear(w, k + 1)
  }

  lemma AllSetIsFull(w: Word)
    ensures (forall j: nat :: j < 64 ==> w[j]) <==> w == FULL_WORD
  {
  }

  lemma UpdatedBitmap(bits: seq<Word>, id: nat, on: bool)
    requires id / 64 < |bits|
    ensures IdsOf(bits[id / 64 := bits[id / 64][id % 64 := on]])
         == if on then IdsOf(bits) + {id} else IdsOf(bits) - {id}
  {
  }

  lemma GrownBitmap(bits: seq<Word>, n: nat)
    ensures IdsOf(bits + seq(n, _ => EMPTY_WORD)) == IdsOf(bits)
  {
  }

  // ---------------------------------------------------------------- probing

  /** The first four bytes of a digest, big-endian. */
  function Start(hash: Digest): (r: nat)
    ensures r < UINT32_RANGE
  {
    var b0: nat, b1: nat, b2: nat, b3: nat := hash[0], hash[1], hash[2], hash[3];
    ((b0 * 256 + b1) * 256 + b2) * 256 + b3
  }

  lemma StartIsBigEndian(hash: Digest)
    ensures Start(hash) == Net.Big(hash[..4])
  {
    var b0: nat, b1: nat := hash[0], hash[1];
    assert hash[..4][..3] == hash[..3] && hash[..3][..2] == hash[..2] && hash[..2] == [hash[0]] + [hash[1]];
    assert Net.Big([hash[0]]) == b0;
    assert Net.Big(hash[..2]) == b0 * 256 + b1;
    assert Net.Big(hash[..3]) == Net.Big(hash[..2]) * 256 + hash[2];
  }

  /** The `i`-th identifier probed; the addition is done in 32 bits. */
  function Probe(start: nat, i: nat, n: nat): (r: nat)
    requires n > 0
    ensures r < n
  {
    (start + i) % UINT32_RANGE % n
  }

  /** `id` is the first identifier in probing order that is not in `ids`. */
  ghost predicate FirstFree(ids: set<nat>, start: nat, n: nat, id: nat)
    requires n > 0
  {
    exists k: nat :: k < n && id == Probe(start, k, n) && id !in ids &&
      forall j: nat :: j < k ==> Probe(start, j, n) in ids
  }

  ghost predicate Probed(start: nat, n: nat, id: nat)
    requires n > 0
  {
    exists k: nat :: k < n && Probe(start, k, n) == id
  }

  lemma ModBelowTwice(x: nat, n: nat)
    requires 0 < n && x < 2 * n
    ensures x % n == if x < n then x else x - n
  {
  }

  /** Every identifier that probing visits is in `ids`. */
  ghost predicate ProbedTaken(ids: set<nat>, start: nat, n: nat)
    requires n > 0
  {
    forall id: nat {:trigger Probed(start, n, id)} :: Probed(start, n, id) ==> id in ids
  }

  /** Without wrap-around the `k`-th probe is the `k`-th identifier in cyclic order. */
  lemma ProbeIsCyclic(start: nat, k: nat, n: nat)
    requires start < n <= PROBE_LIMIT && k < n
    ensures Probe(start, k, n) == if start + k < n then start + k else start + k - n
  {
    ModBelowTwice(start + k, UINT32_RANGE);
    ModBelowTwice(start + k, n);
  }

  lemma ProbingCovers(start: nat, n: nat, id: nat)
    requires start < n <= PROBE_LIMIT && id < n
    ensures Probed(start, n, id)
  {
    var k := if id >= start then id - start else id + n - start;
    ProbeIsCyclic(start, k, n);
  }

  /** From the last identifier the 32-bit sum wraps before it reaches the last but one. */
  lemma WrappedProbingMisses(n: nat, k: nat)
    requires PROBE_LIMIT < n < UINT32_RANGE && k < n
    ensures Probe(n - 1, k, n) != n - 2
  {
    var sum := n - 1 + k;
    ModBelowTwice(sum, UINT32_RANGE);
    ModBelowTwice(sum % UINT32_RANGE, n);
  }

  /** Probing from every start visits every identifier exactly when there are at most 2^31 of them. */
  lemma ProbingCoversIff(n: nat)
    requires 0 < n < UINT32_RANGE
    ensures (forall start: nat, id: nat :: start < n && id < n ==> Probed(start, n, id)) <==> n <= PROBE_LIMIT
  {
    if n <= PROBE_LIMIT {
      forall start: nat, id: nat | start < n && id < n
        ensures Probed(start, n, id)
      {
        ProbingCovers(start, n, id);
      }
    } else if Probed(n - 1, n, n - 2) {
      var k: nat :| k < n && Probe(n - 1, k, n) == n - 2;
      WrappedProbingMisses(n, k);
    }
  }

  // ---------------------------------------------------------------- the allocator

  class IDAllocator {
    var bits: seq<Word>
    const maxBlocks: nat

    ghost predicate Valid()
      reads this
    {
      1 <= |bits| <= maxBlocks && maxBlocks * 64 < UINT32_RANGE
    }

    ghost function Ids(): set<nat>
      reads this
    {
      IdsOf(bits)
    }

    ghost function Capacity(): nat {
      maxBlocks * 64
    }

    /** `New`; the source panics on any other argument. Identifier 0 is taken from the start. */
    constructor (numIDs: nat)
      requires numIDs != 0 && numIDs % 64 == 0 && numIDs < UINT32_RANGE
      ensures Valid() && Capacity() == numIDs && Ids() == {0}
    {
      bits := [EMPTY_WORD[0 := true]];
      maxBlocks := (numIDs + 63) / 64;
    }

    /** Doubles the bitmap up to its maximum; the set of identifiers does not change. */
    method Grow() returns (grown: bool)
      requires Valid()
      modifies this
      ensures Valid() && Ids() == old(Ids())
      ensures grown <==> old(|bits|) < maxBlocks
      ensures |bits| == if 2 * old(|bits|) > maxBlocks then maxBlocks else 2 * old(|bits|)
    {
      var n := |bits|;
      if n >= maxBlocks { return false; }
      if 2 * n > maxBlocks { n := maxBlocks - n; }
      GrownBitmap(bits, n);
      bits := bits + seq(n, _ => EMPTY_WORD);
      return true;
    }

    /** Grants the least free identifier; refuses exactly when all are taken. */
    method Allocate() returns (r: Allocation)
      requires Valid()
      modifies this
      ensures Valid()
      ensures r.Exhausted? <==> AllTaken(old(Ids()), Capacity())
      ensures r.Exhausted? ==> Ids() == old(Ids())
      ensures r.Granted? ==> r.id < Capacity() && r.id !in old(Ids()) && AllTaken(old(Ids()), r.id)
      ensures r.Granted? ==> Ids() == old(Ids()) + {r.id}
    {
      var i := 0;
      while true
        invariant Valid() && i < |bits| && Ids() == old(Ids())
        invariant AllTaken(Ids(), 64 * i)
        decreases maxBlocks - i
      {
        var cur := bits[i];
        if cur != FULL_WORD {
          AllSetIsFull(cur);
          var bb := FirstClear(cur, 0);
          var id := i * 64 + bb;
          assert !Has(bits, id);
          assert AllTaken(Ids(), id) by {
            forall j: nat | 64 * i <= j < id ensures Has(bits, j) {}
          }
          UpdatedBitmap(bits, id, true);
          bits := bits[i := cur[bb := true]];
          return Granted(id);
        }
        forall j: nat | 64 * i <= j < 64 * (i + 1) ensures Has(bits, j) {}
        i := i + 1;
        if i == |bits| {
          var grown := Grow();
          if !grown { return Exhausted; }
        }
      }
    }

    /**
      Grants the first free identifier in probing order from the digest; refuses exactly when no
      probed identifier is free, which for at most 2^31 identifiers means that all are taken.
     */
    method AllocateWithHash(hash: Digest) returns (r: Allocation)
      requires Valid()
      modifies this
      ensures Valid()
      ensures Capacity() > PROBE_LIMIT ==>
        (r.Exhausted? <==> ProbedTaken(old(Ids()), Start(hash) % Capacity(), Capacity()))
      ensures Capacity() <= PROBE_LIMIT ==> (r.Exhausted? <==> AllTaken(old(Ids()), Capacity()))
      ensures r.Exhausted? ==> Ids() == old(Ids())
      ensures r.Granted? ==> r.id < Capacity() && r.id !in old(Ids())
      ensures r.Granted? ==> FirstFree(old(Ids()), Start(hash) % Capacity(), Capacity(), r.id)
      ensures r.Granted? ==> Ids() == old(Ids()) + {r.id}
    {
      var n := maxBlocks * 64;
      var initial := Start(hash) % n;
      for i := 0 to n
        invariant Valid() && Ids() == old(Ids())
        invariant forall j: nat :: j < i ==> Probe(initial, j, n) in old(Ids())
      {
        var id := Probe(initial, i, n);
        var block := id / 64;
        while block >= |bits|
          invariant Valid() && Ids() == old(Ids())
          decreases maxBlocks - |bits|
        {
          var grown := Grow();
          if !grown {
            assert false;
            return Exhausted;
          }
        }
        if !bits[block][id % 64] {
          assert !Has(bits, id);
          UpdatedBitmap(bits, id, true);
          bits := bits[block := bits[block][id % 64 := true]];
          assert Probed(initial, n, id);
          return Granted(id);
        }
        assert Has(bits, id);
      }
      if n <= PROBE_LIMIT {
        forall id: nat | id < n ensures id in old(Ids()) { ProbingCovers(initial, n, id); }
      }
      return Exhausted;
    }

    /** Releases an identifier inside the bitmap; the source panics on any other. */
    method Free(id: nat)
      requires Valid() && id < 64 * |bits|
      modifies this
      ensures Valid() && |bits| == old(|bits|)
      ensures Ids() == old(Ids()) - {id}
    {
      UpdatedBitmap(bits, id, false);
      bits := bits[id / 64 := bits[id / 64][id % 64 := false]];
    }
  }
}
