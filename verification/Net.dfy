/**
  Addresses as bytes and as integers: pkg/util/net/ip.go, the `net.IP` operations it rests on, and
  the byte-wise order used by pkg/util/iprange/range.go.
 */
module Net {
  import opened Basics

  const TWO32: nat := 0x1_0000_0000
  const TWO63: int := 0x8000_0000_0000_0000
  const TWO64: nat := 0x1_0000_0000_0000_0000
  const TWO128: nat := 0x1_0000_0000_0000_0000_0000_0000_0000_0000

  /** `int64(x)` of an integer that may not fit: the low 64 bits, read as two's complement. */
  function Int64(x: int): (r: int)
    ensures -TWO63 <= r < TWO63
    ensures -TWO63 <= x < TWO63 ==> r == x
  {
    (x + TWO63) % TWO64 - TWO63
  }

  // ---------------------------------------------------------------- big integers

  function Pow256(n: nat): (r: nat)
    ensures r > 0
  {
    if n == 0 then 1 else 256 * Pow256(n - 1)
  }

  lemma Widths()
    ensures Pow256(4) == TWO32 && Pow256(16) == TWO128
  {
  }

  /** `big.Int.SetBytes`. */
  function Big(bs: Bytes): nat {
    if bs == [] then 0 else Big(bs[..|bs| - 1]) * 256 + bs[|bs| - 1]
  }

  function Digits(v: nat, n: nat): (r: Bytes)
    ensures |r| == n
  {
    if n == 0 then [] else Digits(v / 256, n - 1) + [v % 256]
  }

  /** `big.Int.FillBytes`, which panics when the value does not fit the buffer. */
  function FillBytes(v: nat, n: nat): Option<Bytes> {
    if v < Pow256(n) then Some(Digits(v, n)) else None
  }

  lemma {:induction false} BigOfDigits(v: nat, n: nat)
    requires v < Pow256(n)
    ensures Big(Digits(v, n)) == v
  {
    if n > 0 {
      BigOfDigits(v / 256, n - 1);
      assert Digits(v, n)[..n - 1] == Digits(v / 256, n - 1);
    }
  }

  lemma {:induction false} DigitsOfBig(bs: Bytes)
    ensures Big(bs) < Pow256(|bs|) && Digits(Big(bs), |bs|) == bs
  {
    if bs != [] {
      var rest := bs[..|bs| - 1];
      DigitsOfBig(rest);
      assert bs == rest + [bs[|bs| - 1]];
    }
  }

  /** A value that some buffer holds is written and read back by a buffer of that length. */
  lemma BigOfSmaller(v: nat, bound: Bytes)
    requires v <= Big(bound)
    ensures Big(Digits(v, |bound|)) == v
  {
    DigitsOfBig(bound);
    BigOfDigits(v, |bound|);
  }

  lemma Shifted(h: nat, p: nat, rest: nat, last: nat)
    ensures (h * p + rest) * 256 + last == h * (256 * p) + (rest * 256 + last)
  {
    assert h * p * 256 == h * (256 * p);
  }

  lemma {:induction false} BigSplit(a: Bytes, b: Bytes)
    ensures Big(a + b) == Big(a) * Pow256(|b|) + Big(b)
  {
    if b == [] {
      assert a + b == a;
    } else {
      var rest := b[..|b| - 1];
      BigSplit(a, rest);
      assert (a + b)[..|a + b| - 1] == a + rest;
      assert (a + b)[|a + b| - 1] == b[|b| - 1];
      Shifted(Big(a), Pow256(|rest|), Big(rest), b[|b| - 1]);
    }
  }

  /** `bytes.Compare`. */
  function Compare(a: Bytes, b: Bytes): (r: int) {
    if a == [] then (if b == [] then 0 else -1)
    else if b == [] then 1
    else if a[0] < b[0] then -1
    else if a[0] > b[0] then 1
    else Compare(a[1..], b[1..])
  }

  function Sign(x: int): int {
    if x < 0 then -1 else if x == 0 then 0 else 1
  }

  lemma LeadingDigit(x: nat, y: nat, p: nat, s: nat, t: nat)
    requires s < p && t < p
    ensures x < y ==> x * p + s < y * p + t
    ensures x > y ==> x * p + s > y * p + t
  {
    if x < y { assert (x + 1) * p <= y * p; }
    if x > y { assert (y + 1) * p <= x * p; }
  }

  /** On byte strings of one length the lexicographic order is the order of the integers. */
  lemma {:induction false} CompareIsOrder(a: Bytes, b: Bytes)
    requires |a| == |b|
    ensures Compare(a, b) == Sign(Big(a) - Big(b))
  {
    if a != [] {
      var s, t := a[1..], b[1..];
      CompareIsOrder(s, t);
      assert a == [a[0]] + s && b == [b[0]] + t;
      BigSplit([a[0]], s);
      BigSplit([b[0]], t);
      assert Big([a[0]]) == a[0] && Big([b[0]]) == b[0];
      DigitsOfBig(s);
      DigitsOfBig(t);
      LeadingDigit(a[0], b[0], Pow256(|s|), Big(s), Big(t));
    }
  }

  // ---------------------------------------------------------------- net.IP

  /** The first twelve bytes of an IPv4-mapped address, section 2.5.5.2 of RFC 4291. */
  const V4_IN_V6_PREFIX: Bytes := [0, 0, 0, 0, 0, 0, 0, 0, 0, 0, 255, 255]

  function To4(ip: Bytes): Option<Bytes> {
    if |ip| == 4 then Some(ip)
    else if |ip| == 16 && ip[..12] == V4_IN_V6_PREFIX then Some(ip[12..])
    else None
  }

  function To16(ip: Bytes): Option<Bytes> {
    if |ip| == 4 then Some(V4_IN_V6_PREFIX + ip)
    else if |ip| == 16 then Some(ip)
    else None
  }

  /** What `net.ParseIP` returns: four-byte addresses in their mapped sixteen-byte form. */
  predicate Parsed(ip: Bytes) {
    |ip| == 16
  }

  predicate IsIP(ip: Bytes) {
    |ip| == 4 || |ip| == 16
  }

  predicate IsV4(ip: Bytes) {
    To4(ip).Some?
  }

  function IPToBigInt(ip: Bytes): nat {
    match To4(ip)
    case Some(b) => Big(b)
    case None =>
      match To16(ip)
      case Some(b) => Big(b)
      case None => 0
  }

  function BigIntToIP(v: nat, v6: bool): Option<Bytes> {
    FillBytes(v, if v6 then 16 else 4)
  }

  /** `None` stands for the panic of an overflowing byte buffer. */
  function IncrementIP(ip: Bytes, increment: nat): Option<Bytes> {
    BigIntToIP(IPToBigInt(ip) + increment, To4(ip).None?)
  }

  // ---------------------------------------------------------------- canonical addresses

  /** An address as its canonical text gives it: a family and an integer. */
  datatype Address = Address(v6: bool, value: nat)

  /** The addresses that `Of` yields: IPv6 without the block that collapses into IPv4. */
  predicate Canonical(a: Address) {
    if a.v6 then a.value < TWO128 && a.value / TWO32 != 0xFFFF else a.value < TWO32
  }

  /** The address a byte string stands for, which is what `net.IP.String` prints. */
  function Of(ip: Bytes): Address {
    Address(!IsV4(ip), IPToBigInt(ip))
  }

  lemma MappedValue(ip: Bytes)
    requires |ip| == 16
    ensures Big(ip) < TWO128
    ensures IsV4(ip) <==> Big(ip) / TWO32 == 0xFFFF
    ensures IsV4(ip) ==> Big(ip) == 0xFFFF * TWO32 + IPToBigInt(ip)
    ensures !IsV4(ip) ==> Big(ip) == IPToBigInt(ip)
  {
    HighAndLow(ip);
    PrefixIff(ip[..12]);
  }

  lemma HighAndLow(ip: Bytes)
    requires |ip| == 16
    ensures Big(ip) == Big(ip[..12]) * TWO32 + Big(ip[12..]) < TWO128 && Big(ip[12..]) < TWO32
  {
    Widths();
    DigitsOfBig(ip);
    DigitsOfBig(ip[12..]);
    assert ip == ip[..12] + ip[12..];
    BigSplit(ip[..12], ip[12..]);
  }

  lemma PrefixIff(hi: Bytes)
    requires |hi| == 12
    ensures hi == V4_IN_V6_PREFIX <==> Big(hi) == 0xFFFF
  {
    PrefixValue();
    if Big(hi) == 0xFFFF { BigInjective(hi, V4_IN_V6_PREFIX); }
  }

  lemma BigInjective(a: Bytes, b: Bytes)
    requires |a| == |b| && Big(a) == Big(b)
    ensures a == b
  {
    DigitsOfBig(a);
    DigitsOfBig(b);
  }

  lemma PrefixValue()
    ensures Big(V4_IN_V6_PREFIX) == 0xFFFF
  {
    assert V4_IN_V6_PREFIX[..11] == [0, 0, 0, 0, 0, 0, 0, 0, 0, 0, 255];
    assert V4_IN_V6_PREFIX[..11][..10] == [0, 0, 0, 0, 0, 0, 0, 0, 0, 0];
    ZerosValue(V4_IN_V6_PREFIX[..11][..10]);
  }

  lemma {:induction false} ZerosValue(bs: Bytes)
    requires forall i :: 0 <= i < |bs| ==> bs[i] == 0
    ensures Big(bs) == 0
  {
    if bs != [] { ZerosValue(bs[..|bs| - 1]); }
  }

  lemma OfIsCanonical(ip: Bytes)
    requires IsIP(ip)
    ensures Canonical(Of(ip))
  {
    if |ip| == 4 {
      DigitsOfBig(ip);
      Widths();
    } else {
      MappedValue(ip);
      DigitsOfBig(ip[12..]);
      Widths();
    }
  }

  /** Two parsed addresses print the same exactly when they are the same bytes. */
  lemma OfInjective(x: Bytes, y: Bytes)
    requires Parsed(x) && Parsed(y) && Of(x) == Of(y)
    ensures x == y
  {
    MappedValue(x);
    MappedValue(y);
    DigitsOfBig(x);
    DigitsOfBig(y);
  }

  lemma OfTo16(ip: Bytes)
    requires IsIP(ip)
    ensures To16(ip).Some? && Parsed(To16(ip).value) && Of(To16(ip).value) == Of(ip)
  {
  }

  /** Adding within the family never overflows the buffer and adds to the canonical address. */
  lemma IncrementIs(ip: Bytes, n: nat)
    requires IsIP(ip)
    ensures IncrementIP(ip, n).Some? <==> Of(ip).value + n < (if Of(ip).v6 then TWO128 else TWO32)
    ensures IncrementIP(ip, n).Some? && Canonical(Address(Of(ip).v6, Of(ip).value + n)) ==>
      Of(IncrementIP(ip, n).value) == Address(Of(ip).v6, Of(ip).value + n)
  {
    Widths();
    var v := IPToBigInt(ip) + n;
    if IncrementIP(ip, n).Some? {
      var out := IncrementIP(ip, n).value;
      BigOfDigits(v, if IsV4(ip) then 4 else 16);
      if !IsV4(ip) && v / TWO32 != 0xFFFF { MappedValue(out); }
    }
  }
}
