/**
  One pool address read twice: by the controller (`GetSize`, `IPToOrdinal`, `IsOverlap`, `Contains`
  of api/v1alpha2/eip_types.go) and by the speaker (`ParseRange` of pkg/util/iprange).

  Text is taken as already parsed: a `PoolAddress` holds what `net.ParseIP` and `net.ParseCIDR` return.
 */
module Ranges {
  import opened Basics
  import opened Net

  datatype PoolAddress =
    | Single(ip: Bytes)
    | Cidr(network: Bytes, ones: nat)
    | Span(first: Bytes, last: Bytes)
    | Malformed

  /** What the text parsers can return. */
  predicate Structured(p: PoolAddress) {
    match p
    case Single(ip) => Parsed(ip)
    case Cidr(ip, ones) => IsIP(ip) && ones <= 8 * |ip|
    case Span(first, last) => Parsed(first) && Parsed(last)
    case Malformed => true
  }

  type Spec = p: PoolAddress | Structured(p) witness Malformed

  function Pow2(n: nat): (r: nat)
    ensures r > 0
  {
    if n == 0 then 1 else 2 * Pow2(n - 1)
  }

  function HostBits(p: Spec): nat
    requires p.Cidr?
  {
    8 * |p.network| - p.ones
  }

  /** First address of a CIDR block, section 3.1 of RFC 4632: the host bits cleared. */
  function NetworkValue(p: Spec): nat
    requires p.Cidr?
  {
    Floor(Big(p.network), Pow2(HostBits(p)))
  }

  /** The greatest multiple of `m` that is at most `v`. */
  function Floor(v: nat, m: nat): (r: nat)
    requires m > 0
    ensures r <= v < r + m
  {
    if v < m then 0 else m + Floor(v - m, m)
  }

  // ---------------------------------------------------------------- the controller's reading

  datatype Sized = Sized(base: Bytes, size: int)

  /** `GetSize`, with Go's 64-bit shift, subtraction and addition. */
  function GetSize(p: Spec): Option<Sized> {
    match p
    case Single(ip) => Some(Sized(ip, 1))
    case Cidr(ip, ones) => Some(Sized(Digits(NetworkValue(p), |ip|), Int64(Pow2(HostBits(p)))))
    case Span(first, last) =>
      var ord := Int64(IPToBigInt(last) - IPToBigInt(first));
      if ord < 0 then None else Some(Sized(Normal(first), Int64(ord + 1)))
    case Malformed => None
  }

  /** `cnet.ParseIP`: IPv4 as four bytes. */
  function Normal(ip: Bytes): Bytes {
    match To4(ip)
    case Some(b) => b
    case None => ip
  }

  function IPToOrdinal(p: Spec, ip: Bytes): int {
    match GetSize(p)
    case None => -1
    case Some(g) =>
      var ord := Int64(IPToBigInt(ip) - IPToBigInt(g.base));
      if ord < 0 || ord >= g.size then -1 else ord
  }

  /** `Eip.Contains`; an unparsable pool reads as size 0 and contains nothing. */
  predicate EipContains(p: Spec, ip: Bytes) {
    match GetSize(p)
    case None => false
    case Some(g) => IPToBigInt(g.base) <= IPToBigInt(ip) <= IPToBigInt(g.base) + Int64(g.size - 1)
  }

  predicate IsOverlap(g: Sized, h: Sized) {
    var b, c := IPToBigInt(g.base), IPToBigInt(h.base);
    !(b > c + Int64(h.size - 1) || c > b + Int64(g.size - 1))
  }

  // ---------------------------------------------------------------- the speaker's reading

  datatype Range = Range(start: Bytes, end: Bytes)

  /** `iprange.New`. */
  function New(start: Bytes, end: Bytes): (r: Option<Range>)
    ensures r.Some? ==> r.value == Range(start, end)
  {
    if IsV4(start) && IsV4(end) && Compare(end, start) >= 0 then Some(Range(start, end))
    else if !IsV4(start) && To16(start).Some? && !IsV4(end) && To16(end).Some? && Compare(end, start) >= 0
    then Some(Range(start, end))
    else None
  }

  /** `cidr.AddressRange`, through text and back: both ends in sixteen bytes. */
  function BlockFirst(p: Spec): Bytes
    requires p.Cidr?
  {
    Sixteen(Digits(NetworkValue(p), |p.network|))
  }

  function BlockLast(p: Spec): Bytes
    requires p.Cidr?
  {
    Sixteen(Digits(NetworkValue(p) + Pow2(HostBits(p)) - 1, |p.network|))
  }

  function ParseRange(p: Spec): Option<Range> {
    match p
    case Single(ip) => New(ip, ip)
    case Cidr(ip, _) => New(BlockFirst(p), BlockLast(p))
    case Span(first, last) => New(first, last)
    case Malformed => None
  }

  function Sixteen(ip: Bytes): Bytes {
    match To16(ip)
    case Some(b) => b
    case None => ip
  }

  predicate Contains(r: Range, ip: Bytes) {
    Compare(ip, r.start) >= 0 && Compare(ip, r.end) <= 0
  }

  /** `Size` of the two range types. */
  function Size(r: Range): int {
    if IsV4(r.start) then IPToBigInt(r.end) - IPToBigInt(r.start) + 1 else Big(r.end) - Big(r.start) + 1
  }

  // ---------------------------------------------------------------- agreement

  /** The range keeps clear of the IPv4-mapped block, or lies inside it as an IPv4 range. */
  predicate ClearOfMapped(r: Range) {
    IsV4(r.start) || Big(r.end) < 0xFFFF * TWO32 || Big(r.start) >= 0x1_0000 * TWO32
  }

  /** Both components accept the address, as a range clear of the IPv4-mapped block. */
  predicate Accepted(p: Spec) {
    GetSize(p).Some? && ParseRange(p).Some? && ClearOfMapped(ParseRange(p).value)
  }

  /** The number of addresses fits the controller's 64-bit arithmetic. */
  predicate Fits(p: Spec)
    requires Accepted(p)
  {
    Size(ParseRange(p).value) < TWO63
  }

  lemma TwiceProduct(x: nat, y: nat)
    ensures 2 * (x * y) == 2 * x * y
  {
  }

  lemma {:induction false} Pow2Sum(a: nat, b: nat)
    ensures Pow2(a + b) == Pow2(a) * Pow2(b)
  {
    if a > 0 {
      Pow2Sum(a - 1, b);
      TwiceProduct(Pow2(a - 1), Pow2(b));
    }
  }

  lemma {:induction false} Pow2Of256(n: nat)
    ensures Pow2(8 * n) == Pow256(n)
  {
    if n > 0 {
      Pow2Of256(n - 1);
      Pow2Sum(8, 8 * (n - 1));
      assert Pow2(8) == 256;
    }
  }

  lemma {:induction false} AlignedBlock(v: nat, m: nat, k: nat)
    requires m > 0 && v < m * k
    ensures Floor(v, m) + m <= m * k
    decreases v
  {
    if v >= m {
      assert m * (k - 1) == m * k - m;
      AlignedBlock(v - m, m, k - 1);
    } else {
      assert k == 0 || m * k >= m;
    }
  }

  /** A block is aligned, so its last address still fits the address width. */
  lemma BlockFits(p: Spec)
    requires p.Cidr?
    ensures NetworkValue(p) + Pow2(HostBits(p)) <= Pow256(|p.network|)
  {
    DigitsOfBig(p.network);
    Pow2Of256(|p.network|);
    Pow2Sum(HostBits(p), p.ones);
    AlignedBlock(Big(p.network), Pow2(HostBits(p)), Pow2(p.ones));
  }

  /** The ends the speaker uses are sixteen bytes of one family, in order. */
  lemma RangeShape(p: Spec)
    requires ParseRange(p).Some?
    ensures var r := ParseRange(p).value;
            Parsed(r.start) && Parsed(r.end) && IsV4(r.start) == IsV4(r.end) && Big(r.start) <= Big(r.end)
  {
    var r := ParseRange(p).value;
    CompareIsOrder(r.end, r.start);
  }

  lemma SizeIsSpan(r: Range)
    requires Parsed(r.start) && Parsed(r.end) && IsV4(r.start) == IsV4(r.end)
    ensures Size(r) == Big(r.end) - Big(r.start) + 1 == IPToBigInt(r.end) - IPToBigInt(r.start) + 1
  {
    MappedValue(r.start);
    MappedValue(r.end);
  }

  /** Byte-wise membership is membership in the integer interval, in the range's own family. */
  lemma ContainsIsInterval(r: Range, ip: Bytes)
    requires Parsed(r.start) && Parsed(r.end) && Parsed(ip) && IsV4(r.start) == IsV4(r.end) && ClearOfMapped(r)
    ensures Contains(r, ip) <==>
      IsV4(ip) == IsV4(r.start) && IPToBigInt(r.start) <= IPToBigInt(ip) <= IPToBigInt(r.end)
  {
    CompareIsOrder(ip, r.start);
    CompareIsOrder(ip, r.end);
    MappedValue(ip);
    MappedValue(r.start);
    MappedValue(r.end);
  }

  /** Both readings start at one address, and the controller's size is the speaker's cut to 64 bits. */
  lemma SameStart(p: Spec)
    requires Accepted(p)
    ensures var g, r := GetSize(p).value, ParseRange(p).value;
            IsIP(g.base) && Of(g.base) == Of(r.start) && g.size == Int64(Size(r))
  {
    match p
    case Single(ip) => SizeIsSpan(ParseRange(p).value);
    case Cidr(ip, ones) => CidrReadings(p);
    case Span(first, last) => SpanReadings(p);
    case Malformed =>
  }

  lemma SpanReadings(p: Spec)
    requires p.Span? && Accepted(p)
    ensures var g, r := GetSize(p).value, ParseRange(p).value;
            Of(g.base) == Of(r.start) && g.size == Int64(Size(r))
  {
  }

  lemma CidrReadings(p: Spec)
    requires p.Cidr? && Accepted(p)
    ensures var g, r := GetSize(p).value, ParseRange(p).value;
            Of(g.base) == Of(r.start) && g.size == Int64(Size(r))
  {
    CidrSize(p);
  }

  /** Writing addresses of one width in sixteen bytes keeps their distance. */
  lemma SixteenShift(a: Bytes, b: Bytes)
    requires |a| == |b| && IsIP(a)
    ensures Big(Sixteen(b)) - Big(Sixteen(a)) == Big(b) - Big(a)
  {
    if |a| == 4 {
      BigSplit(V4_IN_V6_PREFIX, a);
      BigSplit(V4_IN_V6_PREFIX, b);
    }
  }

  lemma SixteenEnds(base: Bytes, top: Bytes)
    requires |base| == |top| && IsIP(base)
    ensures Of(base) == Of(Sixteen(base)) && Big(Sixteen(top)) - Big(Sixteen(base)) == Big(top) - Big(base)
  {
    OfTo16(base);
    SixteenShift(base, top);
  }

  /** The ends of a block as integers of its own width. */
  lemma BlockValues(p: Spec)
    requires p.Cidr?
    ensures var first, last, n := NetworkValue(p), NetworkValue(p) + Pow2(HostBits(p)) - 1, |p.network|;
      Big(Digits(first, n)) == first && Big(Digits(last, n)) == last
  {
    BlockFits(p);
    BigOfDigits(NetworkValue(p), |p.network|);
    BigOfDigits(NetworkValue(p) + Pow2(HostBits(p)) - 1, |p.network|);
  }

  lemma CidrEnds(p: Spec)
    requires p.Cidr?
    ensures Of(Digits(NetworkValue(p), |p.network|)) == Of(BlockFirst(p))
    ensures Big(BlockLast(p)) - Big(BlockFirst(p)) + 1 == Pow2(HostBits(p))
  {
    var first, last := NetworkValue(p), NetworkValue(p) + Pow2(HostBits(p)) - 1;
    var base, top := Digits(first, |p.network|), Digits(last, |p.network|);
    assert Big(base) == first && Big(top) == last by { BlockValues(p); }
    SixteenEnds(base, top);
  }

  lemma {:induction false} FloorIsMultiple(v: nat, m: nat) returns (k: nat)
    requires m > 0
    ensures Floor(v, m) == k * m
    decreases v
  {
    if v < m {
      k := 0;
    } else {
      var rest := FloorIsMultiple(v - m, m);
      k := rest + 1;
      assert k * m == rest * m + m;
    }
  }

  /**
    A CIDR block of `ones` leading bits, section 3.1 of RFC 4632, has 2^(width - ones) addresses. For
    the controller it starts at a multiple of that number and the address written before the slash is
    among them.
   */
  lemma CidrBlock(p: Spec) returns (k: nat)
    requires p.Cidr?
    ensures var m, g := Pow2(8 * |p.network| - p.ones), GetSize(p);
      && g.Some? && |g.value.base| == |p.network| && g.value.size == Int64(m)
      && Big(g.value.base) == k * m && k * m <= Big(p.network) < k * m + m
  {
    k := FloorIsMultiple(Big(p.network), Pow2(HostBits(p)));
    BlockValues(p);
  }

  /** A range of parsed addresses is made exactly if both ends are of one family and in order. */
  lemma NewIff(start: Bytes, end: Bytes)
    requires Parsed(start) && Parsed(end)
    ensures New(start, end).Some? <==> IsV4(start) == IsV4(end) && Big(start) <= Big(end)
  {
    CompareIsOrder(end, start);
  }

  lemma PairAcceptedIff(a: Bytes, b: Bytes)
    requires |a| == |b| && IsIP(a) && Big(a) <= Big(b)
    ensures New(Sixteen(a), Sixteen(b)).Some? <==>
      |a| == 4 || (Big(a) / TWO32 == 0xFFFF <==> Big(b) / TWO32 == 0xFFFF)
  {
    SixteenShift(a, b);
    NewIff(Sixteen(a), Sixteen(b));
    if |a| == 4 {
      assert Sixteen(a)[..12] == V4_IN_V6_PREFIX && Sixteen(b)[..12] == V4_IN_V6_PREFIX;
    } else {
      MappedValue(a);
      MappedValue(b);
    }
  }

  lemma CidrSize(p: Spec)
    requires p.Cidr? && ParseRange(p).Some?
    ensures var r := ParseRange(p).value;
      Of(r.start) == Of(GetSize(p).value.base) && Size(r) == Pow2(HostBits(p))
  {
    CidrEnds(p);
    RangeShape(p);
    SizeIsSpan(ParseRange(p).value);
  }

  lemma CidrHolds(p: Spec)
    requires p.Cidr?
    ensures Big(BlockFirst(p)) <= Big(Sixteen(p.network)) <= Big(BlockLast(p))
  {
    var first, last := NetworkValue(p), NetworkValue(p) + Pow2(HostBits(p)) - 1;
    var base, top := Digits(first, |p.network|), Digits(last, |p.network|);
    assert Big(base) == first && Big(top) == last by { BlockValues(p); }
    SixteenShift(base, p.network);
    SixteenShift(p.network, top);
  }

  /** The speaker's range of a CIDR block has the same start, that many addresses and that address among them. */
  lemma CidrRange(p: Spec)
    requires p.Cidr? && ParseRange(p).Some?
    ensures var r := ParseRange(p).value;
      && Of(r.start) == Of(GetSize(p).value.base) && Size(r) == Pow2(8 * |p.network| - p.ones)
      && Contains(r, Sixteen(p.network))
  {
    CidrSize(p);
    CidrHolds(p);
    RangeShape(p);
    ContainsIsBetween(ParseRange(p).value, Sixteen(p.network));
  }

  /** A CIDR block is refused by the speaker exactly if one end alone is an IPv4-mapped address. */
  lemma CidrAcceptedIff(p: Spec)
    requires p.Cidr?
    ensures var first, m := Big(GetSize(p).value.base), Pow2(8 * |p.network| - p.ones);
      ParseRange(p).Some? <==> |p.network| == 4 || (first / TWO32 == 0xFFFF <==> (first + m - 1) / TWO32 == 0xFFFF)
  {
    var first, last := NetworkValue(p), NetworkValue(p) + Pow2(HostBits(p)) - 1;
    var base, top := Digits(first, |p.network|), Digits(last, |p.network|);
    assert Big(base) == first && Big(top) == last by { BlockValues(p); }
    PairAcceptedIff(base, top);
  }

  /** Every IPv4 block is accepted. */
  lemma V4CidrAccepted(p: Spec)
    requires p.Cidr? && |p.network| == 4
    ensures Accepted(p)
  {
    CidrAcceptedIff(p);
    assert BlockFirst(p)[..12] == V4_IN_V6_PREFIX;
  }

  /**
    A single address is a range of its own; a span is accepted by the speaker exactly if both ends are
    of one family and in order, and runs between them; text that does not parse is refused.
   */
  lemma SpeakerReads(p: Spec)
    requires !p.Cidr?
    ensures p.Single? ==> ParseRange(p) == Some(Range(p.ip, p.ip))
    ensures p.Span? ==> (ParseRange(p).Some? <==> IsV4(p.first) == IsV4(p.last) && Big(p.first) <= Big(p.last))
    ensures p.Span? && ParseRange(p).Some? ==> ParseRange(p).value == Range(p.first, p.last)
    ensures p.Malformed? ==> ParseRange(p).None?
  {
    match p
    case Single(ip) => NewIff(ip, ip);
    case Span(first, last) => NewIff(first, last);
    case Malformed =>
  }

  /**
    What the speaker accepts with at most 2^63 addresses the controller accepts too. A span starts at
    its first address, an IPv4 address in four bytes.
   */
  lemma ControllerReads(p: Spec)
    ensures ParseRange(p).Some? && Size(ParseRange(p).value) <= TWO63 ==> GetSize(p).Some?
    ensures p.Span? && GetSize(p).Some? ==>
      var base := GetSize(p).value.base; Of(base) == Of(p.first) && |base| == if IsV4(p.first) then 4 else 16
    ensures p.Malformed? ==> GetSize(p).None?
  {
    if p.Span? && ParseRange(p).Some? {
      RangeShape(p);
      SizeIsSpan(ParseRange(p).value);
    }
  }

  /** Controller and speaker contain the same addresses, among those of the pool's own family. */
  ghost predicate SameOwnContents(p: Spec)
    requires Accepted(p)
  {
    var r := ParseRange(p).value;
    forall ip :: Parsed(ip) ==> (Contains(r, ip) <==> IsV4(ip) == IsV4(r.start) && EipContains(p, ip))
  }

  /** Controller and speaker contain the same addresses, of either family. */
  ghost predicate SameContents(p: Spec)
    requires Accepted(p)
  {
    forall ip :: Parsed(ip) ==> (Contains(ParseRange(p).value, ip) <==> EipContains(p, ip))
  }

  /**
    Controller and speaker start at the same address. Their sizes are equal exactly when the true
    size is below 2^63. Among addresses of the pool's own family they contain the same exactly when it
    is at most 2^63, where the controller's size reads -2^63 but its last offset wraps back.
   */
  lemma ReadingsAgree(p: Spec)
    requires Accepted(p)
    ensures var g, r := GetSize(p).value, ParseRange(p).value;
            && Of(g.base) == Of(r.start)
            && (g.size == Size(r) <==> Fits(p))
            && (Fits(p) ==> IPToBigInt(g.base) + g.size - 1 == IPToBigInt(r.end))
            && (SameOwnContents(p) <==> Size(r) <= TWO63)
  {
    SameStart(p);
    RangeShape(p);
    SizeIsSpan(ParseRange(p).value);
    OwnContentsAgreeIff(p);
  }

  /** What the speaker contains, as an interval of integers. */
  lemma SpeakerContains(p: Spec, ip: Bytes)
    requires Accepted(p) && Parsed(ip)
    ensures var r := ParseRange(p).value;
            var first := IPToBigInt(r.start);
            Contains(r, ip) <==> IsV4(ip) == IsV4(r.start) && first <= IPToBigInt(ip) <= first + Size(r) - 1
  {
    RangeShape(p);
    SizeIsSpan(ParseRange(p).value);
    ContainsIsInterval(ParseRange(p).value, ip);
  }

  /** What the controller contains, as an interval of integers. */
  lemma ControllerContains(p: Spec, ip: Bytes)
    requires Accepted(p) && Size(ParseRange(p).value) >= 1
    ensures var r := ParseRange(p).value;
            var first := IPToBigInt(r.start);
            EipContains(p, ip) <==> first <= IPToBigInt(ip) <= first + Int64(Size(r) - 1)
  {
    SameStart(p);
    LastOffset(Size(ParseRange(p).value));
  }

  lemma SizePositive(p: Spec)
    requires ParseRange(p).Some?
    ensures Size(ParseRange(p).value) >= 1
  {
    RangeShape(p);
    SizeIsSpan(ParseRange(p).value);
  }

  lemma OwnContentsAgreeIff(p: Spec)
    requires Accepted(p)
    ensures SameOwnContents(p) <==> Size(ParseRange(p).value) <= TWO63
  {
    var r := ParseRange(p).value;
    RangeShape(p);
    SizePositive(p);
    LastOffset(Size(r));
    forall ip | Parsed(ip) && Size(r) <= TWO63
      ensures Contains(r, ip) <==> IsV4(ip) == IsV4(r.start) && EipContains(p, ip)
    {
      SpeakerContains(p, ip);
      ControllerContains(p, ip);
    }
    SizeIsSpan(r);
    SpeakerContains(p, r.end);
    ControllerContains(p, r.end);
    assert Size(r) > TWO63 ==> Contains(r, r.end) && !EipContains(p, r.end);
  }

  /** The parsed address of a family with a value below 2^32; `::a00:5` beside 10.0.0.5. */
  function SmallAddress(v6: bool, v: nat): Bytes {
    if v6 then Digits(v, 16) else V4_IN_V6_PREFIX + Digits(v, 4)
  }

  lemma SmallAddressIs(v6: bool, v: nat)
    requires v < TWO32
    ensures var ip := SmallAddress(v6, v); Parsed(ip) && IsV4(ip) == !v6 && IPToBigInt(ip) == v
  {
    Widths();
    if v6 {
      BigOfDigits(v, 16);
      MappedValue(Digits(v, 16));
    } else {
      BigOfDigits(v, 4);
      assert SmallAddress(v6, v)[..12] == V4_IN_V6_PREFIX && SmallAddress(v6, v)[12..] == Digits(v, 4);
    }
  }

  /**
    A pool that starts below 2^32, as every IPv4 pool does, contains for the controller an address of
    the other family that it does not contain for the speaker.
   */
  lemma OtherFamilyContained(p: Spec) returns (ip: Bytes)
    requires Accepted(p) && IPToBigInt(ParseRange(p).value.start) < TWO32 && Size(ParseRange(p).value) <= TWO63
    ensures Parsed(ip) && IsV4(ip) != IsV4(ParseRange(p).value.start)
    ensures EipContains(p, ip) && !Contains(ParseRange(p).value, ip)
  {
    var r := ParseRange(p).value;
    var v6 := IsV4(r.start);
    ip := SmallAddress(v6, IPToBigInt(r.start));
    SmallAddressIs(v6, IPToBigInt(r.start));
    SizePositive(p);
    LastOffset(Size(r));
    SpeakerContains(p, ip);
    ControllerContains(p, ip);
  }

  /** IPv4 addresses have values below 2^32. */
  lemma V4Value(ip: Bytes)
    requires Parsed(ip) && IsV4(ip)
    ensures IPToBigInt(ip) < TWO32
  {
    OfIsCanonical(ip);
  }

  /**
    Over all addresses controller and speaker contain the same if and only if the true size is at most
    2^63 and the pool is an IPv6 pool that starts at 2^32 or above.
   */
  lemma ContentsAgreeIff(p: Spec)
    requires Accepted(p)
    ensures var r := ParseRange(p).value;
      SameContents(p) <==> Size(r) <= TWO63 && !IsV4(r.start) && IPToBigInt(r.start) >= TWO32
  {
    var r := ParseRange(p).value;
    RangeShape(p);
    SizePositive(p);
    LastOffset(Size(r));
    OwnContentsAgreeIff(p);
    if Size(r) > TWO63 {
      SizeIsSpan(r);
      SpeakerContains(p, r.end);
      ControllerContains(p, r.end);
      assert Contains(r, r.end) && !EipContains(p, r.end);
    } else if IsV4(r.start) || IPToBigInt(r.start) < TWO32 {
      if IsV4(r.start) { V4Value(r.start); }
      var ip := OtherFamilyContained(p);
      assert EipContains(p, ip) && !Contains(r, ip);
    } else {
      forall ip | Parsed(ip) ensures Contains(r, ip) <==> EipContains(p, ip) {
        SpeakerContains(p, ip);
        ControllerContains(p, ip);
        if IsV4(ip) { V4Value(ip); }
      }
    }
  }

  /** The last offset the controller computes is the true one for sizes up to 2^63 and below it beyond. */
  lemma LastOffset(size: nat)
    ensures Int64(Int64(size) - 1) == Int64(size - 1)
    ensures size <= TWO63 ==> Int64(size - 1) == size - 1
    ensures size > TWO63 ==> Int64(size - 1) < size - 1
  {
  }

  /** Counting up from the start of a range. */
  function Nth(r: Range, k: nat): Bytes {
    Digits(Big(r.start) + k, |r.start|)
  }

  lemma NthValue(r: Range, k: nat)
    requires Parsed(r.start) && Parsed(r.end) && Big(r.start) + k <= Big(r.end)
    ensures Big(Nth(r, k)) == Big(r.start) + k
  {
    BigOfSmaller(Big(r.start) + k, r.end);
  }

  lemma NthOf(r: Range, ip: Bytes)
    requires Parsed(r.start) && Parsed(ip) && Big(r.start) <= Big(ip)
    ensures Nth(r, Big(ip) - Big(r.start)) == ip
  {
    DigitsOfBig(ip);
  }

  lemma ContainsIsBetween(r: Range, ip: Bytes)
    requires Parsed(r.start) && Parsed(r.end) && Parsed(ip)
    ensures Contains(r, ip) <==> Big(r.start) <= Big(ip) <= Big(r.end)
  {
    CompareIsOrder(ip, r.start);
    CompareIsOrder(ip, r.end);
  }

  /** `Size` counts the addresses contained: counting up from the start meets each exactly once. */
  lemma SizeCountsContained(p: Spec, ip: Bytes)
    requires Accepted(p) && Parsed(ip)
    ensures var r := ParseRange(p).value;
            Contains(r, ip) <==> exists k: nat :: k < Size(r) && Nth(r, k) == ip
    ensures var r := ParseRange(p).value;
            forall j: nat, k: nat :: j < k < Size(r) ==> Nth(r, j) != Nth(r, k)
  {
    var r := ParseRange(p).value;
    RangeShape(p);
    SizeIsSpan(r);
    ContainsIsBetween(r, ip);
    if Big(r.start) <= Big(ip) { NthOf(r, ip); }
    forall k: nat | k < Size(r) ensures Big(Nth(r, k)) == Big(r.start) + k {
      NthValue(r, k);
    }
  }

  // ---------------------------------------------------------------- blocks

  /**
    A pool as the allocator sees it: a family, a first address and `GetSize`'s number of addresses,
    which is cut to 64 bits and may be zero or negative.
   */
  datatype Block = Block(v6: bool, first: nat, size: int)

  /** Every address of the block is canonical and there is at least one. */
  predicate Sound(b: Block) {
    && 1 <= b.size < TWO63
    && b.first + b.size <= (if b.v6 then TWO128 else TWO32)
    && (b.v6 ==> b.first + b.size <= 0xFFFF * TWO32 || b.first >= 0x1_0000 * TWO32)
  }

  /** What `GetSize` can yield: a sound block, or one without addresses to give. */
  predicate Formed(b: Block) {
    -TWO63 <= b.size < TWO63 && (b.size >= 1 ==> Sound(b))
  }

  function At(b: Block, k: nat): Address {
    Address(b.v6, b.first + k)
  }

  predicate Within(b: Block, a: Address) {
    a.v6 == b.v6 && b.first <= a.value < b.first + b.size
  }

  /** `IPToOrdinal`, which compares integers and not families. */
  function Ordinal(b: Block, a: Address): (r: int)
    ensures r == -1 || 0 <= r < b.size
  {
    var ord := Int64(a.value - b.first);
    if ord < 0 || ord >= b.size then -1 else ord
  }

  /** The last integer that `Contains` and `IsOverlap` count to the pool. */
  function Last(b: Block): int {
    b.first + Int64(b.size - 1)
  }

  /** `Eip.Contains`, which compares integers and not families. */
  predicate Covers(b: Block, a: Address) {
    b.first <= a.value <= Last(b)
  }

  /** `IsOverlap`. */
  predicate Overlaps(b: Block, c: Block) {
    !(b.first > Last(c) || c.first > Last(b))
  }

  function BlockOf(p: Spec): Block
    requires Accepted(p)
  {
    var g := GetSize(p).value;
    Block(!IsV4(g.base), IPToBigInt(g.base), g.size)
  }

  /** Every accepted pool address is a formed block, and a sound one if it fits. */
  lemma BlockOfFormed(p: Spec)
    requires Accepted(p)
    ensures Formed(BlockOf(p)) && (Fits(p) ==> Sound(BlockOf(p)))
  {
    SameStart(p);
    RangeShape(p);
    var r := ParseRange(p).value;
    SizeIsSpan(r);
    MappedValue(r.end);
    OfIsCanonical(r.end);
    MappedValue(r.start);
    CutSize(Size(r));
  }

  lemma CutSize(size: nat)
    requires size >= 1
    ensures Int64(size) <= size && (size < TWO63 ==> Int64(size) == size)
  {
  }

  /** The byte-level tests on an accepted pool are the block's. */
  lemma BlockReads(p: Spec, ip: Bytes)
    requires Accepted(p) && Parsed(ip)
    ensures Ordinal(BlockOf(p), Of(ip)) == IPToOrdinal(p, ip)
    ensures Covers(BlockOf(p), Of(ip)) <==> EipContains(p, ip)
  {
  }

  /** The speaker's `Contains` is membership in the block of a pool that fits. */
  lemma BlockContains(p: Spec, ip: Bytes)
    requires Accepted(p) && Fits(p) && Parsed(ip)
    ensures Within(BlockOf(p), Of(ip)) <==> Contains(ParseRange(p).value, ip)
  {
    SameStart(p);
    SizePositive(p);
    SpeakerContains(p, ip);
  }

  /** Counting up inside an accepted pool never overflows the byte buffer and meets the block. */
  lemma BlockCounts(p: Spec, k: nat)
    requires Accepted(p) && k < BlockOf(p).size
    ensures var next := IncrementIP(GetSize(p).value.base, k); next.Some? && Of(next.value) == At(BlockOf(p), k)
  {
    var base := GetSize(p).value.base;
    SameStart(p);
    BlockOfFormed(p);
    OrdinalInverse(BlockOf(p), Of(base), k);
    assert At(BlockOf(p), k) == Address(Of(base).v6, Of(base).value + k);
    IncrementIs(base, k);
  }

  lemma OverlapReads(p: Spec, q: Spec)
    requires Accepted(p) && Accepted(q)
    ensures IsOverlap(GetSize(p).value, GetSize(q).value) <==> Overlaps(BlockOf(p), BlockOf(q))
  {
  }

  // ---------------------------------------------------------------- ordinals and overlap

  /** Inside a pool counting up and taking the ordinal are inverse, and counting up never overflows. */
  lemma OrdinalInverse(b: Block, a: Address, k: nat)
    requires Formed(b)
    ensures k < b.size ==> Canonical(At(b, k)) && Within(b, At(b, k)) && Ordinal(b, At(b, k)) == k
    ensures Within(b, a) ==> Ordinal(b, a) >= 0 && At(b, Ordinal(b, a)) == a
  {
  }

  /**
    What `IPToOrdinal` accepts: an address whose distance from the first one, cut to 64 bits, is
    below the size. An accepted address is foreign exactly when its family differs or it lies a
    non-zero multiple of 2^64 away from the address it is taken for.
   */
  lemma OrdinalAcceptsIff(b: Block, a: Address)
    requires Formed(b)
    ensures Ordinal(b, a) >= 0 <==> (a.value - b.first) % TWO64 < b.size
    ensures Ordinal(b, a) >= 0 ==>
      var away := a.value - At(b, Ordinal(b, a)).value;
      away % TWO64 == 0 && (!Within(b, a) <==> a.v6 != b.v6 || away != 0)
  {
    Int64IsResidue(a.value - b.first);
  }

  /** Cut to 64 bits a number is its residue, or negative if that is 2^63 or more. */
  lemma Int64IsResidue(d: int)
    ensures Int64(d) >= 0 <==> d % TWO64 < TWO63
    ensures Int64(d) >= 0 ==> Int64(d) == d % TWO64 && (d - Int64(d)) % TWO64 == 0
  {
    var q := (d + TWO63) / TWO64;
    assert d == q * TWO64 + Int64(d);
    if Int64(d) >= 0 {
      ResidueIs(d, q, Int64(d));
      ResidueIs(d - Int64(d), q, 0);
    } else {
      ResidueIs(d, q - 1, Int64(d) + TWO64);
    }
  }

  lemma ResidueIs(d: int, q: int, r: nat)
    requires r < TWO64 && d == q * TWO64 + r
    ensures d % TWO64 == r
  {
  }

  /** Every pool with an address accepts a foreign one: of the other family, or 2^64 away. */
  lemma EveryPoolAcceptsForeign(b: Block) returns (a: Address)
    requires Sound(b)
    ensures Canonical(a) && Ordinal(b, a) == 0 && !Within(b, a)
    ensures !b.v6 ==> a == Address(true, b.first)
    ensures b.v6 ==> a.v6 && (a.value == b.first + TWO64 || a.value == b.first - TWO64)
  {
    if !b.v6 {
      a := Address(true, b.first);
    } else if b.first + TWO64 < TWO128 {
      a := Address(true, b.first + TWO64);
    } else {
      a := Address(true, b.first - TWO64);
    }
  }

  /** Among the addresses of its own family only an IPv4 pool accepts nothing foreign. */
  lemma OwnFamilyExactIff(b: Block)
    requires Sound(b)
    ensures (forall a :: Canonical(a) && a.v6 == b.v6 ==> (Ordinal(b, a) >= 0 <==> Within(b, a))) <==> !b.v6
  {
    var foreign := EveryPoolAcceptsForeign(b);
    assert b.v6 ==> Canonical(foreign) && foreign.v6 == b.v6 && Ordinal(b, foreign) >= 0 && !Within(b, foreign);
  }

  /** Blocks that cover a common integer overlap; for sound blocks the converse holds too. */
  lemma OverlapsIff(b: Block, c: Block)
    ensures (exists a :: Covers(b, a) && Covers(c, a)) ==> Overlaps(b, c)
    ensures Sound(b) && Sound(c) ==> (Overlaps(b, c) <==> exists a :: Covers(b, a) && Covers(c, a))
  {
    if Sound(b) && Sound(c) && Overlaps(b, c) {
      var a := Address(false, if b.first > c.first then b.first else c.first);
      assert Covers(b, a) && Covers(c, a);
    }
  }

  /** The 63rd and 64th powers; the exponents are parameters so that they are not computed by unfolding. */
  lemma Pow2Values(top: nat, word: nat)
    requires top == 63 && word == 64
    ensures Pow2(top) == TWO63 && Pow2(word) == TWO64
  {
    Pow2Of256(word / 8);
    assert Pow256(8) == TWO64;
  }

  /** `1 << n` as a 64-bit integer. */
  lemma ShiftedOne(n: nat, top: nat, word: nat)
    requires top == 63 && word == 64
    ensures n < top ==> Int64(Pow2(n)) == Pow2(n) < TWO63
    ensures n == top ==> Int64(Pow2(n)) == -TWO63
    ensures n >= top ==> Pow2(n) >= TWO63
    ensures n >= word ==> Int64(Pow2(n)) == 0
  {
    Pow2Values(top, word);
    if n < top {
      Pow2Monotone(n + 1, top);
    } else {
      Pow2Monotone(top, n);
    }
    if n >= word {
      Pow2Sum(word, n - word);
      Int64OfMultiple(Pow2(n - word));
    }
  }

  lemma Int64OfMultiple(k: nat)
    ensures Int64(TWO64 * k) == 0
  {
  }

  lemma {:induction false} Pow2Monotone(a: nat, b: nat)
    requires a <= b
    ensures Pow2(a) <= Pow2(b)
  {
    if a < b { Pow2Monotone(a, b - 1); }
  }

  /** A CIDR pool fits the controller's arithmetic exactly when it has at most 62 host bits. */
  lemma CidrFitsIff(p: Spec)
    requires p.Cidr? && Accepted(p)
    ensures Fits(p) <==> HostBits(p) <= 62
  {
    CidrSize(p);
    ShiftedOne(HostBits(p), 63, 64);
  }

  /**
    A CIDR pool is found to overlap itself exactly when it has at most 63 host bits: with more, its
    64-bit size is 0 and a second pool with the same address is admitted.
   */
  lemma CidrOverlapsItselfIff(p: Spec)
    requires p.Cidr?
    ensures var g := GetSize(p).value; IsOverlap(g, g) <==> HostBits(p) <= 63
  {
    ShiftedOne(HostBits(p), 63, 64);
  }
}
