/** Particular configurations that show where the checks on ranges fall short. */
module RangeInputs {
  import opened Wrappers
  import opened Bytes
  import opened Cidr
  import opened Masks
  import opened Ranges
  import opened RangeMeaning
  import opened RangeSets

  /** What becomes of an IPv4 subnet with leading zero byte when nothing else is given. */
  lemma ZeroNetworkDefaults(r: Range, a: IP)
    requires GoodSubnet(r) && |Network(r)| == 4 && Network(r)[0] == 0
    requires r.rangeStart.None? && r.rangeEnd.None? && r.gateway.None?
    requires InBlock(Network(r), PrefixLength(r), a) && Value(a) + 2 <= Value(Network(r)) + Size(r)
    ensures Canonicalized(r).1.None?
    ensures Canonicalized(r).0.rangeStart == Some(NextIP(Network(r)))
    ensures Contains(Canonicalized(r).0, a)
  {
    hide Value;
    hide Pow2;
    hide CheckSubnet;
    hide SimpleMaskLength;
    hide NetContains;
    hide NextIP;
    hide LastIP;
    hide CIDRMask;
    CheckSubnetExact(r);
    GoodSubnetParts(r);
    var s, ones := Network(r), PrefixLength(r);
    FirstHost(s, ones);
    LastIPValue(s, ones);
    NetworkContains(s, r.mask, ones, a);
    ValueOfNone();
    NextIPOfZeroNetwork(s, ones);
  }

  lemma ValueOfNone()
    ensures Value([]) == 0
  {
  }

  /** Such a subnet's first address has fewer than four bytes. */
  lemma NextIPOfZeroNetwork(s: IP, ones: nat)
    requires |s| == 4 && s[0] == 0 && ones + 2 <= 32 && Value(s) % Pow2(32 - ones) == 0
    ensures |NextIP(s)| < 4
  {
    hide Pow2;
    hide Value;
    hide Minimal;
    CanonicalizeIdempotent(s);
    IpToIntValue(s);
    ValueBound(s);
    FirstHost(s, ones);
    FirstByte(s);
    MinimalValue(Value(s) + 1);
    if |NextIP(s)| > 4 {
      FirstByte(NextIP(s));
      Pow2Monotone(32, 8 * (|NextIP(s)| - 1));
    }
  }

  /** Two sets below 0.0.0.0/8 with a common address that the overlap check lets pass. */
  lemma ZeroNetworksEscapeTheCheck()
    ensures var wide := Range(None, None, [0, 0, 0, 0], [255, 0, 0, 0], None);
            var narrow := Range(None, None, [0, 1, 0, 0], [255, 255, 0, 0], None);
            && AcceptableConfig([], [[wide], [narrow]], false)
            && Contains(Canonicalized(wide).0, [0, 1, 0, 5])
            && Contains(Canonicalized(narrow).0, [0, 1, 0, 5])
  {
    var wide := Range(None, None, [0, 0, 0, 0], [255, 0, 0, 0], None);
    var narrow := Range(None, None, [0, 1, 0, 0], [255, 255, 0, 0], None);
    hide *;
    ZeroSubnets(wide, narrow);
    ZeroNetworkDefaults(wide, [0, 1, 0, 5]);
    ZeroNetworkDefaults(narrow, [0, 1, 0, 5]);
    DifferentLengths(Canonicalized(wide).0, Canonicalized(narrow).0);
    SingleRangeConfig(wide, narrow);
  }

  lemma DifferentLengths(w: Range, n: Range)
    requires w.rangeStart == Some(NextIP([0, 0, 0, 0])) && n.rangeStart == Some(NextIP([0, 1, 0, 0]))
    ensures !Overlaps(w, n)
  {
    hide Contains;
    SmallAddresses();
    assert Minimal(1) == [1];
    assert |Minimal(65537)| == 3;
  }

  lemma ZeroSubnets(wide: Range, narrow: Range)
    requires wide == Range(None, None, [0, 0, 0, 0], [255, 0, 0, 0], None)
    requires narrow == Range(None, None, [0, 1, 0, 0], [255, 255, 0, 0], None)
    ensures GoodSubnet(wide) && PrefixLength(wide) == 8 && Network(wide) == [0, 0, 0, 0]
    ensures GoodSubnet(narrow) && PrefixLength(narrow) == 16 && Network(narrow) == [0, 1, 0, 0]
    ensures InBlock([0, 0, 0, 0], 8, [0, 1, 0, 5]) && InBlock([0, 1, 0, 0], 16, [0, 1, 0, 5])
    ensures Value([0, 1, 0, 5]) == 65541 && Size(wide) == 0x100_0000 && Size(narrow) == 0x1_0000
    ensures Value([0, 0, 0, 0]) == 0 && Value([0, 1, 0, 0]) == 65536
  {
    hide *;
    SmallAddresses();
    SmallMasks();
    ShortPowers();
    MaskLengthExact(wide.mask, 8);
    MaskLengthExact(narrow.mask, 16);
    FourBytes(wide, narrow);
    GoodSubnetParts(wide);
    GoodSubnetParts(narrow);
    InBlockParts([0, 0, 0, 0], 8, [0, 1, 0, 5]);
    InBlockParts([0, 1, 0, 0], 16, [0, 1, 0, 5]);
    SizeIsPower(wide);
    SizeIsPower(narrow);
  }

  lemma SizeIsPower(r: Range)
    requires GoodSubnet(r)
    ensures Size(r) == Pow2(8 * |Network(r)| - PrefixLength(r))
  {
    hide Pow2;
  }

  lemma FourBytes(wide: Range, narrow: Range)
    requires wide.subnet == [0, 0, 0, 0] && narrow.subnet == [0, 1, 0, 0]
    ensures CanonicalizeIP(wide.subnet) == Some(wide.subnet) && Network(wide) == wide.subnet
    ensures CanonicalizeIP(narrow.subnet) == Some(narrow.subnet) && Network(narrow) == narrow.subnet
    ensures Canonical(wide.subnet) && Canonical(narrow.subnet) && Canonical([0, 1, 0, 5])
  {
  }

  lemma ShortPowers()
    ensures Pow2(24) == 0x100_0000 && Pow2(16) == 0x1_0000
  {
    hide Pow2;
    Pow2Eight();
    Pow2Add(8, 8);
    Pow2Add(8, 16);
  }

  lemma SmallMasks()
    ensures SimpleMaskLength([255, 0, 0, 0]) == Some(8)
    ensures SimpleMaskLength([255, 255, 0, 0]) == Some(16)
  {
    assert [255, 0, 0, 0][1..] == [0, 0, 0] && [255, 255, 0, 0][1..] == [255, 0, 0] && [255, 0, 0][1..] == [0, 0];
    assert SimpleMaskLength([0, 0, 0]) == Some(0);
    assert SimpleMaskLength([0, 0]) == Some(0);
    assert SimpleMaskLength([255, 0, 0]) == Some(8);
  }

  lemma SmallAddresses()
    ensures Value([0, 0, 0, 0]) == 0 && Value([0, 1, 0, 0]) == 65536 && Value([0, 1, 0, 5]) == 65541
  {
    assert [0, 0, 0, 0][..3] == [0, 0, 0] && [0, 0, 0][..2] == [0, 0] && [0, 0][..1] == [0] && [0][..0] == [];
    assert [0, 1, 0, 0][..3] == [0, 1, 0] == [0, 1, 0, 5][..3] && [0, 1, 0][..2] == [0, 1] && [0, 1][..1] == [0];
    assert Value([0]) == 0 && Value([0, 1]) == 1 && Value([0, 1, 0]) == 256;
    assert Value([0, 0]) == 0 && Value([0, 0, 0]) == 0;
  }

  lemma SingleRangeConfig(r: Range, r1: Range)
    requires Canonicalized(r).1.None? && Canonicalized(r1).1.None?
    requires !Overlaps(Canonicalized(r).0, Canonicalized(r1).0)
    ensures AcceptableConfig([], [[r], [r1]], false)
  {
    hide Canonicalized;
    hide Overlaps;
    var sets := seq(2, i requires 0 <= i < 2 => CanonicalSet([[r], [r1]][i]));
    assert sets == [CanonicalSet([r]), CanonicalSet([r1])];
  }

  // ---- An end at the network address ----

  /** Canonicalize accepts 0.1.0.0/16 with end 0.1.0.0, before the default start of 65537. */
  lemma NetworkEndIsAccepted()
    ensures var r := Range(None, Some([0, 1, 0, 0]), [0, 1, 0, 0], [255, 255, 0, 0], None);
            && GoodSubnet(r) && EndsAtNetwork(r) && !StartsAtBroadcast(r)
            && AcceptableConfig([], [[r]], false)
            && Lo(Canonicalized(r).0) == 65537 && Hi(Canonicalized(r).0) == 65536
  {
    hide *;
    var r := Range(None, Some([0, 1, 0, 0]), [0, 1, 0, 0], [255, 255, 0, 0], None);
    SmallZeroNet(r);
    NetworkEnd(r);
    CanonicalizeAccepts(r);
    NetworkEndOrder(r, Canonicalized(r).0);
    OneRangeConfig(r);
  }

  lemma SmallZeroNet(r: Range)
    requires r.subnet == [0, 1, 0, 0] && r.mask == [255, 255, 0, 0]
    ensures GoodSubnet(r) && Network(r) == [0, 1, 0, 0] && PrefixLength(r) == 16
    ensures Value([0, 1, 0, 0]) == 65536 && Size(r) == 0x1_0000 && CanonicalizeIP([0, 1, 0, 0]) == Some([0, 1, 0, 0])
    ensures |NextIP([0, 1, 0, 0])| == 3
  {
    hide Pow2;
    hide CIDRMask;
    hide Value;
    hide SimpleMaskLength;
    SmallMasks();
    SmallAddresses();
    ShortPowers();
    MaskLengthExact(r.mask, 16);
    assert 65536 % 65536 == 0;
    GoodSubnetParts(r);
    IpToIntValue([0, 1, 0, 0]);
    assert |Minimal(65537)| == 3;
  }

  lemma NetworkEnd(r: Range)
    requires r == Range(None, Some([0, 1, 0, 0]), [0, 1, 0, 0], [255, 255, 0, 0], None)
    requires GoodSubnet(r) && Network(r) == [0, 1, 0, 0] && PrefixLength(r) == 16 && Size(r) == 0x1_0000
    requires CanonicalizeIP([0, 1, 0, 0]) == Some([0, 1, 0, 0]) && |NextIP([0, 1, 0, 0])| == 3
    ensures Acceptable(r) && EndsAtNetwork(r) && !StartsAtBroadcast(r)
  {
    hide Pow2;
    hide CIDRMask;
    hide Value;
    hide SimpleMaskLength;
    hide NextIP;
    GoodSubnetParts(r);
    SizeOf(r);
    CanonicalizeIdempotent(NextIP([0, 1, 0, 0]));
    InBlockParts([0, 1, 0, 0], 16, [0, 1, 0, 0]);
  }

  lemma NetworkEndOrder(r: Range, c: Range)
    requires GoodSubnet(r) && Produces(r, c) && Network(r) == [0, 1, 0, 0] && Value([0, 1, 0, 0]) == 65536
    requires r.rangeStart.None? && r.rangeEnd == Some([0, 1, 0, 0])
    requires CanonicalizeIP([0, 1, 0, 0]) == Some([0, 1, 0, 0])
    ensures Lo(c) == 65537 && Hi(c) == 65536
  {
    hide Value;
    hide NextIP;
    hide CanonicalizeIP;
    hide SimpleMaskLength;
  }

  // ---- Two families in one set ----

  const ELEVEN_V6: IP := [0, 0, 0, 0, 0, 0, 0, 0, 0, 0, 0, 0, 11, 0, 0, 0]

  /** The network b.0.0.0/24 on its own. */
  function SmallRange(b: Byte): Range {
    Range(None, None, [b, 0, 0, 0], [255, 255, 255, 0], None)
  }

  /**
   * The family check lets a set of 10.0.0.0/24 and ::b00:0/104 pass, whose default start has four
   * bytes, and the latter on its own counts as an IPv4 set.
   */
  lemma MixedFamiliesPass()
    ensures var r, r1 := SmallRange(10), Range(None, None, ELEVEN_V6, CIDRMask(104, 16), None);
            && AcceptableSet([r, r1]) && GoodSubnet(r) && GoodSubnet(r1) && |Network(r)| == 4 && |Network(r1)| == 16
            && Canonicalized(r1).0.rangeStart == Some([11, 0, 0, 1]) && StartsV4(CanonicalSet([r1]))
  {
    hide *;
    var r, r1 := SmallRange(10), Range(None, None, ELEVEN_V6, CIDRMask(104, 16), None);
    SmallFields(10);
    SmallNet(r, 10);
    ElevenNet(r1);
    OnlySubnet(r);
    OnlySubnet(r1);
    TenAndEleven(r, r1, Canonicalized(r).0, Canonicalized(r1).0);
    FamilyOfStart(Canonicalized(r).0, Canonicalized(r1).0);
    PairSet(r, r1);
    CountedAsV4(r1);
  }

  lemma SmallFields(b: Byte)
    ensures SmallRange(b).subnet == [b, 0, 0, 0] && SmallRange(b).mask == [255, 255, 255, 0]
    ensures SmallRange(b).rangeStart.None? && SmallRange(b).rangeEnd.None? && SmallRange(b).gateway.None?
  {
  }

  /** A subnet on its own is accepted, whatever its network. */
  lemma OnlySubnet(r: Range)
    requires GoodSubnet(r) && r.rangeStart.None? && r.rangeEnd.None? && r.gateway.None?
    ensures Canonicalized(r).1.None? && Produces(r, Canonicalized(r).0)
  {
    hide Canonicalized;
    hide GoodSubnet;
    hide Produces;
    CanonicalizeAccepts(r);
  }

  lemma ElevenNet(r: Range)
    requires r == Range(None, None, ELEVEN_V6, CIDRMask(104, 16), None)
    ensures GoodSubnet(r) && Network(r) == ELEVEN_V6 && PrefixLength(r) == 104 && Size(r) == 0x100_0000
    ensures |ELEVEN_V6| == 16 && Value(ELEVEN_V6) == 0xb00_0000 && NextIP(ELEVEN_V6) == [11, 0, 0, 1]
    ensures Value([11, 0, 0, 1]) == 0xb00_0001
  {
    hide Pow2;
    hide CIDRMask;
    hide Value;
    hide Minimal;
    hide SimpleMaskLength;
    assert ELEVEN_V6[..12][11] == 0 && V4_IN_V6_PREFIX[11] == 255;
    assert CanonicalizeIP(ELEVEN_V6) == Some(ELEVEN_V6);
    MaskLengthExact(r.mask, 104);
    ShortPowers();
    SmallNetValue(11);
    ValueSkipsZeros(12, [11, 0, 0, 0]);
    assert ELEVEN_V6 == seq(12, i => 0) + [11, 0, 0, 0];
    assert 0xb00_0000 % 0x100_0000 == 0;
    GoodSubnetParts(r);
    IpToIntValue(ELEVEN_V6);
    assert [11, 0, 0, 1] == [11, 0, 0] + [1] && [11, 0, 0, 0] == [11, 0, 0] + [0];
    ValueBehind([11, 0, 0], 1);
    ValueBehind([11, 0, 0], 0);
    Pow2Add(8, 24);
    Pow2Eight();
    MinimalIsFixed(0xb00_0001, 4);
    FixedValue(0xb00_0001, 4);
    ValueInjective(Fixed(0xb00_0001, 4), [11, 0, 0, 1]);
  }

  lemma TenAndEleven(r: Range, r1: Range, c: Range, c1: Range)
    requires GoodSubnet(r) && Produces(r, c) && Network(r) == [10, 0, 0, 0] && Network(r)[0] != 0
    requires Size(r) == 256 && Value([10, 0, 0, 0]) == 10 * 0x100_0000 && r.rangeStart.None? && r.rangeEnd.None?
    requires GoodSubnet(r1) && Produces(r1, c1) && Network(r1) == ELEVEN_V6 && r1.rangeStart.None? && r1.rangeEnd.None?
    requires NextIP(ELEVEN_V6) == [11, 0, 0, 1] && Value([11, 0, 0, 1]) == 0xb00_0001
    requires Value(ELEVEN_V6) == 0xb00_0000 && Size(r1) == 0x100_0000
    ensures c1.rangeStart == Some([11, 0, 0, 1]) && |c.rangeStart.GetOr([])| == 4
    ensures !Overlaps(c, c1)
  {
    hide Pow2;
    hide Value;
    hide CIDRMask;
    hide SimpleMaskLength;
    hide LastIP;
    hide Contains;
    NotContained(r, c, [11, 0, 0, 1]);
    GoodSubnetParts(r1);
    LastIPValue(ELEVEN_V6, PrefixLength(r1));
    NotMapped(c1.rangeEnd.value);
    ContainsOfOtherLength(c, c1.rangeEnd.value);
    ContainsOfOtherLength(c1, c.rangeStart.value);
    ContainsOfOtherLength(c1, c.rangeEnd.value);
  }

  /** An address past the end of 10.0.0.0/24. */
  lemma NotContained(r: Range, c: Range, a: IP)
    requires GoodSubnet(r) && Produces(r, c) && Network(r)[0] != 0 && |Network(r)| == 4
    requires |a| == 4 && Value(a) >= Value(Network(r)) + Size(r)
    ensures !Contains(c, a)
    ensures c.rangeStart.Some? && c.rangeEnd.Some? && |c.rangeStart.value| == |c.rangeEnd.value| == |c.subnet| == 4
  {
    hide Pow2;
    hide Value;
    hide CIDRMask;
    hide SimpleMaskLength;
    hide LastIP;
    hide NextIP;
    CanonicalizeIdempotent(a);
    ContainsIsInterval(c, PrefixLength(r), a);
  }

  lemma ContainsOfOtherLength(c: Range, a: IP)
    requires CanonicalizeIP(a).Some? && |CanonicalizeIP(a).value| != |c.subnet|
    ensures !Contains(c, a)
  {
    hide CanonicalizeIP;
    hide NetContains;
  }

  /** IPv4-mapped addresses are large numbers. */
  lemma NotMapped(a: IP)
    requires |a| == 16 && Value(a) < 0x1_0000_0000
    ensures CanonicalizeIP(a) == Some(a)
  {
    hide Value;
    MappedExactly(a);
    CanonicalizeIdempotent(a);
  }

  lemma FamilyOfStart(c: Range, c1: Range)
    requires c1.rangeStart == Some([11, 0, 0, 1]) && |c.rangeStart.GetOr([])| == 4
    ensures Family(c) == Family(c1)
  {
  }

  lemma CountedAsV4(r: Range)
    requires Canonicalized(r).0.rangeStart == Some([11, 0, 0, 1])
    ensures StartsV4(CanonicalSet([r]))
  {
    hide Canonicalized;
  }

  // ---- A start at the broadcast address ----

  /** Canonicalize accepts 10.0.0.0/24 with start 10.0.0.255 and lets it end at 10.0.0.254. */
  lemma BroadcastStartIsAccepted()
    ensures var r := Range(Some([10, 0, 0, 255]), None, [10, 0, 0, 0], [255, 255, 255, 0], None);
            && GoodSubnet(r) && Network(r)[0] != 0 && StartsAtBroadcast(r)
            && AcceptableConfig([], [[r]], false)
            && Canonicalized(r).0.rangeStart == Some([10, 0, 0, 255])
            && Canonicalized(r).0.rangeEnd == Some([10, 0, 0, 254])
  {
    hide *;
    var r := Range(Some([10, 0, 0, 255]), None, [10, 0, 0, 0], [255, 255, 255, 0], None);
    SmallNet(r, 10);
    TenNet(r);
    CanonicalizeAccepts(r);
    TenNetEnds(r, Canonicalized(r).0);
    OneRangeConfig(r);
  }

  /** The network b.0.0.0/24. */
  lemma SmallNet(r: Range, b: Byte)
    requires r.subnet == [b, 0, 0, 0] && r.mask == [255, 255, 255, 0] && b != 0
    ensures GoodSubnet(r) && Network(r) == [b, 0, 0, 0] && Network(r)[0] != 0 && PrefixLength(r) == 24
    ensures Size(r) == 256 && Value([b, 0, 0, 0]) == b * 0x100_0000
  {
    hide Pow2;
    hide CIDRMask;
    hide Value;
    hide SimpleMaskLength;
    TenNetMask();
    SmallNetValue(b);
    MaskLengthExact(r.mask, 24);
    Pow2Eight();
    GoodSubnetParts(r);
  }

  lemma SmallNetValue(b: Byte)
    ensures Value([b, 0, 0, 0]) == b * 0x100_0000
  {
    hide Value;
    ValueBehind([], b);
    ValueBehind([] + [b], 0);
    ValueBehind([] + [b] + [0], 0);
    ValueBehind([] + [b] + [0] + [0], 0);
    assert [] + [b] + [0] + [0] + [0] == [b, 0, 0, 0];
  }

  lemma TenNet(r: Range)
    requires r == Range(Some([10, 0, 0, 255]), None, [10, 0, 0, 0], [255, 255, 255, 0], None)
    requires GoodSubnet(r) && Network(r) == [10, 0, 0, 0] && PrefixLength(r) == 24 && Size(r) == 256
    requires Value([10, 0, 0, 0]) == 0xa00_0000
    ensures Acceptable(r) && StartsAtBroadcast(r)
  {
    hide Pow2;
    hide CIDRMask;
    hide Value;
    hide SimpleMaskLength;
    TenNetValues();
    Pow2Eight();
    GoodSubnetParts(r);
    InBlockParts([10, 0, 0, 0], 24, [10, 0, 0, 255]);
  }

  lemma TenNetMask()
    ensures SimpleMaskLength([255, 255, 255, 0]) == Some(24)
  {
    assert [255, 255, 255, 0][1..] == [255, 255, 0] && [255, 255, 0][1..] == [255, 0];
    assert [255, 0][1..] == [0] && [0][1..] == [];
    assert SimpleMaskLength([0]) == Some(0);
    assert SimpleMaskLength([255, 0]) == Some(8);
    assert SimpleMaskLength([255, 255, 0]) == Some(16);
  }

  lemma TenNetValues()
    ensures Value([10, 0, 0, 0]) == 0xa00_0000 && Value([10, 0, 0, 255]) == 0xa00_00ff
    ensures Value([10, 0, 0, 254]) == 0xa00_00fe
  {
    hide Value;
    var ten := [] + [10] + [0] + [0];
    ValueBehind([], 10);
    ValueBehind([] + [10], 0);
    ValueBehind([] + [10] + [0], 0);
    ValueBehind(ten, 0);
    ValueBehind(ten, 255);
    ValueBehind(ten, 254);
    assert ten + [0] == [10, 0, 0, 0] && ten + [255] == [10, 0, 0, 255] && ten + [254] == [10, 0, 0, 254];
  }

  lemma TenNetEnds(r: Range, c: Range)
    requires GoodSubnet(r) && Produces(r, c) && r.rangeStart == Some([10, 0, 0, 255]) && r.rangeEnd.None?
    requires Network(r) == [10, 0, 0, 0] && Network(r)[0] != 0 && PrefixLength(r) == 24 && Size(r) == 256
    requires Value([10, 0, 0, 0]) == 0xa00_0000
    ensures c.rangeStart == Some([10, 0, 0, 255]) && c.rangeEnd == Some([10, 0, 0, 254])
  {
    hide Pow2;
    hide CIDRMask;
    hide Value;
    hide SimpleMaskLength;
    hide LastIP;
    TenNetValues();
    ValueInjective(c.rangeStart.value, [10, 0, 0, 255]);
    ValueInjective(c.rangeEnd.value, [10, 0, 0, 254]);
  }

  lemma OneRangeConfig(r: Range)
    requires Canonicalized(r).1.None?
    ensures AcceptableConfig([], [[r]], false)
  {
    hide Canonicalized;
    hide Overlaps;
  }

  // ---- The IPv4-mapped block ----

  const ZERO_V6: IP := [0, 0, 0, 0, 0, 0, 0, 0, 0, 0, 0, 0, 0, 0, 0, 0]
  const LAST_MAPPED: IP := V4_IN_V6_PREFIX + [255, 255, 255, 255]
  const BEYOND_V4: IP := [0, 0, 0, 0, 0, 0, 0, 0, 0, 0, 0, 1, 0, 0, 0, 0]
  const FIVE_V6: IP := [0, 0, 0, 0, 0, 0, 0, 0, 0, 0, 0, 0, 0, 0, 0, 5]

  /**
   * In IPv6 equally long starts are not enough: ::/80 ends in the IPv4-mapped block, and the
   * check does not find its overlap with the part of it that ends at ::1:0:0.
   */
  lemma MappedEndsEscapeTheCheck()
    ensures var whole := Range(None, None, ZERO_V6, CIDRMask(80, 16), None);
            var part := Range(None, Some(BEYOND_V4), ZERO_V6, CIDRMask(80, 16), None);
            && AcceptableConfig([], [[whole], [part]], false)
            && StartLength(whole) == StartLength(part) && MappedEnd(whole) && !MappedEnd(part)
            && Contains(Canonicalized(whole).0, FIVE_V6)
            && Contains(Canonicalized(part).0, FIVE_V6)
            && AcceptableSet([whole, part])
  {
    hide *;
    var whole := Range(None, None, ZERO_V6, CIDRMask(80, 16), None);
    var part := Range(None, Some(BEYOND_V4), ZERO_V6, CIDRMask(80, 16), None);
    ZeroSubnet6(whole);
    ZeroSubnet6(part);
    MappedLast(whole);
    MappedLast(part);
    WholeAndPart(whole, part);
    SingleRangeConfig(whole, part);
    PairSet(whole, part);
  }

  /** Two accepted ranges that pass the family and overlap checks make a set. */
  lemma PairSet(r: Range, r1: Range)
    requires Canonicalized(r).1.None? && Canonicalized(r1).1.None?
    requires Family(Canonicalized(r).0) == Family(Canonicalized(r1).0)
    requires !Overlaps(Canonicalized(r).0, Canonicalized(r1).0)
    ensures AcceptableSet([r, r1])
  {
    hide Canonicalized;
    hide Overlaps;
  }

  lemma ZeroSubnet6(r: Range)
    requires r.subnet == ZERO_V6 && r.mask == CIDRMask(80, 16)
    ensures GoodSubnet(r) && Network(r) == ZERO_V6 && PrefixLength(r) == 80 && CanonicalizeIP(r.subnet) == Some(ZERO_V6)
    ensures Value(ZERO_V6) == 0 && NextIP(ZERO_V6) == [1]
    ensures r.rangeStart.None? ==> StartLength(r) == 1
  {
    hide Pow2;
    hide CIDRMask;
    hide SimpleMaskLength;
    hide Minimal;
    MaskLengthExact(r.mask, 80);
    AllZeroMask(ZERO_V6);
    ZeroMask(16);
    ZeroIsCanonical();
    GoodSubnetParts(r);
    SmallValues();
    IpToIntValue(ZERO_V6);
    assert 0 % Pow2(48) == 0;
  }

  lemma ZeroIsCanonical()
    ensures CanonicalizeIP(ZERO_V6) == Some(ZERO_V6) && CanonicalizeIP(FIVE_V6) == Some(FIVE_V6)
    ensures CanonicalizeIP(BEYOND_V4) == Some(BEYOND_V4)
    ensures CanonicalizeIP(LAST_MAPPED) == Some([255, 255, 255, 255]) && |LAST_MAPPED| == 16
    ensures CanonicalizeIP([1]) == None
    ensures To4([1]) == None && To16([1]) == None
  {
    assert ZERO_V6[..12][11] == 0 && V4_IN_V6_PREFIX[11] == 255;
    assert FIVE_V6[..12][11] == 0;
    assert BEYOND_V4[..12][11] == 1;
    assert LAST_MAPPED[..12] == V4_IN_V6_PREFIX && LAST_MAPPED[12..] == [255, 255, 255, 255];
  }

  /** Leading zero bytes do not count. */
  lemma {:induction false} ValueSkipsZeros(n: nat, s: seq<Byte>)
    ensures Value(seq(n, i => 0) + s) == Value(s)
  {
    if n == 0 {
      assert seq(n, i => 0) + s == s;
    } else {
      assert seq(n, i => 0) + s == [0] + (seq(n - 1, i => 0) + s);
      ValueFront(0, seq(n - 1, i => 0) + s);
      ValueSkipsZeros(n - 1, s);
    }
  }

  lemma ValueBehind(s: seq<Byte>, b: Byte)
    ensures Value(s + [b]) == Value(s) * 256 + b
    ensures Value([]) == 0
  {
    assert (s + [b])[..|s|] == s;
  }

  lemma MappedValues()
    ensures Value(FIVE_V6) == 5 && Value(BEYOND_V4) == 0x1_0000_0000
    ensures Value(LAST_MAPPED) == 0xffff_ffff_ffff && Value([255, 255, 255, 255]) == 0xffff_ffff
    ensures Pow2(48) == 0x1_0000_0000_0000
  {
    hide Pow2;
    hide Value;
    ValueSkipsZeros(15, [5]);
    assert FIVE_V6 == seq(15, i => 0) + [5] && [5] == [] + [5];
    ValueBehind([], 5);
    ValueSkipsZeros(11, [1, 0, 0, 0, 0]);
    assert BEYOND_V4 == seq(11, i => 0) + [1, 0, 0, 0, 0];
    assert [1, 0, 0, 0, 0] == [] + [1] + [0] + [0] + [0] + [0];
    ValueBehind([], 1);
    ValueBehind([] + [1], 0);
    ValueBehind([] + [1] + [0], 0);
    ValueBehind([] + [1] + [0] + [0], 0);
    ValueBehind([] + [1] + [0] + [0] + [0], 0);
    SixOnes();
    ShortPowers();
    Pow2Add(24, 24);
  }

  lemma SixOnes()
    ensures Value(LAST_MAPPED) == 0xffff_ffff_ffff && Value([255, 255, 255, 255]) == 0xffff_ffff
  {
    hide Value;
    var one: seq<Byte> := [255];
    assert one == [] + [255];
    ValueBehind([], 255);
    ValueBehind(one, 255);
    ValueBehind(one + [255], 255);
    ValueBehind(one + [255] + [255], 255);
    var four := one + [255] + [255] + [255];
    assert four == [255, 255, 255, 255];
    ValueBehind(four, 255);
    ValueBehind(four + [255], 255);
    ValueSkipsZeros(10, four + [255] + [255]);
    assert LAST_MAPPED == seq(10, i => 0) + (four + [255] + [255]);
  }

  lemma MappedLast(r: Range)
    requires GoodSubnet(r) && Network(r) == ZERO_V6 && PrefixLength(r) == 80 && r.mask == CIDRMask(80, 16)
    requires Value(ZERO_V6) == 0
    ensures |r.mask| == 16 && LastIP(ZERO_V6, r.mask) == LAST_MAPPED && !Canonical(LAST_MAPPED)
    ensures r.rangeEnd.None? ==> MappedEnd(r)
    ensures r.rangeEnd.Some? ==> !MappedEnd(r)
  {
    hide Value;
    hide Pow2;
    hide CIDRMask;
    hide SimpleMaskLength;
    hide LastIP;
    GoodSubnetParts(r);
    LastIPValue(ZERO_V6, 80);
    MappedValues();
    ZeroIsCanonical();
    ValueInjective(LastIP(ZERO_V6, r.mask), LAST_MAPPED);
  }

  lemma WholeAndPart(whole: Range, part: Range)
    requires whole == Range(None, None, ZERO_V6, CIDRMask(80, 16), None)
    requires part == Range(None, Some(BEYOND_V4), ZERO_V6, CIDRMask(80, 16), None)
    requires GoodSubnet(whole) && GoodSubnet(part) && Network(whole) == Network(part) == ZERO_V6
    requires PrefixLength(whole) == PrefixLength(part) == 80 && Value(ZERO_V6) == 0 && NextIP(ZERO_V6) == [1]
    requires LastIP(ZERO_V6, whole.mask) == LAST_MAPPED
    ensures Canonicalized(whole).1.None? && Canonicalized(part).1.None?
    ensures !Overlaps(Canonicalized(whole).0, Canonicalized(part).0)
    ensures Family(Canonicalized(whole).0) == Family(Canonicalized(part).0)
    ensures Contains(Canonicalized(whole).0, FIVE_V6) && Contains(Canonicalized(part).0, FIVE_V6)
  {
    hide Value;
    hide Pow2;
    hide CheckSubnet;
    hide SimpleMaskLength;
    hide NetContains;
    hide NextIP;
    hide LastIP;
    hide CIDRMask;
    CheckSubnetExact(whole);
    CheckSubnetExact(part);
    ZeroIsCanonical();
    MappedValues();
    ValueOfNone();
    GoodSubnetNetwork(whole);
    NetworkContains(ZERO_V6, whole.mask, 80, FIVE_V6);
    NetworkContains(ZERO_V6, whole.mask, 80, BEYOND_V4);
    assert Canonicalized(whole).0 == Range(Some([1]), Some(LAST_MAPPED), ZERO_V6, whole.mask, Some([1]));
    assert Canonicalized(part).0 == Range(Some([1]), Some(BEYOND_V4), ZERO_V6, whole.mask, Some([1]));
  }
}
