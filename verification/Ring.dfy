/**
 * The addresses of a canonical range set laid out in a circle: position p counts the
 * addresses of the ranges one after the other. The iterator walks this circle.
 */
module Ring {
  import opened Wrappers
  import opened Bytes
  import opened Cidr
  import opened Masks
  import opened Ranges
  import opened RangeMeaning
  import opened RangeSets

  /** A canonical, non-empty range whose addresses have a non-zero first byte. */
  ghost predicate GoodRange(r: Range) {
    && WellFormed(r, PrefixLength(r))
    && Lo(r) <= Hi(r)
    && r.rangeStart.value[0] != 0
  }

  /** A set of good, pairwise disjoint ranges of one family. */
  ghost predicate GoodSet(s: RangeSet) {
    && s != []
    && (forall i :: 0 <= i < |s| ==> GoodRange(s[i]))
    && (forall i :: 0 <= i < |s| ==> |s[i].subnet| == |s[0].subnet|)
    && (forall i, j :: 0 <= i < j < |s| ==> Apart(s[i], s[j]))
  }

  predicate Apart(r: Range, r1: Range) {
    Hi(r) < Lo(r1) || Hi(r1) < Lo(r)
  }

  /** Ranges that leave no room: the broadcast start without end. */
  ghost predicate NoBroadcastStart(s: RangeSet) {
    forall i :: 0 <= i < |s| && GoodSubnet(s[i]) ==> !StartsAtBroadcast(s[i])
  }

  /** RangeSet.Canonicalize yields good sets, outside the two corner cases. */
  lemma CanonicalSetIsGood(s: RangeSet)
    requires AcceptableSet(s) && NoZeroNetwork(s) && NoBroadcastStart(s)
    ensures GoodSet(CanonicalSet(s))
  {
    hide Canonicalized;
    hide Overlaps;
    hide Acceptable;
    hide GoodSubnet;
    hide StartsAtBroadcast;
    hide WellFormed;
    hide Lo;
    hide Hi;
    var c := CanonicalSet(s);
    forall i | 0 <= i < |s| ensures GoodRange(c[i]) && |c[i].subnet| == Family(c[i]) {
      CanonicalRangeIsGood(s[i]);
    }
    forall i, j | 0 <= i < j < |s| ensures Apart(c[i], c[j]) {
      assert !Overlaps(c[i], c[j]);
      OverlapsExact(c[i], PrefixLength(c[i]), c[j], PrefixLength(c[j]));
    }
  }

  lemma CanonicalRangeIsGood(r: Range)
    requires Canonicalized(r).1.None?
    requires GoodSubnet(r) ==> Network(r)[0] != 0 && !StartsAtBroadcast(r)
    ensures GoodRange(Canonicalized(r).0)
    ensures |Canonicalized(r).0.subnet| == Family(Canonicalized(r).0)
  {
    hide *;
    CanonicalizeAccepts(r);
    AcceptableGood(r);
    var c := Canonicalized(r).0;
    ProducesGood(r, c);
    WellFormedParts(c, PrefixLength(r));
    BlockNonZero(c.subnet, PrefixLength(r), c.rangeStart.value);
    GoodRangeParts(c);
  }

  lemma AcceptableGood(r: Range)
    requires Acceptable(r)
    ensures GoodSubnet(r)
  {
  }

  lemma ProducesGood(r: Range, c: Range)
    requires GoodSubnet(r) && Produces(r, c) && !StartsAtBroadcast(r) && Network(r)[0] != 0
    ensures WellFormed(c, PrefixLength(r)) && Lo(c) <= Hi(c) && c.subnet == Network(r)
    ensures PrefixLength(c) == PrefixLength(r)
  {
    hide WellFormed;
    hide NextIP;
    hide LastIP;
    NonZeroNetworkIsPlain(r);
    hide Value;
    hide SimpleMaskLength;
    hide CanonicalizeIP;
  }

  lemma WellFormedParts(c: Range, ones: nat)
    requires WellFormed(c, ones)
    ensures c.rangeStart.Some? && c.rangeEnd.Some?
    ensures |c.rangeStart.value| == |c.rangeEnd.value| == |c.subnet| == Family(c)
    ensures Value(c.subnet) <= Value(c.rangeStart.value) && Canonical(c.subnet) && ones <= 8 * |c.subnet|
    ensures Lo(c) == Value(c.rangeStart.value) && Hi(c) == Value(c.rangeEnd.value)
    ensures Canonical(c.rangeStart.value) && Canonical(c.rangeEnd.value)
    ensures |c.subnet| == 4 || |c.subnet| == 16
  {
    hide Value;
    hide Pow2;
    hide CIDRMask;
  }

  lemma GoodRangeParts(c: Range)
    ensures GoodRange(c) <==>
      && WellFormed(c, PrefixLength(c)) && Lo(c) <= Hi(c)
      && c.rangeStart.Some? && |c.rangeStart.value| > 0 && c.rangeStart.value[0] != 0
  {
    hide Value;
    hide Pow2;
    hide CIDRMask;
    hide SimpleMaskLength;
  }

  // ---- Positions ----

  function RangeSize(r: Range): nat {
    if Lo(r) <= Hi(r) then Hi(r) - Lo(r) + 1 else 0
  }

  /** The position of the first address of range k. */
  function Offset(s: RangeSet, k: nat): nat
    requires k <= |s|
  {
    if k == 0 then 0 else Offset(s, k - 1) + RangeSize(s[k - 1])
  }

  function Total(s: RangeSet): nat {
    Offset(s, |s|)
  }

  lemma {:induction false} OffsetMonotone(s: RangeSet, k: nat, l: nat)
    requires k <= l <= |s|
    ensures Offset(s, k) <= Offset(s, l)
  {
    hide RangeSize;
    if k < l {
      OffsetMonotone(s, k, l - 1);
    }
  }

  /** The range position p lies in, searching from range k on. */
  function RangeFrom(s: RangeSet, k: nat, p: nat): (r: nat)
    requires k < |s| && Offset(s, k) <= p < Total(s)
    ensures k <= r < |s| && Offset(s, r) <= p < Offset(s, r + 1)
    decreases |s| - k
  {
    if p < Offset(s, k + 1) then k else RangeFrom(s, k + 1, p)
  }

  function RangeAt(s: RangeSet, p: nat): (r: nat)
    requires p < Total(s)
    ensures r < |s| && Offset(s, r) <= p < Offset(s, r + 1)
  {
    RangeFrom(s, 0, p)
  }

  lemma RangeAtUnique(s: RangeSet, p: nat, k: nat)
    requires p < Total(s) && k < |s| && Offset(s, k) <= p < Offset(s, k + 1)
    ensures RangeAt(s, p) == k
  {
    hide Offset;
    hide RangeFrom;
    var r := RangeAt(s, p);
    if r < k {
      OffsetMonotone(s, r + 1, k);
    } else if k < r {
      OffsetMonotone(s, k + 1, r);
    }
  }

  /** The number of the address at position p. */
  function NumberAt(s: RangeSet, p: nat): nat
    requires p < Total(s)
  {
    var k := RangeAt(s, p);
    Lo(s[k]) + (p - Offset(s, k))
  }

  /** The address at position p. */
  function AddressAt(s: RangeSet, p: nat): IP
    requires p < Total(s)
  {
    Fixed(NumberAt(s, p), |s[RangeAt(s, p)].subnet|)
  }

  /** Position p holds the gateway of its own range. */
  predicate IsGateway(s: RangeSet, p: nat)
    requires p < Total(s)
  {
    EqualOption(AddressAt(s, p), s[RangeAt(s, p)].gateway)
  }

  /** The position of number v of range k. */
  function PositionOf(s: RangeSet, k: nat, v: nat): nat
    requires k < |s|
  {
    Offset(s, k) + (if Lo(s[k]) <= v then v - Lo(s[k]) else 0)
  }

  lemma GoodSetParts(s: RangeSet, k: nat)
    requires GoodSet(s) && k < |s|
    ensures GoodRange(s[k]) && WellFormed(s[k], PrefixLength(s[k])) && Lo(s[k]) <= Hi(s[k])
    ensures |s[k].subnet| == |s[0].subnet|
    ensures s[k].rangeStart.Some? && s[k].rangeEnd.Some?
    ensures |s[k].rangeStart.value| == |s[k].rangeEnd.value| == |s[k].subnet|
    ensures Canonical(s[k].rangeStart.value) && Canonical(s[k].rangeEnd.value)
    ensures Lo(s[k]) == Value(s[k].rangeStart.value) && Hi(s[k]) == Value(s[k].rangeEnd.value)
    ensures s[k].rangeStart.value[0] != 0
    ensures |s[k].subnet| == 4 || |s[k].subnet| == 16
  {
    hide WellFormed;
    hide Value;
    WellFormedParts(s[k], PrefixLength(s[k]));
  }

  /** A number of range k, its position, and the address there. */
  lemma PositionFacts(s: RangeSet, k: nat, v: nat)
    requires GoodSet(s) && k < |s| && Lo(s[k]) <= v <= Hi(s[k])
    ensures var p := PositionOf(s, k, v); p < Total(s) && RangeAt(s, p) == k && NumberAt(s, p) == v
  {
    hide GoodSet;
    hide Lo;
    hide Hi;
    var p := PositionOf(s, k, v);
    OffsetMonotone(s, k + 1, |s|);
    assert Offset(s, k + 1) == Offset(s, k) + RangeSize(s[k]);
    RangeAtUnique(s, p, k);
  }

  lemma NumberInRange(s: RangeSet, p: nat)
    requires p < Total(s)
    ensures var k := RangeAt(s, p); Lo(s[k]) <= NumberAt(s, p) <= Hi(s[k]) && PositionOf(s, k, NumberAt(s, p)) == p
  {
    hide Lo;
    hide Hi;
    var k := RangeAt(s, p);
    assert Offset(s, k + 1) == Offset(s, k) + RangeSize(s[k]);
  }

  /** The address at a position denotes its number, in the family of the set, without leading zero. */
  lemma AddressFacts(s: RangeSet, p: nat)
    requires GoodSet(s) && p < Total(s)
    ensures |AddressAt(s, p)| == |s[0].subnet| && Value(AddressAt(s, p)) == NumberAt(s, p)
    ensures Canonical(AddressAt(s, p)) && AddressAt(s, p)[0] != 0
  {
    hide *;
    var k := RangeAt(s, p);
    NumberInRange(s, p);
    GoodSetParts(s, k);
    ValueBound(s[k].rangeEnd.value);
    FixedValue(NumberAt(s, p), |s[k].subnet|);
    AddressAtDef(s, p);
    FirstByte(s[k].rangeStart.value);
    FirstByte(AddressAt(s, p));
    NonZeroCanonical(AddressAt(s, p));
  }

  lemma AddressAtDef(s: RangeSet, p: nat)
    requires p < Total(s)
    ensures AddressAt(s, p) == Fixed(NumberAt(s, p), |s[RangeAt(s, p)].subnet|)
  {
  }

  /** An address of the family whose number lies in range k is the address at its position. */
  lemma AddressOfNumber(s: RangeSet, k: nat, a: IP)
    requires GoodSet(s) && k < |s| && |a| == |s[0].subnet| && Lo(s[k]) <= Value(a) <= Hi(s[k])
    ensures PositionOf(s, k, Value(a)) < Total(s)
    ensures RangeAt(s, PositionOf(s, k, Value(a))) == k && AddressAt(s, PositionOf(s, k, Value(a))) == a
  {
    hide *;
    PositionFacts(s, k, Value(a));
    AddressFacts(s, PositionOf(s, k, Value(a)));
    ValueInjective(a, AddressAt(s, PositionOf(s, k, Value(a))));
  }

  /** A range contains exactly the addresses at its positions. */
  lemma ContainsIsPosition(s: RangeSet, k: nat, addr: IP)
    requires GoodSet(s) && k < |s|
    ensures Contains(s[k], addr) <==>
      exists p :: 0 <= p < Total(s) && RangeAt(s, p) == k && CanonicalizeIP(addr) == Some(AddressAt(s, p))
  {
    hide *;
    GoodSetParts(s, k);
    ContainsIsInterval(s[k], PrefixLength(s[k]), addr);
    if Contains(s[k], addr) {
      var a := CanonicalizeIP(addr).value;
      AddressOfNumber(s, k, a);
    }
    if p :| 0 <= p < Total(s) && RangeAt(s, p) == k && CanonicalizeIP(addr) == Some(AddressAt(s, p)) {
      AddressFacts(s, p);
      NumberInRange(s, p);
    }
  }

  /** Different positions hold different addresses. */
  lemma AddressInjective(s: RangeSet, p: nat, q: nat)
    requires GoodSet(s) && p < Total(s) && q < Total(s) && AddressAt(s, p) == AddressAt(s, q)
    ensures p == q
  {
    hide *;
    AddressFacts(s, p);
    AddressFacts(s, q);
    NumberInRange(s, p);
    NumberInRange(s, q);
    var k, l := RangeAt(s, p), RangeAt(s, q);
    if k < l {
      RangesApart(s, k, l);
    } else if l < k {
      RangesApart(s, l, k);
    }
  }

  lemma RangesApart(s: RangeSet, k: nat, l: nat)
    requires GoodSet(s) && k < l < |s|
    ensures Hi(s[k]) < Lo(s[l]) || Hi(s[l]) < Lo(s[k])
  {
    hide Lo;
    hide Hi;
    hide GoodRange;
    assert Apart(s[k], s[l]);
  }

  // ---- Going round ----

  /** The position k steps after p on a circle of n. */
  function Ahead(n: nat, p: nat, k: nat): (q: nat)
    requires p < n && k <= n
    ensures q < n
  {
    if p + k < n then p + k else p + k - n
  }

  /** The successor of an address of range k: the next number, or the start of the next range. */
  lemma Successor(s: RangeSet, p: nat)
    requires GoodSet(s) && p < Total(s)
    ensures var k, q := RangeAt(s, p), Ahead(Total(s), p, 1);
      if NumberAt(s, p) == Hi(s[k])
      then RangeAt(s, q) == (k + 1) % |s| && AddressAt(s, q) == s[(k + 1) % |s|].rangeStart.value
      else RangeAt(s, q) == k && AddressAt(s, q) == NextIP(AddressAt(s, p))
  {
    hide *;
    var k := RangeAt(s, p);
    NumberInRange(s, p);
    AddressFacts(s, p);
    GoodSetParts(s, k);
    if NumberAt(s, p) == Hi(s[k]) {
      var l := (k + 1) % |s|;
      WrapIndex(k, |s|);
      GoodSetParts(s, l);
      EndPosition(s, k);
      AddressOfNumber(s, l, s[l].rangeStart.value);
      StartPosition(s, l);
      AheadOne(Total(s), p);
    } else {
      var a := NextIP(AddressAt(s, p));
      NextIPAgreesWithInc(AddressAt(s, p));
      NextInFamily(AddressAt(s, p), s[k].rangeEnd.value);
      AddressOfNumber(s, k, a);
      NextPosition(s, k, NumberAt(s, p));
      AheadOne(Total(s), p);
    }
  }

  lemma WrapIndex(k: nat, n: nat)
    requires k < n
    ensures (k + 1) % n == if k + 1 == n then 0 else k + 1
  {
  }

  lemma AheadOne(n: nat, p: nat)
    requires p < n
    ensures Ahead(n, p, 1) == if p + 1 == n then 0 else p + 1
  {
  }

  lemma EndPosition(s: RangeSet, k: nat)
    requires k < |s| && Lo(s[k]) <= Hi(s[k])
    ensures PositionOf(s, k, Hi(s[k])) + 1 == Offset(s, k + 1)
    ensures k + 1 == |s| ==> Offset(s, k + 1) == Total(s)
    ensures Offset(s, 0) == 0
  {
    hide Lo;
    hide Hi;
  }

  lemma StartPosition(s: RangeSet, k: nat)
    requires k < |s|
    ensures PositionOf(s, k, Lo(s[k])) == Offset(s, k)
  {
    hide Lo;
    hide Hi;
  }

  lemma NextPosition(s: RangeSet, k: nat, v: nat)
    requires k < |s| && Lo(s[k]) <= v
    ensures PositionOf(s, k, v + 1) == PositionOf(s, k, v) + 1
  {
    hide Lo;
    hide Hi;
  }

  /** Below an address of its family the successor stays in the family. */
  lemma NextInFamily(a: IP, end: IP)
    requires Canonical(a) && a[0] != 0 && |end| == |a| && Value(a) < Value(end)
    ensures |NextIP(a)| == |a|
  {
    hide *;
    CanonicalizeIdempotent(a);
    ValueBound(end);
    FirstByte(a);
    NextIPFamily(a);
  }

  lemma TotalPositive(s: RangeSet)
    requires GoodSet(s)
    ensures Total(s) > 0
    ensures RangeAt(s, 0) == 0 && AddressAt(s, 0) == s[0].rangeStart.value
  {
    hide *;
    SetNonEmpty(s);
    GoodSetParts(s, 0);
    AddressOfNumber(s, 0, s[0].rangeStart.value);
    StartPosition(s, 0);
    EndPosition(s, 0);
  }

  lemma SetNonEmpty(s: RangeSet)
    requires GoodSet(s)
    ensures |s| > 0
  {
  }

  // ---- A subnet on its own ----

  /** Only a subnet is configured, with nothing else filled in. */
  ghost predicate SubnetOnly(r: Range) {
    GoodSubnet(r) && Network(r)[0] != 0 && r.rangeStart.None? && r.rangeEnd.None? && r.gateway.None?
  }

  /**
   * A subnet on its own is accepted as a range set and holds every address of the subnet but the
   * network address and, in IPv4, the broadcast address; its first address is its gateway, the
   * only one, so one address fewer can be allocated.
   */
  lemma SubnetAlone(r: Range)
    requires SubnetOnly(r)
    ensures AcceptableSet([r]) && GoodSet(CanonicalSet([r]))
    ensures var s := CanonicalSet([r]);
      && Total(s) == Size(r) - (if |Network(r)| == 4 then 2 else 1)
      && Total(s) >= 2
      && forall p :: 0 <= p < Total(s) ==> (IsGateway(s, p) <==> p == 0)
  {
    hide *;
    OnlyProduces(r);
    var c, s := Canonicalized(r).0, CanonicalSet([r]);
    SingleSet(r, c);
    CanonicalSetIsGood([r]);
    TotalPositive(s);
    forall p | 0 <= p < Total(s) ensures IsGateway(s, p) <==> p == 0 {
      RangeAtUnique(s, p, 0);
      AddressFacts(s, p);
      AddressFacts(s, 0);
      GatewayTest(s, p, c);
      if AddressAt(s, p) == AddressAt(s, 0) {
        AddressInjective(s, p, 0);
      }
    }
  }

  lemma OnlyProduces(r: Range)
    requires SubnetOnly(r)
    ensures Canonicalized(r).1.None? && !StartsAtBroadcast(r) && GoodSubnet(r) && Network(r)[0] != 0
    ensures var c := Canonicalized(r).0;
      && c.rangeStart == c.gateway == Some(NextIP(Network(r)))
      && RangeSize(c) == Size(r) - (if |Network(r)| == 4 then 2 else 1)
      && Size(r) >= 4
  {
    hide Value;
    hide Pow2;
    hide CIDRMask;
    hide SimpleMaskLength;
    hide NextIP;
    hide CanonicalizeIP;
    hide CheckSubnet;
    hide LastIP;
    CanonicalizeAccepts(r);
    CheckSubnetExact(r);
    SizeOf(r);
  }

  lemma SingleSet(r: Range, c: Range)
    requires GoodSubnet(r) && Network(r)[0] != 0 && !StartsAtBroadcast(r)
    requires Canonicalized(r) == (c, None)
    ensures CanonicalSet([r]) == [c] && AcceptableSet([r]) && NoZeroNetwork([r]) && NoBroadcastStart([r])
    ensures Offset([c], 0) == 0 && Offset([c], 1) == RangeSize(c) && Total([c]) == RangeSize(c)
  {
    hide Canonicalized;
    hide RangeSize;
  }

  lemma GatewayTest(s: RangeSet, p: nat, c: Range)
    requires p < Total(s) && RangeAt(s, p) == 0 && s == [c] && Canonical(AddressAt(s, p))
    requires c.gateway.Some? && Canonical(c.gateway.value)
    ensures IsGateway(s, p) <==> AddressAt(s, p) == c.gateway.value
  {
    hide AddressAt;
    hide RangeAt;
    hide Total;
  }

  /**
   * In the canonical form of an accepted set, an address is its range's gateway exactly if it was
   * configured as such, or, with none configured, if it is the first address after the network's.
   */
  lemma GatewayAsConfigured(s: RangeSet, p: nat)
    requires AcceptableSet(s) && NoZeroNetwork(s) && NoBroadcastStart(s) && p < Total(CanonicalSet(s))
    ensures var c := CanonicalSet(s);
      var r := s[RangeAt(c, p)];
      IsGateway(c, p) <==>
        if r.gateway.Some? then CanonicalizeIP(r.gateway.value) == Some(AddressAt(c, p))
        else NumberAt(c, p) == Value(Network(r)) + 1
  {
    hide *;
    var c := CanonicalSet(s);
    CanonicalSetIsGood(s);
    CanonicalSetDef(s);
    var k := RangeAt(c, p);
    AddressFacts(c, p);
    GoodSetParts(c, k);
    StoredGateway(s, k);
    GatewayAt(c, p);
    if s[k].gateway.None? && Value(AddressAt(c, p)) == Value(c[k].gateway.value) {
      ValueInjective(AddressAt(c, p), c[k].gateway.value);
    }
  }

  lemma StoredGateway(s: RangeSet, k: nat)
    requires AcceptableSet(s) && NoZeroNetwork(s) && k < |s|
    ensures var c, r := Canonicalized(s[k]).0, s[k];
      && c.gateway.Some? && Canonical(c.gateway.value)
      && (if r.gateway.Some? then c.gateway == CanonicalizeIP(r.gateway.value)
          else Value(c.gateway.value) == Value(Network(r)) + 1 && |c.gateway.value| == |c.subnet|)
  {
    hide *;
    AcceptedAt(s, k);
    var r := s[k];
    CanonicalizeAccepts(r);
    ProducesGateway(r, Canonicalized(r).0);
    if r.gateway.None? {
      AcceptableGood(r);
      GoodSubnetNetwork(r);
      SizeOf(r);
      NetworkParts(Network(r), r.mask, PrefixLength(r));
      FirstHostParts(r);
    } else {
      CanonicalizeIdempotent(r.gateway.value);
    }
  }

  lemma AcceptedAt(s: RangeSet, k: nat)
    requires AcceptableSet(s) && NoZeroNetwork(s) && k < |s|
    ensures Canonicalized(s[k]).1.None? && (GoodSubnet(s[k]) ==> Network(s[k])[0] != 0)
  {
    hide Canonicalized;
    hide GoodSubnet;
    hide Overlaps;
    hide Network;
  }

  lemma ProducesGateway(r: Range, c: Range)
    requires Acceptable(r) && Produces(r, c)
    ensures c.subnet == Network(r)
    ensures c.gateway == if r.gateway.Some? then CanonicalizeIP(r.gateway.value) else Some(NextIP(c.subnet))
    ensures c.gateway.Some?
  {
    hide GoodSubnet;
    hide OptionalInBlock;
    hide CanonicalizeIP;
    hide Value;
    hide NextIP;
    hide WellFormed;
  }

  lemma FirstHostParts(r: Range)
    requires GoodSubnet(r) && Network(r)[0] != 0
    ensures var g := NextIP(Network(r));
      Canonical(g) && |g| == |Network(r)| && Value(g) == Value(Network(r)) + 1
  {
    hide Value;
    hide Pow2;
    hide NextIP;
    hide SimpleMaskLength;
    FirstHost(Network(r), PrefixLength(r));
  }

  // ---- Several subnets ----

  /** Subnets of one family, with nothing else filled in, that have no address in common. */
  ghost predicate SubnetsOnly(s: RangeSet) {
    && s != []
    && (forall i :: 0 <= i < |s| ==> SubnetOnly(s[i]) && |Network(s[i])| == |Network(s[0])|)
    && (forall i, j :: 0 <= i < j < |s| ==> BlocksApart(s[i], s[j]))
  }

  ghost predicate BlocksApart(r: Range, r1: Range)
    requires GoodSubnet(r) && GoodSubnet(r1)
  {
    Value(Network(r)) + Size(r) <= Value(Network(r1)) || Value(Network(r1)) + Size(r1) <= Value(Network(r))
  }

  /**
   * Such subnets are accepted as one set, which is good; the gateways are the first addresses of
   * the ranges, so no range ends with its gateway.
   */
  lemma SubnetsTogether(s: RangeSet)
    requires SubnetsOnly(s)
    ensures AcceptableSet(s) && GoodSet(CanonicalSet(s))
    ensures var c := CanonicalSet(s);
      forall p :: 0 <= p < Total(c) ==>
        var r := c[RangeAt(c, p)];
        (IsGateway(c, p) <==> NumberAt(c, p) == Lo(r)) && Lo(r) < Hi(r)
  {
    hide *;
    var c := CanonicalSet(s);
    SubnetsGood(s);
    CanonicalSetIsGood(s);
    forall p | 0 <= p < Total(c)
      ensures IsGateway(c, p) <==> NumberAt(c, p) == Lo(c[RangeAt(c, p)])
      ensures Lo(c[RangeAt(c, p)]) < Hi(c[RangeAt(c, p)])
    {
      var k := RangeAt(c, p);
      SubnetAt(s, k);
      GoodSetParts(c, k);
      AddressFacts(c, p);
      GatewayAt(c, p);
      if AddressAt(c, p) != c[k].rangeStart.value && NumberAt(c, p) == Lo(c[k]) {
        ValueInjective(AddressAt(c, p), c[k].rangeStart.value);
      }
    }
  }

  lemma SubnetAt(s: RangeSet, k: nat)
    requires SubnetsOnly(s) && k < |CanonicalSet(s)|
    ensures k < |s| && SubnetOnly(s[k]) && Canonicalized(s[k]).1.None? && !StartsAtBroadcast(s[k])
    ensures GoodSubnet(s[k]) && Network(s[k])[0] != 0
    ensures var c := CanonicalSet(s)[k];
      && c == Canonicalized(s[k]).0 && c.rangeStart.Some? && c.gateway == c.rangeStart
      && Lo(c) == Value(Network(s[k])) + 1 && Lo(c) < Hi(c) < Value(Network(s[k])) + Size(s[k])
      && Family(c) == |c.subnet| == |Network(s[k])| == |Network(s[0])|
      && WellFormed(c, PrefixLength(s[k])) && PrefixLength(c) == PrefixLength(s[k])
  {
    hide *;
    SubnetsOnlyAt(s, k);
    OnlyProduces(s[k]);
    SubnetEnds(s[k]);
    CanonicalRangeIsGood(s[k]);
  }

  lemma SubnetsOnlyAt(s: RangeSet, k: nat)
    requires SubnetsOnly(s) && k < |CanonicalSet(s)|
    ensures k < |s| && SubnetOnly(s[k]) && |Network(s[k])| == |Network(s[0])|
    ensures CanonicalSet(s)[k] == Canonicalized(s[k]).0
  {
    hide SubnetOnly;
    hide Network;
    hide Canonicalized;
  }

  lemma SubnetEnds(r: Range)
    requires SubnetOnly(r)
    ensures var c := Canonicalized(r).0;
      && c.subnet == Network(r) && Lo(c) == Value(Network(r)) + 1 && Lo(c) < Hi(c) < Value(Network(r)) + Size(r)
      && WellFormed(c, PrefixLength(r)) && PrefixLength(c) == PrefixLength(r)
  {
    hide Value;
    hide Pow2;
    hide CIDRMask;
    hide NextIP;
    hide LastIP;
    hide CanonicalizeIP;
    hide WellFormed;
    hide IsNetwork;
    OnlyProduces(r);
    CanonicalizeAccepts(r);
    ProducesGood(r, Canonicalized(r).0);
  }

  lemma GatewayAt(s: RangeSet, p: nat)
    requires p < Total(s) && Canonical(AddressAt(s, p))
    requires var g := s[RangeAt(s, p)].gateway; g.Some? && Canonical(g.value)
    ensures IsGateway(s, p) <==> s[RangeAt(s, p)].gateway == Some(AddressAt(s, p))
  {
    hide AddressAt;
    hide RangeAt;
    hide Total;
  }

  lemma SubnetsGood(s: RangeSet)
    requires SubnetsOnly(s)
    ensures AcceptableSet(s) && NoZeroNetwork(s) && NoBroadcastStart(s)
  {
    hide *;
    var c := CanonicalSet(s);
    CanonicalSetDef(s);
    forall i, j | 0 <= i < j < |s| ensures !Overlaps(c[i], c[j]) {
      SubnetAt(s, i);
      SubnetAt(s, j);
      SubnetsApart(s, i, j);
      OverlapsExact(c[i], PrefixLength(s[i]), c[j], PrefixLength(s[j]));
    }
    forall i | 0 <= i < |s|
      ensures Canonicalized(s[i]).1.None? && Family(c[i]) == |Network(s[0])|
      ensures Plain(s[i])
    {
      SubnetAt(s, i);
      PlainDef(s[i]);
    }
    AllAcceptable(s);
  }

  lemma SubnetsApart(s: RangeSet, i: nat, j: nat)
    requires SubnetsOnly(s) && i < j < |s|
    ensures GoodSubnet(s[i]) && GoodSubnet(s[j])
    ensures var v, w := Value(Network(s[i])), Value(Network(s[j])); v + Size(s[i]) <= w || w + Size(s[j]) <= v
  {
    hide Value;
    hide Size;
    hide CIDRMask;
    hide SimpleMaskLength;
    assert SubnetOnly(s[i]) && SubnetOnly(s[j]) && BlocksApart(s[i], s[j]);
  }

  lemma CanonicalSetDef(s: RangeSet)
    ensures |CanonicalSet(s)| == |s| && forall i :: 0 <= i < |s| ==> CanonicalSet(s)[i] == Canonicalized(s[i]).0
  {
    hide Canonicalized;
  }

  /** Outside the two corner cases. */
  ghost predicate Plain(r: Range) {
    GoodSubnet(r) && Network(r)[0] != 0 && !StartsAtBroadcast(r)
  }

  lemma PlainDef(r: Range)
    requires GoodSubnet(r)
    ensures Plain(r) <==> Network(r)[0] != 0 && !StartsAtBroadcast(r)
  {
  }

  lemma AllAcceptable(s: RangeSet)
    requires SubnetsOnly(s)
    requires forall i :: 0 <= i < |s| ==> Canonicalized(s[i]).1.None? && Family(CanonicalSet(s)[i]) == |Network(s[0])|
    requires forall i :: 0 <= i < |s| ==> Plain(s[i])
    requires forall i, j :: 0 <= i < j < |s| ==> !Overlaps(CanonicalSet(s)[i], CanonicalSet(s)[j])
    ensures AcceptableSet(s) && NoZeroNetwork(s) && NoBroadcastStart(s)
  {
    hide Canonicalized;
    hide Overlaps;
    hide SubnetOnly;
    hide Family;
    hide StartsAtBroadcast;
    hide GoodSubnet;
    hide Network;
    hide BlocksApart;
    CanonicalSetDef(s);
  }
}
