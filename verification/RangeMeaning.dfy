/** What Canonicalize accepts and produces, in terms of the numbers the addresses denote. */
module RangeMeaning {
  import opened Wrappers
  import opened Bytes
  import opened Cidr
  import opened Masks
  import opened Ranges

  /** The subnet as Canonicalize stores it. */
  function Network(r: Range): IP {
    CanonicalizeIP(r.subnet).GetOr([])
  }

  function PrefixLength(r: Range): nat {
    SimpleMaskLength(r.mask).GetOr(0)
  }

  /** The configured subnet is a network with at least four addresses. */
  ghost predicate GoodSubnet(r: Range) {
    && CanonicalizeIP(r.subnet).Some?
    && SimpleMaskLength(r.mask).Some?
    && |r.mask| == |Network(r)|
    && PrefixLength(r) + 2 <= 8 * |r.mask|
    && IsNetwork(Network(r), r.mask, PrefixLength(r))
  }

  function Size(r: Range): nat
    requires PrefixLength(r) <= 8 * |Network(r)|
  {
    BlockSize(|Network(r)|, PrefixLength(r))
  }

  ghost predicate OptionalInBlock(r: Range, a: Option<IP>)
    requires GoodSubnet(r)
  {
    a.Some? ==> CanonicalizeIP(a.value).Some? && InBlock(Network(r), PrefixLength(r), CanonicalizeIP(a.value).value)
  }

  /** Where a given end lies. */
  function Position(a: Option<IP>): nat {
    Value(CanonicalizeIP(a.GetOr([])).GetOr([]))
  }

  /** A default start that Cmp can read: NextIP of the network has the length of an address. */
  predicate ReadableDefault(r: Range) {
    CanonicalizeIP(NextIP(Network(r))).Some?
  }

  /**
   * The inputs Canonicalize is to accept: ends in the subnet and in order, and a readable gateway.
   * Against a default start that it cannot read it lets even the network address pass as the end.
   */
  ghost predicate Acceptable(r: Range) {
    && GoodSubnet(r)
    && (r.gateway.Some? ==> CanonicalizeIP(r.gateway.value).Some?)
    && OptionalInBlock(r, r.rangeStart)
    && OptionalInBlock(r, r.rangeEnd)
    && (r.rangeEnd.Some? ==>
          (if r.rangeStart.Some? then Position(r.rangeStart)
           else if ReadableDefault(r) then Value(Network(r)) + 1
           else Value(Network(r))) <= Position(r.rangeEnd))
  }

  /** An IPv4 range that starts at the broadcast address and leaves its end open. */
  ghost predicate StartsAtBroadcast(r: Range)
    requires GoodSubnet(r)
  {
    && |Network(r)| == 4
    && r.rangeEnd.None?
    && r.rangeStart.Some?
    && Position(r.rangeStart) == Value(Network(r)) + Size(r) - 1
  }

  /** A range below a leading zero byte that ends at its network address and leaves its start open. */
  ghost predicate EndsAtNetwork(r: Range)
    requires GoodSubnet(r)
  {
    && r.rangeStart.None?
    && r.rangeEnd.Some?
    && !ReadableDefault(r)
    && Position(r.rangeEnd) == Value(Network(r))
  }

  lemma CheckSubnetExact(r: Range)
    ensures CheckSubnet(r).1.None? <==> GoodSubnet(r)
    ensures CheckSubnet(r).1.None? ==> CheckSubnet(r).0 == r.(subnet := Network(r))
  {
    hide *;
    CheckSubnetSteps(r);
    CanonicalizeIdempotent(r.subnet);
    if CanonicalizeIP(r.subnet).Some? && SimpleMaskLength(r.mask).Some? && |r.mask| == |Network(r)| {
      var s, ones := Network(r), PrefixLength(r);
      MaskLengthExact(r.mask, ones);
      assert ones <= 8 * |s| && r.mask == CIDRMask(ones, |s|) by { GoodSubnetParts(r); }
      GoodSubnetParts(r);
      MaskOfSameLength(s, r.mask);
      HostPartClear(s, ones);
    } else {
      GoodSubnetParts(r);
    }
  }

  lemma GoodSubnetParts(r: Range)
    ensures CanonicalizeIP(r.subnet).Some? ==> Network(r) == CanonicalizeIP(r.subnet).value
    ensures SimpleMaskLength(r.mask).Some? ==> PrefixLength(r) == SimpleMaskLength(r.mask).value
    ensures GoodSubnet(r) <==>
      && CanonicalizeIP(r.subnet).Some? && SimpleMaskLength(r.mask).Some?
      && |r.mask| == |Network(r)| && PrefixLength(r) + 2 <= 8 * |r.mask|
      && Canonical(Network(r)) && r.mask == CIDRMask(PrefixLength(r), |Network(r)|)
      && Value(Network(r)) % Pow2(8 * |Network(r)| - PrefixLength(r)) == 0
  {
    hide Value;
    hide Pow2;
    hide CIDRMask;
    hide SimpleMaskLength;
    hide CanonicalizeIP;
  }

  lemma CheckSubnetSteps(r: Range)
    ensures CheckSubnet(r).1.None? <==>
      && CanonicalizeIP(r.subnet).Some? && SimpleMaskLength(r.mask).Some?
      && |r.mask| == |CanonicalizeIP(r.subnet).value|
      && SimpleMaskLength(r.mask).value + 2 <= 8 * |r.mask|
      && EqualOption(CanonicalizeIP(r.subnet).value, Mask(CanonicalizeIP(r.subnet).value, r.mask))
    ensures CheckSubnet(r).1.None? ==> CheckSubnet(r).0 == r.(subnet := Network(r))
  {
    hide CanonicalizeIP;
    hide SimpleMaskLength;
    hide Mask;
    hide EqualOption;
  }

  lemma MaskOfSameLength(s: IP, m: seq<Byte>)
    requires Canonical(s) && |s| == |m|
    ensures EqualOption(s, Mask(s, m)) <==> s == AndBytes(s, m)
  {
    hide AndBytes;
    CanonicalizeIdempotent(s);
  }

  lemma HostPartClear(s: IP, ones: nat)
    requires ones <= 8 * |s|
    ensures s == AndBytes(s, CIDRMask(ones, |s|)) <==> Value(s) % Pow2(8 * |s| - ones) == 0
  {
    hide Value;
    hide Pow2;
    hide AndBytes;
    hide CIDRMask;
    MaskedValue(s, ones);
    if Low(Value(s), 8 * |s| - ones) == 0 {
      ValueInjective(s, AndBytes(s, CIDRMask(ones, |s|)));
    }
  }

  /** A block fits into the address space of its family. */
  lemma BlockFits(v: nat, h: nat, k: nat)
    requires k <= h && v < Pow2(h) && v % Pow2(k) == 0
    ensures v + Pow2(k) <= Pow2(h)
  {
    hide Pow2;
    var p, m := Pow2(k), Pow2(h - k);
    Pow2Add(h - k, k);
    var q := v / p;
    assert v == q * p;
    Gap(q, m, p);
    if q >= m {
      Gap(m, q, p);
      assert false;
    }
  }

  /** The address after the network address, and its family. */
  lemma FirstHost(s: IP, ones: nat)
    requires Canonical(s) && ones + 2 <= 8 * |s| && Value(s) % Pow2(8 * |s| - ones) == 0
    ensures 4 <= Pow2(8 * |s| - ones) && Value(s) + Pow2(8 * |s| - ones) <= Pow2(8 * |s|)
    ensures |NextIP(s)| == |s| <==> s[0] != 0
    ensures Value(NextIP(s)) == Value(s) + 1
    ensures s[0] != 0 ==> InBlock(s, ones, NextIP(s))
  {
    hide *;
    CanonicalizeIdempotent(s);
    var k := 8 * |s| - ones;
    Pow2Monotone(2, k);
    Pow2Small();
    ValueBound(s);
    BlockFits(Value(s), 8 * |s|, k);
    NextIPFamily(s);
    NextIPAgreesWithInc(s);
    FirstByte(s);
    InBlockParts(s, ones, NextIP(s));
    if Value(s) + 1 == Pow2(8 * (|s| - 1)) {
      OddNeighbour(Value(s), 8 * (|s| - 1), k);
    }
  }

  lemma Pow2Small()
    ensures Pow2(2) == 4 && Pow2(1) == 2 && Pow2(0) == 1
  {
  }

  lemma MultipleOfFour(v: nat, k: nat)
    requires k >= 2 && v % Pow2(k) == 0
    ensures v % 4 == 0 && Pow2(k) % 4 == 0
  {
    hide Pow2;
    Pow2Add(2, k - 2);
    Pow2Small();
    var q, p := v / Pow2(k), Pow2(k - 2);
    assert v == q * (4 * p);
    assert q * (4 * p) == 4 * (q * p);
  }

  /** A multiple of four is not one less than a power of two from 4 on. */
  lemma OddNeighbour(v: nat, h: nat, k: nat)
    requires h >= 2 && k >= 2 && v % Pow2(k) == 0
    ensures v + 1 != Pow2(h)
  {
    hide Pow2;
    MultipleOfFour(v, k);
    Pow2Add(2, h - 2);
    Pow2Small();
  }

  /** The default end, without byte underflow. */
  lemma LastIPValue(s: IP, ones: nat)
    requires Canonical(s) && ones + 2 <= 8 * |s| && Value(s) % Pow2(8 * |s| - ones) == 0
    ensures var end := LastIP(s, CIDRMask(ones, |s|));
      && |end| == |s|
      && Value(end) == Value(s) + Pow2(8 * |s| - ones) - (if |s| == 4 then 2 else 1)
  {
    hide *;
    var mask := CIDRMask(ones, |s|);
    var all := OrNotBytes(s, mask);
    BroadcastValue(s, ones);
    LowIsMod(Value(s), 8 * |s| - ones);
    LastIPUnfold(s, mask);
    CanonicalizeIdempotent(s);
    if |s| == 4 {
      BroadcastIsOdd(Value(s), 8 * |s| - ones);
      DecrementLast(all);
    }
  }

  lemma LowIsMod(v: nat, k: nat)
    ensures Low(v, k) == v % Pow2(k)
  {
  }

  lemma LastIPUnfold(s: IP, mask: seq<Byte>)
    requires Canonical(s) && |s| == |mask|
    ensures LastIP(s, mask)
         == if |s| == 4 then OrNotBytes(s, mask)[3 := Decrement(OrNotBytes(s, mask)[3])] else OrNotBytes(s, mask)
  {
    hide OrNotBytes;
  }

  lemma BroadcastIsOdd(v: nat, k: nat)
    requires k >= 2 && v % Pow2(k) == 0
    ensures (v + Pow2(k) - 1) % 4 == 3
  {
    hide Pow2;
    MultipleOfFour(v, k);
  }

  lemma DecrementLast(a: seq<Byte>)
    requires |a| == 4 && Value(a) % 4 == 3
    ensures Value(a[3 := Decrement(a[3])]) == Value(a) - 1
  {
    var b := a[3 := Decrement(a[3])];
    assert b[..3] == a[..3];
    assert Value(a) == Value(a[..3]) * 256 + a[3];
    assert a[3] % 4 == 3;
  }

  /** Addresses of a block whose network has a non-zero first byte have one too. */
  lemma BlockNonZero(s: IP, ones: nat, a: IP)
    requires Canonical(s) && ones <= 8 * |s| && s[0] != 0
    requires |a| == |s| && Value(s) <= Value(a)
    ensures a[0] != 0 && Canonical(a)
  {
    hide *;
    CanonicalizeIdempotent(s);
    FirstByte(s);
    FirstByte(a);
    NonZeroCanonical(a);
  }

  /** The number Cmp reads in the successor of a network. */
  lemma DefaultNumber(s: IP)
    requires Canonical(s)
    ensures IpToInt(NextIP(s)) == if CanonicalizeIP(NextIP(s)).Some? then Value(s) + 1 else 0
    ensures CanonicalizeIP(NextIP(s)).Some? ==> CanonicalizeIP(NextIP(s)) == Some(NextIP(s))
    ensures CanonicalizeIP(NextIP(s)).Some? <==> |NextIP(s)| == 4 || |NextIP(s)| == 16
  {
    hide Pow2;
    hide Minimal;
    CanonicalizeIdempotent(NextIP(s));
    IpToIntValue(s);
    MinimalValue(Value(s) + 1);
    if |NextIP(s)| == 4 || |NextIP(s)| == 16 {
      NonZeroCanonical(NextIP(s));
      IpToIntValue(NextIP(s));
    }
  }

  /** The stages after the subnet check, once the subnet is known to be good. */
  lemma StartStage(r: Range)
    requires GoodSubnet(r) && r.subnet == Network(r)
    ensures FillStart(r).1.None? <==>
      && OptionalInBlock(r, r.rangeStart)
      && (r.rangeStart.Some? && r.rangeEnd.Some? ==> Position(r.rangeStart) <= IpToInt(r.rangeEnd.value))
    ensures FillStart(r).1.None? ==> FillStart(r).0 == r.(rangeStart := StoredStart(r))
  {
    hide Value;
    hide Pow2;
    hide CIDRMask;
    hide SimpleMaskLength;
    hide NetContains;
    hide To4;
    hide To16;
    hide NextIP;
    GoodSubnetParts(r);
    if r.rangeStart.Some? && CanonicalizeIP(r.rangeStart.value).Some? {
      var a := CanonicalizeIP(r.rangeStart.value).value;
      CanonicalizeIdempotent(r.rangeStart.value);
      NetworkContains(r.subnet, r.mask, PrefixLength(r), a);
      IpToIntValue(a);
    }
  }

  /** The start and the end Canonicalize stores. */
  function StoredStart(r: Range): Option<IP> {
    if r.rangeStart.Some? then CanonicalizeIP(r.rangeStart.value) else Some(NextIP(Network(r)))
  }

  function StoredEnd(r: Range): Option<IP>
    requires |Network(r)| == |r.mask|
  {
    if r.rangeEnd.Some? then CanonicalizeIP(r.rangeEnd.value) else Some(LastIP(Network(r), r.mask))
  }

  lemma EndStage(r: Range, start: IP)
    requires GoodSubnet(r) && r.subnet == Network(r) && r.rangeStart == Some(start)
    ensures FillEnd(r).1.None? <==>
      && OptionalInBlock(r, r.rangeEnd)
      && (r.rangeEnd.Some? ==> IpToInt(start) <= Position(r.rangeEnd))
    ensures FillEnd(r).1.None? ==> FillEnd(r).0 == r.(rangeEnd := StoredEnd(r))
  {
    hide Value;
    hide Pow2;
    hide CIDRMask;
    hide SimpleMaskLength;
    hide NetContains;
    hide To4;
    hide To16;
    hide LastIP;
    GoodSubnetParts(r);
    if r.rangeEnd.Some? && CanonicalizeIP(r.rangeEnd.value).Some? {
      var a := CanonicalizeIP(r.rangeEnd.value).value;
      CanonicalizeIdempotent(r.rangeEnd.value);
      NetworkContains(r.subnet, r.mask, PrefixLength(r), a);
      IpToIntValue(a);
    }
  }

  /** Canonicalize accepts exactly the acceptable ranges, in either family. */
  lemma CanonicalizeAccepts(r: Range)
    ensures Canonicalized(r).1.None? <==> Acceptable(r)
    ensures Acceptable(r) ==> Produces(r, Canonicalized(r).0)
  {
    hide FillStart;
    hide FillEnd;
    hide CheckSubnet;
    hide IsNetwork;
    hide CanonicalizeIP;
    hide SimpleMaskLength;
    hide InBlock;
    hide Value;
    hide NextIP;
    hide LastIP;
    hide BlockSize;
    hide Produces;
    CheckSubnetExact(r);
    if GoodSubnet(r) {
      var r1 := r.(subnet := Network(r));
      SubnetIdempotent(r);
      var (r2, e2) := FillGateway(r1);
      if e2.None? {
        StartStage(r2);
        GivenEndPosition(r);
        if FillStart(r2).1.None? {
          var start := StoredStart(r).value;
          EndStage(FillStart(r2).0, start);
          if r.rangeEnd.Some? && OptionalInBlock(r, r.rangeEnd) {
            LowestEnd(r, start);
          }
          if FillEnd(FillStart(r2).0).1.None? {
            StoredMeans(r, Canonicalized(r).0);
          }
        }
      }
    }
  }

  /** The error Canonicalize is to report: the first complaint, in the order of its checks. */
  ghost function Complaint(r: Range): Option<RangeError> {
    if CanonicalizeIP(r.subnet).None? then Some(BadAddress)
    else if SimpleMaskLength(r.mask).None? || PrefixLength(r) + 2 > 8 * |r.mask| then Some(TooSmall)
    else if |r.mask| != |Network(r)| then Some(VersionMismatch)
    else if Value(Network(r)) % Pow2(8 * |r.mask| - PrefixLength(r)) != 0 then Some(HostBitsSet)
    else AddressComplaint(r)
  }

  /** The part about the gateway and the ends; an end before the given start is a complaint about the start. */
  ghost function AddressComplaint(r: Range): Option<RangeError> {
    if Unreadable(r.gateway) || Unreadable(r.rangeStart) then Some(BadAddress)
    else if OutsideSubnet(r, r.rangeStart)
      || (r.rangeStart.Some? && r.rangeEnd.Some? && Position(r.rangeStart) > Position(r.rangeEnd))
    then Some(StartNotInNetwork)
    else if Unreadable(r.rangeEnd) then Some(BadAddress)
    else if OutsideSubnet(r, r.rangeEnd)
      || (r.rangeEnd.Some? && r.rangeStart.None? && ReadableDefault(r) && Position(r.rangeEnd) <= Value(Network(r)))
    then Some(EndNotInNetwork)
    else None
  }

  predicate Unreadable(a: Option<IP>) {
    a.Some? && CanonicalizeIP(a.value).None?
  }

  ghost predicate OutsideSubnet(r: Range, a: Option<IP>) {
    GoodSubnet(r) && !OptionalInBlock(r, a)
  }

  /** Canonicalize reports the first complaint in the order of its checks, and no other error. */
  lemma CanonicalizeRejects(r: Range)
    ensures Canonicalized(r).1 == Complaint(r)
  {
    hide FillStart;
    hide FillEnd;
    hide CheckSubnet;
    hide IsNetwork;
    hide CanonicalizeIP;
    hide SimpleMaskLength;
    hide InBlock;
    hide Value;
    hide Pow2;
    hide NextIP;
    hide LastIP;
    hide BlockSize;
    hide Complaint;
    hide IpToInt;
    SubnetComplaint(r);
    CheckSubnetExact(r);
    if GoodSubnet(r) {
      var r1 := r.(subnet := Network(r));
      SubnetIdempotent(r);
      var (r2, e2) := FillGateway(r1);
      if e2.None? {
        StartStage(r2);
        StageErrors(r2);
        GivenEndPosition(r);
        UnreadablePosition(r.rangeEnd);
        if FillStart(r2).1.None? {
          var r3 := FillStart(r2).0;
          EndStage(r3, StoredStart(r).value);
          StageErrors(r3);
          if r.rangeEnd.Some? && OptionalInBlock(r, r.rangeEnd) {
            LowestEnd(r, StoredStart(r).value);
            InBlockParts(Network(r), PrefixLength(r), CanonicalizeIP(r.rangeEnd.value).value);
          }
        }
      }
    }
  }

  /**
   * What Canonicalize leaves in the range, rejected or not: each field is in its stored form from the
   * stage on that reads it, and as configured before.
   */
  lemma CanonicalizeLeaves(r: Range)
    ensures var (c, e) := Canonicalized(r);
      var reached := GoodSubnet(r) && !Unreadable(r.gateway);
      && c.mask == r.mask
      && c.subnet == CanonicalizeIP(r.subnet).GetOr(r.subnet)
      && (!reached ==> c.gateway == r.gateway)
      && (reached && r.gateway.None? ==> c.gateway == Some(NextIP(Network(r))))
      && (reached && r.gateway.Some? ==> c.gateway == CanonicalizeIP(r.gateway.value))
      && c.rangeStart == (if reached && !Unreadable(r.rangeStart) then StoredStart(r) else r.rangeStart)
      && c.rangeEnd == (if reached && (e.None? || e == Some(EndNotInNetwork)) then StoredEnd(r) else r.rangeEnd)
  {
    hide CheckSubnet;
    hide Contains;
    hide CanonicalizeIP;
    hide SimpleMaskLength;
    hide IsNetwork;
    hide NextIP;
    hide LastIP;
    SubnetLeaves(r);
    CheckSubnetExact(r);
  }

  lemma SubnetLeaves(r: Range)
    ensures CheckSubnet(r).0 == r.(subnet := CanonicalizeIP(r.subnet).GetOr(r.subnet))
  {
    hide CanonicalizeIP;
    hide MaskSize;
    hide EqualOption;
    hide Mask;
  }

  lemma UnreadablePosition(a: Option<IP>)
    ensures Unreadable(a) ==> Position(a) == 0
  {
  }

  lemma StageErrors(r: Range)
    requires |r.subnet| == |r.mask|
    ensures FillStart(r).1.Some? ==>
      FillStart(r).1 == Some(if Unreadable(r.rangeStart) then BadAddress else StartNotInNetwork)
    ensures FillEnd(r).1.Some? ==>
      FillEnd(r).1 == Some(if Unreadable(r.rangeEnd) then BadAddress else EndNotInNetwork)
  {
    hide Contains;
    hide CanonicalizeIP;
    hide LastIP;
    hide NextIP;
  }

  lemma SubnetComplaint(r: Range)
    ensures !GoodSubnet(r) ==> CheckSubnet(r).1 == Complaint(r)
    ensures GoodSubnet(r) ==> Complaint(r) == AddressComplaint(r)
  {
    hide *;
    CheckSubnetExact(r);
    SubnetErrors(r);
    GoodSubnetParts(r);
    ComplaintStages(r);
    CanonicalizeIdempotent(r.subnet);
    if CanonicalizeIP(r.subnet).Some? && SimpleMaskLength(r.mask).Some? && |r.mask| == |Network(r)| {
      MaskLengthExact(r.mask, PrefixLength(r));
      MaskOfSameLength(Network(r), r.mask);
      HostPartClear(Network(r), PrefixLength(r));
    }
  }

  lemma SubnetErrors(r: Range)
    ensures CanonicalizeIP(r.subnet).None? ==> CheckSubnet(r).1 == Some(BadAddress)
    ensures CanonicalizeIP(r.subnet).Some? ==>
      CheckSubnet(r).1 ==
        if SimpleMaskLength(r.mask).None? || SimpleMaskLength(r.mask).value + 2 > 8 * |r.mask| then Some(TooSmall)
        else if |r.mask| != |CanonicalizeIP(r.subnet).value| then Some(VersionMismatch)
        else if !EqualOption(CanonicalizeIP(r.subnet).value, Mask(CanonicalizeIP(r.subnet).value, r.mask))
        then Some(HostBitsSet)
        else None
  {
    hide CanonicalizeIP;
    hide SimpleMaskLength;
    hide Mask;
    hide EqualOption;
  }

  lemma ComplaintStages(r: Range)
    ensures CanonicalizeIP(r.subnet).None? ==> Complaint(r) == Some(BadAddress)
    ensures CanonicalizeIP(r.subnet).Some? ==>
      Complaint(r) ==
        if SimpleMaskLength(r.mask).None? || PrefixLength(r) + 2 > 8 * |r.mask| then Some(TooSmall)
        else if |r.mask| != |Network(r)| then Some(VersionMismatch)
        else if Value(Network(r)) % Pow2(8 * |r.mask| - PrefixLength(r)) != 0 then Some(HostBitsSet)
        else AddressComplaint(r)
  {
    hide CanonicalizeIP;
    hide SimpleMaskLength;
    hide PrefixLength;
    hide Network;
    hide AddressComplaint;
    hide Value;
    hide Pow2;
  }

  /** What Cmp asks of a given end, in terms of positions. */
  lemma LowestEnd(r: Range, start: IP)
    requires GoodSubnet(r) && StoredStart(r) == Some(start)
    requires r.rangeEnd.Some? && OptionalInBlock(r, r.rangeStart) && OptionalInBlock(r, r.rangeEnd)
    ensures IpToInt(start) <= Position(r.rangeEnd) <==>
            (if r.rangeStart.Some? then Position(r.rangeStart)
             else if ReadableDefault(r) then Value(Network(r)) + 1
             else Value(Network(r))) <= Position(r.rangeEnd)
  {
    hide Value;
    hide NextIP;
    hide CanonicalizeIP;
    hide IpToInt;
    hide Pow2;
    hide IsNetwork;
    SubnetIdempotent(r);
    DefaultNumber(Network(r));
    if r.rangeStart.Some? {
      IpToIntValue(start);
    }
  }

  lemma FirstHostOf(r: Range)
    requires GoodSubnet(r)
    ensures Value(NextIP(Network(r))) == Value(Network(r)) + 1
  {
    hide *;
    GoodSubnetParts(r);
    FirstHost(Network(r), PrefixLength(r));
  }

  lemma SizeOf(r: Range)
    requires GoodSubnet(r)
    ensures Size(r) >= 4
  {
    hide Pow2;
    GoodSubnetParts(r);
    FirstHost(Network(r), PrefixLength(r));
  }

  /** What the stored ends mean. */
  lemma StoredMeans(r: Range, c: Range)
    requires Acceptable(r) && c.subnet == Network(r) && c.mask == r.mask
    requires c.rangeStart == StoredStart(r) && c.rangeEnd == StoredEnd(r)
    requires c.gateway == Some(if r.gateway.Some? then CanonicalizeIP(r.gateway.value).GetOr([]) else NextIP(c.subnet))
    ensures Produces(r, c)
  {
    hide Value;
    hide Pow2;
    hide CIDRMask;
    hide SimpleMaskLength;
    hide CanonicalizeIP;
    hide NextIP;
    hide LastIP;
    GoodSubnetParts(r);
    SizeOf(r);
    FirstHostOf(r);
    var s, ones := Network(r), PrefixLength(r);
    FirstHost(s, ones);
    LastIPValue(s, ones);
    FamilyLength(s);
    if s[0] != 0 {
      BlockNonZero(s, ones, LastIP(s, r.mask));
    }
  }

  lemma FamilyLength(s: IP)
    requires Canonical(s)
    ensures |s| == 4 || |s| == 16
  {
    CanonicalizeIdempotent(s);
  }

  lemma SubnetIdempotent(r: Range)
    requires GoodSubnet(r)
    ensures CanonicalizeIP(Network(r)) == Some(Network(r))
  {
    CanonicalizeIdempotent(r.subnet);
  }

  /** The raw end, read as a number, is the canonical end's position. */
  lemma GivenEndPosition(r: Range)
    ensures r.rangeEnd.Some? && CanonicalizeIP(r.rangeEnd.value).Some? ==>
      IpToInt(r.rangeEnd.value) == Position(r.rangeEnd)
    ensures r.rangeEnd.Some? && CanonicalizeIP(r.rangeEnd.value).None? ==> IpToInt(r.rangeEnd.value) == 0
  {
  }

  /**
   * The canonical form: canonical ends or the defaults, which lie in the subnet if no leading zero
   * byte is in the way, and in order except in exactly two cases.
   */
  ghost predicate Produces(r: Range, c: Range)
    requires GoodSubnet(r)
  {
    var net := Value(Network(r));
    && c.subnet == Network(r) && c.mask == r.mask
    && c.rangeStart.Some? && c.rangeStart == StoredStart(r)
    && c.rangeEnd.Some? && c.rangeEnd == StoredEnd(r)
    && (Network(r)[0] != 0 ==> WellFormed(c, PrefixLength(r)))
    && Lo(c) == (if r.rangeStart.Some? then Position(r.rangeStart) else net + 1)
    && Hi(c) == (if r.rangeEnd.Some? then Position(r.rangeEnd)
                 else net + Size(r) - (if |c.subnet| == 4 then 2 else 1))
    && c.gateway == Some(if r.gateway.Some? then CanonicalizeIP(r.gateway.value).GetOr([]) else NextIP(c.subnet))
    && (r.gateway.None? ==> Value(c.gateway.value) == net + 1)
    && (Lo(c) <= Hi(c) <==> !StartsAtBroadcast(r) && !EndsAtNetwork(r))
  }

  /**
   * Whatever else is configured, once the start is accepted or filled in it lies in the subnet
   * exactly when it was given or the network's first byte is non-zero.
   */
  lemma StartInSubnetExactly(r: Range)
    requires Canonicalized(r).1.None?
    ensures GoodSubnet(r) && Canonicalized(r).0.rangeStart.Some?
    ensures InBlock(Network(r), PrefixLength(r), Canonicalized(r).0.rangeStart.value)
       <==> r.rangeStart.Some? || Network(r)[0] != 0
  {
    hide Value;
    hide Pow2;
    hide CheckSubnet;
    hide CIDRMask;
    hide SimpleMaskLength;
    hide NetContains;
    hide NextIP;
    hide CanonicalizeIP;
    hide LastIP;
    CheckSubnetExact(r);
    GoodSubnetParts(r);
    FirstHost(Network(r), PrefixLength(r));
    if r.rangeStart.Some? {
      CanonicalizeIdempotent(r.rangeStart.value);
      var start := CanonicalizeIP(r.rangeStart.value).value;
      CanonicalizeIdempotent(start);
      CanonicalizeIdempotent(r.subnet);
      NetworkContains(Network(r), r.mask, PrefixLength(r), start);
    }
  }

  /** The default end of an IPv6 subnet that reaches into the IPv4-mapped block. */
  predicate MappedEnd(r: Range) {
    r.rangeEnd.None? && |Network(r)| == |r.mask| == 16 && !Canonical(LastIP(Network(r), r.mask))
  }

  /** An accepted range's end lies in the subnet exactly when it is not a default end in the IPv4-mapped block. */
  lemma EndInSubnetExactly(r: Range)
    requires Canonicalized(r).1.None?
    ensures GoodSubnet(r) && Canonicalized(r).0.rangeEnd.Some?
    ensures InBlock(Network(r), PrefixLength(r), Canonicalized(r).0.rangeEnd.value) <==> !MappedEnd(r)
    ensures Canonicalized(r).0.subnet == Network(r) && Canonicalized(r).0.mask == r.mask
  {
    hide Value;
    hide Pow2;
    hide CheckSubnet;
    hide CIDRMask;
    hide SimpleMaskLength;
    hide NetContains;
    hide NextIP;
    hide CanonicalizeIP;
    hide LastIP;
    CheckSubnetExact(r);
    GoodSubnetParts(r);
    FirstHost(Network(r), PrefixLength(r));
    CanonicalizeIdempotent(r.subnet);
    if r.rangeEnd.Some? {
      CanonicalizeIdempotent(r.rangeEnd.value);
      var end := CanonicalizeIP(r.rangeEnd.value).value;
      CanonicalizeIdempotent(end);
      NetworkContains(Network(r), r.mask, PrefixLength(r), end);
    } else {
      LastIPValue(Network(r), PrefixLength(r));
      CanonicalizeIdempotent(LastIP(Network(r), r.mask));
      CanonicalizeIdempotent(Network(r));
    }
  }

  /** The length of the start Canonicalize stores, read off the input. */
  function StartLength(r: Range): nat {
    if r.rangeStart.Some? then |Network(r)| else |Minimal(Value(Network(r)) + 1)|
  }

  lemma StartLengthExact(r: Range)
    requires Canonicalized(r).1.None?
    ensures Canonicalized(r).0.rangeStart.Some? && |Canonicalized(r).0.rangeStart.value| == StartLength(r)
  {
    hide Value;
    hide Pow2;
    hide CheckSubnet;
    hide CIDRMask;
    hide SimpleMaskLength;
    hide NetContains;
    hide CanonicalizeIP;
    hide LastIP;
    hide Minimal;
    StartInSubnetExactly(r);
    CheckSubnetExact(r);
    CanonicalizeIdempotent(r.subnet);
    if r.rangeStart.None? {
      SubnetIdempotent(r);
      IpToIntValue(Network(r));
    }
  }

  /** Without a leading zero byte neither corner arises. */
  lemma NonZeroNetworkIsPlain(r: Range)
    requires GoodSubnet(r) && Network(r)[0] != 0
    ensures StartLength(r) == |Network(r)| && !MappedEnd(r) && ReadableDefault(r) && !EndsAtNetwork(r)
  {
    hide Value;
    hide Pow2;
    hide CIDRMask;
    hide SimpleMaskLength;
    hide CanonicalizeIP;
    hide LastIP;
    hide Minimal;
    GoodSubnetParts(r);
    var s := Network(r);
    FirstHost(s, PrefixLength(r));
    IpToIntValue(s);
    LastIPValue(s, PrefixLength(r));
    BlockNonZero(s, PrefixLength(r), LastIP(s, r.mask));
    DefaultNumber(s);
    FamilyLength(s);
  }

  /** The number Cmp reads in the stored end, off the input. */
  function EndNumber(r: Range): nat {
    if r.rangeEnd.Some? then Position(r.rangeEnd)
    else if |Network(r)| == |r.mask| then IpToInt(LastIP(Network(r), r.mask))
    else 0
  }

  /** A stored start of the network's length is an address of the subnet; no range of the family contains any other. */
  lemma StartKind(r: Range)
    requires Canonicalized(r).1.None?
    ensures GoodSubnet(r) && Canonicalized(r).0.rangeStart.Some?
    ensures var start := Canonicalized(r).0.rangeStart.value;
      && |start| == StartLength(r)
      && (StartLength(r) == |Network(r)| ==> InBlock(Network(r), PrefixLength(r), start))
      && (StartLength(r) != |Network(r)| && CanonicalizeIP(start).Some? ==>
            |CanonicalizeIP(start).value| != |Network(r)|)
  {
    hide Value;
    hide Pow2;
    hide CIDRMask;
    hide SimpleMaskLength;
    hide CanonicalizeIP;
    hide Canonicalized;
    hide Minimal;
    hide InBlock;
    StartInSubnetExactly(r);
    StartLengthExact(r);
    GoodSubnetParts(r);
    var s := Network(r);
    FirstHost(s, PrefixLength(r));
    if r.rangeStart.None? {
      DefaultNumber(s);
      ShortDefault(s);
      CanonicalizeAccepts(r);
    }
  }

  /** A successor that is no longer in range of its family's length is shorter. */
  lemma ShortDefault(s: IP)
    requires Canonical(s) && Value(NextIP(s)) == Value(s) + 1 < Pow2(8 * |s|)
    ensures |NextIP(s)| <= |s|
  {
    hide Pow2;
    hide Value;
    hide Minimal;
    MinimalValue(IpToInt(s) + 1);
    if |NextIP(s)| > |s| {
      FirstByte(NextIP(s));
      Pow2Monotone(8 * |s|, 8 * (|NextIP(s)| - 1));
    }
  }

  /** A stored end off the IPv4-mapped block is an address of the subnet; no range of the family contains any other. */
  lemma EndKind(r: Range)
    requires Canonicalized(r).1.None?
    ensures GoodSubnet(r) && Canonicalized(r).0.rangeEnd.Some?
    ensures var end := Canonicalized(r).0.rangeEnd.value;
      && IpToInt(end) == EndNumber(r) < Value(Network(r)) + Size(r)
      && (!MappedEnd(r) ==> InBlock(Network(r), PrefixLength(r), end) && Value(end) == EndNumber(r))
      && (MappedEnd(r) && CanonicalizeIP(end).Some? ==> |CanonicalizeIP(end).value| != |Network(r)|)
  {
    hide Value;
    hide Pow2;
    hide CIDRMask;
    hide SimpleMaskLength;
    hide CanonicalizeIP;
    hide Canonicalized;
    hide LastIP;
    EndInSubnetExactly(r);
    CanonicalizeAccepts(r);
    GoodSubnetParts(r);
    var end := Canonicalized(r).0.rangeEnd.value;
    if MappedEnd(r) {
      LastIPValue(Network(r), PrefixLength(r));
      MappedNumber(end);
    } else {
      IpToIntValue(end);
    }
  }

  /** Cmp reads the last four bytes of an IPv4-mapped address. */
  lemma MappedNumber(a: IP)
    requires |a| == 16 && !Canonical(a)
    ensures CanonicalizeIP(a) == Some(a[12..]) && IpToInt(a) == Value(a[12..]) <= Value(a)
  {
    hide Pow2;
    hide Value;
    CanonicalizeIdempotent(a);
    ValueTail(a, 12);
  }

  /** A byte string denotes at least what its tail does. */
  lemma {:induction false} ValueTail(a: seq<Byte>, k: nat)
    requires k <= |a|
    ensures Value(a[k..]) <= Value(a)
  {
    hide Value;
    hide Pow2;
    if k == 0 {
      assert a[0..] == a;
    } else {
      ValueTail(a[1..], k - 1);
      assert a[1..][k - 1..] == a[k..];
      ValueFront(a[0], a[1..]);
      assert a == [a[0]] + a[1..];
      Gap(0, a[0], Pow2(8 * |a[1..]|));
    }
  }
}
