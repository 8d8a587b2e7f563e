/** Address ranges of the host-local plugin: range.go. */
module Ranges {
  import opened Wrappers
  import opened Bytes
  import opened Cidr
  import opened Masks

  /** A configured range; the subnet is an address and a mask, nil addresses are None. */
  datatype Range = Range(rangeStart: Option<IP>, rangeEnd: Option<IP>, subnet: IP, mask: seq<Byte>, gateway: Option<IP>)

  datatype RangeError =
    | BadAddress
    | TooSmall
    | VersionMismatch
    | HostBitsSet
    | StartNotInNetwork
    | EndNotInNetwork

  predicate Contains(r: Range, addr: IP) {
    match CanonicalizeIP(addr)
    case None => false
    case Some(a) =>
      && |a| == |r.subnet|
      && NetContains(r.subnet, r.mask, a)
      && (r.rangeStart.Some? ==> Cmp(a, r.rangeStart.value) >= 0)
      && (r.rangeEnd.Some? ==> Cmp(a, r.rangeEnd.value) <= 0)
  }

  predicate Overlaps(r: Range, r1: Range) {
    && |r.rangeStart.GetOr([])| == |r1.rangeStart.GetOr([])|
    && (|| Contains(r, r1.rangeStart.GetOr([]))
        || Contains(r, r1.rangeEnd.GetOr([]))
        || Contains(r1, r.rangeStart.GetOr([]))
        || Contains(r1, r.rangeEnd.GetOr([])))
  }

  /** The last address of a subnet, excluding the broadcast address for IPv4. */
  function LastIP(subnet: IP, mask: seq<Byte>): IP
    requires |subnet| == |mask|
  {
    var end := OrNotBytes(subnet, mask);
    if To4(subnet).Some? then end[3 := Decrement(end[3])] else end
  }

  /** A byte minus one, wrapping around. */
  function Decrement(b: Byte): Byte {
    if b == 0 then 255 else b - 1
  }

  method ComputeLastIP(subnet: IP, mask: seq<Byte>) returns (end: IP)
    requires |subnet| == |mask|
    ensures end == LastIP(subnet, mask)
  {
    hide Or;
    hide Not;
    hide To4;
    hide Decrement;
    To4Length(subnet);
    end := [];
    var i := 0;
    while i < |subnet|
      invariant 0 <= i <= |subnet| && |end| == i
      invariant OrNotBytes(subnet, mask) == end + OrNotBytes(subnet[i..], mask[i..])
    {
      end := end + [Or(subnet[i], Not(mask[i]))];
      assert subnet[i..][1..] == subnet[i + 1..] && mask[i..][1..] == mask[i + 1..];
      i := i + 1;
    }
    if To4(subnet).Some? {
      end := end[3 := Decrement(end[3])];
    }
  }

  lemma To4Length(ip: IP)
    ensures To4(ip).Some? ==> |ip| >= 4
  {
  }

  // ---- Canonicalize ----

  /** The subnet checks: canonical address, at least four addresses, host part clear. */
  function CheckSubnet(r: Range): (Range, Option<RangeError>) {
    match CanonicalizeIP(r.subnet)
    case None => (r, Some(BadAddress))
    case Some(s) =>
      var r1 := r.(subnet := s);
      var (ones, bits) := MaskSize(r.mask);
      if ones > bits - 2 then (r1, Some(TooSmall))
      else if |s| != |r.mask| then (r1, Some(VersionMismatch))
      else if !EqualOption(s, Mask(s, r.mask)) then (r1, Some(HostBitsSet))
      else (r1, None)
  }

  function FillGateway(r: Range): (Range, Option<RangeError>) {
    match r.gateway
    case None => (r.(gateway := Some(NextIP(r.subnet))), None)
    case Some(g) =>
      if CanonicalizeIP(g).Some? then (r.(gateway := CanonicalizeIP(g)), None) else (r, Some(BadAddress))
  }

  function FillStart(r: Range): (Range, Option<RangeError>) {
    match r.rangeStart
    case None => (r.(rangeStart := Some(NextIP(r.subnet))), None)
    case Some(s) =>
      if CanonicalizeIP(s).None? then (r, Some(BadAddress))
      else
        var r1 := r.(rangeStart := CanonicalizeIP(s));
        (r1, if Contains(r1, r1.rangeStart.value) then None else Some(StartNotInNetwork))
  }

  function FillEnd(r: Range): (Range, Option<RangeError>)
    requires |r.subnet| == |r.mask|
  {
    match r.rangeEnd
    case None => (r.(rangeEnd := Some(LastIP(r.subnet, r.mask))), None)
    case Some(e) =>
      if CanonicalizeIP(e).None? then (r, Some(BadAddress))
      else
        var r1 := r.(rangeEnd := CanonicalizeIP(e));
        (r1, if Contains(r1, r1.rangeEnd.value) then None else Some(EndNotInNetwork))
  }

  /** What Canonicalize leaves in the range, and its error. */
  function Canonicalized(r: Range): (Range, Option<RangeError>) {
    var (r1, e1) := CheckSubnet(r);
    if e1.Some? then (r1, e1) else
      var (r2, e2) := FillGateway(r1);
      if e2.Some? then (r2, e2) else
        var (r3, e3) := FillStart(r2);
        if e3.Some? then (r3, e3) else FillEnd(r3)
  }

  /** Range.Canonicalize on the k-th element of a range set, in place. */
  method Canonicalize(s: array<Range>, k: nat) returns (err: Option<RangeError>)
    requires k < s.Length
    modifies s
    ensures (s[k], err) == Canonicalized(old(s[k]))
    ensures forall i :: 0 <= i < s.Length && i != k ==> s[i] == old(s[i])
  {
    hide Contains;
    hide MaskSize;
    hide LastIP;
    hide Mask;
    hide To4;
    hide To16;
    hide NextIP;
    var subnet := CanonicalizeIP(s[k].subnet);
    if subnet.None? {
      return Some(BadAddress);
    }
    s[k] := s[k].(subnet := subnet.value);

    var (ones, bits) := MaskSize(s[k].mask);
    if ones > bits - 2 {
      return Some(TooSmall);
    }
    if |s[k].subnet| != |s[k].mask| {
      return Some(VersionMismatch);
    }
    if !EqualOption(s[k].subnet, Mask(s[k].subnet, s[k].mask)) {
      return Some(HostBitsSet);
    }

    if s[k].gateway.None? {
      s[k] := s[k].(gateway := Some(NextIP(s[k].subnet)));
    } else {
      var gateway := CanonicalizeIP(s[k].gateway.value);
      if gateway.None? {
        return Some(BadAddress);
      }
      s[k] := s[k].(gateway := gateway);
    }

    if s[k].rangeStart.Some? {
      var start := CanonicalizeIP(s[k].rangeStart.value);
      if start.None? {
        return Some(BadAddress);
      }
      s[k] := s[k].(rangeStart := start);
      if !Contains(s[k], start.value) {
        return Some(StartNotInNetwork);
      }
    } else {
      s[k] := s[k].(rangeStart := Some(NextIP(s[k].subnet)));
    }

    if s[k].rangeEnd.Some? {
      var end := CanonicalizeIP(s[k].rangeEnd.value);
      if end.None? {
        return Some(BadAddress);
      }
      s[k] := s[k].(rangeEnd := end);
      if !Contains(s[k], end.value) {
        return Some(EndNotInNetwork);
      }
    } else {
      var last := ComputeLastIP(s[k].subnet, s[k].mask);
      s[k] := s[k].(rangeEnd := Some(last));
    }
    return None;
  }

  // ---- Ranges as intervals of numbers ----

  /** The number of addresses of a block with the given prefix length. */
  function BlockSize(l: nat, ones: nat): nat
    requires ones <= 8 * l
  {
    Pow2(8 * l - ones)
  }

  /** A network of the given prefix length with clear host part. */
  ghost predicate IsNetwork(ip: IP, mask: seq<Byte>, ones: nat) {
    && Canonical(ip)
    && ones <= 8 * |ip|
    && mask == CIDRMask(ones, |ip|)
    && Value(ip) % BlockSize(|ip|, ones) == 0
  }

  ghost predicate InBlock(ip: IP, ones: nat, a: IP)
    requires ones <= 8 * |ip|
  {
    Canonical(a) && |a| == |ip| && Value(ip) <= Value(a) < Value(ip) + BlockSize(|ip|, ones)
  }

  /** A range with both ends in its network. */
  ghost predicate WellFormed(r: Range, ones: nat) {
    && IsNetwork(r.subnet, r.mask, ones)
    && r.rangeStart.Some? && InBlock(r.subnet, ones, r.rangeStart.value)
    && r.rangeEnd.Some? && InBlock(r.subnet, ones, r.rangeEnd.value)
  }

  function Lo(r: Range): nat {
    Value(r.rangeStart.GetOr([]))
  }

  function Hi(r: Range): nat {
    Value(r.rangeEnd.GetOr([]))
  }

  lemma NetworkContains(ip: IP, mask: seq<Byte>, ones: nat, a: IP)
    requires IsNetwork(ip, mask, ones) && Canonical(a)
    ensures |a| == |ip| && NetContains(ip, mask, a) <==> InBlock(ip, ones, a)
  {
    hide *;
    NetworkParts(ip, mask, ones);
    if |a| == |ip| {
      ContainsIsBlockTest(ip, ones, a);
      BlockInterval(Value(ip), Value(a), Pow2(8 * |ip| - ones));
    }
    InBlockParts(ip, ones, a);
  }

  lemma NetworkParts(ip: IP, mask: seq<Byte>, ones: nat)
    requires IsNetwork(ip, mask, ones)
    ensures Canonical(ip) && ones <= 8 * |ip| && mask == CIDRMask(ones, |ip|)
    ensures Value(ip) % Pow2(8 * |ip| - ones) == 0
  {
  }

  lemma InBlockParts(ip: IP, ones: nat, a: IP)
    requires ones <= 8 * |ip|
    ensures InBlock(ip, ones, a) <==>
            Canonical(a) && |a| == |ip| && Value(ip) <= Value(a) < Value(ip) + Pow2(8 * |ip| - ones)
  {
  }

  /** A well-formed range contains exactly the addresses of its family between its ends. */
  lemma ContainsIsInterval(r: Range, ones: nat, addr: IP)
    requires WellFormed(r, ones)
    ensures Contains(r, addr) <==>
            match CanonicalizeIP(addr)
            case None => false
            case Some(a) => |a| == |r.subnet| && Lo(r) <= Value(a) <= Hi(r)
  {
    hide Value;
    hide Pow2;
    hide NetContains;
    hide CIDRMask;
    hide To4;
    hide To16;
    CanonicalizeIdempotent(addr);
    if CanonicalizeIP(addr).Some? {
      var a := CanonicalizeIP(addr).value;
      NetworkContains(r.subnet, r.mask, ones, a);
      IpToIntValue(a);
      IpToIntValue(r.rangeStart.value);
      IpToIntValue(r.rangeEnd.value);
    }
  }

  ghost predicate Share(r: Range, r1: Range) {
    exists a :: Contains(r, a) && Contains(r1, a)
  }

  /** For non-empty well-formed ranges Overlaps finds exactly the pairs with a common address. */
  lemma OverlapsExact(r: Range, ones: nat, r1: Range, ones1: nat)
    requires WellFormed(r, ones) && WellFormed(r1, ones1)
    requires Lo(r) <= Hi(r) && Lo(r1) <= Hi(r1)
    ensures Overlaps(r, r1) <==> Share(r, r1)
    ensures Overlaps(r, r1) <==> Overlaps(r1, r)
    ensures Overlaps(r, r1) <==> |r.subnet| == |r1.subnet| && Lo(r) <= Hi(r1) && Lo(r1) <= Hi(r)
  {
    hide Contains;
    hide Value;
    hide CanonicalizeIP;
    EndpointIn(r, ones, r1, ones1);
    EndpointIn(r1, ones1, r, ones);
    EndpointIn(r, ones, r, ones);
    EndpointIn(r1, ones1, r1, ones1);
    var s, e, s1, e1 := r.rangeStart.value, r.rangeEnd.value, r1.rangeStart.value, r1.rangeEnd.value;
    if Share(r, r1) {
      var a :| Contains(r, a) && Contains(r1, a);
      ContainsIsInterval(r, ones, a);
      ContainsIsInterval(r1, ones1, a);
    }
    if Contains(r, s1) { assert Share(r, r1); }
    if Contains(r, e1) { assert Share(r, r1); }
    if Contains(r1, s) { assert Share(r, r1); }
    if Contains(r1, e) { assert Share(r, r1); }
  }

  lemma EndpointIn(r: Range, ones: nat, r1: Range, ones1: nat)
    requires WellFormed(r, ones) && WellFormed(r1, ones1)
    ensures Contains(r, r1.rangeStart.value) <==> |r.subnet| == |r1.subnet| && Lo(r) <= Lo(r1) <= Hi(r)
    ensures Contains(r, r1.rangeEnd.value) <==> |r.subnet| == |r1.subnet| && Lo(r) <= Hi(r1) <= Hi(r)
  {
    hide Contains;
    hide Value;
    hide CanonicalizeIP;
    ContainsIsInterval(r, ones, r1.rangeStart.value);
    ContainsIsInterval(r, ones, r1.rangeEnd.value);
  }
}
