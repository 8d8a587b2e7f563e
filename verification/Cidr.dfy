/**
 * IP addresses as byte strings: the parts of Go's net.IP the plugins rely on, the
 * address arithmetic of pkg/ip/cidr.go, and the in-place increment of the village-ipam client.
 * A nil address is the empty string where the code only looks at its length, and
 * Option.None where the code tests for nil.
 */
module Cidr {
  import opened Wrappers
  import opened Bytes

  type IP = seq<Byte>

  const V4_IN_V6_PREFIX: IP := [0, 0, 0, 0, 0, 0, 0, 0, 0, 0, 255, 255]

  function To4(ip: IP): Option<IP> {
    if |ip| == 4 then Some(ip)
    else if |ip| == 16 && ip[..12] == V4_IN_V6_PREFIX then Some(ip[12..])
    else None
  }

  function To16(ip: IP): Option<IP> {
    if |ip| == 4 then Some(V4_IN_V6_PREFIX + ip)
    else if |ip| == 16 then Some(ip)
    else None
  }

  /** net.IP.Equal: a 4-byte address equals its 16-byte form. */
  predicate Equal(a: IP, b: IP) {
    if |a| == |b| then a == b
    else if |a| == 4 && |b| == 16 then b == V4_IN_V6_PREFIX + a
    else if |a| == 16 && |b| == 4 then a == V4_IN_V6_PREFIX + b
    else false
  }

  predicate EqualOption(a: IP, b: Option<IP>) {
    Equal(a, b.GetOr([]))
  }

  /** canonicalizeIP: the 4-byte form if there is one, else the 16-byte form. */
  function CanonicalizeIP(ip: IP): Option<IP> {
    if To4(ip).Some? then To4(ip) else To16(ip)
  }

  predicate Canonical(ip: IP) {
    CanonicalizeIP(ip) == Some(ip)
  }

  lemma CanonicalizeIdempotent(ip: IP)
    ensures CanonicalizeIP(ip).Some? ==> Canonical(CanonicalizeIP(ip).value)
    ensures CanonicalizeIP(ip).Some? <==> |ip| == 4 || |ip| == 16
    ensures Canonical(ip) <==> |ip| == 4 || (|ip| == 16 && ip[..12] != V4_IN_V6_PREFIX)
  {
  }

  /** An address without leading zero byte is canonical in either family. */
  lemma NonZeroCanonical(ip: IP)
    requires |ip| == 4 || |ip| == 16
    requires ip[0] != 0
    ensures Canonical(ip)
  {
    if |ip| == 16 {
      assert ip[..12][0] == ip[0];
      assert V4_IN_V6_PREFIX[0] == 0;
    }
  }

  /** The 16-byte form read back from a file canonicalizes to the address written. */
  lemma CanonicalOfTo16(ip: IP)
    requires Canonical(ip)
    ensures To16(ip).Some? && CanonicalizeIP(To16(ip).value) == Some(ip)
  {
    var w := To16(ip).value;
    if |ip| == 4 {
      assert w[..12] == V4_IN_V6_PREFIX && w[12..] == ip;
    }
  }

  function IpToInt(ip: IP): nat {
    match To4(ip)
    case Some(v) => Value(v)
    case None => Value(To16(ip).GetOr([]))
  }

  function IntToIP(i: int): IP {
    Minimal(if i < 0 then -i else i)
  }

  function NextIP(ip: IP): IP {
    IntToIP(IpToInt(ip) + 1)
  }

  function PrevIP(ip: IP): IP {
    IntToIP(IpToInt(ip) - 1)
  }

  function Cmp(a: IP, b: IP): int {
    var aa, bb := IpToInt(a), IpToInt(b);
    if aa < bb then -1 else if aa == bb then 0 else 1
  }

  lemma IpToIntValue(ip: IP)
    requires Canonical(ip)
    ensures IpToInt(ip) == Value(ip)
  {
  }

  /** Within a family Cmp is the lexicographic order of the bytes, and 0 only on equal addresses. */
  lemma CmpIsLexicographic(a: IP, b: IP)
    requires Canonical(a) && Canonical(b) && |a| == |b|
    ensures Cmp(a, b) < 0 <==> LexLess(a, b)
    ensures Cmp(a, b) > 0 <==> LexLess(b, a)
    ensures Cmp(a, b) == 0 <==> a == b
  {
    LexIsNumeric(a, b);
    LexIsNumeric(b, a);
    if Value(a) == Value(b) {
      ValueInjective(a, b);
    }
  }

  /** What the carry loop leaves in the buffer. */
  function Incremented(s: seq<Byte>): (r: seq<Byte>)
    ensures |r| == |s|
  {
    if s == [] then []
    else
      var n := |s| - 1;
      if s[n] == 255 then Incremented(s[..n]) + [0] else s[..n] + [s[n] + 1]
  }

  /** inc of the village-ipam client, in place. */
  method Inc(ip: array<Byte>)
    modifies ip
    ensures ip[..] == Incremented(old(ip[..]))
  {
    ghost var was := ip[..];
    ghost var zeros: seq<Byte> := [];
    var j := ip.Length - 1;
    assert was[..j + 1] == was && was + zeros == was;
    while j >= 0
      invariant -1 <= j < ip.Length && |zeros| == ip.Length - 1 - j
      invariant ip[..] == was[..j + 1] + zeros
      invariant Incremented(was) == Incremented(was[..j + 1]) + zeros
    {
      assert was[..j + 1][..j] == was[..j];
      var b: int := ip[j];
      ip[j] := (b + 1) % 256;
      if ip[j] > 0 {
        assert ip[..] == was[..j] + [was[j] + 1] + zeros;
        return;
      }
      assert ip[..] == was[..j] + ([0] + zeros);
      zeros := [0] + zeros;
      j := j - 1;
    }
    assert was[..0] == [];
  }

  /** The carry loop adds one modulo 256^n, for every length n. */
  lemma {:induction false} IncrementedValue(s: seq<Byte>)
    ensures Value(Incremented(s)) == (Value(s) + 1) % Pow2(8 * |s|)
  {
    if s != [] {
      var n := |s| - 1;
      var p := Pow2(8 * n);
      Pow2Byte(8 * n);
      assert 8 * n + 8 == 8 * |s|;
      ValueBound(s);
      ValueBound(s[..n]);
      IncrementedValue(s[..n]);
      var v := Value(s[..n]);
      if s[n] == 255 {
        assert Incremented(s)[..n] == Incremented(s[..n]);
        assert Value(Incremented(s)) == Value(Incremented(s[..n])) * 256;
        if v + 1 == p {
          assert Value(s) + 1 == 256 * p;
          QuotientUnique(v + 1, p, 1, 0);
          QuotientUnique(256 * p, 256 * p, 1, 0);
        } else {
          QuotientUnique(v + 1, p, 0, v + 1);
          QuotientUnique(Value(s) + 1, 256 * p, 0, Value(s) + 1);
        }
      } else {
        assert Incremented(s)[..n] == s[..n];
        QuotientUnique(Value(s) + 1, 256 * p, 0, Value(s) + 1);
      }
    }
  }

  /** NextIP drops leading zero bytes and grows on overflow; otherwise it is the carry loop. */
  lemma NextIPAgreesWithInc(ip: IP)
    requires Canonical(ip)
    ensures NextIP(ip) == Incremented(ip) <==> Incremented(ip)[0] != 0
    ensures Value(NextIP(ip)) == Value(ip) + 1
  {
    hide Pow2;
    hide Minimal;
    hide Value;
    hide Incremented;
    var k, v, w := |ip|, Value(ip), Incremented(ip);
    var p := Pow2(8 * k);
    MinimalValue(v + 1);
    IncrementedValue(ip);
    ValueBound(ip);
    FirstByte(w);
    if v + 1 < p {
      QuotientUnique(v + 1, p, 0, v + 1);
      MinimalIsFixed(v + 1, k);
      if w[0] != 0 {
        FixedValue(v + 1, k);
        ValueInjective(w, Fixed(v + 1, k));
      }
    } else {
      QuotientUnique(v + 1, p, 1, 0);
    }
  }

  /** The successor keeps its family exactly when it fits and its first byte is non-zero. */
  lemma NextIPFamily(ip: IP)
    requires Canonical(ip)
    ensures |NextIP(ip)| == |ip| <==> Pow2(8 * (|ip| - 1)) <= Value(ip) + 1 < Pow2(8 * |ip|)
    ensures |NextIP(ip)| == |ip| ==> Canonical(NextIP(ip))
  {
    hide Value;
    hide Pow2;
    hide Minimal;
    IpToIntValue(ip);
    CanonicalizeIdempotent(ip);
    MinimalIsFixed(Value(ip) + 1, |ip|);
    MinimalValue(Value(ip) + 1);
    if |NextIP(ip)| == |ip| {
      NonZeroCanonical(NextIP(ip));
    }
  }

  /** PrevIP undoes NextIP exactly on addresses with a non-zero first byte that are not the last. */
  lemma PrevUndoesNext(ip: IP)
    requires Canonical(ip)
    ensures PrevIP(NextIP(ip)) == ip <==> ip[0] != 0 && Value(ip) + 1 < Pow2(8 * |ip|)
  {
    if |NextIP(ip)| != |ip| {
      PrevOfOtherLength(ip);
    } else {
      NextIPFamily(ip);
      NextIPAgreesWithInc(ip);
      PrevOfSameLength(ip);
    }
  }

  lemma PrevOfSameLength(ip: IP)
    requires Canonical(ip) && Canonical(NextIP(ip)) && Value(NextIP(ip)) == Value(ip) + 1
    ensures PrevIP(NextIP(ip)) == ip <==> ip[0] != 0
  {
    var k, v := |ip|, Value(ip);
    IpToIntValue(NextIP(ip));
    assert PrevIP(NextIP(ip)) == Minimal(v);
    MinimalIsFixed(v, k);
    FirstByte(ip);
    ValueBound(ip);
    if ip[0] != 0 {
      FixedValue(v, k);
      ValueInjective(Fixed(v, k), ip);
    }
  }

  lemma PrevOfOtherLength(ip: IP)
    requires Canonical(ip) && |NextIP(ip)| != |ip|
    ensures PrevIP(NextIP(ip)) != ip
    ensures !(ip[0] != 0 && Value(ip) + 1 < Pow2(8 * |ip|))
  {
    hide Pow2;
    hide Minimal;
    hide Value;
    var k, v := |ip|, Value(ip);
    MinimalIsFixed(v + 1, k);
    FirstByte(ip);
    ValueBound(ip);
    if v + 1 == Pow2(8 * k) {
      PrevOfOverflow(ip);
    } else {
      assert ip[0] == 0;
      var i := IpToInt(NextIP(ip)) - 1;
      MinimalValue(if i < 0 then -i else i);
      SmallValues();
    }
  }

  lemma PrevOfOverflow(ip: IP)
    requires Canonical(ip) && Value(ip) + 1 == Pow2(8 * |ip|)
    ensures PrevIP(NextIP(ip)) == [1]
  {
    hide Pow2;
    hide Minimal;
    hide Value;
    var v, k := Value(ip), |ip|;
    assert |NextIP(ip)| == k + 1 by {
      Pow2Byte(8 * k);
      assert 8 * k + 8 == 8 * (k + 1);
      MinimalIsFixed(v + 1, k + 1);
    }
    assert IpToInt(NextIP(ip)) == Value([]);
    SmallValues();
  }

  lemma SmallValues()
    ensures Value([]) == 0 && Minimal(0) == [] && Minimal(1) == [1]
  {
  }

  // ---- The IPv4-mapped block ----

  /** Where the IPv4-mapped block of IPv6 begins; it has 2^32 addresses. */
  const MAPPED: nat := 0xffff_0000_0000

  /** The IPv4-mapped addresses, those without canonical form in their own length, are an interval. */
  lemma MappedExactly(a: IP)
    requires |a| == 16
    ensures !Canonical(a) <==> MAPPED <= Value(a) < MAPPED + Pow2(32)
  {
    hide Value;
    hide Pow2;
    MappedInSpace();
    CanonicalizeIdempotent(a);
    Upper(a);
    Upper(V4_IN_V6_PREFIX + [0, 0, 0, 0]);
    PrefixValue();
    assert (V4_IN_V6_PREFIX + [0, 0, 0, 0])[..12] == V4_IN_V6_PREFIX;
    if Value(a[..12]) == 0xffff {
      ValueInjective(a[..12], V4_IN_V6_PREFIX);
    }
  }

  /** The number of the first twelve bytes is the quotient by 2^32. */
  lemma Upper(a: IP)
    requires |a| == 16
    ensures Value(a[..12]) * 0x1_0000_0000 <= Value(a) < (Value(a[..12]) + 1) * 0x1_0000_0000
  {
    hide Value;
    LastByte(a);
    LastByte(a[..15]);
    LastByte(a[..14]);
    LastByte(a[..13]);
    assert a[..15][..14] == a[..14] && a[..14][..13] == a[..13] && a[..13][..12] == a[..12];
  }

  lemma PrefixValue()
    ensures Value(V4_IN_V6_PREFIX) == 0xffff
  {
    hide Value;
    LastByte(V4_IN_V6_PREFIX);
    LastByte(V4_IN_V6_PREFIX[..11]);
    ZerosValue(V4_IN_V6_PREFIX[..11][..10]);
  }

  lemma MappedInSpace()
    ensures Pow2(32) == 0x1_0000_0000 && MAPPED == 0xffff_0000_0000
  {
    hide Pow2;
    Pow2Add(16, 16);
    Pow2Add(8, 8);
    Pow2Eight();
  }

  lemma MappedBelow(n: nat)
    requires n >= 64
    ensures MAPPED + 0x1_0000_0000 < Pow2(n)
  {
    hide Pow2;
    MappedInSpace();
    Pow2Add(32, 32);
    Pow2Monotone(64, n);
  }

  lemma {:induction false} ZerosValue(s: seq<Byte>)
    requires forall i :: 0 <= i < |s| ==> s[i] == 0
    ensures Value(s) == 0
  {
    if s != [] {
      ZerosValue(s[..|s| - 1]);
    }
  }
}
