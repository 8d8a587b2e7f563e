/**
 * Network masks: Go's byte-wise operations, related to division and remainder of the
 * numbers the addresses denote.
 */
module Masks {
  import opened Wrappers
  import opened Bytes
  import opened Cidr

  function AndBits(a: nat, b: nat, k: nat): (r: nat)
    ensures r < Pow2(k)
  {
    if k == 0 then 0 else 2 * AndBits(a / 2, b / 2, k - 1) + (if a % 2 == 1 && b % 2 == 1 then 1 else 0)
  }

  function OrBits(a: nat, b: nat, k: nat): (r: nat)
    ensures r < Pow2(k)
  {
    if k == 0 then 0 else 2 * OrBits(a / 2, b / 2, k - 1) + (if a % 2 == 1 || b % 2 == 1 then 1 else 0)
  }

  function And(a: Byte, b: Byte): Byte {
    Pow2Eight();
    AndBits(a, b, 8)
  }

  function Or(a: Byte, b: Byte): Byte {
    Pow2Eight();
    OrBits(a, b, 8)
  }

  function Not(a: Byte): Byte {
    255 - a
  }

  /** The low j bits of a number. */
  function Low(a: nat, j: nat): nat {
    a % Pow2(j)
  }

  /** Halving a number drops the lowest of its low bits. */
  lemma HalfLow(a: nat, j: nat)
    requires j > 0
    ensures Low(a, j) == 2 * Low(a / 2, j - 1) + a % 2
  {
    var p := Pow2(j - 1);
    var q, r := a / 2 / p, a / 2 % p;
    assert a / 2 == q * p + r;
    assert a == q * (2 * p) + (2 * r + a % 2) by {
      assert 2 * (q * p) == q * (2 * p);
    }
    QuotientUnique(a, 2 * p, q, 2 * r + a % 2);
  }

  lemma LowNone(a: nat)
    ensures Low(a, 0) == 0
  {
  }

  /** And with k bits of which the low j are clear drops the low j bits. */
  lemma {:induction false} AndClearsLow(a: nat, k: nat, j: nat)
    requires j <= k && a < Pow2(k)
    ensures Pow2(j) <= Pow2(k)
    ensures AndBits(a, Pow2(k) - Pow2(j), k) == a - Low(a, j)
  {
    hide Low;
    Pow2Monotone(j, k);
    LowNone(a);
    if k > 0 {
      var m := Pow2(k) - Pow2(j);
      if j == 0 {
        assert m / 2 == Pow2(k - 1) - Pow2(0) && m % 2 == 1;
        AndClearsLow(a / 2, k - 1, 0);
        LowNone(a / 2);
      } else {
        assert m / 2 == Pow2(k - 1) - Pow2(j - 1) && m % 2 == 0;
        AndClearsLow(a / 2, k - 1, j - 1);
        HalfLow(a, j);
      }
    }
  }

  /** Or with the low j bits set fills in the low j bits. */
  lemma {:induction false} OrSetsLow(a: nat, k: nat, j: nat)
    requires j <= k && a < Pow2(k)
    ensures OrBits(a, Pow2(j) - 1, k) == a - Low(a, j) + Pow2(j) - 1
  {
    hide Low;
    LowNone(a);
    if k > 0 {
      var m := Pow2(j) - 1;
      if j == 0 {
        OrSetsLow(a / 2, k - 1, 0);
        LowNone(a / 2);
      } else {
        assert m / 2 == Pow2(j - 1) - 1 && m % 2 == 1;
        OrSetsLow(a / 2, k - 1, j - 1);
        HalfLow(a, j);
      }
    }
  }

  /** net.CIDRMask, in bytes. */
  function CIDRMask(ones: nat, l: nat): (m: seq<Byte>)
    requires ones <= 8 * l
    ensures |m| == l
  {
    if l == 0 then []
    else if ones >= 8 then [255] + CIDRMask(ones - 8, l - 1)
    else MaskByte(ones); [256 - Pow2(8 - ones)] + CIDRMask(0, l - 1)
  }

  lemma MaskByte(ones: nat)
    requires ones <= 8
    ensures 1 <= Pow2(8 - ones) <= 256
  {
    Pow2Monotone(8 - ones, 8);
    Pow2Eight();
  }

  lemma SameMultiple(a: nat, b: nat, h: nat)
    requires h > 0
    ensures h * a == h * b <==> a == b
  {
    Gap(a, b, h);
  }

  /** The leading one bits of a byte and what is left of it after shifting them out. */
  function LeadingOnes(v: Byte): (nat, Byte)
    decreases v
  {
    if v < 128 then (0, v)
    else
      var (n, rest) := LeadingOnes(2 * v - 256);
      (n + 1, rest)
  }

  lemma {:induction false} LeadingOnesShift(v: Byte)
    ensures Pow2(LeadingOnes(v).0) * (256 - v) == 256 - LeadingOnes(v).1
    decreases v
  {
    if v >= 128 {
      var w := 2 * v - 256;
      LeadingOnesShift(w);
      var p := Pow2(LeadingOnes(w).0);
      assert 2 * p * (256 - v) == p * (256 - w);
    }
  }

  lemma LeadingOnesExact(v: Byte)
    ensures LeadingOnes(v).0 <= 8
    ensures LeadingOnes(v).1 == 0 ==> v == 256 - Pow2(8 - LeadingOnes(v).0)
  {
    hide LeadingOnes;
    var (n, rest) := LeadingOnes(v);
    var p := Pow2(n);
    LeadingOnesShift(v);
    assert p <= 256 by {
      Gap(0, 256 - v, p);
      assert (256 - v) * p == p * (256 - v);
    }
    if n > 8 {
      Pow2Monotone(9, n);
      Pow2Eight();
      assert false;
    }
    if rest == 0 {
      Pow2Add(n, 8 - n);
      Pow2Eight();
      SameMultiple(256 - v, Pow2(8 - n), p);
    }
  }

  lemma {:induction false} LeadingOnesOfMask(ones: nat)
    requires ones <= 8
    ensures 0 <= 256 - Pow2(8 - ones) < 256
    ensures LeadingOnes(256 - Pow2(8 - ones)) == (ones, 0)
  {
    MaskByte(ones);
    Pow2Eight();
    if ones > 0 {
      LeadingOnesOfMask(ones - 1);
      Pow2Monotone(8 - ones, 7);
      assert Pow2(7) == 128;
      assert 2 * (256 - Pow2(8 - ones)) - 256 == 256 - Pow2(8 - (ones - 1));
    }
  }

  predicate AllZero(s: seq<Byte>) {
    forall i :: 0 <= i < |s| ==> s[i] == 0
  }

  /** simpleMaskLength of Go's net package; None stands for -1. */
  function SimpleMaskLength(mask: seq<Byte>): Option<nat> {
    if mask == [] then Some(0)
    else if mask[0] == 255 then
      match SimpleMaskLength(mask[1..])
      case Some(n) => Some(8 + n)
      case None => None
    else
      var (n, rest) := LeadingOnes(mask[0]);
      if rest == 0 && AllZero(mask[1..]) then Some(n) else None
  }

  /** IPMask.Size: the number of leading ones and of bits, (0, 0) for a mask with holes. */
  function MaskSize(mask: seq<Byte>): (nat, nat) {
    match SimpleMaskLength(mask)
    case Some(n) => (n, 8 * |mask|)
    case None => (0, 0)
  }

  lemma {:induction false} ZeroMask(l: nat)
    ensures AllZero(CIDRMask(0, l))
    ensures Value(CIDRMask(0, l)) == 0
  {
    if l > 0 {
      Pow2Eight();
      ZeroMask(l - 1);
      ValueFront(0, CIDRMask(0, l - 1));
    }
  }

  lemma {:induction false} AllZeroMask(s: seq<Byte>)
    ensures AllZero(s) <==> s == CIDRMask(0, |s|)
  {
    ZeroMask(|s|);
  }

  /** How CIDRMask's first byte tells its two cases apart. */
  lemma MaskFront(mask: seq<Byte>, ones: nat)
    requires mask != [] && ones <= 8 * |mask|
    ensures mask == CIDRMask(ones, |mask|) <==>
      if ones >= 8 then mask[0] == 255 && mask[1..] == CIDRMask(ones - 8, |mask| - 1)
      else mask[0] == 256 - Pow2(8 - ones) && mask[1..] == CIDRMask(0, |mask| - 1)
    ensures ones < 8 ==> 0 <= 256 - Pow2(8 - ones) < 255
  {
    hide *;
    if ones < 8 {
      MaskByte(ones);
      MaskByteBelow(ones);
      LowMaskFront(mask, ones, 256 - Pow2(8 - ones));
    } else {
      HighMaskFront(mask, ones);
    }
  }

  lemma LowMaskFront(mask: seq<Byte>, ones: nat, front: Byte)
    requires mask != [] && ones < 8 && front == 256 - Pow2(8 - ones)
    ensures mask == CIDRMask(ones, |mask|) <==> mask[0] == front && mask[1..] == CIDRMask(0, |mask| - 1)
  {
    hide *;
    MaskUnfold(ones, |mask|);
    SameFront(mask, front, CIDRMask(0, |mask| - 1));
  }

  lemma HighMaskFront(mask: seq<Byte>, ones: nat)
    requires mask != [] && 8 <= ones <= 8 * |mask|
    ensures mask == CIDRMask(ones, |mask|) <==> mask[0] == 255 && mask[1..] == CIDRMask(ones - 8, |mask| - 1)
  {
    hide *;
    MaskUnfold(ones, |mask|);
    var rest := CIDRMask(ones - 8, |mask| - 1);
    SameFront(mask, 255, rest);
  }

  lemma SameFront(s: seq<Byte>, b: Byte, rest: seq<Byte>)
    requires s != []
    ensures s == [b] + rest <==> s[0] == b && s[1..] == rest
  {
    assert s == [s[0]] + s[1..] && ([b] + rest)[1..] == rest;
  }

  lemma MaskUnfold(ones: nat, l: nat)
    requires l > 0 && ones <= 8 * l
    ensures ones >= 8 ==> CIDRMask(ones, l) == [255] + CIDRMask(ones - 8, l - 1)
    ensures ones < 8 ==> 0 <= 256 - Pow2(8 - ones) < 256
    ensures ones < 8 ==> CIDRMask(ones, l) == [256 - Pow2(8 - ones)] + CIDRMask(0, l - 1)
  {
    hide Pow2;
    if ones < 8 {
      MaskByte(ones);
    }
  }

  /** simpleMaskLength accepts exactly the masks CIDRMask builds, and reads back their length. */
  lemma {:induction false} MaskLengthExact(mask: seq<Byte>, ones: nat)
    ensures SimpleMaskLength(mask) == Some(ones) <==> ones <= 8 * |mask| && mask == CIDRMask(ones, |mask|)
  {
    hide Pow2;
    hide LeadingOnes;
    hide CIDRMask;
    if mask != [] {
      var rest := mask[1..];
      if ones <= 8 * |mask| {
        MaskFront(mask, ones);
      }
      if mask[0] == 255 {
        if ones >= 8 {
          MaskLengthExact(rest, ones - 8);
        }
      } else {
        LeadingOnesExact(mask[0]);
        AllZeroMask(rest);
        if ones < 8 {
          LeadingOnesOfMask(ones);
        } else if LeadingOnes(mask[0]) == (8, 0) {
          Pow2Eight();
        }
      }
    } else {
      assert CIDRMask(0, 0) == [] by {
        AllZeroMask([]);
      }
    }
  }

  lemma MaskByteBelow(ones: nat)
    requires ones < 8
    ensures 256 - Pow2(8 - ones) < 255
  {
    Pow2Monotone(1, 8 - ones);
  }

  function AndBytes(a: seq<Byte>, m: seq<Byte>): (r: seq<Byte>)
    requires |a| == |m|
    ensures |r| == |a|
  {
    if a == [] then [] else [And(a[0], m[0])] + AndBytes(a[1..], m[1..])
  }

  /** IP.Mask; None stands for nil. */
  function Mask(ip: IP, mask: seq<Byte>): Option<IP> {
    var m := if |mask| == 16 && |ip| == 4 && (forall i :: 0 <= i < 12 ==> mask[i] == 255) then mask[12..] else mask;
    var a := if |m| == 4 && |ip| == 16 && ip[..12] == V4_IN_V6_PREFIX then ip[12..] else ip;
    if |a| == |m| then Some(AndBytes(a, m)) else None
  }

  lemma ModOfMultiplePlus(m: nat, h: nat, v: nat)
    requires h > 0
    ensures (m * h + v) % h == v % h
  {
    var q, r := v / h, v % h;
    assert v == q * h + r;
    assert m * h + v == (m + q) * h + r by {
      assert (m + q) * h == m * h + q * h;
    }
    QuotientUnique(m * h + v, h, m + q, r);
  }

  lemma ModOfScaled(x: nat, q: nat, p: nat, v: nat)
    requires q > 0 && p > 0 && v < p
    ensures q * p > 0
    ensures (x * p + v) % (q * p) == x % q * p + v
  {
    var d, r := x / q, x % q;
    assert x == d * q + r;
    assert q * p > 0;
    assert x * p == d * (q * p) + r * p by {
      assert (d * q + r) * p == d * q * p + r * p;
      assert d * q * p == d * (q * p);
    }
    Gap(r, q, p);
    QuotientUnique(x * p + v, q * p, d, r * p + v);
  }

  /** What byte b contributes above l further bytes. */
  function Place(b: nat, l: nat): nat {
    b * Pow2(8 * l)
  }

  lemma PlaceFront(b: Byte, t: seq<Byte>)
    ensures Value([b] + t) == Place(b, |t|) + Value(t)
    ensures Low(Value(t), 8 * |t|) == Value(t)
  {
    ValueFront(b, t);
    ValueBound(t);
    QuotientUnique(Value(t), Pow2(8 * |t|), 0, Value(t));
  }

  /** The low bits that lie within the low l bytes do not see the byte above. */
  lemma LowBelow(b: nat, l: nat, skip: nat, v: nat)
    requires skip <= 8 * l
    ensures Low(Place(b, l) + v, 8 * l - skip) == Low(v, 8 * l - skip)
  {
    hide Pow2;
    var m, h := Pow2(skip), Pow2(8 * l - skip);
    Pow2Add(skip, 8 * l - skip);
    assert b * (m * h) == b * m * h;
    ModOfMultiplePlus(b * m, h, v);
  }

  /** The low bits that reach k bits into the byte above l bytes denoting v. */
  lemma LowSplit(b: nat, l: nat, k: nat, v: nat)
    requires v < Pow2(8 * l)
    ensures Low(Place(b, l) + v, 8 * l + k) == Place(Low(b, k), l) + v
    ensures Low(b, k) <= b && Place(b - Low(b, k), l) == Place(b, l) - Place(Low(b, k), l)
  {
    hide Pow2;
    Pow2Add(k, 8 * l);
    ModOfScaled(b, Pow2(k), Pow2(8 * l), v);
    LowAtMost(b, k);
    hide Low;
    DifferenceScaled(b, Low(b, k), Pow2(8 * l));
  }

  lemma LowAtMost(b: nat, k: nat)
    ensures Low(b, k) <= b && Low(b, k) == b % Pow2(k)
  {
    hide Pow2;
    var p := Pow2(k);
    assert b == b / p * p + b % p;
    Gap(0, b / p, p);
  }

  lemma DifferenceScaled(b: nat, c: nat, p: nat)
    requires c <= b
    ensures (b - c) * p == b * p - c * p
  {
  }

  /** The subnet's first address or'ed with the complemented mask. */
  function OrNotBytes(a: seq<Byte>, m: seq<Byte>): (r: seq<Byte>)
    requires |a| == |m|
    ensures |r| == |a|
  {
    if a == [] then [] else [Or(a[0], Not(m[0]))] + OrNotBytes(a[1..], m[1..])
  }

  lemma EmptyBlock()
    ensures Value([]) == 0 && Low(0, 0) == 0 && Pow2(0) == 1 && CIDRMask(0, 0) == [] && AndBytes([], []) == []
    ensures OrNotBytes([], []) == []
  {
  }

  /** Masking an address byte by byte clears its host part. */
  lemma {:induction false} MaskedValue(a: seq<Byte>, ones: nat)
    requires ones <= 8 * |a|
    ensures Value(AndBytes(a, CIDRMask(ones, |a|))) == Value(a) - Low(Value(a), 8 * |a| - ones)
  {
    hide *;
    if a == [] {
      EmptyBlock();
    } else if ones >= 8 {
      assert a == [a[0]] + a[1..];
      MaskedValue(a[1..], ones - 8);
      MaskedHigh(a[0], a[1..], ones);
    } else {
      assert a == [a[0]] + a[1..];
      MaskedValue(a[1..], 0);
      MaskedLow(a[0], a[1..], ones);
    }
  }

  lemma MaskedHigh(b: Byte, t: seq<Byte>, ones: nat)
    requires 8 <= ones <= 8 * (|t| + 1)
    requires Value(AndBytes(t, CIDRMask(ones - 8, |t|))) == Value(t) - Low(Value(t), 8 * |t| - (ones - 8))
    ensures Value(AndBytes([b] + t, CIDRMask(ones, |t| + 1)))
         == Value([b] + t) - Low(Value([b] + t), 8 * (|t| + 1) - ones)
  {
    hide Pow2;
    hide And;
    hide Low;
    hide Value;
    hide Place;
    PlaceFront(b, t);
    AndWithMaskByte(b, 8);
    Pow2Eight();
    LowNone(b);
    AndFront(b, 255, t, CIDRMask(ones - 8, |t|));
    PlaceFront(b, AndBytes(t, CIDRMask(ones - 8, |t|)));
    LowBelow(b, |t|, ones - 8, Value(t));
  }

  lemma MaskedLow(b: Byte, t: seq<Byte>, ones: nat)
    requires ones < 8
    requires Value(AndBytes(t, CIDRMask(0, |t|))) == Value(t) - Low(Value(t), 8 * |t|)
    ensures Value(AndBytes([b] + t, CIDRMask(ones, |t| + 1)))
         == Value([b] + t) - Low(Value([b] + t), 8 * (|t| + 1) - ones)
  {
    hide Pow2;
    hide And;
    hide Low;
    hide Value;
    hide Place;
    PlaceFront(b, t);
    AndWithMaskByte(b, ones);
    AndFront(b, 256 - Pow2(8 - ones), t, CIDRMask(0, |t|));
    PlaceFront(b - Low(b, 8 - ones), AndBytes(t, CIDRMask(0, |t|)));
    ValueBound(t);
    LowSplit(b, |t|, 8 - ones, Value(t));
  }

  lemma AndFront(b: Byte, m: Byte, t: seq<Byte>, u: seq<Byte>)
    requires |t| == |u|
    ensures AndBytes([b] + t, [m] + u) == [And(b, m)] + AndBytes(t, u)
    ensures OrNotBytes([b] + t, [m] + u) == [Or(b, Not(m))] + OrNotBytes(t, u)
  {
    assert ([b] + t)[1..] == t && ([m] + u)[1..] == u;
  }

  lemma AndWithMaskByte(b: Byte, ones: nat)
    requires ones <= 8
    ensures 0 <= 256 - Pow2(8 - ones) < 256
    ensures And(b, 256 - Pow2(8 - ones)) == b - Low(b, 8 - ones)
  {
    MaskByte(ones);
    Pow2Eight();
    AndClearsLow(b, 8, 8 - ones);
  }

  /** Or'ing with the complemented mask sets the host part to ones. */
  lemma {:induction false} BroadcastValue(a: seq<Byte>, ones: nat)
    requires ones <= 8 * |a|
    ensures Value(OrNotBytes(a, CIDRMask(ones, |a|)))
         == Value(a) - Low(Value(a), 8 * |a| - ones) + Pow2(8 * |a| - ones) - 1
  {
    hide *;
    if a == [] {
      EmptyBlock();
    } else if ones >= 8 {
      assert a == [a[0]] + a[1..];
      BroadcastValue(a[1..], ones - 8);
      BroadcastHigh(a[0], a[1..], ones);
    } else {
      assert a == [a[0]] + a[1..];
      BroadcastValue(a[1..], 0);
      BroadcastLow(a[0], a[1..], ones);
    }
  }

  lemma BroadcastHigh(b: Byte, t: seq<Byte>, ones: nat)
    requires 8 <= ones <= 8 * (|t| + 1)
    requires Value(OrNotBytes(t, CIDRMask(ones - 8, |t|)))
          == Value(t) - Low(Value(t), 8 * |t| - (ones - 8)) + Pow2(8 * |t| - (ones - 8)) - 1
    ensures Value(OrNotBytes([b] + t, CIDRMask(ones, |t| + 1)))
         == Value([b] + t) - Low(Value([b] + t), 8 * (|t| + 1) - ones) + Pow2(8 * (|t| + 1) - ones) - 1
  {
    hide Pow2;
    hide Or;
    hide Low;
    hide Value;
    hide Place;
    PlaceFront(b, t);
    OrWithMaskByte(b, 8);
    Pow2Eight();
    LowNone(b);
    AndFront(b, 255, t, CIDRMask(ones - 8, |t|));
    PlaceFront(b, OrNotBytes(t, CIDRMask(ones - 8, |t|)));
    LowBelow(b, |t|, ones - 8, Value(t));
  }

  lemma BroadcastLow(b: Byte, t: seq<Byte>, ones: nat)
    requires ones < 8
    requires Value(OrNotBytes(t, CIDRMask(0, |t|))) == Value(t) - Low(Value(t), 8 * |t|) + Pow2(8 * |t|) - 1
    ensures Value(OrNotBytes([b] + t, CIDRMask(ones, |t| + 1)))
         == Value([b] + t) - Low(Value([b] + t), 8 * (|t| + 1) - ones) + Pow2(8 * (|t| + 1) - ones) - 1
  {
    hide Pow2;
    hide Or;
    hide Low;
    hide Value;
    hide Place;
    var k := 8 - ones;
    PlaceFront(b, t);
    OrWithMaskByte(b, ones);
    AndFront(b, 256 - Pow2(k), t, CIDRMask(0, |t|));
    PlaceFront(b - Low(b, k) + Pow2(k) - 1, OrNotBytes(t, CIDRMask(0, |t|)));
    ValueBound(t);
    LowSplit(b, |t|, k, Value(t));
    PlaceOnes(b - Low(b, k), k, |t|);
  }

  /** A byte with its low k bits set, above l bytes of ones. */
  lemma PlaceOnes(b: nat, k: nat, l: nat)
    ensures Place(b + Pow2(k) - 1, l) + Pow2(8 * l) == Place(b, l) + Pow2(8 * l + k)
  {
    hide Pow2;
    Pow2Add(k, 8 * l);
    var p, q := Pow2(8 * l), Pow2(k);
    assert (b + q - 1) * p + p == b * p + q * p;
  }

  lemma OrWithMaskByte(b: Byte, ones: nat)
    requires ones <= 8
    ensures 0 <= 256 - Pow2(8 - ones) < 256
    ensures Or(b, Not(256 - Pow2(8 - ones))) == b - Low(b, 8 - ones) + Pow2(8 - ones) - 1
  {
    MaskByte(ones);
    Pow2Eight();
    OrSetsLow(b, 8, 8 - ones);
  }

  /** The network number and mask IPNet.Contains works with; empty strings stand for nil. */
  function NetworkNumberAndMask(ip: IP, mask: seq<Byte>): (IP, seq<Byte>) {
    var number := To4(ip).GetOr(ip);
    if |number| != 4 && |number| != 16 then ([], [])
    else if |mask| == 4 then (if |number| == 4 then (number, mask) else ([], []))
    else if |mask| == 16 then (number, if |number| == 4 then mask[12..] else mask)
    else ([], [])
  }

  /** IPNet.Contains. */
  predicate NetContains(ip: IP, mask: seq<Byte>, addr: IP) {
    var (nn, m) := NetworkNumberAndMask(ip, mask);
    var a := To4(addr).GetOr(addr);
    |a| == |nn| && forall i :: 0 <= i < |a| ==> And(nn[i], m[i]) == And(a[i], m[i])
  }

  lemma {:induction false} AndBytesPointwise(a: seq<Byte>, b: seq<Byte>, m: seq<Byte>)
    requires |a| == |b| == |m|
    ensures AndBytes(a, m) == AndBytes(b, m) <==> forall i :: 0 <= i < |a| ==> And(a[i], m[i]) == And(b[i], m[i])
  {
    if a != [] {
      AndBytesPointwise(a[1..], b[1..], m[1..]);
      if forall i :: 0 <= i < |a| ==> And(a[i], m[i]) == And(b[i], m[i]) {
        forall i | 0 <= i < |a| - 1 ensures And(a[1..][i], m[1..][i]) == And(b[1..][i], m[1..][i]) {
          assert a[1..][i] == a[i + 1] && b[1..][i] == b[i + 1] && m[1..][i] == m[i + 1];
        }
      }
      if AndBytes(a, m) == AndBytes(b, m) {
        assert AndBytes(a, m)[1..] == AndBytes(a[1..], m[1..]);
        assert AndBytes(b, m)[1..] == AndBytes(b[1..], m[1..]);
        forall i | 0 <= i < |a| ensures And(a[i], m[i]) == And(b[i], m[i]) {
          if i == 0 {
            assert AndBytes(a, m)[0] == AndBytes(b, m)[0];
          } else {
            assert a[1..][i - 1] == a[i] && b[1..][i - 1] == b[i] && m[1..][i - 1] == m[i];
          }
        }
      }
    }
  }

  /** Masked byte by byte, two addresses of one length agree exactly when their quotients by the block size do. */
  lemma SameMasked(ip: IP, ones: nat, addr: IP)
    requires (|ip| == 4 || |ip| == 16) && |ip| == |addr| && ones <= 8 * |ip|
    ensures AndBytes(ip, CIDRMask(ones, |ip|)) == AndBytes(addr, CIDRMask(ones, |ip|))
       <==> Value(ip) / Pow2(8 * |ip| - ones) == Value(addr) / Pow2(8 * |ip| - ones)
  {
    hide Pow2;
    hide Value;
    hide AndBytes;
    hide And;
    hide CIDRMask;
    var mask, h := CIDRMask(ones, |ip|), Pow2(8 * |ip| - ones);
    MaskedValue(ip, ones);
    MaskedValue(addr, ones);
    SameBlock(Value(ip), Value(addr), h);
    if Value(ip) / h == Value(addr) / h {
      ValueInjective(AndBytes(ip, mask), AndBytes(addr, mask));
    }
  }

  /** The byte-wise network test compares the quotients by the block size. */
  lemma ContainsIsBlockTest(ip: IP, ones: nat, addr: IP)
    requires Canonical(ip) && Canonical(addr) && |ip| == |addr| && ones <= 8 * |ip|
    ensures NetContains(ip, CIDRMask(ones, |ip|), addr)
       <==> Value(ip) / Pow2(8 * |ip| - ones) == Value(addr) / Pow2(8 * |ip| - ones)
  {
    hide Pow2;
    hide Value;
    hide AndBytes;
    hide And;
    hide CIDRMask;
    AndBytesPointwise(ip, addr, CIDRMask(ones, |ip|));
    SameMasked(ip, ones, addr);
  }

  lemma SameBlock(v: nat, w: nat, h: nat)
    requires h > 0
    ensures v - v % h == w - w % h <==> v / h == w / h
  {
    assert v - v % h == h * (v / h) && w - w % h == h * (w / h);
    SameMultiple(v / h, w / h, h);
  }

  /** From a block boundary on, equal quotients mean lying in the block's interval. */
  lemma BlockInterval(v: nat, w: nat, h: nat)
    requires h > 0 && v % h == 0
    ensures v / h == w / h <==> v <= w < v + h
  {
    var q := v / h;
    assert v == q * h;
    if v <= w < v + h {
      QuotientUnique(w, h, q, w - v);
    }
  }
}
