/** Big-endian byte strings and the natural numbers they denote. */
module Bytes {
  type Byte = x: int | 0 <= x < 256

  function Pow2(n: nat): (p: nat)
    ensures p > 0
  {
    if n == 0 then 1 else 2 * Pow2(n - 1)
  }

  lemma {:induction false} Pow2Add(a: nat, b: nat)
    ensures Pow2(a + b) == Pow2(a) * Pow2(b)
  {
    if a == 0 {
    } else {
      Pow2Add(a - 1, b);
      assert Pow2(a + b) == 2 * Pow2(a - 1 + b);
    }
  }

  lemma Pow2Eight()
    ensures Pow2(8) == 256 && Pow2(9) == 512 && Pow2(0) == 1
  {
  }

  lemma Pow2Byte(n: nat)
    ensures Pow2(n + 8) == 256 * Pow2(n)
  {
    Pow2Add(8, n);
    assert Pow2(8) == 256;
  }

  lemma {:induction false} Pow2Monotone(a: nat, b: nat)
    requires a <= b
    ensures Pow2(a) <= Pow2(b)
  {
    if a < b {
      Pow2Monotone(a, b - 1);
    }
  }

  /** The number a big-endian byte string denotes: big.Int.SetBytes. */
  function Value(s: seq<Byte>): nat {
    if s == [] then 0 else Value(s[..|s| - 1]) * 256 + s[|s| - 1]
  }

  /** The shortest big-endian byte string of a number: big.Int.Bytes. */
  function Minimal(n: nat): seq<Byte> {
    if n == 0 then [] else Minimal(n / 256) + [n % 256]
  }

  /** The k low-order bytes of a number. */
  function Fixed(n: nat, k: nat): (s: seq<Byte>)
    ensures |s| == k
  {
    if k == 0 then [] else Fixed(n / 256, k - 1) + [n % 256]
  }

  lemma {:induction false} ValueBound(s: seq<Byte>)
    ensures Value(s) < Pow2(8 * |s|)
  {
    if s != [] {
      ValueBound(s[..|s| - 1]);
      Pow2Byte(8 * (|s| - 1));
      assert 8 * (|s| - 1) + 8 == 8 * |s|;
    }
  }

  lemma {:induction false} ValueFront(b: Byte, s: seq<Byte>)
    ensures Value([b] + s) == b * Pow2(8 * |s|) + Value(s)
  {
    if s == [] {
      assert [b] + s == [b];
      assert [b][..0] == [];
      assert Value([b]) == Value([]) * 256 + b;
    } else {
      var n := |s| - 1;
      ValueFront(b, s[..n]);
      assert ([b] + s)[..|s|] == [b] + s[..n];
      Pow2Byte(8 * n);
      assert 8 * n + 8 == 8 * |s|;
      Appended(b, Pow2(8 * n), Value(s[..n]), s[n]);
    }
  }

  /** Appending a byte to b times p plus v. */
  lemma Appended(b: nat, p: nat, v: nat, c: nat)
    ensures (b * p + v) * 256 + c == b * (256 * p) + (v * 256 + c)
  {
  }

  lemma LastByte(s: seq<Byte>)
    requires s != []
    ensures s[|s| - 1] == Value(s) % 256 && Value(s[..|s| - 1]) == Value(s) / 256
  {
    var n := |s| - 1;
    assert Value(s) == Value(s[..n]) * 256 + s[n];
    hide Value;
    QuotientUnique(Value(s), 256, Value(s[..n]), s[n]);
  }

  lemma {:induction false} ValueInjective(a: seq<Byte>, b: seq<Byte>)
    requires |a| == |b| && Value(a) == Value(b)
    ensures a == b
  {
    if a != [] {
      var n := |a| - 1;
      LastByte(a);
      LastByte(b);
      hide Value;
      ValueInjective(a[..n], b[..n]);
      assert a == a[..n] + [a[n]] && b == b[..n] + [b[n]];
    }
  }

  /** The first byte is the quotient by the weight of its place. */
  lemma FirstByte(s: seq<Byte>)
    requires s != []
    ensures s[0] == Value(s) / Pow2(8 * (|s| - 1))
    ensures s[0] != 0 <==> Pow2(8 * (|s| - 1)) <= Value(s)
  {
    var p := Pow2(8 * (|s| - 1));
    ValueFront(s[0], s[1..]);
    assert s == [s[0]] + s[1..];
    ValueBound(s[1..]);
    var b, r := s[0], Value(s[1..]);
    assert Value(s) == b * p + r && r < p;
    Gap(0, b, p);
    QuotientUnique(Value(s), p, b, r);
  }

  lemma {:induction false} GapUp(a: int, b: int, p: int)
    requires p >= 0 && a < b
    ensures a * p + p <= b * p
    decreases b - a
  {
    assert (b - 1) * p + p == b * p;
    if a + 1 < b {
      GapUp(a, b - 1, p);
    }
  }

  /** Products of distinct factors with p lie at least p apart. */
  lemma Gap(a: int, b: int, p: int)
    requires p >= 0
    ensures a < b ==> a * p + p <= b * p
    ensures b < a ==> b * p + p <= a * p
  {
    if a < b {
      GapUp(a, b, p);
    } else if b < a {
      GapUp(b, a, p);
    }
  }

  lemma QuotientUnique(x: nat, p: nat, q: nat, r: nat)
    requires p > 0 && x == q * p + r && r < p
    ensures x / p == q && x % p == r
  {
    var q', r' := x / p, x % p;
    Gap(q, q', p);
  }

  lemma {:induction false} FixedValue(n: nat, k: nat)
    requires n < Pow2(8 * k)
    ensures Value(Fixed(n, k)) == n
  {
    if k > 0 {
      Pow2Byte(8 * (k - 1));
      assert 8 * (k - 1) + 8 == 8 * k;
      FixedValue(n / 256, k - 1);
      assert Fixed(n, k)[..k - 1] == Fixed(n / 256, k - 1);
    }
  }

  lemma {:induction false} MinimalValue(n: nat)
    ensures Value(Minimal(n)) == n
    ensures n > 0 ==> Minimal(n) != [] && Minimal(n)[0] != 0
  {
    if n > 0 {
      MinimalValue(n / 256);
      var m := Minimal(n / 256);
      assert Minimal(n)[..|m|] == m;
    }
  }

  /** Minimal has k bytes exactly when the k-th place is the highest one used. */
  lemma MinimalIsFixed(n: nat, k: nat)
    requires k > 0
    ensures |Minimal(n)| == k <==> Pow2(8 * (k - 1)) <= n < Pow2(8 * k)
    ensures Pow2(8 * (k - 1)) <= n < Pow2(8 * k) ==> Minimal(n) == Fixed(n, k)
  {
    var m := Minimal(n);
    MinimalValue(n);
    ValueBound(m);
    if n == 0 {
    } else {
      FirstByte(m);
      if |m| < k {
        Pow2Monotone(8 * |m|, 8 * (k - 1));
      } else if |m| > k {
        Pow2Monotone(8 * k, 8 * (|m| - 1));
      } else {
        FixedValue(n, k);
        ValueInjective(m, Fixed(n, k));
      }
    }
  }

  /** Byte strings of one length are ordered like the numbers they denote. */
  predicate LexLess(a: seq<Byte>, b: seq<Byte>)
    requires |a| == |b|
  {
    a != [] && (a[0] < b[0] || (a[0] == b[0] && LexLess(a[1..], b[1..])))
  }

  lemma {:induction false} LexIsNumeric(a: seq<Byte>, b: seq<Byte>)
    requires |a| == |b|
    ensures LexLess(a, b) <==> Value(a) < Value(b)
  {
    if a != [] {
      LexIsNumeric(a[1..], b[1..]);
      ValueFront(a[0], a[1..]);
      ValueFront(b[0], b[1..]);
      assert a == [a[0]] + a[1..] && b == [b[0]] + b[1..];
      ValueBound(a[1..]);
      ValueBound(b[1..]);
      var p := Pow2(8 * |a[1..]|);
      Gap(a[0], b[0], p);
    }
  }
}
