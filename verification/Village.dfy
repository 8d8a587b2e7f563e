/**
 * The village-ipam client: client.go. Addresses are handed out through one shared ConfigMap;
 * each operation reads it, computes a new one and writes it back, and the API server rejects
 * a write based on a version that is no longer current.
 */
module Village {
  import opened Wrappers
  import opened Bytes
  import opened Cidr
  import opened Masks
  import opened DiskStore

  /** A key of the address map: a printed address, or what a nil address prints as. */
  datatype Key = Addr(ip: IP) | NilKey

  type Owners = map<Key, string>

  function KeyOf(ip: IP): Key {
    Addr(FileKey(ip))
  }

  /** A decoded pool: the address as written, the network and its mask. */
  datatype Pool = Pool(name: string, ip: IP, net: IP, mask: seq<Byte>)

  /** What net.ParseCIDR yields: the network is the masked address. */
  ghost predicate Parsed(p: Pool) {
    && (|p.net| == 4 || |p.net| == 16)
    && Ones(p) <= 8 * |p.net|
    && p.mask == CIDRMask(Ones(p), |p.net|)
    && Mask(p.ip, p.mask) == Some(p.net)
    && Value(p.net) % Size(p) == 0
  }

  function Ones(p: Pool): nat {
    SimpleMaskLength(p.mask).GetOr(0)
  }

  function Size(p: Pool): nat {
    if Ones(p) <= 8 * |p.net| then Pow2(8 * |p.net| - Ones(p)) else 1
  }

  // ---- getMin ----

  /** The first address tried: the network address, or the next one if its last byte is zero. */
  function MinAddress(net: IP): (r: IP)
    requires net != []
    ensures |r| == |net|
  {
    if net[|net| - 1] == 0 then net[|net| - 1 := 1] else net
  }

  method GetMin(ip: IP, mask: seq<Byte>) returns (i: array<Byte>)
    requires Mask(ip, mask).Some? && Mask(ip, mask).value != []
    ensures fresh(i) && i[..] == MinAddress(Mask(ip, mask).value)
  {
    hide Mask;
    var masked := Mask(ip, mask).value;
    i := new Byte[|masked|](k requires 0 <= k < |masked| => masked[k]);
    assert i[..] == masked;
    var j := i.Length - 1;
    if i[j] == 0 {
      i[j] := i[j] + 1;
    }
  }

  lemma MinValue(net: IP)
    requires net != []
    ensures Value(MinAddress(net)) == if Value(net) % 256 == 0 then Value(net) + 1 else Value(net)
  {
    var n := |net| - 1;
    assert Value(net) == Value(net[..n]) * 256 + net[n];
    assert MinAddress(net)[..n] == net[..n];
  }

  // ---- The search ----

  /**
   * The first number the search does not reach: the end of the block, or, in an IPv6 block around
   * the IPv4-mapped one, the beginning of that, whose addresses the network does not contain.
   */
  function Top(p: Pool): nat {
    var net := Value(p.net);
    if |p.net| == 16 && net < MAPPED < net + Size(p) then MAPPED else net + Size(p)
  }

  /** The number of an address is in the pool as far as the search reaches. */
  ghost predicate InPool(p: Pool, v: nat) {
    Value(p.net) <= v < Top(p)
  }

  /** The pool 0.0.0.0/0, on which counting up never leaves the pool. */
  predicate WholeSpace(p: Pool) {
    |p.net| == 4 && Ones(p) == 0
  }

  function AddressOf(p: Pool, v: nat): IP {
    Fixed(v, |p.net|)
  }

  /** The lowest free number from v upward within the pool. */
  ghost function LowestFrom(owners: Owners, p: Pool, v: nat): Option<nat>
    decreases Top(p) - v
  {
    if v >= Top(p) then None
    else if KeyOf(AddressOf(p, v)) !in owners then Some(v)
    else LowestFrom(owners, p, v + 1)
  }

  /** The address the pool grants next; in 0.0.0.0/0 the network address comes last. */
  ghost function NextFree(owners: Owners, p: Pool): Option<IP>
    requires p.net != []
  {
    var v := Value(MinAddress(p.net));
    if !InPool(p, v) then None
    else
      match LowestFrom(owners, p, v)
      case Some(w) => Some(AddressOf(p, w))
      case None => if WholeSpace(p) && KeyOf(p.net) !in owners then Some(p.net) else None
  }

  /** The search ends, which it does but in 0.0.0.0/0 with every address taken. */
  ghost predicate SearchEnds(owners: Owners, p: Pool)
    requires p.net != []
  {
    WholeSpace(p) ==> NextFree(owners, p).Some?
  }

  lemma {:induction false} LowestExact(owners: Owners, p: Pool, v: nat)
    ensures match LowestFrom(owners, p, v)
      case None => forall w :: v <= w < Top(p) ==> KeyOf(AddressOf(p, w)) in owners
      case Some(u) =>
        && v <= u < Top(p) && KeyOf(AddressOf(p, u)) !in owners
        && forall w :: v <= w < u ==> KeyOf(AddressOf(p, w)) in owners
    decreases Top(p) - v
  {
    hide AddressOf;
    hide Top;
    hide KeyOf;
    if v < Top(p) && KeyOf(AddressOf(p, v)) in owners {
      LowestExact(owners, p, v + 1);
    }
  }

  /**
   * The pool lies in the space of its numbers and, but for 0.0.0.0/0, does not reach round from its
   * end to its beginning.
   */
  lemma PoolFits(p: Pool)
    requires Parsed(p)
    ensures Value(p.net) + Size(p) <= Pow2(8 * |p.net|) && Value(p.net) < Top(p) <= Value(p.net) + Size(p)
    ensures Value(p.net) > 0 || Top(p) < Pow2(8 * |p.net|) || WholeSpace(p)
    ensures WholeSpace(p) ==> p.net == [0, 0, 0, 0] && Value(p.net) == 0 && Top(p) == Pow2(32)
  {
    hide CIDRMask;
    hide SimpleMaskLength;
    hide Value;
    hide Mask;
    hide Pow2;
    ValueBound(p.net);
    if Ones(p) > 0 {
      BlockInSpace(Value(p.net), 8 * |p.net|, 8 * |p.net| - Ones(p));
    } else {
      QuotientUnique(Value(p.net), Size(p), 0, Value(p.net));
      MappedInSpace();
      if |p.net| == 16 {
        MappedBelow(8 * |p.net|);
      }
      if |p.net| == 4 {
        ZerosValue([0, 0, 0, 0]);
        ValueInjective(p.net, [0, 0, 0, 0]);
      }
    }
  }

  /** A proper block fits into the space, and at zero leaves room above it. */
  lemma BlockInSpace(v: nat, h: nat, k: nat)
    requires k < h && v < Pow2(h) && v % Pow2(k) == 0
    ensures v + Pow2(k) <= Pow2(h) && Pow2(k) < Pow2(h)
  {
    hide Pow2;
    var p, m := Pow2(k), Pow2(h - k);
    Pow2Add(h - k, k);
    Pow2Monotone(1, h - k);
    TwoToOne();
    var q := v / p;
    assert v == q * p;
    Gap(q, m, p);
    Gap(1, m, p);
    if q >= m {
      Gap(m, q, p);
      assert false;
    }
  }

  lemma TwoToOne()
    ensures Pow2(1) == 2
  {
  }

  /**
   * The membership test of the search loop, for any parsed pool: an address is contained if its
   * number is in the block and it is IPv4-mapped exactly if the network is.
   */
  lemma ContainsExactly(p: Pool, a: IP)
    requires Parsed(p) && |a| == |p.net|
    ensures NetContains(p.net, p.mask, a) <==>
      Value(p.net) <= Value(a) < Value(p.net) + Size(p) && (Canonical(a) <==> Canonical(p.net))
  {
    hide CIDRMask;
    hide SimpleMaskLength;
    hide Value;
    hide Mask;
    hide Pow2;
    hide And;
    hide AndBytes;
    CanonicalizeIdempotent(a);
    CanonicalizeIdempotent(p.net);
    BlockInterval(Value(p.net), Value(a), Size(p));
    if Canonical(a) && Canonical(p.net) {
      ContainsIsBlockTest(p.net, Ones(p), a);
    } else if !Canonical(a) && !Canonical(p.net) {
      AndBytesPointwise(p.net, a, p.mask);
      SameMasked(p.net, Ones(p), a);
      MappedContained(p.net, p.mask, a);
    }
  }

  lemma MappedContained(net: IP, mask: seq<Byte>, a: IP)
    requires |net| == |a| == |mask| == 16 && net[..12] == V4_IN_V6_PREFIX && a[..12] == V4_IN_V6_PREFIX
    ensures NetContains(net, mask, a) <==> forall i :: 0 <= i < 16 ==> And(net[i], mask[i]) == And(a[i], mask[i])
  {
    hide And;
    assert forall i :: 0 <= i < 12 ==> net[i] == net[..12][i] && a[i] == a[..12][i];
    assert forall i :: 0 <= i < 4 ==> net[12..][i] == net[12 + i] && a[12..][i] == a[12 + i];
    assert forall i :: 0 <= i < 4 ==> mask[12..][i] == mask[12 + i];
    if NetContains(net, mask, a) {
      forall i | 12 <= i < 16 ensures And(net[i], mask[i]) == And(a[i], mask[i]) {
        assert And(net[12..][i - 12], mask[12..][i - 12]) == And(a[12..][i - 12], mask[12..][i - 12]);
      }
    }
  }

  /** As far as the search reaches, the membership test compares numbers. */
  lemma ContainsIsInPool(p: Pool, a: IP)
    requires Parsed(p) && |a| == |p.net| && Value(a) <= Top(p)
    ensures NetContains(p.net, p.mask, a) <==> InPool(p, Value(a))
  {
    hide CIDRMask;
    hide SimpleMaskLength;
    hide Value;
    hide Mask;
    hide Pow2;
    hide NetContains;
    ContainsExactly(p, a);
    CanonicalizeIdempotent(a);
    CanonicalizeIdempotent(p.net);
    if |a| == 16 {
      MappedInSpace();
      MappedExactly(a);
      MappedExactly(p.net);
      MappedBlock(Value(p.net), 128 - Ones(p));
    }
  }

  /** A block that begins in the IPv4-mapped block lies in it. */
  lemma MappedBlock(v: nat, h: nat)
    requires v % Pow2(h) == 0
    ensures MAPPED <= v < MAPPED + Pow2(32) ==> v + Pow2(h) <= MAPPED + Pow2(32)
  {
    hide Pow2;
    MappedInSpace();
    if MAPPED <= v < MAPPED + Pow2(32) {
      if h <= 32 {
        Pow2Add(32 - h, h);
        NextMultiple(v, Pow2(h), 0x1_0000 * Pow2(32 - h));
      } else {
        QuotientUnique(v, Pow2(32), 0xffff, v - MAPPED);
        EvenQuotient(v, h);
      }
    }
  }

  lemma EvenQuotient(v: nat, h: nat)
    requires h > 32 && v % Pow2(h) == 0
    ensures (v / Pow2(32)) % 2 == 0
  {
    hide Pow2;
    var q, k := v / Pow2(h), Pow2(h - 33);
    Pow2Add(h - 33, 33);
    Pow2Add(1, 32);
    TwoToOne();
    assert v == q * Pow2(h);
    Regroup(q, k, Pow2(32));
    QuotientUnique(v, Pow2(32), q * k * 2, 0);
    EvenProduct(q * k);
  }

  lemma Regroup(q: nat, k: nat, p: nat)
    ensures q * (k * (2 * p)) == (q * k * 2) * p
  {
  }

  lemma EvenProduct(k: nat)
    ensures (k * 2) % 2 == 0
  {
  }

  lemma NextMultiple(v: nat, p: nat, m: nat)
    requires p > 0 && v % p == 0 && v < m * p
    ensures v + p <= m * p
  {
    assert v == (v / p) * p;
    Gap(v / p, m, p);
  }

  /** The search loop of AssignIp: counts up in place until a free address or the end of the pool. */
  method FindFree(owners: Owners, p: Pool) returns (address: Option<IP>)
    requires Parsed(p) && SearchEnds(owners, p)
    ensures address == NextFree(owners, p)
  {
    hide CIDRMask;
    hide SimpleMaskLength;
    hide Value;
    hide Mask;
    hide Pow2;
    hide NetContains;
    hide Incremented;
    hide MinAddress;
    hide KeyOf;
    hide Canonical;
    hide Top;
    hide WholeSpace;
    var ip := GetMin(p.ip, p.mask);
    ghost var v := Value(ip[..]);
    ghost var start, wrapped := v, false;
    PoolFits(p);
    MinValue(p.net);
    ContainsIsInPool(p, ip[..]);
    while NetContains(p.net, p.mask, ip[..])
      invariant fresh(ip) && ip.Length == |p.net|
      invariant v == Value(ip[..])
      invariant NetContains(p.net, p.mask, ip[..]) <==> InPool(p, v)
      invariant !InPool(p, v) ==> NextFree(owners, p) == None
      invariant InPool(p, v) && !wrapped ==>
        InPool(p, start) && LowestFrom(owners, p, start) == LowestFrom(owners, p, v)
      invariant wrapped ==> ip[..] == p.net && KeyOf(p.net) !in owners && NextFree(owners, p) == Some(p.net)
      decreases if InPool(p, v) && !wrapped then Top(p) - v else 0
    {
      SameNumber(p, ip[..]);
      if KeyOf(ip[..]) !in owners {
        return Some(ip[..]);
      }
      ghost var before := ip[..];
      Inc(ip);
      IncrementedValue(before);
      NextNumber(p, before);
      v := Value(ip[..]);
      wrapped := WholeSpace(p) && v == 0;
      if wrapped {
        ValueInjective(ip[..], p.net);
      }
      ContainsIsInPool(p, ip[..]);
    }
    return None;
  }

  lemma SameNumber(p: Pool, a: IP)
    requires |a| == |p.net|
    ensures AddressOf(p, Value(a)) == a
  {
    hide Value;
    hide Pow2;
    hide Fixed;
    ValueBound(a);
    FixedValue(Value(a), |a|);
    ValueInjective(a, Fixed(Value(a), |a|));
  }

  /**
   * Counting up from an address of the pool reaches the next number or leaves the pool; in
   * 0.0.0.0/0 it starts anew.
   */
  lemma NextNumber(p: Pool, a: IP)
    requires Parsed(p) && |a| == |p.net| && InPool(p, Value(a))
    ensures var w := (Value(a) + 1) % Pow2(8 * |a|);
      && w <= Top(p)
      && if Value(a) + 1 < Top(p) then w == Value(a) + 1 else if WholeSpace(p) then w == 0 else !InPool(p, w)
  {
    hide CIDRMask;
    hide SimpleMaskLength;
    hide Value;
    hide Mask;
    hide Pow2;
    hide Size;
    hide Top;
    hide WholeSpace;
    PoolFits(p);
    var v, n := Value(a), Pow2(8 * |a|);
    if v + 1 < n {
      QuotientUnique(v + 1, n, 0, v + 1);
    } else {
      QuotientUnique(v + 1, n, 1, 0);
    }
  }

  /**
   * The search loop on the pool 0.0.0.0/0, cut off after a number of rounds; None says that it has
   * not ended by then. Every address is in the pool, so once all are taken it never ends.
   */
  method FindFreeRounds(owners: Owners, p: Pool, rounds: nat) returns (address: Option<Option<IP>>)
    requires Parsed(p) && WholeSpace(p)
    ensures !SearchEnds(owners, p) ==> address.None?
  {
    hide CIDRMask;
    hide Mask;
    hide NetContains;
    hide Incremented;
    hide KeyOf;
    hide Parsed;
    hide SearchEnds;
    AllTaken(owners, p);
    var ip := GetMin(p.ip, p.mask);
    for i := 0 to rounds
      invariant fresh(ip) && ip.Length == 4
    {
      WholeSpaceContains(p, ip[..]);
      if !NetContains(p.net, p.mask, ip[..]) {
        return Some(None);
      }
      if KeyOf(ip[..]) !in owners {
        return Some(Some(ip[..]));
      }
      Inc(ip);
      assert |ip[..]| == 4;
    }
    return None;
  }

  /** In 0.0.0.0/0 the search ends exactly if some IPv4 address is free. */
  lemma AllTaken(owners: Owners, p: Pool)
    requires Parsed(p) && WholeSpace(p)
    ensures Mask(p.ip, p.mask) == Some(p.net) && |p.net| == 4
    ensures !SearchEnds(owners, p) <==> forall a: IP :: |a| == 4 ==> KeyOf(a) in owners
  {
    hide CIDRMask;
    hide SimpleMaskLength;
    hide Value;
    hide Pow2;
    hide KeyOf;
    hide AddressOf;
    hide Top;
    hide Mask;
    PoolFits(p);
    MinValue(p.net);
    FourZeros();
    MappedInSpace();
    LowestExact(owners, p, Value(MinAddress(p.net)));
    if forall a: IP :: |a| == 4 ==> KeyOf(a) in owners {
      assert KeyOf(p.net) in owners;
      assert forall v :: 0 <= v < Top(p) ==> |AddressOf(p, v)| == 4 by { hide *; AddressLength(p); }
    } else {
      var a: IP :| |a| == 4 && KeyOf(a) !in owners;
      ValueBound(a);
      SameNumber(p, a);
      assert KeyOf(AddressOf(p, Value(a))) !in owners;
      if Value(a) == 0 {
        ValueInjective(a, p.net);
      }
    }
  }

  lemma FourZeros()
    ensures Value(MinAddress([0, 0, 0, 0])) == 1
  {
    MinValue([0, 0, 0, 0]);
    ZerosValue([0, 0, 0, 0]);
  }

  lemma AddressLength(p: Pool)
    ensures forall v :: |AddressOf(p, v)| == |p.net|
  {
  }

  lemma WholeSpaceContains(p: Pool, a: IP)
    requires Parsed(p) && WholeSpace(p) && |a| == 4
    ensures NetContains(p.net, p.mask, a)
  {
    hide CIDRMask;
    hide SimpleMaskLength;
    hide Mask;
    hide Pow2;
    hide Value;
    hide NetContains;
    CanonicalizeIdempotent(a);
    CanonicalizeIdempotent(p.net);
    ContainsExactly(p, a);
    PoolFits(p);
    ValueBound(a);
  }

  // ---- AssignIp and DeleteIp on one copy of the map ----

  /** The map after the container got an address from every pool, and the addresses; exhausted pools yield none. */
  ghost function Assigned(owners: Owners, pools: seq<Pool>, id: string): (Owners, seq<Option<IP>>)
    requires forall i :: 0 <= i < |pools| ==> pools[i].net != []
  {
    if pools == [] then (owners, [])
    else
      var n := |pools| - 1;
      var (before, ips) := Assigned(owners, pools[..n], id);
      var free := NextFree(before, pools[n]);
      (before[(match free case None => NilKey case Some(ip) => KeyOf(ip)) := id], ips + [free])
  }

  /** Every search of the assignment ends. */
  ghost predicate AssignEnds(owners: Owners, pools: seq<Pool>, id: string) {
    && (forall i :: 0 <= i < |pools| ==> pools[i].net != [])
    && forall i :: 0 <= i < |pools| ==> SearchEnds(Assigned(owners, pools[..i], id).0, pools[i])
  }

  method Assign(owners: Owners, pools: seq<Pool>, id: string) returns (cnIpMap: Owners, ips: seq<Option<IP>>)
    requires forall i :: 0 <= i < |pools| ==> Parsed(pools[i])
    requires AssignEnds(owners, pools, id)
    ensures (cnIpMap, ips) == Assigned(owners, pools, id)
  {
    hide Parsed;
    hide NextFree;
    hide SearchEnds;
    cnIpMap, ips := owners, [];
    for i := 0 to |pools|
      invariant (cnIpMap, ips) == Assigned(owners, pools[..i], id)
    {
      assert pools[..i + 1][..i] == pools[..i];
      assert SearchEnds(Assigned(owners, pools[..i], id).0, pools[i]);
      var free := FindFree(cnIpMap, pools[i]);
      ips := ips + [free];
      cnIpMap := cnIpMap[(match free case None => NilKey case Some(ip) => KeyOf(ip)) := id];
    }
    assert pools[..|pools|] == pools;
  }

  function Deleted(owners: Owners, id: string): Owners {
    map k | k in owners && owners[k] != id :: owners[k]
  }

  method Delete(owners: Owners, id: string) returns (newCnIpMap: Owners)
    ensures newCnIpMap == Deleted(owners, id)
    ensures forall k :: k in newCnIpMap <==> k in owners && owners[k] != id
    ensures forall k :: k in newCnIpMap ==> newCnIpMap[k] == owners[k]
  {
    newCnIpMap := map[];
    var todo := owners.Keys;
    while todo != {}
      invariant todo <= owners.Keys
      invariant newCnIpMap == map k | k in owners && k !in todo && owners[k] != id :: owners[k]
      decreases |todo|
    {
      var k :| k in todo;
      todo := todo - {k};
      if owners[k] != id {
        newCnIpMap := newCnIpMap[k := owners[k]];
      }
    }
  }

  /** Assigning takes nothing from anyone: every real key keeps its owner. */
  lemma {:induction false} AssignKeepsOwners(owners: Owners, pools: seq<Pool>, id: string, ip: IP)
    requires forall i :: 0 <= i < |pools| ==> pools[i].net != []
    requires Addr(ip) in owners
    ensures var after := Assigned(owners, pools, id).0; Addr(ip) in after && after[Addr(ip)] == owners[Addr(ip)]
  {
    hide NextFree;
    if pools != [] {
      var n := |pools| - 1;
      AssignKeepsOwners(owners, pools[..n], id, ip);
      FreeIsUnowned(Assigned(owners, pools[..n], id).0, pools[n]);
    }
  }

  /** Every address of the pool from the first one tried up to v is taken. */
  ghost predicate TakenBelow(owners: Owners, p: Pool, v: nat)
    requires p.net != []
  {
    forall w :: Value(MinAddress(p.net)) <= w < v ==> KeyOf(AddressOf(p, w)) in owners
  }

  /** The lowest address of the pool, from the first one tried upward, that is not in the map; 0.0.0.0 comes last. */
  ghost predicate IsLowestFree(owners: Owners, p: Pool, ip: IP)
    requires p.net != []
  {
    && KeyOf(ip) !in owners
    && (|| (exists v :: Value(MinAddress(p.net)) <= v < Top(p) && ip == AddressOf(p, v) && TakenBelow(owners, p, v))
        || (WholeSpace(p) && ip == p.net && TakenBelow(owners, p, Top(p))))
  }

  ghost predicate IsExhausted(owners: Owners, p: Pool)
    requires p.net != []
  {
    TakenBelow(owners, p, Top(p)) && (WholeSpace(p) && Value(MinAddress(p.net)) < Top(p) ==> KeyOf(p.net) in owners)
  }

  /** The address granted next is the lowest free one; there is none exactly when the pool is exhausted. */
  lemma FreeIsUnowned(owners: Owners, p: Pool)
    requires p.net != []
    ensures NextFree(owners, p).Some? ==>
      IsLowestFree(owners, p, NextFree(owners, p).value) && KeyOf(NextFree(owners, p).value) !in owners
    ensures NextFree(owners, p).None? <==> IsExhausted(owners, p)
  {
    hide Value;
    hide Top;
    hide AddressOf;
    hide KeyOf;
    hide MinAddress;
    hide WholeSpace;
    MinValue(p.net);
    LowestExact(owners, p, Value(MinAddress(p.net)));
  }

  /** Every granted address belongs to the container afterwards. */
  lemma {:induction false} AssignedBelong(owners: Owners, pools: seq<Pool>, id: string, i: nat)
    requires forall j :: 0 <= j < |pools| ==> pools[j].net != []
    requires i < |pools|
    ensures var (after, ips) := Assigned(owners, pools, id);
      && |ips| == |pools|
      && (ips[i].Some? ==> KeyOf(ips[i].value) in after && after[KeyOf(ips[i].value)] == id)
      && var (before, _) := Assigned(owners, pools[..i], id);
         ips[i] == NextFree(before, pools[i])
  {
    hide NextFree;
    hide KeyOf;
    var n := |pools| - 1;
    AssignedLength(owners, pools[..n], id);
    AssignedLength(owners, pools, id);
    if i < n {
      AssignedBelong(owners, pools[..n], id, i);
      assert pools[..n][..i] == pools[..i];
      var (before, ips) := Assigned(owners, pools[..n], id);
      assert Assigned(owners, pools, id).1[i] == ips[i];
    }
  }

  lemma {:induction false} AssignedLength(owners: Owners, pools: seq<Pool>, id: string)
    requires forall j :: 0 <= j < |pools| ==> pools[j].net != []
    ensures |Assigned(owners, pools, id).1| == |pools|
  {
    hide NextFree;
    if pools != [] {
      AssignedLength(owners, pools[..|pools| - 1], id);
    }
  }

  /**
   * Assigning adds the granted addresses and, if a pool is exhausted, the key that nil prints as,
   * all for the container, and nothing else; that key alone can change hands.
   */
  lemma {:induction false} AssignedExactly(owners: Owners, pools: seq<Pool>, id: string, k: Key)
    requires forall j :: 0 <= j < |pools| ==> pools[j].net != []
    ensures var (after, ips) := Assigned(owners, pools, id);
      && |ips| == |pools|
      && (k in after <==> k in owners || GrantsKey(ips, k))
      && (k in after ==> after[k] == if k in owners && (k.Addr? || !GrantsKey(ips, k)) then owners[k] else id)
  {
    hide NextFree;
    hide KeyOf;
    if pools != [] {
      var n := |pools| - 1;
      AssignedExactly(owners, pools[..n], id, k);
      var (before, ips) := Assigned(owners, pools[..n], id);
      var free := NextFree(before, pools[n]);
      assert Assigned(owners, pools, id).1 == ips + [free];
      MoreGrants(ips, free, k);
      FreeIsUnowned(before, pools[n]);
    }
  }

  /** Some result of the assignment is written under this key. */
  ghost predicate GrantsKey(ips: seq<Option<IP>>, k: Key) {
    exists i :: 0 <= i < |ips| && (if ips[i].Some? then k == KeyOf(ips[i].value) else k == NilKey)
  }

  lemma MoreGrants(ips: seq<Option<IP>>, free: Option<IP>, k: Key)
    ensures GrantsKey(ips + [free], k) <==>
      GrantsKey(ips, k) || (if free.Some? then k == KeyOf(free.value) else k == NilKey)
  {
    hide KeyOf;
    var more := ips + [free];
    assert more[|ips|] == free;
    assert forall i :: 0 <= i < |ips| ==> more[i] == ips[i];
  }

  /** Of two free addresses a pool grants the lower one first. */
  lemma FreeIsGranted(owners: Owners, p: Pool, v: nat)
    requires p.net != [] && Value(MinAddress(p.net)) <= v < Top(p) && KeyOf(AddressOf(p, v)) !in owners
    ensures exists w :: Value(MinAddress(p.net)) <= w <= v && NextFree(owners, p) == Some(AddressOf(p, w))
    ensures TakenBelow(owners, p, v) ==> NextFree(owners, p) == Some(AddressOf(p, v))
  {
    hide Value;
    hide Top;
    hide AddressOf;
    hide KeyOf;
    hide MinAddress;
    hide WholeSpace;
    MinValue(p.net);
    LowestExact(owners, p, Value(MinAddress(p.net)));
  }

  // ---- Clients against one API server ----

  /** The shared ConfigMap; the address map may be missing at first. */
  datatype ConfigMap = ConfigMap(owners: Option<Owners>, version: nat)

  datatype Op = AssignIp(id: string) | DeleteIp(id: string)

  datatype ClientState = Idle | Fetched(op: Op, copy: ConfigMap)

  datatype System = System(cm: ConfigMap, clients: map<nat, ClientState>)

  /** A client reads the ConfigMap for an operation, or writes its result back. */
  datatype Step = Fetch(client: nat, op: Op) | Write(client: nat)

  /** The map an operation writes; None if it fails before writing. */
  ghost function Computed(copy: ConfigMap, op: Op, pools: seq<Pool>): Option<Owners>
    requires forall i :: 0 <= i < |pools| ==> pools[i].net != []
  {
    match op
    case AssignIp(id) => Some(Assigned(copy.owners.GetOr(map[]), pools, id).0)
    case DeleteIp(id) => if copy.owners.None? then None else Some(Deleted(copy.owners.value, id))
  }

  /** The operation whose write takes effect in this step, if any. */
  ghost function Commits(s: System, step: Step, pools: seq<Pool>): Option<Op>
    requires forall i :: 0 <= i < |pools| ==> pools[i].net != []
  {
    if !step.Write? || step.client !in s.clients then None
    else
      match s.clients[step.client]
      case Idle => None
      case Fetched(op, copy) =>
        if Computed(copy, op, pools).Some? && copy.version == s.cm.version then Some(op) else None
  }

  ghost function Next(s: System, step: Step, pools: seq<Pool>): System
    requires forall i :: 0 <= i < |pools| ==> pools[i].net != []
  {
    match step
    case Fetch(c, op) => System(s.cm, s.clients[c := Fetched(op, s.cm)])
    case Write(c) =>
      if c !in s.clients || s.clients[c].Idle? then s
      else
        var Fetched(op, copy) := s.clients[c];
        var cm := if Commits(s, step, pools).Some?
                  then ConfigMap(Computed(copy, op, pools), s.cm.version + 1) else s.cm;
        System(cm, s.clients[c := Idle])
  }

  ghost function Run(s: System, steps: seq<Step>, pools: seq<Pool>): System
    requires forall i :: 0 <= i < |pools| ==> pools[i].net != []
  {
    if steps == [] then s else Next(Run(s, steps[..|steps| - 1], pools), steps[|steps| - 1], pools)
  }

  /** A copy of the current version is a copy of the current contents. */
  ghost predicate Consistent(s: System) {
    forall c :: c in s.clients && s.clients[c].Fetched? ==>
      && s.clients[c].copy.version <= s.cm.version
      && (s.clients[c].copy.version == s.cm.version ==> s.clients[c].copy == s.cm)
  }

  lemma ConsistentStep(s: System, step: Step, pools: seq<Pool>)
    requires forall i :: 0 <= i < |pools| ==> pools[i].net != []
    requires Consistent(s)
    ensures Consistent(Next(s, step, pools))
  {
    hide Computed;
  }

  lemma {:induction false} RunConsistent(s: System, steps: seq<Step>, pools: seq<Pool>)
    requires forall i :: 0 <= i < |pools| ==> pools[i].net != []
    requires Consistent(s)
    ensures Consistent(Run(s, steps, pools))
  {
    hide Consistent;
    hide Next;
    if steps != [] {
      var n := |steps| - 1;
      RunConsistent(s, steps[..n], pools);
      ConsistentStep(Run(s, steps[..n], pools), steps[n], pools);
    }
  }

  /** No write takes effect along the steps. */
  ghost predicate NoneCommits(s: System, steps: seq<Step>, pools: seq<Pool>)
    requires forall i :: 0 <= i < |pools| ==> pools[i].net != []
  {
    steps != [] ==>
      var n := |steps| - 1;
      NoneCommits(s, steps[..n], pools) && Commits(Run(s, steps[..n], pools), steps[n], pools).None?
  }

  lemma OtherWorks(s: System, c: nat, step: Step, pools: seq<Pool>)
    requires forall i :: 0 <= i < |pools| ==> pools[i].net != []
    requires c in s.clients && step.client != c
    ensures var t := Next(s, step, pools);
      && c in t.clients && t.clients[c] == s.clients[c]
      && t.cm.version == s.cm.version + (if Commits(s, step, pools).Some? then 1 else 0)
  {
    hide Computed;
  }

  /** While others work, a client keeps its copy, and the version stays the same exactly if nothing commits. */
  lemma {:induction false} OthersWork(s: System, c: nat, steps: seq<Step>, pools: seq<Pool>)
    requires forall i :: 0 <= i < |pools| ==> pools[i].net != []
    requires c in s.clients && forall i :: 0 <= i < |steps| ==> steps[i].client != c
    ensures var t := Run(s, steps, pools);
      && c in t.clients && t.clients[c] == s.clients[c]
      && s.cm.version <= t.cm.version
      && (t.cm.version == s.cm.version <==> NoneCommits(s, steps, pools))
  {
    hide Commits;
    hide Next;
    if steps != [] {
      var n := |steps| - 1;
      OthersWork(s, c, steps[..n], pools);
      OtherWorks(Run(s, steps[..n], pools), c, steps[n], pools);
    }
  }

  /**
   * A write takes effect exactly if none of the others' did since the client read the map; only
   * DeleteIp on a missing map fails by itself.
   */
  lemma WriteCommitsExactly(s: System, c: nat, op: Op, steps: seq<Step>, pools: seq<Pool>)
    requires forall i :: 0 <= i < |pools| ==> pools[i].net != []
    requires forall i :: 0 <= i < |steps| ==> steps[i].client != c
    ensures var fetched := Next(s, Fetch(c, op), pools);
      Commits(Run(fetched, steps, pools), Write(c), pools)
        == if NoneCommits(fetched, steps, pools) && (op.AssignIp? || s.cm.owners.Some?) then Some(op) else None
    ensures var after := Run(Next(s, Fetch(c, op), pools), steps, pools);
      Next(after, Write(c), pools).clients == after.clients[c := Idle]
  {
    hide Run;
    hide NoneCommits;
    hide Assigned;
    OthersWork(Next(s, Fetch(c, op), pools), c, steps, pools);
  }

  ghost predicate Owns(cm: ConfigMap, ip: IP, id: string) {
    cm.owners.Some? && Addr(ip) in cm.owners.value && cm.owners.value[Addr(ip)] == id
  }

  /** A step changes the owner of a real address only by deleting it for that owner. */
  lemma OwnerStep(s: System, step: Step, pools: seq<Pool>, ip: IP, id: string)
    requires forall i :: 0 <= i < |pools| ==> pools[i].net != []
    requires Consistent(s) && Owns(s.cm, ip, id)
    requires Commits(s, step, pools) != Some(DeleteIp(id))
    ensures Owns(Next(s, step, pools).cm, ip, id)
  {
    hide Assigned;
    var op := Commits(s, step, pools);
    if op.Some? && op.value.AssignIp? {
      AssignKeepsOwners(s.cm.owners.value, pools, op.value.id, ip);
    }
  }

  /** Over every run of any number of clients, an address keeps its owner until a DeleteIp of that owner commits. */
  lemma {:induction false} OwnerKept(s: System, steps: seq<Step>, pools: seq<Pool>, ip: IP, id: string)
    requires forall i :: 0 <= i < |pools| ==> pools[i].net != []
    requires Consistent(s) && Owns(s.cm, ip, id)
    requires forall i :: 0 <= i < |steps| ==> Commits(Run(s, steps[..i], pools), steps[i], pools) != Some(DeleteIp(id))
    ensures Owns(Run(s, steps, pools).cm, ip, id)
  {
    hide Consistent;
    hide Next;
    hide Owns;
    hide Commits;
    if steps != [] {
      var n := |steps| - 1;
      forall i | 0 <= i < n
        ensures Commits(Run(s, steps[..n][..i], pools), steps[..n][i], pools) != Some(DeleteIp(id))
      {
        assert steps[..n][..i] == steps[..i];
      }
      OwnerKept(s, steps[..n], pools, ip, id);
      RunConsistent(s, steps[..n], pools);
      OwnerStep(Run(s, steps[..n], pools), steps[n], pools, ip, id);
    }
  }

  /**
   * A committed AssignIp grants, pool by pool, the lowest address that is free in the ConfigMap as
   * it is at that moment (less what earlier pools of the same call took), and afterwards the
   * container owns it; nobody owned it before.
   */
  lemma GrantsLowestFree(s: System, step: Step, pools: seq<Pool>, id: string, i: nat)
    requires forall j :: 0 <= j < |pools| ==> pools[j].net != []
    requires Consistent(s) && Commits(s, step, pools) == Some(AssignIp(id)) && i < |pools|
    ensures var current := s.cm.owners.GetOr(map[]);
      var taken := Assigned(current, pools[..i], id).0;
      var granted := Assigned(current, pools, id).1;
      && |granted| == |pools|
      && (granted[i].Some? ==>
           && IsLowestFree(taken, pools[i], granted[i].value)
           && KeyOf(granted[i].value) !in current
           && Owns(Next(s, step, pools).cm, FileKey(granted[i].value), id))
      && (granted[i].None? <==> IsExhausted(taken, pools[i]))
  {
    hide Assigned;
    hide NextFree;
    hide FileKey;
    hide Value;
    hide Top;
    hide AddressOf;
    hide MinAddress;
    var current := s.cm.owners.GetOr(map[]);
    AssignedBelong(current, pools, id, i);
    var before := Assigned(current, pools[..i], id).0;
    FreeIsUnowned(before, pools[i]);
    var ip := NextFree(before, pools[i]);
    if ip.Some? && KeyOf(ip.value) in current {
      AssignKeepsOwners(current, pools[..i], id, FileKey(ip.value));
    }
  }

  // ---- What deleting frees ----

  /** A committed DeleteIp takes exactly the container's own entries out of the map. */
  lemma DeleteFrees(s: System, step: Step, pools: seq<Pool>, id: string)
    requires forall j :: 0 <= j < |pools| ==> pools[j].net != []
    requires Consistent(s) && Commits(s, step, pools) == Some(DeleteIp(id))
    ensures var before, after := s.cm.owners, Next(s, step, pools).cm.owners;
      && before.Some? && after.Some?
      && (forall k :: k in after.value <==> k in before.value && before.value[k] != id)
      && forall k :: k in after.value ==> after.value[k] == before.value[k]
  {
  }

  ghost predicate OwnsNothing(cm: ConfigMap, id: string) {
    forall k :: k in cm.owners.GetOr(map[]) ==> cm.owners.GetOr(map[])[k] != id
  }

  /** After its DeleteIp a container owns nothing, whatever all clients do, until an AssignIp for it commits. */
  lemma {:induction false} NothingUntilAssigned(s: System, steps: seq<Step>, pools: seq<Pool>, id: string)
    requires forall j :: 0 <= j < |pools| ==> pools[j].net != []
    requires Consistent(s) && |steps| > 0 && Commits(s, steps[0], pools) == Some(DeleteIp(id))
    requires forall i :: 0 < i < |steps| ==> Commits(Run(s, steps[..i], pools), steps[i], pools) != Some(AssignIp(id))
    ensures OwnsNothing(Run(s, steps, pools).cm, id)
    decreases |steps|
  {
    hide Consistent;
    hide Next;
    hide OwnsNothing;
    hide Commits;
    var n := |steps| - 1;
    if n == 0 {
      assert steps[..0] == [];
      DeleteFrees(s, steps[0], pools, id);
      NothingAfterDelete(s, steps[0], pools, id);
    } else {
      assert steps[..n][0] == steps[0];
      forall i | 0 < i < n
        ensures Commits(Run(s, steps[..n][..i], pools), steps[..n][i], pools) != Some(AssignIp(id))
      {
        assert steps[..n][..i] == steps[..i];
      }
      NothingUntilAssigned(s, steps[..n], pools, id);
      RunConsistent(s, steps[..n], pools);
      NothingStep(Run(s, steps[..n], pools), steps[n], pools, id);
    }
  }

  lemma NothingAfterDelete(s: System, step: Step, pools: seq<Pool>, id: string)
    requires forall j :: 0 <= j < |pools| ==> pools[j].net != []
    requires Consistent(s) && Commits(s, step, pools) == Some(DeleteIp(id))
    ensures OwnsNothing(Next(s, step, pools).cm, id)
  {
    hide Consistent;
    hide Next;
    hide Commits;
    DeleteFrees(s, step, pools, id);
  }

  lemma NothingStep(s: System, step: Step, pools: seq<Pool>, id: string)
    requires forall j :: 0 <= j < |pools| ==> pools[j].net != []
    requires Consistent(s) && OwnsNothing(s.cm, id) && Commits(s, step, pools) != Some(AssignIp(id))
    ensures OwnsNothing(Next(s, step, pools).cm, id)
  {
    hide Assigned;
    hide GrantsKey;
    var op := Commits(s, step, pools);
    if op.Some? && op.value.AssignIp? {
      var current := s.cm.owners.GetOr(map[]);
      forall k | k in Assigned(current, pools, op.value.id).0
        ensures Assigned(current, pools, op.value.id).0[k] != id
      {
        AssignedExactly(current, pools, op.value.id, k);
      }
    } else if op.Some? {
      DeleteFrees(s, step, pools, op.value.id);
      var after := Next(s, step, pools).cm.owners.value;
      forall k | k in after ensures after[k] != id {
        assert k in s.cm.owners.GetOr(map[]);
      }
    }
  }

  /**
   * What a DeleteIp frees is granted again: if the container owned an address of a pool, an AssignIp
   * that is the next to commit gets an address from that pool, none higher than this one, and one
   * that the container owned if the pool was exhausted.
   */
  lemma FreedIsGranted(s: System, step: Step, t: System, next: Step, pools: seq<Pool>, id: string, newID: string,
                       i: nat, v: nat)
    requires forall j :: 0 <= j < |pools| ==> pools[j].net != []
    requires Consistent(s) && Commits(s, step, pools) == Some(DeleteIp(id))
    requires Consistent(t) && t.cm == Next(s, step, pools).cm && Commits(t, next, pools) == Some(AssignIp(newID))
    requires i < |pools| && Value(MinAddress(pools[i].net)) <= v < Top(pools[i])
    requires Owns(s.cm, FileKey(AddressOf(pools[i], v)), id)
    requires KeyOf(AddressOf(pools[i], v)) !in Assigned(t.cm.owners.GetOr(map[]), pools[..i], newID).0
    ensures var granted := Assigned(t.cm.owners.GetOr(map[]), pools, newID).1;
      && |granted| == |pools|
      && (exists w :: Value(MinAddress(pools[i].net)) <= w <= v && granted[i] == Some(AddressOf(pools[i], w)))
      && Owns(Next(t, next, pools).cm, FileKey(granted[i].value), newID)
      && (IsExhausted(s.cm.owners.GetOr(map[]), pools[i]) ==> Owns(s.cm, FileKey(granted[i].value), id))
  {
    hide Assigned;
    hide NextFree;
    hide FileKey;
    hide Value;
    hide Top;
    hide AddressOf;
    hide MinAddress;
    hide WholeSpace;
    hide Consistent;
    hide Next;
    hide Commits;
    DeleteFrees(s, step, pools, id);
    GrantsLowestFree(t, next, pools, newID, i);
    AssignedBelong(t.cm.owners.GetOr(map[]), pools, newID, i);
    FreeIsGranted(Assigned(t.cm.owners.GetOr(map[]), pools[..i], newID).0, pools[i], v);
  }
}
