/** Reconciling a bridge's addresses: ensureAddr of bridge.go. */
module Bridge {
  import opened Bytes
  import opened Cidr
  import opened Masks

  /** An address with its prefix length. */
  datatype Net = Net(ip: IP, ones: nat)

  ghost predicate Good(n: Net, isV6: bool) {
    Canonical(n.ip) && n.ones <= 8 * |n.ip| && |n.ip| == if isV6 then 16 else 4
  }

  /** IPNet.Contains. */
  predicate Covers(n: Net, ip: IP) {
    n.ones <= 8 * |n.ip| && NetContains(n.ip, CIDRMask(n.ones, |n.ip|), ip)
  }

  /** An address that has to make way: any other IPv4 address, or an IPv6 address of an overlapping subnet. */
  predicate Conflicts(a: Net, isV6: bool, ipn: Net) {
    !isV6 || Covers(a, ipn.ip) || Covers(ipn, a.ip)
  }

  // ---- Prefix blocks ----

  function HostBits(n: Net): nat {
    if n.ones <= 8 * |n.ip| then 8 * |n.ip| - n.ones else 0
  }

  /** The number lies in the prefix block. */
  ghost predicate InPrefix(n: Net, v: nat) {
    v / Pow2(HostBits(n)) == Value(n.ip) / Pow2(HostBits(n))
  }

  ghost predicate BlocksMeet(a: Net, b: Net) {
    exists v: nat :: InPrefix(a, v) && InPrefix(b, v)
  }

  lemma CoversIsPrefix(a: Net, b: Net, isV6: bool)
    requires Good(a, isV6) && Good(b, isV6)
    ensures Covers(a, b.ip) <==> InPrefix(a, Value(b.ip))
  {
    hide Value;
    hide Pow2;
    hide NetContains;
    hide CIDRMask;
    ContainsIsBlockTest(a.ip, a.ones, b.ip);
  }

  /** Dividing by a larger power of two can go by way of a smaller one. */
  lemma QuotientThrough(v: nat, w: nat, k: nat, l: nat)
    requires k <= l && v / Pow2(k) == w / Pow2(k)
    ensures v / Pow2(l) == w / Pow2(l)
  {
    hide Pow2;
    Pow2Add(l - k, k);
    DivideTwice(v, Pow2(k), Pow2(l - k));
    DivideTwice(w, Pow2(k), Pow2(l - k));
  }

  lemma DivideTwice(v: nat, p: nat, q: nat)
    requires p > 0 && q > 0
    ensures q * p > 0 && v / (q * p) == v / p / q
  {
    var a := v / p;
    Gap(a % q, q, p);
    TwoDigits(v, a, a / q, a % q, v % p, p, q);
    QuotientUnique(v, q * p, a / q, a % q * p + v % p);
  }

  lemma TwoDigits(v: nat, a: nat, b: nat, s: nat, r: nat, p: nat, q: nat)
    requires v == a * p + r && a == b * q + s
    ensures v == b * (q * p) + (s * p + r)
  {
    Regroup(b, q, s, p);
  }

  lemma Regroup(b: nat, q: nat, s: nat, p: nat)
    ensures (b * q + s) * p == b * (q * p) + s * p
  {
  }

  /** Two subnets conflict exactly when their prefix blocks have a common address. */
  lemma CoversExactly(a: Net, b: Net, isV6: bool)
    requires Good(a, isV6) && Good(b, isV6)
    ensures Covers(a, b.ip) || Covers(b, a.ip) <==> BlocksMeet(a, b)
    ensures Conflicts(a, isV6, b) <==> !isV6 || BlocksMeet(a, b)
  {
    hide Value;
    hide Pow2;
    hide Covers;
    CoversIsPrefix(a, b, isV6);
    CoversIsPrefix(b, a, isV6);
    if v: nat :| InPrefix(a, v) && InPrefix(b, v) {
      if HostBits(a) <= HostBits(b) {
        QuotientThrough(v, Value(a.ip), HostBits(a), HostBits(b));
      } else {
        QuotientThrough(v, Value(b.ip), HostBits(b), HostBits(a));
      }
    }
    if Covers(a, b.ip) {
      assert InPrefix(b, Value(b.ip));
    }
    if Covers(b, a.ip) {
      assert InPrefix(a, Value(a.ip));
    }
  }

  // ---- ensureAddr ----

  datatype Scan = Present | Refused | Clear

  function RemoveNet(addrs: seq<Net>, a: Net): seq<Net> {
    if addrs == [] then []
    else if addrs[0] == a then addrs[1..]
    else [addrs[0]] + RemoveNet(addrs[1..], a)
  }

  /** The loop over the listed addresses, deleting from the link as it goes. */
  function ScanList(listed: seq<Net>, link: seq<Net>, isV6: bool, ipn: Net, force: bool): (seq<Net>, Scan)
    decreases listed
  {
    if listed == [] then (link, Clear)
    else if listed[0] == ipn then (link, Present)
    else if !Conflicts(listed[0], isV6, ipn) then ScanList(listed[1..], link, isV6, ipn, force)
    else if force then ScanList(listed[1..], RemoveNet(link, listed[0]), isV6, ipn, force)
    else (link, Refused)
  }

  /** Adding an address: the kernel refuses one it has already, which is no failure here. */
  function AddNet(addrs: seq<Net>, isV6: bool, ipn: Net): seq<Net> {
    if exists i :: 0 <= i < |addrs| && (if isV6 then addrs[i].ip == ipn.ip else addrs[i] == ipn) then addrs
    else addrs + [ipn]
  }

  /** The addresses of the family after ensureAddr, and whether it succeeds. */
  function Ensured(addrs: seq<Net>, isV6: bool, ipn: Net, force: bool): (seq<Net>, bool) {
    match ScanList(addrs, addrs, isV6, ipn, force)
    case (link, Present) => (link, true)
    case (link, Refused) => (link, false)
    case (link, Clear) => (AddNet(link, isV6, ipn), true)
  }

  class BridgeLink {
    var addrs4: seq<Net>
    var addrs6: seq<Net>

    constructor ()
      ensures addrs4 == addrs6 == []
    {
      addrs4, addrs6 := [], [];
    }

    function AddrList(isV6: bool): seq<Net>
      reads this
    {
      if isV6 then addrs6 else addrs4
    }

    method SetAddrs(isV6: bool, addrs: seq<Net>)
      modifies this
      ensures AddrList(isV6) == addrs && AddrList(!isV6) == old(AddrList(!isV6))
    {
      if isV6 {
        addrs6 := addrs;
      } else {
        addrs4 := addrs;
      }
    }

    method EnsureAddr(isV6: bool, ipn: Net, forceAddress: bool) returns (ok: bool)
      modifies this
      ensures (AddrList(isV6), ok) == Ensured(old(AddrList(isV6)), isV6, ipn, forceAddress)
      ensures AddrList(!isV6) == old(AddrList(!isV6))
    {
      hide Conflicts;
      var addrs := AddrList(isV6);
      assert addrs[0..] == addrs;
      for i := 0 to |addrs|
        invariant ScanList(addrs, addrs, isV6, ipn, forceAddress)
             == ScanList(addrs[i..], AddrList(isV6), isV6, ipn, forceAddress)
        invariant AddrList(!isV6) == old(AddrList(!isV6))
      {
        var a := addrs[i];
        assert addrs[i..][0] == a && addrs[i..][1..] == addrs[i + 1..];
        if a == ipn {
          return true;
        }
        if Conflicts(a, isV6, ipn) {
          if forceAddress {
            SetAddrs(isV6, RemoveNet(AddrList(isV6), a));
          } else {
            return false;
          }
        }
      }
      assert addrs[|addrs|..] == [];
      SetAddrs(isV6, AddNet(AddrList(isV6), isV6, ipn));
      return true;
    }
  }

  // ---- What ensureAddr keeps ----

  /** The addresses that do not conflict with the requested one. */
  function Kept(addrs: seq<Net>, isV6: bool, ipn: Net): seq<Net> {
    if addrs == [] then []
    else (if Conflicts(addrs[0], isV6, ipn) then [] else [addrs[0]]) + Kept(addrs[1..], isV6, ipn)
  }

  lemma {:induction false} KeptExact(addrs: seq<Net>, isV6: bool, ipn: Net)
    ensures forall a :: a in Kept(addrs, isV6, ipn) <==> a in addrs && !Conflicts(a, isV6, ipn)
    ensures (forall a :: a in addrs ==> !Conflicts(a, isV6, ipn)) ==> Kept(addrs, isV6, ipn) == addrs
  {
    hide Conflicts;
    if addrs != [] {
      KeptExact(addrs[1..], isV6, ipn);
      assert addrs == [addrs[0]] + addrs[1..];
    }
  }

  ghost predicate PairwiseApart(addrs: seq<Net>) {
    forall i, j :: 0 <= i < j < |addrs| ==> !BlocksMeet(addrs[i], addrs[j])
  }

  /** The first address is apart from the others, and the others from each other. */
  lemma ApartFromHead(addrs: seq<Net>)
    requires addrs != []
    ensures PairwiseApart(addrs) <==>
      PairwiseApart(addrs[1..]) && forall a :: a in addrs[1..] ==> !BlocksMeet(addrs[0], a)
  {
    hide BlocksMeet;
    var rest := addrs[1..];
    if PairwiseApart(addrs) {
      forall a | a in rest ensures !BlocksMeet(addrs[0], a) {
        var i :| 0 <= i < |rest| && rest[i] == a;
        assert addrs[i + 1] == a;
      }
    }
    if PairwiseApart(rest) && forall a :: a in rest ==> !BlocksMeet(addrs[0], a) {
      forall i, j | 0 <= i < j < |addrs| ensures !BlocksMeet(addrs[i], addrs[j]) {
        assert addrs[j] == rest[j - 1];
        if i > 0 {
          assert addrs[i] == rest[i - 1];
        }
      }
    }
  }

  lemma {:induction false} KeptApart(addrs: seq<Net>, isV6: bool, ipn: Net)
    requires PairwiseApart(addrs)
    ensures PairwiseApart(Kept(addrs, isV6, ipn))
  {
    hide Conflicts;
    hide BlocksMeet;
    if addrs != [] {
      var rest := Kept(addrs[1..], isV6, ipn);
      hide PairwiseApart;
      ApartFromHead(addrs);
      KeptApart(addrs[1..], isV6, ipn);
      KeptExact(addrs[1..], isV6, ipn);
      if Conflicts(addrs[0], isV6, ipn) {
        assert Kept(addrs, isV6, ipn) == rest;
      } else {
        assert Kept(addrs, isV6, ipn) == [addrs[0]] + rest;
        assert ([addrs[0]] + rest)[1..] == rest;
        ApartFromHead([addrs[0]] + rest);
      }
    }
  }

  lemma {:induction false} RemoveNetAfter(front: seq<Net>, back: seq<Net>, a: Net)
    requires a !in front && back != [] && back[0] == a
    ensures RemoveNet(front + back, a) == front + back[1..]
  {
    if front == [] {
      assert front + back == back;
    } else {
      assert (front + back)[1..] == front[1..] + back;
      RemoveNetAfter(front[1..], back, a);
    }
  }

  /** Without the requested address on the list, forcing keeps exactly what does not conflict. */
  lemma {:induction false} ScanForced(front: seq<Net>, listed: seq<Net>, isV6: bool, ipn: Net)
    requires forall a :: a in front ==> !Conflicts(a, isV6, ipn)
    requires ipn !in listed
    ensures ScanList(listed, front + listed, isV6, ipn, true) == (front + Kept(listed, isV6, ipn), Clear)
    decreases listed
  {
    hide Conflicts;
    if listed == [] {
    } else {
      var a := listed[0];
      if Conflicts(a, isV6, ipn) {
        RemoveNetAfter(front, listed, a);
        ScanForced(front, listed[1..], isV6, ipn);
        assert Kept(listed, isV6, ipn) == Kept(listed[1..], isV6, ipn);
      } else {
        assert front + listed == front + [a] + listed[1..];
        ScanForced(front + [a], listed[1..], isV6, ipn);
        assert front + [a] + Kept(listed[1..], isV6, ipn) == front + Kept(listed, isV6, ipn);
      }
    }
  }

  /** Without force nothing is deleted. */
  lemma {:induction false} ScanUnforced(listed: seq<Net>, link: seq<Net>, isV6: bool, ipn: Net)
    ensures ScanList(listed, link, isV6, ipn, false).0 == link
    ensures ScanList(listed, link, isV6, ipn, false).1 == Clear ==> forall a :: a in listed ==>
      a != ipn && !Conflicts(a, isV6, ipn)
    ensures ScanList(listed, link, isV6, ipn, false).1 == Present ==> ipn in listed
    ensures ScanList(listed, link, isV6, ipn, false).1 == Refused ==>
      exists a :: a in listed && a != ipn && Conflicts(a, isV6, ipn)
    decreases listed
  {
    hide Conflicts;
    if listed != [] {
      ScanUnforced(listed[1..], link, isV6, ipn);
      assert listed == [listed[0]] + listed[1..];
    }
  }

  /** On a list where only the requested address itself conflicts, the scan finds it and deletes nothing. */
  lemma {:induction false} ScanPresent(listed: seq<Net>, link: seq<Net>, isV6: bool, ipn: Net, force: bool)
    requires ipn in listed
    requires forall a :: a in listed && a != ipn ==> !Conflicts(a, isV6, ipn)
    ensures ScanList(listed, link, isV6, ipn, force) == (link, Present)
    decreases listed
  {
    hide Conflicts;
    if listed[0] != ipn {
      assert listed[0] in listed && listed == [listed[0]] + listed[1..];
      ScanPresent(listed[1..], link, isV6, ipn, force);
    }
  }

  /** On any list, forcing gives up the conflicting addresses in front of the requested one. */
  lemma {:induction false} ScanForcedTo(front: seq<Net>, listed: seq<Net>, isV6: bool, ipn: Net, k: nat)
    requires forall a :: a in front ==> !Conflicts(a, isV6, ipn)
    requires k <= |listed| && ipn !in listed[..k] && (k < |listed| ==> listed[k] == ipn)
    ensures ScanList(listed, front + listed, isV6, ipn, true)
         == (front + Kept(listed[..k], isV6, ipn) + listed[k..], if k < |listed| then Present else Clear)
    decreases k
  {
    hide Conflicts;
    if k > 0 {
      var a, rest := listed[0], listed[1..];
      assert listed[..k] == [a] + rest[..k - 1] && rest[k - 1..] == listed[k..];
      KeptFront(a, rest[..k - 1], isV6, ipn);
      if Conflicts(a, isV6, ipn) {
        RemoveNetAfter(front, listed, a);
        ScanForcedTo(front, rest, isV6, ipn, k - 1);
        assert Kept(listed[..k], isV6, ipn) == Kept(rest[..k - 1], isV6, ipn);
      } else {
        assert front + listed == front + [a] + rest;
        ScanForcedTo(front + [a], rest, isV6, ipn, k - 1);
        assert front + [a] + Kept(rest[..k - 1], isV6, ipn) == front + Kept(listed[..k], isV6, ipn);
      }
    } else {
      assert front + [] + listed == front + listed;
    }
  }

  /** Without force only the addresses in front of the requested one can make the scan refuse. */
  lemma {:induction false} ScanUnforcedTo(listed: seq<Net>, link: seq<Net>, isV6: bool, ipn: Net, k: nat)
    requires k <= |listed| && ipn !in listed[..k] && (k < |listed| ==> listed[k] == ipn)
    ensures ScanList(listed, link, isV6, ipn, false)
         == (link, if exists a :: a in listed[..k] && Conflicts(a, isV6, ipn) then Refused
                   else if k < |listed| then Present else Clear)
    decreases k
  {
    hide Conflicts;
    if k > 0 {
      assert listed[..k] == [listed[0]] + listed[1..][..k - 1];
      ScanUnforcedTo(listed[1..], link, isV6, ipn, k - 1);
    }
  }

  /**
   * What ensureAddr does to any list, tidy or not: it looks at the addresses in front of the requested
   * one, at all of them if that is not there. If one conflicts it refuses, or by force gives up those
   * that do; the others stay in their order, and the requested one is added if it was not there.
   */
  lemma EnsuredExactly(addrs: seq<Net>, isV6: bool, ipn: Net, force: bool, k: nat)
    requires k <= |addrs| && ipn !in addrs[..k] && (k < |addrs| ==> addrs[k] == ipn)
    ensures Ensured(addrs, isV6, ipn, force)
         == if !force && exists a :: a in addrs[..k] && Conflicts(a, isV6, ipn) then (addrs, false)
            else if k < |addrs| then (Kept(addrs[..k], isV6, ipn) + addrs[k..], true)
            else (AddNet(Kept(addrs, isV6, ipn), isV6, ipn), true)
  {
    hide *;
    EnsuredDef(addrs, isV6, ipn, force);
    if force {
      ScanForcedTo([], addrs, isV6, ipn, k);
      assert [] + addrs == addrs;
      assert [] + Kept(addrs[..k], isV6, ipn) == Kept(addrs[..k], isV6, ipn);
    } else {
      ScanUnforcedTo(addrs, addrs, isV6, ipn, k);
      KeptExact(addrs[..k], isV6, ipn);
      assert addrs[..k] + addrs[k..] == addrs;
    }
    if k == |addrs| {
      assert addrs[..k] == addrs;
      assert Kept(addrs, isV6, ipn) + addrs[k..] == Kept(addrs, isV6, ipn);
    }
  }

  lemma EnsuredDef(addrs: seq<Net>, isV6: bool, ipn: Net, force: bool)
    ensures Ensured(addrs, isV6, ipn, force) ==
      match ScanList(addrs, addrs, isV6, ipn, force)
      case (link, Present) => (link, true)
      case (link, Refused) => (link, false)
      case (link, Clear) => (AddNet(link, isV6, ipn), true)
  {
    hide ScanList;
    hide AddNet;
  }

  lemma KeptFront(a: Net, rest: seq<Net>, isV6: bool, ipn: Net)
    ensures Kept([a] + rest, isV6, ipn) == (if Conflicts(a, isV6, ipn) then [] else [a]) + Kept(rest, isV6, ipn)
  {
    hide Conflicts;
    assert ([a] + rest)[1..] == rest;
  }

  /** At most one IPv4 address; IPv6 addresses with pairwise disjoint prefix blocks. */
  ghost predicate Tidy(addrs: seq<Net>, isV6: bool) {
    && (forall i :: 0 <= i < |addrs| ==> Good(addrs[i], isV6))
    && (!isV6 ==> |addrs| <= 1)
    && (isV6 ==> PairwiseApart(addrs))
  }

  /** In a tidy list an address that is there conflicts with no other. */
  lemma TidyPresent(addrs: seq<Net>, isV6: bool, ipn: Net, a: Net)
    requires Tidy(addrs, isV6) && ipn in addrs && a in addrs && a != ipn
    ensures !Conflicts(a, isV6, ipn)
  {
    hide Covers;
    hide BlocksMeet;
    hide Good;
    var i :| 0 <= i < |addrs| && addrs[i] == ipn;
    var j :| 0 <= j < |addrs| && addrs[j] == a;
    CoversExactly(a, ipn, isV6);
    MeetSymmetric(a, ipn);
  }

  lemma MeetSymmetric(a: Net, b: Net)
    ensures BlocksMeet(a, b) <==> BlocksMeet(b, a)
  {
    hide InPrefix;
  }

  /**
   * ensureAddr keeps the bridge tidy. It succeeds with the requested address present, or refuses,
   * only without force, exactly because another address conflicts, and then changes nothing. With
   * force it gives up exactly the conflicting addresses.
   */
  lemma EnsureKeepsTidy(addrs: seq<Net>, isV6: bool, ipn: Net, force: bool)
    requires Tidy(addrs, isV6) && Good(ipn, isV6)
    ensures var (addrs', ok) := Ensured(addrs, isV6, ipn, force);
      && Tidy(addrs', isV6)
      && (ok ==> ipn in addrs')
      && (!ok ==> addrs' == addrs)
      && (!ok <==> !force && ipn !in addrs && exists a :: a in addrs && Conflicts(a, isV6, ipn))
      && (ok ==> addrs' == if ipn in addrs then addrs else Kept(addrs, isV6, ipn) + [ipn])
  {
    hide Conflicts;
    hide Good;
    hide BlocksMeet;
    if ipn in addrs {
      forall a | a in addrs && a != ipn ensures !Conflicts(a, isV6, ipn) {
        TidyPresent(addrs, isV6, ipn, a);
      }
      ScanPresent(addrs, addrs, isV6, ipn, force);
    } else {
      KeptExact(addrs, isV6, ipn);
      var kept := Kept(addrs, isV6, ipn);
      KeptIsTidy(addrs, isV6, ipn);
      NotYetThere(kept, isV6, ipn);
      if force {
        assert [] + addrs == addrs && [] + kept == kept;
        ScanForced([], addrs, isV6, ipn);
      } else {
        ScanUnforced(addrs, addrs, isV6, ipn);
      }
    }
  }

  lemma KeptIsTidy(addrs: seq<Net>, isV6: bool, ipn: Net)
    requires Tidy(addrs, isV6) && Good(ipn, isV6)
    ensures Tidy(Kept(addrs, isV6, ipn) + [ipn], isV6)
    ensures forall a :: a in Kept(addrs, isV6, ipn) ==> Good(a, isV6) && !Conflicts(a, isV6, ipn)
  {
    hide Good;
    hide BlocksMeet;
    hide Kept;
    hide Covers;
    var kept := Kept(addrs, isV6, ipn);
    KeptExact(addrs, isV6, ipn);
    assert forall i :: 0 <= i < |kept| ==> kept[i] in kept;
    if isV6 {
      forall a | a in kept ensures !BlocksMeet(a, ipn) {
        CoversExactly(a, ipn, isV6);
      }
      KeptApart(addrs, isV6, ipn);
    } else {
      NoneKept(addrs, ipn);
    }
  }

  /** In IPv4 every other address makes way. */
  lemma {:induction false} NoneKept(addrs: seq<Net>, ipn: Net)
    ensures Kept(addrs, false, ipn) == []
  {
    if addrs != [] {
      NoneKept(addrs[1..], ipn);
    }
  }

  /** An address that does not conflict is not the requested one under another prefix length. */
  lemma NotYetThere(kept: seq<Net>, isV6: bool, ipn: Net)
    requires Good(ipn, isV6) && forall a :: a in kept ==> Good(a, isV6) && !Conflicts(a, isV6, ipn)
    ensures AddNet(kept, isV6, ipn) == kept + [ipn]
  {
    hide Covers;
    forall a | a in kept ensures a.ip != ipn.ip {
      CoversIsPrefix(a, ipn, isV6);
    }
    assert forall i :: 0 <= i < |kept| ==> kept[i] in kept;
  }

  datatype Request = Request(isV6: bool, ipn: Net, force: bool)

  /** The address lists after a sequence of requests on an empty bridge. */
  function AfterAll(requests: seq<Request>, isV6: bool): seq<Net> {
    if requests == [] then []
    else
      var before, r := AfterAll(requests[..|requests| - 1], isV6), requests[|requests| - 1];
      if r.isV6 == isV6 then Ensured(before, isV6, r.ipn, r.force).0 else before
  }

  /** However ensureAddr is called on a bridge that began empty, it stays tidy in both families. */
  lemma {:induction false} AlwaysTidy(requests: seq<Request>, isV6: bool)
    requires forall i :: 0 <= i < |requests| ==> Good(requests[i].ipn, requests[i].isV6)
    ensures Tidy(AfterAll(requests, isV6), isV6)
  {
    hide Tidy;
    hide Good;
    hide Ensured;
    if requests == [] {
      TidyNone(isV6);
    } else {
      var r := requests[|requests| - 1];
      AlwaysTidy(requests[..|requests| - 1], isV6);
      if r.isV6 == isV6 {
        EnsureKeepsTidy(AfterAll(requests[..|requests| - 1], isV6), isV6, r.ipn, r.force);
      }
    }
  }

  lemma TidyNone(isV6: bool)
    ensures Tidy([], isV6)
  {
  }
}
