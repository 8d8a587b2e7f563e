/**
 * Where the iterator goes on sets it was not made for: ranges below a leading zero byte, and ranges
 * that start at the broadcast address. Neither walk comes back to its start.
 */
module IteratorCorners {
  import opened Wrappers
  import opened Bytes
  import opened Cidr
  import opened Masks
  import opened Ranges
  import opened RangeMeaning
  import opened RangeSets
  import opened Ring
  import opened RangeIterator

  /** The cursor after a number of moves. */
  function MovedTimes(s: RangeSet, c: Cursor, n: nat): (m: Cursor)
    requires c.rangeIdx < |s|
    ensures m.rangeIdx < |s|
  {
    if n == 0 then c else Moved(s, MovedTimes(s, c, n - 1)).0
  }

  // ---- A cursor that is no address ----

  /** The cursor holds bytes of no address's length, within a range whose end is an address. */
  predicate Astray(s: RangeSet, c: Cursor) {
    && c.rangeIdx < |s|
    && c.cur.Some? && CanonicalizeIP(c.cur.value).None?
    && s[c.rangeIdx].rangeEnd.Some? && CanonicalizeIP(s[c.rangeIdx].rangeEnd.value).Some?
    && c.startIP.Some?
  }

  /** A cursor that is no address moves to the one byte 1, and the walk ends there only if it began there. */
  lemma AstrayMove(s: RangeSet, c: Cursor)
    requires Astray(s, c)
    ensures Moved(s, c).0 == c.(cur := Some([1]))
    ensures Moved(s, c).1 <==> c.rangeIdx == c.startRange && c.startIP == Some([1])
    ensures Astray(s, Moved(s, c).0)
  {
    hide Minimal;
    SmallValues();
    var cur, end := c.cur.value, s[c.rangeIdx].rangeEnd.value;
    CanonicalizeIdempotent(cur);
    CanonicalizeIdempotent(end);
    assert !Equal(cur, end);
    assert IpToInt(cur) == Value([]);
    assert NextIP(cur) == [1];
  }

  /** From an address that is not its range's end and whose successor is no address the walk goes astray. */
  lemma StrayStep(s: RangeSet, c: Cursor, a: IP)
    requires c.rangeIdx < |s| && c.cur.Some? && CanonicalizeIP(c.cur.value) == Some(a)
    requires s[c.rangeIdx].rangeEnd.Some? && CanonicalizeIP(s[c.rangeIdx].rangeEnd.value).Some?
    requires CanonicalizeIP(s[c.rangeIdx].rangeEnd.value) != Some(a) && CanonicalizeIP(NextIP(a)).None?
    requires c.startIP.Some? ==> CanonicalizeIP(c.startIP.value).Some?
    ensures Moved(s, c) == (c.(cur := Some(NextIP(a)), startIP := Some(c.startIP.GetOr(NextIP(a)))), false)
    ensures Astray(s, Moved(s, c).0)
  {
    hide Minimal;
    hide Value;
    var cur, end := c.cur.value, s[c.rangeIdx].rangeEnd.value;
    CanonicalizeIdempotent(cur);
    CanonicalizeIdempotent(end);
    assert !Equal(cur, end);
    assert NextIP(cur) == NextIP(a);
    if c.startIP.Some? {
      CanonicalizeIdempotent(c.startIP.value);
      assert !Equal(NextIP(a), c.startIP.value);
    }
  }

  /** An IPv4 address below a leading zero byte has a successor that is an address only at 0.255.255.255. */
  lemma ZeroByteStrays(a: IP)
    requires |a| == 4 && a[0] == 0
    ensures CanonicalizeIP(NextIP(a)).None? <==> Value(a) + 1 < Pow2(24)
  {
    hide Value;
    hide Pow2;
    hide Minimal;
    CanonicalizeIdempotent(a);
    CanonicalizeIdempotent(NextIP(a));
    FirstByte(a);
    Pow2Add(8, 24);
    Pow2Eight();
    NextIPFamily(a);
    NextIPAgreesWithInc(a);
    ShortDefault(a);
  }

  /** It stays there for ever. */
  lemma {:induction false} AstrayForEver(s: RangeSet, c: Cursor, n: nat)
    requires Astray(s, c)
    ensures MovedTimes(s, c, n + 1) == c.(cur := Some([1]))
    ensures Moved(s, MovedTimes(s, c, n)).1 <==> c.rangeIdx == c.startRange && c.startIP == Some([1])
  {
    hide Moved;
    if n == 0 {
      AstrayMove(s, c);
    } else {
      AstrayForEver(s, c, n - 1);
      AstrayMove(s, c);
      AstrayMove(s, MovedTimes(s, c, n));
    }
  }

  lemma {:induction false} MovedTimesAdd(s: RangeSet, c: Cursor, m: nat, n: nat)
    requires c.rangeIdx < |s|
    ensures MovedTimes(s, c, m + n) == MovedTimes(s, MovedTimes(s, c, m), n)
  {
    hide Moved;
    if n > 0 {
      MovedTimesAdd(s, c, m, n - 1);
    }
  }

  /**
   * From an address that is not its range's end and whose successor is no address, the walk goes to
   * that successor, then to the one byte 1, and stays there; it ends there only if it began with 1.
   */
  lemma StrayWalk(s: RangeSet, c: Cursor, a: IP, n: nat)
    requires c.rangeIdx < |s| && c.cur.Some? && CanonicalizeIP(c.cur.value) == Some(a)
    requires s[c.rangeIdx].rangeEnd.Some? && CanonicalizeIP(s[c.rangeIdx].rangeEnd.value).Some?
    requires CanonicalizeIP(s[c.rangeIdx].rangeEnd.value) != Some(a) && CanonicalizeIP(NextIP(a)).None?
    requires c.startIP.Some? ==> CanonicalizeIP(c.startIP.value).Some?
    ensures MovedTimes(s, c, 1).cur == Some(NextIP(a)) && MovedTimes(s, c, n + 2).cur == Some([1])
    ensures !Moved(s, MovedTimes(s, c, 0)).1
    ensures Moved(s, MovedTimes(s, c, n + 1)).1 <==>
            c.startIP.None? && NextIP(a) == [1] && c.rangeIdx == c.startRange
  {
    hide Moved;
    hide NextIP;
    hide Astray;
    StrayStep(s, c, a);
    var m := Moved(s, c).0;
    assert MovedTimes(s, c, 0) == c && MovedTimes(s, c, 1) == m;
    AstrayParts(s, m);
    MovedTimesAdd(s, c, 1, n);
    MovedTimesAdd(s, c, 1, n + 1);
    AstrayForEver(s, m, n);
  }

  lemma AstrayParts(s: RangeSet, c: Cursor)
    requires Astray(s, c)
    ensures c.rangeIdx < |s| && c.cur.Some? && c.startIP.Some?
    ensures CanonicalizeIP([1]).None?
  {
  }

  lemma FirstMove(s: RangeSet)
    requires s != []
    ensures MovedTimes(s, FirstCursor(s), 0) == FirstCursor(s)
    ensures MovedTimes(s, FirstCursor(s), 1) == Cursor(0, s[0].rangeStart, s[0].rangeStart, 0)
    ensures !Moved(s, FirstCursor(s)).1
    ensures FirstCursor(s).rangeIdx < |s|
  {
    assert MovedTimes(s, FirstCursor(s), 0) == FirstCursor(s);
  }

  // ---- A subnet below a leading zero byte ----

  /** Below a leading zero byte of IPv4 the default start is no address. */
  lemma ZeroByteUnreadable(r: Range)
    requires GoodSubnet(r) && |Network(r)| == 4 && Network(r)[0] == 0
    ensures !ReadableDefault(r)
    ensures NextIP(Network(r)) == [1] <==> Value(Network(r)) == 0
  {
    hide Value;
    hide Pow2;
    hide CIDRMask;
    hide SimpleMaskLength;
    hide Minimal;
    GoodSubnetParts(r);
    var s := Network(r);
    FirstHost(s, PrefixLength(r));
    ShortDefault(s);
    CanonicalizeIdempotent(NextIP(s));
    SmallValues();
    IpToIntValue(s);
    ValueOfOne();
  }

  lemma ValueOfOne()
    ensures Value([1]) == 1
  {
    assert [1][..0] == [];
    assert Value([]) == 0;
  }

  lemma StoredEndIsAddress(r: Range)
    requires Canonicalized(r).1.None?
    ensures GoodSubnet(r)
    ensures var c := Canonicalized(r).0;
      && c.rangeEnd.Some? && CanonicalizeIP(c.rangeEnd.value).Some?
      && (r.rangeStart.None? ==> c.rangeStart == Some(NextIP(Network(r))))
      && (r.gateway.None? ==> c.gateway == Some(NextIP(Network(r))))
  {
    hide Value;
    hide Pow2;
    hide CIDRMask;
    hide SimpleMaskLength;
    hide Canonicalized;
    hide NextIP;
    hide LastIP;
    CanonicalizeAccepts(r);
    GoodSubnetParts(r);
    LastIPValue(Network(r), PrefixLength(r));
    CanonicalizeIdempotent(LastIP(Network(r), r.mask));
    FamilyLength(Network(r));
    if r.rangeEnd.Some? {
      CanonicalizeIdempotent(r.rangeEnd.value);
      CanonicalizeIdempotent(CanonicalizeIP(r.rangeEnd.value).value);
    }
  }

  /**
   * A set that begins with a subnet whose default start is no address: the iterator hands out that
   * start, then the one byte 1, and stays there. Its stop test succeeds exactly for the network 0.
   */
  lemma ZeroNetworkWalk(r: Range, s: RangeSet, n: nat)
    requires Canonicalized(r).1.None? && r.rangeStart.None? && !ReadableDefault(r)
    requires s != [] && s[0] == Canonicalized(r).0
    ensures MovedTimes(s, FirstCursor(s), 1) == Cursor(0, Some(NextIP(Network(r))), Some(NextIP(Network(r))), 0)
    ensures MovedTimes(s, FirstCursor(s), n + 2) == Cursor(0, Some([1]), Some(NextIP(Network(r))), 0)
    ensures Moved(s, MovedTimes(s, FirstCursor(s), n + 1)).1 <==> NextIP(Network(r)) == [1]
  {
    hide *;
    StoredEndIsAddress(r);
    FirstMove(s);
    var m := MovedTimes(s, FirstCursor(s), 1);
    AstrayStart(r, s, m);
    AstrayForEver(s, m, n);
    MovedTimesAdd(s, FirstCursor(s), 1, n);
    MovedTimesAdd(s, FirstCursor(s), 1, n + 1);
  }

  lemma AstrayStart(r: Range, s: RangeSet, m: Cursor)
    requires !ReadableDefault(r) && s != [] && s[0].rangeEnd.Some? && CanonicalizeIP(s[0].rangeEnd.value).Some?
    requires m == Cursor(0, Some(NextIP(Network(r))), Some(NextIP(Network(r))), 0)
    ensures Astray(s, m) && m.rangeIdx == m.startRange
  {
    hide CanonicalizeIP;
    hide NextIP;
    hide Network;
  }

  // ---- Walking off the end of IPv4 ----

  /**
   * The cursor is an IPv4 address, the walk began at it or below it, and the range's end is no
   * IPv4 address from it on.
   */
  predicate OffEnd(s: RangeSet, c: Cursor) {
    && c.rangeIdx < |s|
    && c.cur.Some? && |c.cur.value| == 4 && c.cur.value[0] != 0
    && c.startIP.Some? && |c.startIP.value| == 4 && Value(c.startIP.value) <= Value(c.cur.value)
    && s[c.rangeIdx].rangeEnd.Some?
    && match CanonicalizeIP(s[c.rangeIdx].rangeEnd.value)
       case None => false
       case Some(end) => |end| == 4 ==> Value(end) < Value(c.cur.value)
  }

  /** It moves to the next number and never back to the start; after 255.255.255.255 come five bytes. */
  lemma OffEndMove(s: RangeSet, c: Cursor)
    requires OffEnd(s, c)
    ensures Moved(s, c) == (c.(cur := Some(NextIP(c.cur.value))), false)
    ensures Value(c.cur.value) < Pow2(32)
    ensures Value(c.cur.value) + 1 < Pow2(32) ==>
      OffEnd(s, Moved(s, c).0) && Value(NextIP(c.cur.value)) == Value(c.cur.value) + 1
    ensures Value(c.cur.value) + 1 == Pow2(32) ==> Astray(s, Moved(s, c).0)
  {
    hide Value;
    hide Pow2;
    hide Minimal;
    var a, start, end := c.cur.value, c.startIP.value, s[c.rangeIdx].rangeEnd.value;
    ValueBound(a);
    CanonicalizeIdempotent(a);
    CanonicalizeIdempotent(end);
    NextAddress(a);
    CanonicalizeIdempotent(NextIP(a));
    assert !Equal(a, end);
    assert !Equal(NextIP(a), start);
  }

  lemma NextAddress(a: IP)
    requires |a| == 4 && a[0] != 0
    ensures Value(a) < Pow2(32) && Value(NextIP(a)) == Value(a) + 1
    ensures Value(a) + 1 < Pow2(32) ==> |NextIP(a)| == 4 && NextIP(a)[0] != 0
    ensures Value(a) + 1 == Pow2(32) ==> |NextIP(a)| == 5
  {
    hide Value;
    hide Pow2;
    hide Minimal;
    ValueBound(a);
    CanonicalizeIdempotent(a);
    FirstByte(a);
    NextIPAgreesWithInc(a);
    NextIPFamily(a);
    IpToIntValue(a);
    if Value(a) + 1 == Pow2(32) {
      Pow2Add(8, 32);
      Pow2Eight();
      MinimalIsFixed(Value(a) + 1, 5);
    } else {
      FirstByte(NextIP(a));
    }
  }

  /** Number by number up to the end of the address space. */
  lemma {:induction false} RunsOff(s: RangeSet, c: Cursor, n: nat)
    requires OffEnd(s, c) && Value(c.cur.value) + n < Pow2(32)
    ensures OffEnd(s, MovedTimes(s, c, n)) && !Moved(s, MovedTimes(s, c, n)).1
    ensures var m := MovedTimes(s, c, n); m == c.(cur := m.cur) && Value(m.cur.value) == Value(c.cur.value) + n
    decreases n
  {
    hide Moved;
    hide OffEnd;
    hide Value;
    hide Pow2;
    OffEndParts(s, c);
    if n > 0 {
      RunsOff(s, c, n - 1);
      OffEndParts(s, MovedTimes(s, c, n - 1));
      OffEndMove(s, MovedTimes(s, c, n - 1));
    }
    OffEndMove(s, MovedTimes(s, c, n));
  }

  lemma OffEndParts(s: RangeSet, c: Cursor)
    requires OffEnd(s, c)
    ensures c.rangeIdx < |s| && c.cur.Some? && |c.cur.value| == 4 && c.startIP.Some? && |c.startIP.value| == 4
  {
  }

  /** Beyond it the walk goes astray, so it never ends. */
  lemma RunsOffForEver(s: RangeSet, c: Cursor, n: nat)
    requires OffEnd(s, c)
    ensures c.rangeIdx < |s| && !Moved(s, MovedTimes(s, c, n)).1
    ensures n > Pow2(32) - Value(c.cur.value) ==> MovedTimes(s, c, n) == c.(cur := Some([1]))
  {
    hide *;
    OffEndParts(s, c);
    OffEndMove(s, c);
    var left := Pow2(32) - Value(c.cur.value);
    if n < left {
      RunsOff(s, c, n);
    } else {
      RunsOff(s, c, left - 1);
      OffEndMove(s, MovedTimes(s, c, left - 1));
      MovedTimesStep(s, c, left - 1);
      var out := MovedTimes(s, c, left);
      MovedTimesAdd(s, c, left, n - left);
      AstrayForEver(s, out, n - left);
      NotOne(c.startIP.value);
      if n > left {
        AstrayForEver(s, out, n - left - 1);
      }
    }
  }

  lemma NotOne(start: IP)
    requires |start| == 4
    ensures Some(start) != Some([1])
  {
  }

  lemma MovedTimesStep(s: RangeSet, c: Cursor, n: nat)
    requires c.rangeIdx < |s|
    ensures MovedTimes(s, c, n + 1) == Moved(s, MovedTimes(s, c, n)).0
  {
    hide Moved;
  }

  /** The same seen from a new iterator whose first move sets the cursor to such an address. */
  lemma FirstRunsOff(s: RangeSet, n: nat)
    requires s != [] && OffEnd(s, Cursor(0, s[0].rangeStart, s[0].rangeStart, 0))
    ensures s[0].rangeStart.Some? && !Moved(s, MovedTimes(s, FirstCursor(s), n)).1
    ensures var a := s[0].rangeStart.value;
      && (Value(a) + n < Pow2(32) ==>
            var m := MovedTimes(s, FirstCursor(s), n + 1);
            && m.rangeIdx == m.startRange == 0 && m.startIP == s[0].rangeStart
            && m.cur.Some? && |m.cur.value| == 4 && Value(m.cur.value) == Value(a) + n)
      && (n > Pow2(32) - Value(a) + 1 ==> MovedTimes(s, FirstCursor(s), n).cur == Some([1]))
  {
    hide *;
    var c := Cursor(0, s[0].rangeStart, s[0].rangeStart, 0);
    OffEndParts(s, c);
    OffEndMove(s, c);
    FirstMove(s);
    MovedTimesAdd(s, FirstCursor(s), 1, n);
    if Value(s[0].rangeStart.value) + n < Pow2(32) {
      RunsOff(s, c, n);
      OffEndParts(s, MovedTimes(s, c, n));
    }
    if n > 0 {
      MovedTimesAdd(s, FirstCursor(s), 1, n - 1);
      RunsOffForEver(s, c, n - 1);
    }
  }

  // ---- A range that starts at the broadcast address ----

  /** The first range starts at the broadcast address and leaves its end open. */
  ghost predicate BeginsAtBroadcast(r: Range, s: RangeSet) {
    && GoodSubnet(r) && Network(r)[0] != 0 && StartsAtBroadcast(r) && Canonicalized(r).1.None?
    && s != [] && s[0] == Canonicalized(r).0
  }

  /**
   * A set whose first range starts at the broadcast address and leaves its end open: the iterator
   * hands out the broadcast address, which is not in the range, and then the addresses after it,
   * which are not in the subnet, up to the end of the address space.
   */
  lemma BroadcastStartWalk(r: Range, s: RangeSet, n: nat)
    requires BeginsAtBroadcast(r, s) && Position(r.rangeStart) + n < Pow2(32)
    ensures var c := Canonicalized(r).0;
      var m := MovedTimes(s, FirstCursor(s), n + 1);
      && m.rangeIdx == 0 && m.startIP == c.rangeStart && m.startRange == 0 && m.cur.Some?
      && |m.cur.value| == 4 && Value(m.cur.value) == Value(Network(r)) + Size(r) - 1 + n
      && !Contains(c, m.cur.value)
      && (n > 0 ==> !NetContains(c.subnet, c.mask, m.cur.value))
  {
    hide *;
    BroadcastRange(r, s);
    FirstMove(s);
    FirstRunsOff(s, n);
    OutOfRange(r, Canonicalized(r).0, MovedTimes(s, FirstCursor(s), n + 1).cur.value, n);
  }

  /** After the end of the address space the cursor is no address, and it never comes back: the walk does not end. */
  lemma BroadcastStartNeverEnds(r: Range, s: RangeSet, n: nat)
    requires BeginsAtBroadcast(r, s)
    ensures !Moved(s, MovedTimes(s, FirstCursor(s), n)).1
    ensures n > Pow2(32) - Position(r.rangeStart) + 1 ==> MovedTimes(s, FirstCursor(s), n).cur == Some([1])
  {
    hide *;
    BroadcastRange(r, s);
    FirstMove(s);
    FirstRunsOff(s, n);
  }

  lemma BroadcastRange(r: Range, s: RangeSet)
    requires BeginsAtBroadcast(r, s)
    ensures s != [] && s[0] == Canonicalized(r).0 && GoodSubnet(r)
    ensures var c := Canonicalized(r).0;
      && WellFormed(c, PrefixLength(r)) && c.subnet == Network(r) && c.mask == r.mask && |c.subnet| == 4
      && c.rangeStart.Some? && c.rangeEnd.Some? && Canonical(c.rangeEnd.value) && |c.rangeEnd.value| == 4
      && |c.rangeStart.value| == 4 && Position(r.rangeStart) == Value(c.rangeStart.value)
      && Value(c.rangeStart.value) == Value(Network(r)) + Size(r) - 1
      && Value(c.rangeEnd.value) == Value(Network(r)) + Size(r) - 2
    ensures Size(r) >= 4 && Size(r) == Pow2(32 - PrefixLength(r)) && PrefixLength(r) <= 32
    ensures OffEnd(s, Cursor(0, s[0].rangeStart, s[0].rangeStart, 0))
  {
    hide Value;
    hide Pow2;
    hide CIDRMask;
    hide SimpleMaskLength;
    hide Canonicalized;
    hide CanonicalizeIP;
    CanonicalizeAccepts(r);
    SizeOf(r);
    WellFormedParts(Canonicalized(r).0, PrefixLength(r));
    FirstByte(Network(r));
    FirstByte(Canonicalized(r).0.rangeStart.value);
  }

  /** An address at or past the broadcast address is not in the range; past it, not in the subnet. */
  lemma OutOfRange(r: Range, c: Range, a: IP, n: nat)
    requires WellFormed(c, PrefixLength(r)) && c.subnet == Network(r) && c.mask == r.mask && |c.subnet| == 4 && |a| == 4
    requires c.rangeEnd.Some? && Value(c.rangeEnd.value) + 1 == Value(Network(r)) + Size(r) - 1
    requires PrefixLength(r) <= 32 && Size(r) == Pow2(32 - PrefixLength(r))
    requires Value(a) == Value(Network(r)) + Size(r) - 1 + n
    ensures !Contains(c, a)
    ensures n > 0 ==> !NetContains(c.subnet, c.mask, a)
  {
    hide Value;
    hide Pow2;
    hide CIDRMask;
    hide SimpleMaskLength;
    hide NetContains;
    hide Contains;
    CanonicalizeIdempotent(a);
    ContainsIsInterval(c, PrefixLength(r), a);
    NetworkContains(c.subnet, c.mask, PrefixLength(r), a);
  }

  // ---- An IPv6 subnet whose default start reads as an IPv4 address ----

  /** The first range is an IPv6 subnet with omitted start, and the default start has four bytes. */
  ghost predicate BeginsInIPv4(r: Range, s: RangeSet) {
    && Canonicalized(r).1.None? && r.rangeStart.None? && |Network(r)| == 16 && |NextIP(Network(r))| == 4
    && s != [] && s[0] == Canonicalized(r).0
  }

  /**
   * The iterator then walks through IPv4, from that start up to 255.255.255.255, none of which is in
   * the subnet, and never ends.
   */
  lemma OtherFamilyWalk(r: Range, s: RangeSet, n: nat)
    requires BeginsInIPv4(r, s)
    ensures !Moved(s, MovedTimes(s, FirstCursor(s), n)).1
    ensures var a := NextIP(Network(r));
      && (Value(a) + n < Pow2(32) ==>
            var m := MovedTimes(s, FirstCursor(s), n + 1);
            && m.cur.Some? && |m.cur.value| == 4 && Value(m.cur.value) == Value(a) + n
            && !NetContains(s[0].subnet, s[0].mask, m.cur.value))
      && (n > Pow2(32) - Value(a) + 1 ==> MovedTimes(s, FirstCursor(s), n).cur == Some([1]))
  {
    hide *;
    OtherFamilyStart(r, s);
    FirstMove(s);
    FirstRunsOff(s, n);
    if Value(NextIP(Network(r))) + n < Pow2(32) {
      OtherLength(s[0].subnet, s[0].mask, MovedTimes(s, FirstCursor(s), n + 1).cur.value);
    }
  }

  lemma OtherLength(net: IP, mask: seq<Byte>, a: IP)
    requires Canonical(net) && |net| == 16 && |a| == 4
    ensures !NetContains(net, mask, a)
  {
    hide And;
    CanonicalizeIdempotent(net);
    CanonicalizeIdempotent(a);
  }

  lemma OtherFamilyStart(r: Range, s: RangeSet)
    requires BeginsInIPv4(r, s)
    ensures s != [] && s[0].rangeStart == Some(NextIP(Network(r)))
    ensures Canonical(s[0].subnet) && |s[0].subnet| == 16
    ensures OffEnd(s, Cursor(0, s[0].rangeStart, s[0].rangeStart, 0))
  {
    hide Value;
    hide Pow2;
    hide CIDRMask;
    hide SimpleMaskLength;
    hide Canonicalized;
    hide CanonicalizeIP;
    hide Minimal;
    hide InBlock;
    hide LastIP;
    hide Network;
    CanonicalizeAccepts(r);
    GoodSubnetParts(r);
    EndKind(r);
    ShortNetwork(r);
    CanonicalBlock(Network(r), PrefixLength(r), s[0].rangeEnd.value);
  }

  lemma CanonicalBlock(net: IP, ones: nat, a: IP)
    requires ones <= 8 * |net| && InBlock(net, ones, a)
    ensures CanonicalizeIP(a) == Some(a) && |a| == |net|
  {
    hide Value;
    hide Pow2;
  }

  /** The network number is then below 2^32, and so is its default end below the IPv4-mapped block. */
  lemma ShortNetwork(r: Range)
    requires GoodSubnet(r) && |Network(r)| == 16 && |NextIP(Network(r))| == 4
    ensures NextIP(Network(r))[0] != 0 && !MappedEnd(r)
  {
    hide *;
    var net, ones := Network(r), PrefixLength(r);
    GoodSubnetParts(r);
    ShortSuccessor(net);
    MappedInSpace();
    BlockBelow(Value(net), Pow2(128 - ones));
    LastIPValue(net, ones);
    MappedExactly(LastIP(net, r.mask));
    NotMappedEnd(r);
  }

  lemma ShortSuccessor(net: IP)
    requires Canonical(net) && |net| == 16 && |NextIP(net)| == 4
    ensures NextIP(net)[0] != 0 && 0 < Value(net) < 0x1_0000_0000
  {
    hide Value;
    hide Pow2;
    hide Minimal;
    IpToIntValue(net);
    MinimalIsFixed(Value(net) + 1, 4);
    MinimalValue(Value(net) + 1);
    FirstByte(NextIP(net));
    MappedInSpace();
    Pow2Monotone(8, 24);
    Pow2Eight();
  }

  lemma BlockBelow(v: nat, p: nat)
    requires p > 0 && v > 0 && v % p == 0
    ensures v + p <= 2 * v
  {
    assert v == (v / p) * p;
    Gap(0, v / p, p);
  }

  lemma NotMappedEnd(r: Range)
    requires |Network(r)| == |r.mask| && Canonical(LastIP(Network(r), r.mask))
    ensures !MappedEnd(r)
  {
    hide LastIP;
    hide Canonical;
    hide Network;
  }
}
