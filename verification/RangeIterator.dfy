/** The round-robin iterator of allocator.go, proved to walk the circle of addresses. */
module RangeIterator {
  import opened Wrappers
  import opened Bytes
  import opened Cidr
  import opened Ranges
  import opened RangeSets
  import opened Ring

  /** The positions still to be returned by an iterator that began at first and took k steps. */
  function Rest(s: RangeSet, first: nat, k: nat): (r: seq<nat>)
    requires first < Total(s)
    ensures forall i :: 0 <= i < |r| ==> r[i] < Total(s)
    decreases Total(s) - k
  {
    if k >= Total(s) then []
    else
      var p := Ahead(Total(s), first, k);
      if IsGateway(s, p) then Rest(s, first, k + 1) else [p] + Rest(s, first, k + 1)
  }

  /** All positions an iterator beginning at first returns: once round, without the gateways. */
  function Walk(s: RangeSet, first: nat): (r: seq<nat>)
    requires first < Total(s)
    ensures forall i :: 0 <= i < |r| ==> r[i] < Total(s)
  {
    Rest(s, first, 0)
  }

  /** How many steps position p lies ahead of first. */
  function Distance(n: nat, first: nat, p: nat): (d: nat)
    requires first < n && p < n
    ensures d < n && Ahead(n, first, d) == p
  {
    if first <= p then p - first else p + n - first
  }

  lemma DistanceAhead(n: nat, first: nat, k: nat)
    requires first < n && k < n
    ensures Distance(n, first, Ahead(n, first, k)) == k
  {
  }

  lemma {:induction false} RestExact(s: RangeSet, first: nat, k: nat)
    requires first < Total(s) && k <= Total(s)
    ensures forall p :: p in Rest(s, first, k) <==>
      p < Total(s) && p >= 0 && !IsGateway(s, p) && Distance(Total(s), first, p) >= k
    ensures forall i, j :: 0 <= i < j < |Rest(s, first, k)| ==>
              Distance(Total(s), first, Rest(s, first, k)[i]) < Distance(Total(s), first, Rest(s, first, k)[j])
    decreases Total(s) - k
  {
    hide Total;
    hide IsGateway;
    if k < Total(s) {
      RestExact(s, first, k + 1);
      var p, rest := Ahead(Total(s), first, k), Rest(s, first, k + 1);
      DistanceAhead(Total(s), first, k);
      forall q | 0 <= q < Total(s) && Distance(Total(s), first, q) == k ensures q == p {
      }
      assert forall i :: 0 <= i < |rest| ==> rest[i] in rest;
    }
  }

  /**
   * The walk returns every address of the set that is not its own range's gateway exactly once,
   * in cyclic order from the first position on.
   */
  lemma WalkExact(s: RangeSet, first: nat)
    requires first < Total(s)
    ensures forall p :: p in Walk(s, first) <==> 0 <= p < Total(s) && !IsGateway(s, p)
    ensures forall i, j :: 0 <= i < j < |Walk(s, first)| ==>
              Distance(Total(s), first, Walk(s, first)[i]) < Distance(Total(s), first, Walk(s, first)[j])
  {
    hide Total;
    hide IsGateway;
    hide Distance;
    RestExact(s, first, 0);
    forall p | 0 <= p < Total(s) ensures Distance(Total(s), first, p) >= 0 {
    }
  }

  ghost predicate HasNonGateway(s: RangeSet) {
    exists p :: 0 <= p < Total(s) && !IsGateway(s, p)
  }

  lemma WalkEmpty(s: RangeSet, first: nat)
    requires first < Total(s)
    ensures Walk(s, first) == [] <==> !HasNonGateway(s)
  {
    hide Total;
    hide IsGateway;
    hide Walk;
    WalkExact(s, first);
    if p :| 0 <= p < Total(s) && !IsGateway(s, p) {
      assert p in Walk(s, first);
    }
    if Walk(s, first) != [] {
      assert Walk(s, first)[0] in Walk(s, first);
    }
  }

  lemma RestUnfold(s: RangeSet, first: nat, k: nat)
    requires first < Total(s) && k <= Total(s)
    ensures k == Total(s) ==> Rest(s, first, k) == []
    ensures k < Total(s) ==>
      var p := Ahead(Total(s), first, k);
      Rest(s, first, k) == if IsGateway(s, p) then Rest(s, first, k + 1) else [p] + Rest(s, first, k + 1)
  {
  }

  // ---- The iterator, on any range set ----

  /** Every range has both ends, as after Canonicalize. */
  predicate Bounded(s: RangeSet) {
    s != [] && forall k :: 0 <= k < |s| ==> s[k].rangeStart.Some? && s[k].rangeEnd.Some?
  }

  /** The fields Next works with. */
  datatype Cursor = Cursor(rangeIdx: nat, cur: Option<IP>, startIP: Option<IP>, startRange: nat)

  /** The cursor of an iterator that begins with the first range. */
  function FirstCursor(s: RangeSet): Cursor {
    Cursor(0, None, if s == [] then None else s[0].rangeStart, 0)
  }

  /** The cursor of an iterator that begins after the address last, found in range k. */
  function CursorAfter(k: nat, last: IP): Cursor {
    Cursor(k, Some(last), None, k)
  }

  /** One move of the cursor; also whether it is back where it began. */
  function Moved(s: RangeSet, c: Cursor): (m: (Cursor, bool))
    requires c.rangeIdx < |s|
    ensures m.0.rangeIdx < |s|
  {
    var r := s[c.rangeIdx];
    if c.cur.None? then (c.(cur := r.rangeStart, startIP := r.rangeStart), false)
    else
      var atEnd := Equal(c.cur.value, r.rangeEnd.GetOr([]));
      var idx := if atEnd then (c.rangeIdx + 1) % |s| else c.rangeIdx;
      var cur := if atEnd then s[idx].rangeStart else Some(NextIP(c.cur.value));
      if c.startIP.None? then (Cursor(idx, cur, cur, c.startRange), false)
      else (Cursor(idx, cur, c.startIP, c.startRange), idx == c.startRange && EqualOption(cur.GetOr([]), c.startIP))
  }

  predicate AtGateway(s: RangeSet, c: Cursor)
    requires c.rangeIdx < |s|
  {
    EqualOption(c.cur.GetOr([]), s[c.rangeIdx].gateway)
  }

  /** Where a walk stops: back at its start, or at an address. */
  datatype Stop = Stop(cursor: Cursor, exhausted: bool)

  /** What Next comes to within a number of moves; None if it has not returned by then. */
  function NextIn(s: RangeSet, c: Cursor, moves: nat): (r: Option<Stop>)
    requires c.rangeIdx < |s|
    ensures r.Some? ==> r.value.cursor.rangeIdx < |s|
    decreases moves
  {
    if moves == 0 then None
    else
      var (m, exhausted) := Moved(s, c);
      if exhausted then Some(Stop(m, true))
      else if AtGateway(s, m) then NextIn(s, m, moves - 1)
      else Some(Stop(m, false))
  }

  class RangeIter {
    const rangeset: RangeSet
    var rangeIdx: nat
    var cur: Option<IP>
    var startIP: Option<IP>
    var startRange: nat

    ghost predicate Valid()
      reads this
    {
      Bounded(rangeset) && rangeIdx < |rangeset|
    }

    function State(): Cursor
      reads this
    {
      Cursor(rangeIdx, cur, startIP, startRange)
    }

    /** The iterator that begins with the first range, as GetIter sets it up. */
    constructor FromStart(s: RangeSet)
      requires Bounded(s)
      ensures Valid() && rangeset == s && State() == FirstCursor(s)
    {
      rangeset := s;
      rangeIdx := 0;
      cur := None;
      startIP := s[0].rangeStart;
      startRange := 0;
    }

    /** The iterator that begins after the last reserved address, which lies in range k. */
    constructor After(s: RangeSet, k: nat, last: IP)
      requires Bounded(s) && k < |s|
      ensures Valid() && rangeset == s && State() == CursorAfter(k, last)
    {
      rangeset := s;
      rangeIdx := k;
      cur := Some(last);
      startIP := None;
      startRange := k;
    }

    /** Sets the cursor to the first address, or moves it on; reports whether it is back where it began. */
    method Step() returns (exhausted: bool)
      requires Valid()
      modifies this
      ensures Valid() && cur.Some?
      ensures old(rangeIdx) < |rangeset| && (State(), exhausted) == Moved(rangeset, old(State()))
    {
      hide Equal;
      hide NextIP;
      if cur.None? {
        cur := rangeset[rangeIdx].rangeStart;
        startIP := cur;
        return false;
      }
      if Equal(cur.value, rangeset[rangeIdx].rangeEnd.value) {
        rangeIdx := (rangeIdx + 1) % |rangeset|;
        cur := rangeset[rangeIdx].rangeStart;
      } else {
        cur := Some(NextIP(cur.value));
      }
      if startIP.None? {
        startIP := cur;
        return false;
      }
      return rangeIdx == startRange && Equal(cur.value, startIP.value);
    }

    /**
     * RangeIter.Next: the next address with its mask and gateway, or None. It asks that the
     * recursion below ends within some number of moves.
     */
    method Next(ghost moves: nat) returns (addr: Option<IP>, mask: seq<Byte>, gateway: Option<IP>)
      requires Valid() && NextIn(rangeset, State(), moves).Some?
      modifies this
      ensures Valid() && old(rangeIdx) < |rangeset|
      ensures var stop := NextIn(rangeset, old(State()), moves).value;
        && State() == stop.cursor
        && if stop.exhausted then addr.None?
           else addr.Some? && addr == cur && mask == rangeset[rangeIdx].mask && gateway == rangeset[rangeIdx].gateway
      decreases moves
    {
      hide Moved;
      hide EqualOption;
      var exhausted := Step();
      if exhausted {
        return None, [], None;
      }
      var r := rangeset[rangeIdx];
      if EqualOption(cur.value, r.gateway) {
        addr, mask, gateway := Next(moves - 1);
      } else {
        addr, mask, gateway := cur, r.mask, r.gateway;
      }
    }
  }

  // ---- In a good set the iterator walks the circle ----

  /** The cursor holds the address at position p, in either of its forms. */
  ghost predicate CursorAt(s: RangeSet, c: Cursor, p: nat)
    requires p < Total(s)
  {
    c.cur.Some? && CanonicalizeIP(c.cur.value) == Some(AddressAt(s, p)) && c.rangeIdx == RangeAt(s, p)
  }

  /** The cursor of an iterator whose first step goes to first, after a number of steps since it was last there. */
  ghost predicate OnCircle(s: RangeSet, c: Cursor, first: nat, steps: nat) {
    && GoodSet(s) && first < Total(s) && steps <= Total(s)
    && c.rangeIdx < |s|
    && (steps == 0 && c.cur.None? ==> c.rangeIdx == c.startRange == 0 && first == 0)
    && (steps == 0 && c.cur.Some? ==>
          c.startIP.None? && c.startRange == c.rangeIdx && CursorAt(s, c, Before(Total(s), first)))
    && (steps > 0 ==>
          && c.startIP == Some(AddressAt(s, first))
          && CursorAt(s, c, Ahead(Total(s), first, steps - 1)))
  }

  /** Whether the stop test can ever succeed: the walk began in the range remembered as its start. */
  predicate Returns(s: RangeSet, c: Cursor, first: nat)
    requires first < Total(s)
  {
    c.startRange == RangeAt(s, first)
  }

  lemma GoodIsBounded(s: RangeSet)
    requires GoodSet(s)
    ensures Bounded(s) && Total(s) > 0
  {
    hide GoodSet;
    hide Total;
    SetNonEmpty(s);
    TotalPositive(s);
    forall k | 0 <= k < |s| ensures s[k].rangeStart.Some? && s[k].rangeEnd.Some? {
      GoodSetParts(s, k);
    }
  }

  /** An iterator that begins at the first range will return to its start. */
  lemma FirstOnCircle(s: RangeSet)
    requires GoodSet(s)
    ensures Total(s) > 0 && OnCircle(s, FirstCursor(s), 0, 0) && Returns(s, FirstCursor(s), 0)
  {
    hide GoodSet;
    hide Total;
    hide RangeAt;
    hide AddressAt;
    SetNonEmpty(s);
    TotalPositive(s);
  }

  /**
   * An iterator that begins after the last reserved address, at position p, returns to its start
   * exactly when the next address lies in the same range.
   */
  lemma AfterOnCircle(s: RangeSet, last: IP, p: nat)
    requires GoodSet(s) && p < Total(s) && CanonicalizeIP(last) == Some(AddressAt(s, p))
    ensures var c, first := CursorAfter(RangeAt(s, p), last), Ahead(Total(s), p, 1);
      && OnCircle(s, c, first, 0)
      && (Returns(s, c, first) <==> RangeAt(s, first) == RangeAt(s, p))
  {
    hide GoodSet;
    hide Total;
    hide RangeAt;
    hide AddressAt;
    hide CanonicalizeIP;
    assert Before(Total(s), Ahead(Total(s), p, 1)) == p;
  }

  /** How many steps after first the cursor is after one more. */
  function StepsOn(n: nat, steps: nat): nat {
    if steps == n then 1 else steps + 1
  }

  /**
   * Each move is one step round the circle; the stop test succeeds exactly after a whole round of
   * a walk that returns.
   */
  lemma MoveOnCircle(s: RangeSet, c: Cursor, first: nat, steps: nat)
    requires OnCircle(s, c, first, steps)
    ensures var (m, exhausted) := Moved(s, c);
      && OnCircle(s, m, first, StepsOn(Total(s), steps)) && m.startRange == c.startRange
      && (exhausted <==> steps == Total(s) && Returns(s, c, first))
      && var q := Ahead(Total(s), first, steps);
         m.cur == Some(AddressAt(s, q)) && m.rangeIdx == RangeAt(s, q) && (AtGateway(s, m) <==> IsGateway(s, q))
  {
    hide GoodSet;
    hide Offset;
    hide Total;
    hide AddressAt;
    hide NumberAt;
    hide RangeAt;
    hide CanonicalizeIP;
    hide Canonical;
    hide Equal;
    hide NextIP;
    hide Value;
    hide IsGateway;
    var total, q := Total(s), Ahead(Total(s), first, steps);
    AddressFacts(s, q);
    CanonicalMeans(AddressAt(s, q));
    IsGatewayDef(s, q);
    if c.cur.None? {
      TotalPositive(s);
      SetNonEmpty(s);
      GoodSetParts(s, 0);
    } else {
      var p := if steps == 0 then Before(total, first) else Ahead(total, first, steps - 1);
      assert CursorAt(s, c, p) && q == Ahead(total, p, 1);
      StepFacts(s, p, c.cur.value, |s|);
      SameAddress(s, q, first);
      AddressFacts(s, first);
    }
  }

  /** What Next answers in a good set when it is called after a number of steps, and the steps it leaves. */
  ghost predicate Answers(s: RangeSet, c: Cursor, first: nat, steps: nat, stop: Stop, steps': nat)
    requires first < Total(s)
  {
    var rest := Rest(s, first, steps);
    && OnCircle(s, stop.cursor, first, steps')
    && stop.cursor.startRange == c.startRange
    && if rest != [] then
      !stop.exhausted && HoldsAddress(s, stop.cursor, rest[0]) && Rest(s, first, steps') == rest[1..]
    else if Returns(s, c, first) then
      stop.exhausted && steps' == 1
    else
      && Walk(s, first) != []
      && !stop.exhausted && HoldsAddress(s, stop.cursor, Walk(s, first)[0])
      && Rest(s, first, steps') == Walk(s, first)[1..]
  }

  /** The cursor is the address at position p, in that position's range. */
  ghost predicate HoldsAddress(s: RangeSet, c: Cursor, p: nat) {
    p < Total(s) && c.cur == Some(AddressAt(s, p)) && c.rangeIdx == RangeAt(s, p)
  }

  /**
   * In a good set Next returns whenever the walk comes back to its start or some address is no
   * gateway, and its answers are those of one round of the walk after the other.
   */
  lemma NextOnCircle(s: RangeSet, c: Cursor, first: nat, steps: nat) returns (moves: nat, steps': nat)
    requires OnCircle(s, c, first, steps)
    requires Returns(s, c, first) || HasNonGateway(s)
    ensures NextIn(s, c, moves).Some?
    ensures Answers(s, c, first, steps, NextIn(s, c, moves).value, steps')
    decreases if Rest(s, first, steps) != [] then Total(s) - steps else 2 * Total(s) + 1 - steps
  {
    hide GoodSet;
    hide Total;
    hide Rest;
    hide Moved;
    hide OnCircle;
    hide AtGateway;
    hide IsGateway;
    hide RangeAt;
    hide AddressAt;
    hide HasNonGateway;
    OnCircleParts(s, c, first, steps);
    var (m, exhausted) := Moved(s, c);
    MoveOnCircle(s, c, first, steps);
    RestUnfold(s, first, steps);
    RestUnfold(s, first, 0);
    WalkEmpty(s, first);
    var next := StepsOn(Total(s), steps);
    if exhausted || !AtGateway(s, m) {
      moves, steps' := 1, next;
      assert NextIn(s, m, 0) == None;
    } else {
      var k, n := NextOnCircle(s, m, first, next);
      moves, steps' := k + 1, n;
    }
  }

  lemma OnCircleParts(s: RangeSet, c: Cursor, first: nat, steps: nat)
    requires OnCircle(s, c, first, steps)
    ensures GoodSet(s) && first < Total(s) && steps <= Total(s) && c.rangeIdx < |s|
  {
    hide GoodSet;
    hide Total;
    hide CursorAt;
    hide AddressAt;
  }

  /** One step of the cursor, in either form of the current address. */
  lemma StepFacts(s: RangeSet, p: nat, c: IP, n: nat)
    requires GoodSet(s) && p < Total(s) && CanonicalizeIP(c) == Some(AddressAt(s, p)) && n == |s|
    ensures n > 0 && s[RangeAt(s, p)].rangeEnd.Some?
    ensures var k, q := RangeAt(s, p), Ahead(Total(s), p, 1);
      if Equal(c, s[k].rangeEnd.value)
      then RangeAt(s, q) == (k + 1) % n && s[(k + 1) % n].rangeStart == Some(AddressAt(s, q))
      else RangeAt(s, q) == k && AddressAt(s, q) == NextIP(c)
    ensures Canonical(AddressAt(s, p))
    ensures CanonicalizeIP(AddressAt(s, Ahead(Total(s), p, 1))) == Some(AddressAt(s, Ahead(Total(s), p, 1)))
  {
    hide *;
    var k, q := RangeAt(s, p), Ahead(Total(s), p, 1);
    SetNonEmpty(s);
    Successor(s, p);
    AddressFacts(s, p);
    AddressFacts(s, q);
    CanonicalMeans(AddressAt(s, q));
    NumberInRange(s, p);
    GoodSetParts(s, k);
    GoodSetParts(s, RangeAt(s, q));
    EqualCanonical(c, AddressAt(s, p), s[k].rangeEnd.value);
    if NumberAt(s, p) == Hi(s[k]) {
      ValueInjective(AddressAt(s, p), s[k].rangeEnd.value);
    }
  }

  lemma CanonicalMeans(a: IP)
    ensures Canonical(a) <==> CanonicalizeIP(a) == Some(a)
  {
  }

  /** The stop test compares positions. */
  lemma SameAddress(s: RangeSet, p: nat, q: nat)
    requires GoodSet(s) && p < Total(s) && q < Total(s)
    ensures Equal(AddressAt(s, p), AddressAt(s, q)) <==> p == q
  {
    hide *;
    AddressFacts(s, p);
    AddressFacts(s, q);
    CanonicalMeans(AddressAt(s, p));
    EqualCanonical(AddressAt(s, p), AddressAt(s, p), AddressAt(s, q));
    if AddressAt(s, p) == AddressAt(s, q) {
      AddressInjective(s, p, q);
    }
  }

  lemma IsGatewayDef(s: RangeSet, p: nat)
    requires p < Total(s)
    ensures IsGateway(s, p) <==> EqualOption(AddressAt(s, p), s[RangeAt(s, p)].gateway)
  {
  }

  /** Comparing either form of an address with a canonical one. */
  lemma EqualCanonical(a: IP, c: IP, b: IP)
    requires CanonicalizeIP(a) == Some(c) && Canonical(b)
    ensures Equal(a, b) <==> c == b
    ensures NextIP(a) == NextIP(c)
  {
    hide Value;
    hide Minimal;
  }

  /** The position before p on a circle of n. */
  function Before(n: nat, p: nat): (q: nat)
    requires p < n
    ensures q < n && Ahead(n, q, 1) == p
  {
    if p == 0 then n - 1 else p - 1
  }
}
