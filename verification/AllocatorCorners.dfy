/** What Get does with the two kinds of accepted sets on which the iterator does not come back to its start. */
module AllocatorCorners {
  import opened Wrappers
  import opened Bytes
  import opened Cidr
  import opened Ranges
  import opened RangeMeaning
  import opened RangeSets
  import opened RangeInputs
  import opened RangeIterator
  import opened IteratorCorners
  import opened DiskStore
  import opened Allocator
  import opened AllocatorRuns
  import opened AllocatorExhaustion

  // ---- Searching along a walk ----

  /** No move of the walk from c on comes back to the start. */
  ghost predicate NeverBack(s: RangeSet, c: Cursor)
    requires c.rangeIdx < |s|
  {
    forall n: nat :: !Moved(s, MovedTimes(s, c, n)).1
  }

  /** The search passes the first n cursors of the walk. */
  ghost predicate PassesFirst(s: RangeSet, files: Files, c: Cursor, n: nat)
    requires c.rangeIdx < |s|
  {
    forall k :: 0 < k <= n ==> Passed(s, files, MovedTimes(s, c, k))
  }

  lemma FrontMove(s: RangeSet, c: Cursor, k: nat)
    requires c.rangeIdx < |s|
    ensures MovedTimes(s, c, 0) == c
    ensures MovedTimes(s, c, k + 1) == MovedTimes(s, Moved(s, c).0, k)
  {
    hide Moved;
    MovedTimesAdd(s, c, 1, k);
    assert MovedTimes(s, c, 1) == Moved(s, MovedTimes(s, c, 0)).0;
  }

  lemma NeverBackOn(s: RangeSet, c: Cursor)
    requires c.rangeIdx < |s| && NeverBack(s, c)
    ensures !Moved(s, c).1 && NeverBack(s, Moved(s, c).0)
  {
    hide Moved;
    FrontMove(s, c, 0);
    assert !Moved(s, MovedTimes(s, c, 0)).1;
    forall n: nat ensures !Moved(s, MovedTimes(s, Moved(s, c).0, n)).1 {
      FrontMove(s, c, n);
      assert !Moved(s, MovedTimes(s, c, n + 1)).1;
    }
  }

  /**
   * On a walk that never comes back the search goes on as long as it passes, and stops at the first
   * cursor it does not pass.
   */
  lemma {:induction false} SearchAlong(s: RangeSet, files: Files, c: Cursor, n: nat)
    requires c.rangeIdx < |s| && NeverBack(s, c) && PassesFirst(s, files, c, n)
    ensures SearchIn(s, files, c, n).None?
    ensures SearchIn(s, files, c, n + 1)
         == var m := MovedTimes(s, c, n + 1); if Passed(s, files, m) then None else Some(Stop(m, false))
    decreases n
  {
    hide Moved;
    hide Passed;
    hide NeverBack;
    hide MovedTimes;
    var next := Moved(s, c).0;
    NeverBackOn(s, c);
    FrontMove(s, c, n);
    if n == 0 {
      FrontMove(s, next, 0);
      assert SearchIn(s, files, next, 0) == None;
    } else {
      FrontMove(s, c, 0);
      FrontMove(s, next, 0);
      forall k | 0 < k <= n - 1 ensures Passed(s, files, MovedTimes(s, next, k)) {
        FrontMove(s, c, k);
        assert Passed(s, files, MovedTimes(s, c, k + 1));
      }
      assert Passed(s, files, MovedTimes(s, c, 1));
      SearchAlong(s, files, next, n - 1);
    }
  }

  /** On such a walk the search ends exactly if it does not pass everywhere. */
  lemma EndsWhereNotPassed(s: RangeSet, st: State, rangeID: nat)
    requires s != [] && NeverBack(s, StartCursor(s, st.last, rangeID))
    ensures SearchEnds(s, st, rangeID) <==>
      exists n :: n > 0 && !Passed(s, st.files, MovedTimes(s, StartCursor(s, st.last, rangeID), n))
  {
    hide StartCursor;
    hide Passed;
    hide NeverBack;
    hide MovedTimes;
    hide SearchIn;
    var c := StartCursor(s, st.last, rangeID);
    if n :| n > 0 && !Passed(s, st.files, MovedTimes(s, c, n)) {
      var k := FirstNotPassed(s, st.files, c, n);
      SearchAlong(s, st.files, c, k);
    }
    forall n: nat | forall k :: k > 0 ==> Passed(s, st.files, MovedTimes(s, c, k))
      ensures SearchIn(s, st.files, c, n).None?
    {
      SearchAlong(s, st.files, c, n);
    }
  }

  /** The first cursor of the walk that is not passed comes after k others. */
  lemma FirstNotPassed(s: RangeSet, files: Files, c: Cursor, n: nat) returns (k: nat)
    requires c.rangeIdx < |s| && n > 0 && !Passed(s, files, MovedTimes(s, c, n))
    ensures k < n && PassesFirst(s, files, c, k) && !Passed(s, files, MovedTimes(s, c, k + 1))
  {
    hide Passed;
    hide MovedTimes;
    k := 0;
    while Passed(s, files, MovedTimes(s, c, k + 1))
      invariant k < n && PassesFirst(s, files, c, k)
      decreases n - k
    {
      k := k + 1;
    }
  }

  // ---- A subnet below a leading zero byte ----

  /**
   * What a search comes to that begins at the first range, when that is a subnet whose default start
   * is no address: it stops at that start if it is free and no gateway; then, for the network 0, it
   * is exhausted; else it stops at the one byte 1 if that is free and no gateway, and never otherwise.
   */
  lemma ZeroNetworkSearch(r: Range, s: RangeSet, files: Files, n: nat)
    requires Canonicalized(r).1.None? && r.rangeStart.None? && !ReadableDefault(r)
    requires s != [] && s[0] == Canonicalized(r).0
    ensures var start := NextIP(Network(r));
      var first, one := Cursor(0, Some(start), Some(start), 0), Cursor(0, Some([1]), Some(start), 0);
      SearchIn(s, files, FirstCursor(s), n + 2)
        == if !Passed(s, files, first) then Some(Stop(first, false))
           else if start == [1] then Some(Stop(one, true))
           else if !Passed(s, files, one) then Some(Stop(one, false))
           else None
  {
    hide *;
    var f, start := FirstCursor(s), NextIP(Network(r));
    var first, one := Cursor(0, Some(start), Some(start), 0), Cursor(0, Some([1]), Some(start), 0);
    StoredEndIsAddress(r);
    FirstMove(s);
    assert Moved(s, f) == (first, false) by {
      MovedTimesStep(s, f, 0);
    }
    AstrayStart(r, s, first);
    AstrayMove(s, first);
    AstrayMove(s, one);
    SearchUnfold(s, files, f, n + 2);
    SearchUnfold(s, files, first, n + 1);
    if start != [1] && Passed(s, files, one) {
      Standstill(s, files, one, n);
    }
  }

  /**
   * The same from any address that is not its range's end and whose successor is no address, such as
   * a given start or a last reserved address below a leading zero byte of IPv4.
   */
  lemma StraySearch(s: RangeSet, files: Files, c: Cursor, a: IP, n: nat)
    requires c.rangeIdx < |s| && c.cur.Some? && CanonicalizeIP(c.cur.value) == Some(a)
    requires s[c.rangeIdx].rangeEnd.Some? && CanonicalizeIP(s[c.rangeIdx].rangeEnd.value).Some?
    requires CanonicalizeIP(s[c.rangeIdx].rangeEnd.value) != Some(a) && CanonicalizeIP(NextIP(a)).None?
    requires c.startIP.Some? ==> CanonicalizeIP(c.startIP.value).Some?
    ensures var next := NextIP(a);
      var first := c.(cur := Some(next), startIP := if c.startIP.Some? then c.startIP else Some(next));
      var one := first.(cur := Some([1]));
      SearchIn(s, files, c, n + 2)
        == if !Passed(s, files, first) then Some(Stop(first, false))
           else if c.startIP.None? && next == [1] && c.rangeIdx == c.startRange then Some(Stop(one, true))
           else if !Passed(s, files, one) then Some(Stop(one, false))
           else None
  {
    hide Passed;
    hide CanonicalizeIP;
    hide NextIP;
    hide Moved;
    hide SearchIn;
    var next := NextIP(a);
    var first := c.(cur := Some(next), startIP := if c.startIP.Some? then c.startIP else Some(next));
    var one := first.(cur := Some([1]));
    OneIsNoAddress();
    StrayStep(s, c, a);
    AstrayMove(s, first);
    AstrayMove(s, one);
    SearchUnfold(s, files, c, n + 2);
    SearchUnfold(s, files, first, n + 1);
    if Passed(s, files, one) && !Moved(s, one).1 {
      Standstill(s, files, one, n);
    }
  }

  lemma OneIsNoAddress()
    ensures CanonicalizeIP([1]).None?
  {
  }

  /** A search that passes where it does not move on never ends. */
  lemma {:induction false} Standstill(s: RangeSet, files: Files, c: Cursor, n: nat)
    requires c.rangeIdx < |s| && Moved(s, c) == (c, false) && Passed(s, files, c)
    ensures SearchIn(s, files, c, n).None?
    decreases n
  {
    hide Moved;
    hide Passed;
    if n > 0 {
      Standstill(s, files, c, n - 1);
    }
  }

  lemma SearchUnfold(s: RangeSet, files: Files, c: Cursor, n: nat)
    requires c.rangeIdx < |s| && n > 0
    ensures SearchIn(s, files, c, n) == var (m, exhausted) := Moved(s, c);
      if exhausted then Some(Stop(m, true))
      else if Passed(s, files, m) then SearchIn(s, files, m, n - 1)
      else Some(Stop(m, false))
  {
    hide Moved;
    hide Passed;
  }

  /**
   * An IPv4 subnet on its own with leading zero byte and a network number other than 0: while ?01 is free, the next
   * container that holds nothing in the set is given that; from then on no Get without request ends.
   */
  lemma ZeroNetworkGet(r: Range, st: State, rangeID: nat, id: string, ifname: string)
    requires ZeroSubnet(r)
    requires StartCursor([Canonicalized(r).0], st.last, rangeID) == FirstCursor([Canonicalized(r).0])
    requires !Holds([Canonicalized(r).0], st.files, id, ifname)
    ensures var s := [Canonicalized(r).0];
      if [1] in st.files then !GetEnds(s, st, rangeID, id, ifname, None)
      else GetAny(s, st, rangeID, id, ifname) == Grant(s, st, rangeID, id, ifname, [1], 0)
  {
    hide *;
    var s, f, start := [Canonicalized(r).0], FirstCursor([Canonicalized(r).0]), NextIP(Network(r));
    var first, one := Cursor(0, Some(start), Some(start), 0), Cursor(0, Some([1]), Some(start), 0);
    ZeroSubnetParts(r);
    StoredEndIsAddress(r);
    ZeroPasses(s, st.files, start);
    if [1] in st.files {
      forall n: nat ensures SearchIn(s, st.files, f, n).None? {
        ZeroNetworkSearch(r, s, st.files, n);
        SearchInMore(s, st.files, f, n, 2);
      }
      NoSearch(s, st, rangeID, id, ifname);
    } else {
      ZeroNetworkSearch(r, s, st.files, 0);
      FoundExactly(s, st, rangeID, 2);
      FoundGrants(s, st, rangeID, id, ifname, one, [1]);
    }
  }

  /** A subnet on its own, whose default start is no address and is its gateway. */
  ghost predicate ZeroSubnet(r: Range) {
    && r.rangeStart.None? && r.rangeEnd.None? && r.gateway.None?
    && GoodSubnet(r) && |Network(r)| == 4 && Network(r)[0] == 0 && Value(Network(r)) != 0
  }

  lemma ZeroSubnetParts(r: Range)
    requires ZeroSubnet(r)
    ensures r.rangeStart.None? && r.gateway.None? && !ReadableDefault(r) && NextIP(Network(r)) != [1]
    ensures Canonicalized(r).1.None?
  {
    hide Canonicalized;
    hide GoodSubnet;
    hide NextIP;
    hide ReadableDefault;
    ZeroByteUnreadable(r);
    OnlySubnet(r);
  }

  lemma ZeroPasses(s: RangeSet, files: Files, start: IP)
    requires |s| == 1 && s[0].gateway == Some(start) && start != [1]
    ensures Passed(s, files, Cursor(0, Some(start), Some(start), 0))
    ensures Passed(s, files, Cursor(0, Some([1]), Some(start), 0)) <==> [1] in files
  {
  }

  lemma {:induction false} SearchInMore(s: RangeSet, files: Files, c: Cursor, n: nat, k: nat)
    requires c.rangeIdx < |s| && SearchIn(s, files, c, n + k).None?
    ensures SearchIn(s, files, c, n).None?
    decreases n
  {
    hide Moved;
    hide Passed;
    if n > 0 && !Moved(s, c).1 && Passed(s, files, Moved(s, c).0) {
      SearchInMore(s, files, Moved(s, c).0, n - 1, k);
    }
  }

  lemma NoSearch(s: RangeSet, st: State, rangeID: nat, id: string, ifname: string)
    requires s != [] && forall n: nat :: SearchIn(s, st.files, StartCursor(s, st.last, rangeID), n).None?
    requires !Holds(s, st.files, id, ifname)
    ensures !GetEnds(s, st, rangeID, id, ifname, None)
  {
    hide Holds;
    hide StartCursor;
    hide SearchIn;
  }

  lemma FoundGrants(s: RangeSet, st: State, rangeID: nat, id: string, ifname: string, c: Cursor, ip: IP)
    requires !Holds(s, st.files, id, ifname) && Found(s, st, rangeID) == Some(c) && c.rangeIdx < |s|
    requires c.cur == Some(ip)
    ensures GetAny(s, st, rangeID, id, ifname) == Grant(s, st, rangeID, id, ifname, ip, c.rangeIdx)
  {
    hide Holds;
    hide Found;
    hide Grant;
  }

  /**
   * So from an empty store the first Get without request is given ?01, which is no address, and no
   * such Get ends from then on, of any container.
   */
  lemma FirstGetIsTheLast(r: Range, rangeID: nat, first: Op, gets: seq<Op>, id: string, ifname: string)
    requires ZeroSubnet(r)
    requires first.GetOp? && first.requested.None?
    requires forall i :: 0 <= i < |gets| ==> gets[i].GetOp? && gets[i].requested.None?
    ensures var s := [Canonicalized(r).0];
      var st := Exec(s, rangeID, EMPTY, [first] + gets);
      && st == State(map[[1] := Entry(first.id, first.ifname)], map[rangeID := [1]])
      && !GetEnds(s, st, rangeID, id, ifname, None)
    decreases |gets|
  {
    hide *;
    var s, stuck := [Canonicalized(r).0], State(map[[1] := Entry(first.id, first.ifname)], map[rangeID := [1]]);
    NothingHeld(s, EMPTY, rangeID);
    NothingHeld(s, stuck, rangeID);
    ZeroNetworkGet(r, stuck, rangeID, id, ifname);
    if gets == [] {
      ZeroNetworkGet(r, EMPTY, rangeID, first.id, first.ifname);
      OneGet(s, rangeID, EMPTY, first);
      assert [first] + gets == [first];
      GrantOfOne(s, rangeID, first.id, first.ifname);
    } else {
      var n := |gets| - 1;
      FirstGetIsTheLast(r, rangeID, first, gets[..n], id, ifname);
      ZeroNetworkGet(r, stuck, rangeID, gets[n].id, gets[n].ifname);
      ExecConcat(s, rangeID, EMPTY, [first] + gets[..n], [gets[n]]);
      assert [first] + gets == ([first] + gets[..n]) + [gets[n]];
      OneGet(s, rangeID, stuck, gets[n]);
      EndlessGet(s, stuck, rangeID, gets[n].id, gets[n].ifname);
    }
  }

  lemma NothingHeld(s: RangeSet, st: State, rangeID: nat)
    requires st == EMPTY || (exists c :: st == State(map[[1] := c], map[rangeID := [1]]))
    ensures StartCursor(s, st.last, rangeID) == FirstCursor(s)
    ensures forall id, ifname :: !Holds(s, st.files, id, ifname)
    ensures [1] !in EMPTY.files
    ensures st != EMPTY ==> [1] in st.files
  {
    hide SetContains;
    hide FirstFrom;
  }

  lemma OneGet(s: RangeSet, rangeID: nat, st: State, op: Op)
    requires op.GetOp? && op.requested.None?
    ensures Exec(s, rangeID, st, [op]) == GetAny(s, st, rangeID, op.id, op.ifname).1
  {
    hide GetAny;
    assert [op][..0] == [];
  }

  lemma GrantOfOne(s: RangeSet, rangeID: nat, id: string, ifname: string)
    requires s != []
    ensures Grant(s, EMPTY, rangeID, id, ifname, [1], 0).1 == State(map[[1] := Entry(id, ifname)], map[rangeID := [1]])
  {
  }

  /** In the model a Get that does not end changes nothing. */
  lemma EndlessGet(s: RangeSet, st: State, rangeID: nat, id: string, ifname: string)
    requires !GetEnds(s, st, rangeID, id, ifname, None)
    ensures GetAny(s, st, rangeID, id, ifname).1 == st
  {
    hide Holds;
    hide SearchEnds;
  }

  // ---- A range that starts at the broadcast address ----

  /**
   * A set whose first range starts at the broadcast address and leaves its end open: a search from
   * its beginning ends exactly if some cursor of that walk is free and no gateway, and an IPv4 address
   * found on it is not in the range.
   */
  lemma BroadcastStartSearch(r: Range, s: RangeSet, st: State, rangeID: nat)
    requires BeginsAtBroadcast(r, s)
    requires StartCursor(s, st.last, rangeID) == FirstCursor(s)
    ensures SearchEnds(s, st, rangeID) <==> exists n :: n > 0 && !Passed(s, st.files, MovedTimes(s, FirstCursor(s), n))
  {
    hide *;
    BroadcastRange(r, s);
    FirstMove(s);
    forall n: nat ensures !Moved(s, MovedTimes(s, FirstCursor(s), n)).1 {
      BroadcastStartNeverEnds(r, s, n);
    }
    NeverBackDef(s, FirstCursor(s));
    EndsWhereNotPassed(s, st, rangeID);
  }

  lemma NeverBackDef(s: RangeSet, c: Cursor)
    requires c.rangeIdx < |s| && forall n: nat :: !Moved(s, MovedTimes(s, c, n)).1
    ensures NeverBack(s, c)
  {
    hide Moved;
    hide MovedTimes;
  }

  /** It hands out the first free address from the broadcast address on, which is never one of the range. */
  lemma BroadcastStartGet(r: Range, s: RangeSet, st: State, rangeID: nat, id: string, ifname: string, n: nat)
    requires BeginsAtBroadcast(r, s)
    requires StartCursor(s, st.last, rangeID) == FirstCursor(s) && !Holds(s, st.files, id, ifname)
    requires Position(r.rangeStart) + n < Pow2(32) && PassesFirst(s, st.files, FirstCursor(s), n)
    requires !Passed(s, st.files, MovedTimes(s, FirstCursor(s), n + 1))
    ensures var result := GetAny(s, st, rangeID, id, ifname).0;
      && result.Ok? && |result.value.address| == 4
      && Value(result.value.address) == Value(Network(r)) + Size(r) - 1 + n
      && !Contains(Canonicalized(r).0, result.value.address)
  {
    hide *;
    BroadcastRange(r, s);
    FirstMove(s);
    forall k: nat ensures !Moved(s, MovedTimes(s, FirstCursor(s), k)).1 {
      BroadcastStartNeverEnds(r, s, k);
    }
    NeverBackDef(s, FirstCursor(s));
    SearchAlong(s, st.files, FirstCursor(s), n);
    FoundExactly(s, st, rangeID, n + 1);
    BroadcastStartWalk(r, s, n);
    var m := MovedTimes(s, FirstCursor(s), n + 1);
    FoundGrants(s, st, rangeID, id, ifname, m, m.cur.value);
    GrantAddress(s, st, rangeID, id, ifname, m.cur.value, m.rangeIdx);
  }

  lemma GrantAddress(s: RangeSet, st: State, rangeID: nat, id: string, ifname: string, ip: IP, k: nat)
    requires k < |s|
    ensures var result := Grant(s, st, rangeID, id, ifname, ip, k).0; result.Ok? && result.value.address == ip
  {
    hide To4;
    hide FileKey;
  }

  // ---- An IPv6 subnet whose default start reads as an IPv4 address ----

  /** There too a search from the beginning ends exactly if some cursor of the walk is free and no gateway. */
  lemma OtherFamilySearch(r: Range, s: RangeSet, st: State, rangeID: nat)
    requires BeginsInIPv4(r, s)
    requires StartCursor(s, st.last, rangeID) == FirstCursor(s)
    ensures SearchEnds(s, st, rangeID) <==> exists n :: n > 0 && !Passed(s, st.files, MovedTimes(s, FirstCursor(s), n))
  {
    hide *;
    OtherFamilyStart(r, s);
    FirstMove(s);
    forall n: nat ensures !Moved(s, MovedTimes(s, FirstCursor(s), n)).1 {
      OtherFamilyWalk(r, s, n);
    }
    NeverBackDef(s, FirstCursor(s));
    EndsWhereNotPassed(s, st, rangeID);
  }
}
