/** IPAllocator of allocator.go, proved against a first-free-address specification. */
module Allocator {
  import opened Wrappers
  import opened Bytes
  import opened Cidr
  import opened Ranges
  import opened RangeSets
  import opened Ring
  import opened RangeIterator
  import opened DiskStore

  datatype IPConfig = IPConfig(v6: bool, address: IP, mask: seq<Byte>, gateway: Option<IP>)

  datatype GetError =
    | BadIP
    | NotInSet
    | RequestedGateway
    | NotAvailable
    | Duplicate
    | Exhausted

  /** The store as a value. */
  datatype State = State(files: Files, last: map<nat, IP>)

  // ---- Specification, on any range set ----

  /** (id, ifname) has an address in the set already. */
  ghost predicate Holds(s: RangeSet, files: Files, id: string, ifname: string) {
    exists k :: k in files && Matches(files[k], id, ifname) && ParseIP(k).Some? && SetContains(s, ParseIP(k).value)
  }

  /** Where GetIter puts the cursor: at the last reserved address if it lies in the set, else before the first. */
  function StartCursor(s: RangeSet, last: map<nat, IP>, rangeID: nat): (c: Cursor)
    ensures s != [] ==> c.rangeIdx < |s|
  {
    if rangeID in last && ParseIP(last[rangeID]).Some? then
      var ip := ParseIP(last[rangeID]).value;
      match FirstFrom(s, ip, 0)
      case Some(k) => CursorAfter(k, ip)
      case None => FirstCursor(s)
    else FirstCursor(s)
  }

  /** Whether the search passes the cursor's address: a gateway, or reserved. */
  predicate Passed(s: RangeSet, files: Files, c: Cursor)
    requires c.rangeIdx < |s|
  {
    AtGateway(s, c) || FileKey(c.cur.GetOr([])) in files
  }

  /** What the reservation loop comes to within a number of moves; None if it has not ended by then. */
  function SearchIn(s: RangeSet, files: Files, c: Cursor, moves: nat): (r: Option<Stop>)
    requires c.rangeIdx < |s|
    ensures r.Some? ==> r.value.cursor.rangeIdx < |s|
    decreases moves
  {
    if moves == 0 then None
    else
      var (m, exhausted) := Moved(s, c);
      if exhausted then Some(Stop(m, true))
      else if Passed(s, files, m) then SearchIn(s, files, m, moves - 1)
      else Some(Stop(m, false))
  }

  ghost predicate SearchEnds(s: RangeSet, st: State, rangeID: nat) {
    s != [] && exists moves :: SearchIn(s, st.files, StartCursor(s, st.last, rangeID), moves).Some?
  }

  /** The cursor at the free address on which the search ends, if it ends on one. */
  ghost function Found(s: RangeSet, st: State, rangeID: nat): (c: Option<Cursor>)
    ensures c.Some? ==> c.value.rangeIdx < |s|
  {
    if SearchEnds(s, st, rangeID) then
      var moves :| SearchIn(s, st.files, StartCursor(s, st.last, rangeID), moves).Some?;
      var stop := SearchIn(s, st.files, StartCursor(s, st.last, rangeID), moves).value;
      if stop.exhausted then None else Some(stop.cursor)
    else None
  }

  /** Handing out an address of range k. */
  function Grant(s: RangeSet, st: State, rangeID: nat, id: string, ifname: string, ip: IP, k: nat)
      : (Result<IPConfig, GetError>, State)
    requires k < |s|
  {
    (Ok(IPConfig(To4(ip).None?, ip, s[k].mask, s[k].gateway)),
     State(st.files[FileKey(ip) := Entry(id, ifname)], st.last[rangeID := FileKey(ip)]))
  }

  /** Get without a requested address; where the search does not end, nothing changes. */
  ghost function GetAny(s: RangeSet, st: State, rangeID: nat, id: string, ifname: string)
      : (Result<IPConfig, GetError>, State)
  {
    if Holds(s, st.files, id, ifname) then (Err(Duplicate), st)
    else
      match Found(s, st, rangeID)
      case None => (Err(Exhausted), st)
      case Some(c) => Grant(s, st, rangeID, id, ifname, c.cur.GetOr([]), c.rangeIdx)
  }

  /** Get with a requested address. */
  function GetRequested(s: RangeSet, st: State, rangeID: nat, id: string, ifname: string, ip: IP)
      : (Result<IPConfig, GetError>, State)
  {
    match CanonicalizeIP(ip)
    case None => (Err(BadIP), st)
    case Some(a) =>
      match FirstFrom(s, a, 0)
      case None => (Err(NotInSet), st)
      case Some(k) =>
        if EqualOption(a, s[k].gateway) then (Err(RequestedGateway), st)
        else if FileKey(a) in st.files then (Err(NotAvailable), st)
        else Grant(s, st, rangeID, id, ifname, a, k)
  }

  ghost function GetSpec(s: RangeSet, st: State, rangeID: nat, id: string, ifname: string, requested: Option<IP>)
      : (Result<IPConfig, GetError>, State)
  {
    match requested
    case None => GetAny(s, st, rangeID, id, ifname)
    case Some(ip) => GetRequested(s, st, rangeID, id, ifname, ip)
  }

  /** Get ends: an address is requested, or the container already holds one, or the search ends. */
  ghost predicate GetEnds(s: RangeSet, st: State, rangeID: nat, id: string, ifname: string, requested: Option<IP>) {
    requested.Some? || Holds(s, st.files, id, ifname) || SearchEnds(s, st, rangeID)
  }

  /** More moves than needed change nothing. */
  lemma {:induction false} SearchInStable(s: RangeSet, files: Files, c: Cursor, m: nat, n: nat)
    requires c.rangeIdx < |s| && SearchIn(s, files, c, m).Some? && SearchIn(s, files, c, n).Some?
    ensures SearchIn(s, files, c, m) == SearchIn(s, files, c, n)
    decreases m
  {
    hide Moved;
    hide Passed;
    var (next, exhausted) := Moved(s, c);
    if !exhausted && Passed(s, files, next) {
      SearchInStable(s, files, next, m - 1, n - 1);
    }
  }

  lemma FoundExactly(s: RangeSet, st: State, rangeID: nat, moves: nat)
    requires s != [] && SearchIn(s, st.files, StartCursor(s, st.last, rangeID), moves).Some?
    ensures var stop := SearchIn(s, st.files, StartCursor(s, st.last, rangeID), moves).value;
      Found(s, st, rangeID) == if stop.exhausted then None else Some(stop.cursor)
  {
    hide StartCursor;
    hide SearchIn;
    var c := StartCursor(s, st.last, rangeID);
    assert SearchEnds(s, st, rangeID);
    var n :| SearchIn(s, st.files, c, n).Some? && Found(s, st, rangeID) ==
      if SearchIn(s, st.files, c, n).value.exhausted then None else Some(SearchIn(s, st.files, c, n).value.cursor);
    SearchInStable(s, st.files, c, moves, n);
  }

  /** The reservation loop is Next over and over: one call of Next takes some of the moves. */
  lemma {:induction false} SearchByNext(s: RangeSet, files: Files, c: Cursor, moves: nat) returns (k: nat)
    requires c.rangeIdx < |s| && SearchIn(s, files, c, moves).Some?
    ensures 0 < k <= moves && NextIn(s, c, k).Some?
    ensures var stop := NextIn(s, c, k).value;
      SearchIn(s, files, c, moves)
        == if !stop.exhausted && FileKey(stop.cursor.cur.GetOr([])) in files
           then SearchIn(s, files, stop.cursor, moves - k) else Some(stop)
    decreases moves
  {
    hide Moved;
    hide AtGateway;
    hide FileKey;
    var (next, exhausted) := Moved(s, c);
    if exhausted || !AtGateway(s, next) {
      k := 1;
      assert NextIn(s, next, 0) == None;
    } else {
      k := SearchByNext(s, files, next, moves - 1);
      k := k + 1;
    }
  }

  // ---- Specification by positions, in good sets ----

  /** A stored key that reads back as the address at position p. */
  ghost predicate KeyAt(s: RangeSet, key: IP, p: nat) {
    && p < Total(s)
    && ParseIP(key).Some?
    && CanonicalizeIP(ParseIP(key).value) == Some(AddressAt(s, p))
  }

  /** The position of the last reserved address, if that address belongs to the set. */
  ghost function LastPosition(s: RangeSet, last: map<nat, IP>, rangeID: nat): (r: Option<nat>)
    ensures r.Some? ==> rangeID in last && KeyAt(s, last[rangeID], r.value)
    ensures r.None? && rangeID in last ==> forall p :: !KeyAt(s, last[rangeID], p)
  {
    if rangeID in last && exists p :: KeyAt(s, last[rangeID], p) then
      var p :| KeyAt(s, last[rangeID], p);
      Some(p)
    else None
  }

  /** Where the search begins: after the last reserved address, or at the first one. */
  ghost function Begin(s: RangeSet, last: map<nat, IP>, rangeID: nat): (p: nat)
    requires Total(s) > 0
    ensures p < Total(s)
  {
    match LastPosition(s, last, rangeID)
    case None => 0
    case Some(p) => Ahead(Total(s), p, 1)
  }

  /** The range-end case: the search begins in another range than the one it remembers as its start. */
  ghost predicate Endless(s: RangeSet, last: map<nat, IP>, rangeID: nat) {
    match LastPosition(s, last, rangeID)
    case None => false
    case Some(p) => RangeAt(s, Ahead(Total(s), p, 1)) != RangeAt(s, p)
  }

  /** The first position of a list whose address is not reserved. */
  function FirstFree(s: RangeSet, files: Files, ps: seq<nat>): (r: Option<nat>)
    requires forall i :: 0 <= i < |ps| ==> ps[i] < Total(s)
    ensures r.Some? ==> r.value in ps && r.value < Total(s) && AddressAt(s, r.value) !in files
    ensures r.None? <==> forall p :: p in ps ==> AddressAt(s, p) in files
  {
    if ps == [] then None
    else if AddressAt(s, ps[0]) !in files then Some(ps[0])
    else FirstFree(s, files, ps[1..])
  }

  /** The address an unrequested Get is to reserve. */
  ghost function Choice(s: RangeSet, st: State, rangeID: nat): Option<nat>
    requires Total(s) > 0
  {
    FirstFree(s, st.files, Walk(s, Begin(s, st.last, rangeID)))
  }

  function ConfigAt(s: RangeSet, p: nat): IPConfig
    requires p < Total(s)
  {
    var r := s[RangeAt(s, p)];
    IPConfig(To4(AddressAt(s, p)).None?, AddressAt(s, p), r.mask, r.gateway)
  }

  function Reserved(s: RangeSet, st: State, rangeID: nat, id: string, ifname: string, p: nat): State
    requires p < Total(s)
  {
    State(st.files[AddressAt(s, p) := Entry(id, ifname)], st.last[rangeID := AddressAt(s, p)])
  }

  /** The position of an address of the set. */
  ghost predicate IsAt(s: RangeSet, ip: IP, p: nat) {
    p < Total(s) && CanonicalizeIP(ip) == Some(AddressAt(s, p))
  }

  // ---- Facts about positions ----

  lemma AddressKey(s: RangeSet, p: nat)
    requires GoodSet(s) && p < Total(s)
    ensures FileKey(AddressAt(s, p)) == AddressAt(s, p)
    ensures KeyAt(s, AddressAt(s, p), p)
    ensures CanonicalizeIP(AddressAt(s, p)) == Some(AddressAt(s, p))
  {
    hide AddressAt;
    hide Total;
    hide GoodSet;
    AddressFacts(s, p);
    CanonicalOfTo16(AddressAt(s, p));
  }

  lemma KeyAtUnique(s: RangeSet, key: IP, p: nat, q: nat)
    requires GoodSet(s) && KeyAt(s, key, p) && KeyAt(s, key, q)
    ensures p == q
  {
    hide AddressAt;
    hide Total;
    hide GoodSet;
    AddressInjective(s, p, q);
  }

  lemma SetContainsIsAt(s: RangeSet, ip: IP)
    requires GoodSet(s)
    ensures SetContains(s, ip) <==> exists p :: IsAt(s, ip, p)
    ensures forall k :: 0 <= k < |s| && Contains(s[k], ip) ==> exists p :: IsAt(s, ip, p) && RangeAt(s, p) == k
  {
    hide Contains;
    hide AddressAt;
    hide RangeAt;
    hide Total;
    hide GoodSet;
    hide CanonicalizeIP;
    forall k | 0 <= k < |s| && Contains(s[k], ip) ensures exists p :: IsAt(s, ip, p) && RangeAt(s, p) == k {
      ContainsIsPosition(s, k, ip);
      var p :| 0 <= p < Total(s) && RangeAt(s, p) == k && CanonicalizeIP(ip) == Some(AddressAt(s, p));
      assert IsAt(s, ip, p);
    }
    if p :| IsAt(s, ip, p) {
      ContainsIsPosition(s, RangeAt(s, p), ip);
      assert Contains(s[RangeAt(s, p)], ip);
    }
  }

  lemma IsAtUnique(s: RangeSet, ip: IP, p: nat, q: nat)
    requires GoodSet(s) && IsAt(s, ip, p) && IsAt(s, ip, q)
    ensures p == q
  {
    hide AddressAt;
    hide Total;
    hide GoodSet;
    hide CanonicalizeIP;
    AddressInjective(s, p, q);
  }

  /** The search returns to its start unless the last address ends a range of a set with several. */
  lemma EndlessExactly(s: RangeSet, last: map<nat, IP>, rangeID: nat)
    requires GoodSet(s)
    ensures Endless(s, last, rangeID) <==>
      && |s| >= 2
      && LastPosition(s, last, rangeID).Some?
      && var p := LastPosition(s, last, rangeID).value; NumberAt(s, p) == Hi(s[RangeAt(s, p)])
  {
    hide GoodSet;
    hide AddressAt;
    hide NumberAt;
    hide RangeAt;
    hide Hi;
    hide Total;
    hide KeyAt;
    var found := LastPosition(s, last, rangeID);
    if found.Some? {
      KeyAtParts(s, last[rangeID], found.value);
      Successor(s, found.value);
      WrapIndex(RangeAt(s, found.value), |s|);
    }
  }

  lemma KeyAtParts(s: RangeSet, key: IP, p: nat)
    requires KeyAt(s, key, p)
    ensures p < Total(s) && ParseIP(key).Some? && CanonicalizeIP(ParseIP(key).value) == Some(AddressAt(s, p))
  {
  }

  // ---- The allocator ----

  class IPAllocator {
    const rangeset: RangeSet
    const store: Store
    const rangeID: nat

    constructor (s: RangeSet, store: Store, id: nat)
      ensures rangeset == s && this.store == store && rangeID == id
    {
      rangeset, this.store, rangeID := s, store, id;
    }

    method GetIter() returns (iter: RangeIter)
      requires Bounded(rangeset)
      ensures fresh(iter) && iter.Valid() && iter.rangeset == rangeset
      ensures iter.State() == StartCursor(rangeset, store.last, rangeID)
    {
      hide Contains;
      hide ParseIP;
      var lastReserved := store.LastReservedIP(rangeID);
      if lastReserved.Some? {
        var k := RangeFor(rangeset, lastReserved.value);
        if k.Some? {
          iter := new RangeIter.After(rangeset, k.value, lastReserved.value);
          return;
        }
      }
      iter := new RangeIter.FromStart(rangeset);
    }

    method Get(id: string, ifname: string, requested: Option<IP>) returns (result: Result<IPConfig, GetError>)
      requires Bounded(rangeset)
      requires GetEnds(rangeset, State(store.files, store.last), rangeID, id, ifname, requested)
      modifies store
      ensures (result, State(store.files, store.last))
           == GetSpec(rangeset, old(State(store.files, store.last)), rangeID, id, ifname, requested)
    {
      hide GetRequested;
      if requested.Some? {
        result := GetThis(id, ifname, requested.value);
        return;
      }
      hide Holds;
      hide SearchEnds;
      hide Found;
      hide Grant;
      var held := HoldsOne(id, ifname);
      if held {
        return Err(Duplicate);
      }
      result := Search(id, ifname);
    }

    /** The branch of Get for a requested address. */
    method GetThis(id: string, ifname: string, requestedIP: IP) returns (result: Result<IPConfig, GetError>)
      modifies store
      ensures (result, State(store.files, store.last))
           == GetRequested(rangeset, old(State(store.files, store.last)), rangeID, id, ifname, requestedIP)
    {
      hide Contains;
      hide CanonicalizeIP;
      hide Equal;
      hide To4;
      var c := CanonicalizeIP(requestedIP);
      if c.None? {
        return Err(BadIP);
      }
      var ip := c.value;
      var k := RangeFor(rangeset, ip);
      if k.None? {
        return Err(NotInSet);
      }
      var r := rangeset[k.value];
      if EqualOption(ip, r.gateway) {
        return Err(RequestedGateway);
      }
      var reserved := store.Reserve(id, ifname, ip, rangeID);
      if !reserved {
        return Err(NotAvailable);
      }
      return Ok(IPConfig(To4(ip).None?, ip, r.mask, r.gateway));
    }

    /** Whether (id, ifname) holds an address of this set. */
    method HoldsOne(id: string, ifname: string) returns (held: bool)
      ensures held <==> Holds(rangeset, store.files, id, ifname)
      ensures held <==> exists k ::
        && k in store.files
        && (store.files[k] == Entry(id, ifname) || store.files[k] == OldEntry(id))
        && ParseIP(k).Some? && SetContains(rangeset, ParseIP(k).value)
    {
      hide ParseIP;
      hide SetContains;
      var ips := store.GetByID(id, ifname);
      for i := 0 to |ips|
        invariant forall j :: 0 <= j < i ==> !SetContains(rangeset, ips[j])
      {
        var k := RangeFor(rangeset, ips[i]);
        if k.Some? {
          InSet(rangeset, ips[i], k.value);
          assert ips[i] in ips;
          return true;
        }
      }
      forall key | key in store.files && Matches(store.files[key], id, ifname) && ParseIP(key).Some?
        ensures !SetContains(rangeset, ParseIP(key).value)
      {
        assert ParseIP(key).value in ips;
      }
      return false;
    }

    /** The reservation loop. */
    method Search(id: string, ifname: string) returns (result: Result<IPConfig, GetError>)
      requires Bounded(rangeset) && SearchEnds(rangeset, State(store.files, store.last), rangeID)
      modifies store
      ensures var st := old(State(store.files, store.last));
        match Found(rangeset, st, rangeID)
        case None => result == Err(Exhausted) && State(store.files, store.last) == st
        case Some(c) =>
          (result, State(store.files, store.last))
            == Grant(rangeset, st, rangeID, id, ifname, c.cur.GetOr([]), c.rangeIdx)
    {
      hide StartCursor;
      hide SearchIn;
      hide NextIn;
      hide FileKey;
      hide To4;
      hide Found;
      ghost var st, files := State(store.files, store.last), store.files;
      var iter := GetIter();
      ghost var moves: nat :| SearchIn(rangeset, files, iter.State(), moves).Some?;
      ghost var left, stop := moves, SearchIn(rangeset, files, iter.State(), moves).value;
      FoundExactly(rangeset, st, rangeID, moves);
      while true
        invariant iter.Valid() && fresh(iter) && iter.rangeset == rangeset
        invariant store.files == files && State(store.files, store.last) == st
        invariant SearchIn(rangeset, files, iter.State(), left) == Some(stop)
        decreases left
      {
        ghost var k := SearchByNext(rangeset, files, iter.State(), left);
        var addr, mask, gateway := iter.Next(k);
        left := left - k;
        if addr.None? {
          return Err(Exhausted);
        }
        var reserved := store.Reserve(id, ifname, addr.value, rangeID);
        if reserved {
          return Ok(IPConfig(To4(addr.value).None?, addr.value, mask, gateway));
        }
      }
    }

    /**
     * The reservation loop with Next's recursion unrolled, cut off after a number of cursor moves;
     * None says that it has not ended by then.
     */
    method SearchMoves(id: string, ifname: string, moves: nat) returns (result: Option<Result<IPConfig, GetError>>)
      requires Bounded(rangeset)
      modifies store
      ensures var st := old(State(store.files, store.last));
        var stop := SearchIn(rangeset, st.files, StartCursor(rangeset, st.last, rangeID), moves);
        match result
        case None => stop.None? && State(store.files, store.last) == st
        case Some(Err(e)) =>
          e == Exhausted && stop.Some? && stop.value.exhausted && State(store.files, store.last) == st
        case Some(ok) =>
          && stop.Some? && !stop.value.exhausted
          && (ok, State(store.files, store.last))
             == Grant(rangeset, st, rangeID, id, ifname, stop.value.cursor.cur.GetOr([]), stop.value.cursor.rangeIdx)
    {
      hide StartCursor;
      hide FileKey;
      hide To4;
      hide Moved;
      hide EqualOption;
      ghost var st, files := State(store.files, store.last), store.files;
      var iter := GetIter();
      ghost var stop := SearchIn(rangeset, files, iter.State(), moves);
      for i := 0 to moves
        invariant iter.Valid() && fresh(iter) && iter.rangeset == rangeset
        invariant store.files == files && State(store.files, store.last) == st
        invariant SearchIn(rangeset, files, iter.State(), moves - i) == stop
      {
        var exhausted := iter.Step();
        if exhausted {
          return Some(Err(Exhausted));
        }
        var addr, r := iter.cur.value, rangeset[iter.rangeIdx];
        if EqualOption(addr, r.gateway) {
          continue;
        }
        var reserved := store.Reserve(id, ifname, addr, rangeID);
        if reserved {
          return Some(Ok(IPConfig(To4(addr).None?, addr, r.mask, r.gateway)));
        }
      }
      return None;
    }

    method Release(id: string, ifname: string)
      modifies store
      ensures store.files == Released(old(store.files), id, ifname) && store.last == old(store.last)
    {
      store.ReleaseByID(id, ifname);
    }
  }

  // ---- In a good set ----

  /** The search begins on the circle, after the last reserved address if that lies in the set. */
  lemma StartOnCircle(s: RangeSet, last: map<nat, IP>, rangeID: nat)
    requires GoodSet(s)
    ensures Total(s) > 0
    ensures var c, first := StartCursor(s, last, rangeID), Begin(s, last, rangeID);
      OnCircle(s, c, first, 0) && (Returns(s, c, first) <==> !Endless(s, last, rangeID))
  {
    hide GoodSet;
    hide Total;
    hide Contains;
    hide AddressAt;
    hide RangeAt;
    hide CanonicalizeIP;
    hide ParseIP;
    hide OnCircle;
    FirstOnCircle(s);
    if rangeID in last && ParseIP(last[rangeID]).Some? {
      var ip := ParseIP(last[rangeID]).value;
      SetContainsIsAt(s, ip);
      var k := FirstFrom(s, ip, 0);
      if k.Some? {
        var p :| IsAt(s, ip, p) && RangeAt(s, p) == k.value;
        assert KeyAt(s, last[rangeID], p);
        KeyAtUnique(s, last[rangeID], p, LastPosition(s, last, rangeID).value);
        AfterOnCircle(s, ip, p);
      } else {
        assert forall p :: KeyAt(s, last[rangeID], p) ==> IsAt(s, ip, p);
      }
    }
  }

  /**
   * On the circle the search finds the first free address of the rest of the walk; it ends at the
   * latest after one round, if the walk returns or there is such an address.
   */
  lemma SearchOnCircle(s: RangeSet, files: Files, c: Cursor, first: nat, steps: nat) returns (moves: nat)
    requires OnCircle(s, c, first, steps)
    requires Returns(s, c, first) || FirstFree(s, files, Rest(s, first, steps)).Some?
    ensures SearchIn(s, files, c, moves).Some?
    ensures var stop := SearchIn(s, files, c, moves).value;
      match FirstFree(s, files, Rest(s, first, steps))
      case None => stop.exhausted
      case Some(p) => !stop.exhausted && HoldsAddress(s, stop.cursor, p)
    decreases Total(s) - steps
  {
    hide GoodSet;
    hide Total;
    hide Rest;
    hide Moved;
    hide OnCircle;
    hide AtGateway;
    hide IsGateway;
    hide RangeAt;
    hide AddressAt;
    hide FileKey;
    OnCircleParts(s, c, first, steps);
    var (m, exhausted) := Moved(s, c);
    MoveOnCircle(s, c, first, steps);
    RestUnfold(s, first, steps);
    AddressKey(s, Ahead(Total(s), first, steps));
    if exhausted || !Passed(s, files, m) {
      moves := 1;
      assert SearchIn(s, files, m, 0) == None;
    } else {
      var k := SearchOnCircle(s, files, m, first, steps + 1);
      moves := k + 1;
    }
  }

  /** A walk that does not return goes on for ever when everything is reserved. */
  lemma {:induction false} StuckOnCircle(s: RangeSet, files: Files, c: Cursor, first: nat, steps: nat, moves: nat)
    requires OnCircle(s, c, first, steps) && !Returns(s, c, first)
    requires forall p :: 0 <= p < Total(s) && !IsGateway(s, p) ==> FileKey(AddressAt(s, p)) in files
    ensures SearchIn(s, files, c, moves).None?
    decreases moves
  {
    hide GoodSet;
    hide Total;
    hide Moved;
    hide OnCircle;
    hide AtGateway;
    hide IsGateway;
    hide RangeAt;
    hide AddressAt;
    hide FileKey;
    if moves > 0 {
      OnCircleParts(s, c, first, steps);
      MoveOnCircle(s, c, first, steps);
      StuckOnCircle(s, files, Moved(s, c).0, first, StepsOn(Total(s), steps), moves - 1);
    }
  }

  /** In a good set the search ends unless it is in the range-end case and everything is reserved. */
  lemma SearchEndsOnCircle(s: RangeSet, st: State, rangeID: nat)
    requires GoodSet(s) && Total(s) > 0
    ensures SearchEnds(s, st, rangeID) <==> !Endless(s, st.last, rangeID) || Choice(s, st, rangeID).Some?
    ensures match Choice(s, st, rangeID)
      case None => Found(s, st, rangeID).None?
      case Some(p) => Found(s, st, rangeID).Some? && HoldsAddress(s, Found(s, st, rangeID).value, p)
  {
    hide GoodSet;
    hide Total;
    hide OnCircle;
    hide SearchIn;
    hide StartCursor;
    hide Endless;
    hide Begin;
    hide AddressAt;
    hide RangeAt;
    hide Found;
    hide FileKey;
    hide IsGateway;
    SetNonEmpty(s);
    StartOnCircle(s, st.last, rangeID);
    var c, first := StartCursor(s, st.last, rangeID), Begin(s, st.last, rangeID);
    if !Endless(s, st.last, rangeID) || Choice(s, st, rangeID).Some? {
      var moves := SearchOnCircle(s, st.files, c, first, 0);
      FoundExactly(s, st, rangeID, moves);
    } else {
      AllReserved(s, st.files, first);
      forall moves ensures SearchIn(s, st.files, c, moves).None? {
        StuckOnCircle(s, st.files, c, first, 0, moves);
      }
      NotFound(s, st, rangeID);
    }
  }

  lemma NotFound(s: RangeSet, st: State, rangeID: nat)
    requires !SearchEnds(s, st, rangeID)
    ensures Found(s, st, rangeID).None?
  {
    hide SearchEnds;
  }

  /** An unrequested Get takes the address Choice names. */
  lemma GetAnyOnCircle(s: RangeSet, st: State, rangeID: nat, id: string, ifname: string)
    requires GoodSet(s) && Total(s) > 0
    ensures GetAny(s, st, rangeID, id, ifname)
         == if Holds(s, st.files, id, ifname) then (Err(Duplicate), st)
            else match Choice(s, st, rangeID)
              case None => (Err(Exhausted), st)
              case Some(p) => (Ok(ConfigAt(s, p)), Reserved(s, st, rangeID, id, ifname, p))
  {
    hide GoodSet;
    hide Total;
    hide Holds;
    hide Found;
    hide Choice;
    hide AddressAt;
    hide RangeAt;
    hide FileKey;
    hide To4;
    SearchEndsOnCircle(s, st, rangeID);
    if Choice(s, st, rangeID).Some? {
      AddressKey(s, Choice(s, st, rangeID).value);
    }
  }

  /**
   * An unrequested Get is refused as a duplicate, with nothing changed, exactly when some file that names
   * the container and interface, or in the old style the container alone, is that of an address of the set.
   */
  lemma DuplicateExactly(s: RangeSet, st: State, rangeID: nat, id: string, ifname: string)
    ensures GetSpec(s, st, rangeID, id, ifname, None).0 == Err(Duplicate) <==>
      exists key ::
        && key in st.files
        && (st.files[key] == Entry(id, ifname) || st.files[key] == OldEntry(id))
        && ParseIP(key).Some? && SetContains(s, ParseIP(key).value)
    ensures forall key :: (key in st.files && (st.files[key] == Entry(id, ifname) || st.files[key] == OldEntry(id))
      && ParseIP(key).Some? && SetContains(s, ParseIP(key).value)) ==>
      GetSpec(s, st, rangeID, id, ifname, None) == (Err(Duplicate), st)
  {
    hide Found;
    hide SetContains;
    hide ParseIP;
    forall k | k in st.files && (st.files[k] == Entry(id, ifname) || st.files[k] == OldEntry(id))
      ensures Matches(st.files[k], id, ifname) {
    }
  }

  /** A requested address is looked up by its position. */
  lemma GetRequestedOnCircle(s: RangeSet, st: State, rangeID: nat, id: string, ifname: string, ip: IP)
    requires GoodSet(s)
    ensures GetRequested(s, st, rangeID, id, ifname, ip).0 == Err(BadIP) <==> CanonicalizeIP(ip).None?
    ensures (forall p :: !IsAt(s, ip, p)) ==>
      GetRequested(s, st, rangeID, id, ifname, ip)
        == (Err(if CanonicalizeIP(ip).None? then BadIP else NotInSet), st)
    ensures forall p :: IsAt(s, ip, p) ==>
      GetRequested(s, st, rangeID, id, ifname, ip)
        == if IsGateway(s, p) then (Err(RequestedGateway), st)
           else if AddressAt(s, p) in st.files then (Err(NotAvailable), st)
           else (Ok(ConfigAt(s, p)), Reserved(s, st, rangeID, id, ifname, p))
  {
    hide GoodSet;
    hide Total;
    hide Contains;
    hide AddressAt;
    hide RangeAt;
    hide CanonicalizeIP;
    hide EqualOption;
    hide IsGateway;
    hide FileKey;
    hide To4;
    if CanonicalizeIP(ip).Some? {
      var a := CanonicalizeIP(ip).value;
      CanonicalTwice(ip);
      SetContainsIsAt(s, a);
      assert forall p :: IsAt(s, ip, p) <==> IsAt(s, a, p);
      var k := FirstFrom(s, a, 0);
      if k.Some? {
        var p :| IsAt(s, a, p) && RangeAt(s, p) == k.value;
        forall q | IsAt(s, ip, q) ensures q == p {
          IsAtUnique(s, ip, p, q);
        }
        AddressKey(s, p);
        IsGatewayDef(s, p);
      }
    }
  }

  /** A Get that succeeds adds one entry under a free key and remembers it; one that fails changes nothing. */
  lemma GetAdds(s: RangeSet, st: State, rangeID: nat, id: string, ifname: string, requested: Option<IP>)
    ensures var (result, after) := GetSpec(s, st, rangeID, id, ifname, requested);
      if result.Ok?
      then var key := FileKey(result.value.address);
        key !in st.files && after == State(st.files[key := Entry(id, ifname)], st.last[rangeID := key])
      else after == st
  {
    hide Holds;
    hide FileKey;
    hide CanonicalizeIP;
    hide EqualOption;
    hide To4;
    hide Contains;
    FoundIsFree(s, st, rangeID);
  }

  lemma FoundIsFree(s: RangeSet, st: State, rangeID: nat)
    ensures Found(s, st, rangeID).Some? ==>
      var c := Found(s, st, rangeID).value; c.rangeIdx < |s| && !Passed(s, st.files, c)
  {
    hide StartCursor;
    hide Passed;
    if Found(s, st, rangeID).Some? {
      var start := StartCursor(s, st.last, rangeID);
      var moves :| SearchIn(s, st.files, start, moves).Some?;
      FoundExactly(s, st, rangeID, moves);
      StopIsFree(s, st.files, start, moves);
    }
  }

  lemma {:induction false} StopIsFree(s: RangeSet, files: Files, c: Cursor, moves: nat)
    requires c.rangeIdx < |s| && SearchIn(s, files, c, moves).Some? && !SearchIn(s, files, c, moves).value.exhausted
    ensures !Passed(s, files, SearchIn(s, files, c, moves).value.cursor)
    decreases moves
  {
    hide Moved;
    hide Passed;
    if Passed(s, files, Moved(s, c).0) {
      StopIsFree(s, files, Moved(s, c).0, moves - 1);
    }
  }

  lemma AllReserved(s: RangeSet, files: Files, first: nat)
    requires GoodSet(s) && first < Total(s) && FirstFree(s, files, Walk(s, first)).None?
    ensures forall p :: 0 <= p < Total(s) && !IsGateway(s, p) ==> FileKey(AddressAt(s, p)) in files
  {
    hide GoodSet;
    hide Total;
    hide AddressAt;
    hide IsGateway;
    hide Walk;
    hide FileKey;
    WalkExact(s, first);
    forall p | 0 <= p < Total(s) && !IsGateway(s, p) ensures FileKey(AddressAt(s, p)) in files {
      AddressKey(s, p);
      assert p in Walk(s, first);
    }
  }

  lemma InSet(s: RangeSet, ip: IP, k: nat)
    requires k < |s| && Contains(s[k], ip)
    ensures SetContains(s, ip)
  {
    hide Contains;
  }

  lemma CanonicalTwice(ip: IP)
    requires CanonicalizeIP(ip).Some?
    ensures CanonicalizeIP(CanonicalizeIP(ip).value) == CanonicalizeIP(ip)
  {
    CanonicalizeIdempotent(ip);
  }
}
