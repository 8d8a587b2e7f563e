/** What cmdAdd comes to in configurations of good sets that have no address in common. */
module HostLocalOutcome {
  import opened Wrappers
  import opened Cidr
  import opened Ranges
  import opened RangeSets
  import opened Ring
  import opened RangeIterator
  import opened DiskStore
  import opened Allocator
  import opened AllocatorRuns
  import opened HostLocal

  // ---- Configurations of good sets ----

  ghost predicate Member(s: RangeSet, ip: IP) {
    exists p :: IsAt(s, ip, p)
  }

  /** Range sets without common address, as LoadIPAMConfig guarantees. */
  ghost predicate SetsApart(ranges: seq<RangeSet>) {
    forall i, j, ip :: 0 <= i < j < |ranges| ==> !(Member(ranges[i], ip) && Member(ranges[j], ip))
  }

  ghost predicate AllGood(ranges: seq<RangeSet>) {
    forall i :: 0 <= i < |ranges| ==> GoodSet(ranges[i]) && Total(ranges[i]) > 0
  }

  /** What LoadIPAMConfig accepts meets cmdAdd's needs, outside the two corner cases of its ranges. */
  lemma ConfigIsGood(ipArgs: seq<IP>, gathered: seq<RangeSet>, oldVersion: bool, ranges: seq<RangeSet>)
    requires AcceptableConfig(ipArgs, gathered, oldVersion)
    requires forall i :: 0 <= i < |gathered| ==> NoZeroNetwork(gathered[i]) && NoBroadcastStart(gathered[i])
    requires |ranges| == |gathered| && forall i :: 0 <= i < |ranges| ==> ranges[i] == CanonicalSet(gathered[i])
    ensures AllGood(ranges) && SetsApart(ranges)
  {
    hide GoodSet;
    hide Total;
    hide Member;
    hide NoZeroNetwork;
    hide NoBroadcastStart;
    hide CanonicalSet;
    hide AcceptableSet;
    hide DisjointSets;
    forall i | 0 <= i < |ranges| ensures GoodSet(ranges[i]) && Total(ranges[i]) > 0 {
      CanonicalSetIsGood(gathered[i]);
      TotalPositive(ranges[i]);
    }
    forall i, j, ip | 0 <= i < j < |ranges| ensures !(Member(ranges[i], ip) && Member(ranges[j], ip)) {
      if Member(ranges[i], ip) && Member(ranges[j], ip) {
        MembersOfOneRange(ipArgs, gathered, oldVersion, i, j, ip);
      }
    }
  }

  lemma MembersOfOneRange(ipArgs: seq<IP>, gathered: seq<RangeSet>, oldVersion: bool, i: nat, j: nat, ip: IP)
    requires AcceptableConfig(ipArgs, gathered, oldVersion)
    requires forall m :: 0 <= m < |gathered| ==> NoZeroNetwork(gathered[m])
    requires i < |gathered| && j < |gathered|
    requires GoodSet(CanonicalSet(gathered[i])) && GoodSet(CanonicalSet(gathered[j]))
    requires Member(CanonicalSet(gathered[i]), ip) && Member(CanonicalSet(gathered[j]), ip)
    ensures i == j
  {
    hide *;
    var k := MemberRange(CanonicalSet(gathered[i]), ip);
    var l := MemberRange(CanonicalSet(gathered[j]), ip);
    OneRangeWithoutZeros(ipArgs, gathered, oldVersion, ip, i, k, j, l);
  }

  lemma MemberRange(s: RangeSet, ip: IP) returns (k: nat)
    requires GoodSet(s) && Member(s, ip)
    ensures k < |s| && Contains(s[k], ip)
  {
    hide GoodSet;
    hide IsAt;
    hide Contains;
    SetContainsIsAt(s, ip);
    k :| 0 <= k < |s| && Contains(s[k], ip);
  }

  lemma GoodAt(ranges: seq<RangeSet>, i: nat)
    requires AllGood(ranges) && i < |ranges|
    ensures GoodSet(ranges[i]) && Total(ranges[i]) > 0
  {
    hide GoodSet;
    hide Total;
  }

  // ---- The outcome, independent of the order in which requests are tried ----

  /** A requested address that lies in the set. */
  ghost predicate RequestedIn(s: RangeSet, requests: set<IP>, ip: IP) {
    ip in requests && Member(s, ip)
  }

  /** p is the position cmdAdd is to reserve in a set: the requested address's, or the first free one's. */
  ghost predicate IsTarget(s: RangeSet, st: State, rangeID: nat, requests: set<IP>, p: nat)
    requires Total(s) > 0
  {
    && p < Total(s) && !IsGateway(s, p) && AddressAt(s, p) !in st.files
    && (forall ip :: RequestedIn(s, requests, ip) ==> IsAt(s, ip, p))
    && ((forall ip :: !RequestedIn(s, requests, ip)) ==> Choice(s, st, rangeID) == Some(p))
  }

  /** When cmdAdd is to succeed, and the positions it then takes. */
  ghost predicate Outcome(ranges: seq<RangeSet>, st: State, requests: set<IP>, pos: seq<nat>)
    requires AllGood(ranges)
  {
    && |pos| == |ranges|
    && (forall ip :: ip in requests ==> exists i :: 0 <= i < |ranges| && Member(ranges[i], ip))
    && (forall i :: 0 <= i < |ranges| ==> IsTarget(ranges[i], st, i, requests, pos[i]))
  }

  /** The outcome is determined by the configuration, the store and the set of requests. */
  lemma OutcomeUnique(ranges: seq<RangeSet>, st: State, requests: set<IP>, pos: seq<nat>, pos': seq<nat>)
    requires AllGood(ranges) && Outcome(ranges, st, requests, pos) && Outcome(ranges, st, requests, pos')
    ensures pos == pos'
  {
    hide Total;
    hide GoodSet;
    hide AddressAt;
    hide IsGateway;
    hide Choice;
    hide IsAt;
    forall i | 0 <= i < |ranges| ensures pos[i] == pos'[i] {
      assert IsTarget(ranges[i], st, i, requests, pos[i]) && IsTarget(ranges[i], st, i, requests, pos'[i]);
      if ip :| RequestedIn(ranges[i], requests, ip) {
        IsAtUnique(ranges[i], ip, pos[i], pos'[i]);
      }
    }
  }

  lemma OutcomeTarget(ranges: seq<RangeSet>, st: State, requests: set<IP>, pos: seq<nat>, i: nat)
    requires AllGood(ranges) && Outcome(ranges, st, requests, pos) && i < |ranges|
    ensures |pos| == |ranges| && IsTarget(ranges[i], st, i, requests, pos[i])
  {
    hide Total;
    hide GoodSet;
    hide IsTarget;
    hide Member;
  }

  lemma OutcomeCovers(ranges: seq<RangeSet>, st: State, requests: set<IP>, pos: seq<nat>, ip: IP) returns (i: nat)
    requires AllGood(ranges) && Outcome(ranges, st, requests, pos) && ip in requests
    ensures i < |ranges| && RequestedIn(ranges[i], requests, ip)
  {
    hide Total;
    hide GoodSet;
    hide IsTarget;
    hide Member;
    i :| 0 <= i < |ranges| && Member(ranges[i], ip);
  }

  lemma TargetOfTwo(s: RangeSet, st: State, rangeID: nat, requests: set<IP>, p: nat, ip: IP, other: IP)
    requires Total(s) > 0 && IsTarget(s, st, rangeID, requests, p)
    requires RequestedIn(s, requests, ip) && RequestedIn(s, requests, other)
    ensures CanonicalizeIP(ip) == CanonicalizeIP(other)
  {
    hide Total;
    hide Member;
    hide AddressAt;
    hide CanonicalizeIP;
    assert IsAt(s, ip, p) && IsAt(s, other, p);
  }

  /** A set without target rules out success. */
  lemma NoTarget(ranges: seq<RangeSet>, st: State, requests: set<IP>, want: seq<nat>, i: nat)
    requires AllGood(ranges) && i < |ranges| && Total(ranges[i]) > 0
    requires forall p: nat :: !IsTarget(ranges[i], st, i, requests, p)
    ensures !Outcome(ranges, st, requests, want)
  {
    hide *;
    if Outcome(ranges, st, requests, want) {
      OutcomeTarget(ranges, st, requests, want, i);
    }
  }

  // ---- The store after the sets were served ----

  /** The owner map with an entry for each position, one per range set. */
  ghost function WithEntries(ranges: seq<RangeSet>, files: Files, pos: seq<nat>, c: Content): Files
    requires Positions(ranges, pos)
  {
    if pos == [] then files
    else
      var n := |pos| - 1;
      WithEntries(ranges, files, pos[..n], c)[AddressAt(ranges[n], pos[n]) := c]
  }

  ghost predicate Positions(ranges: seq<RangeSet>, pos: seq<nat>) {
    |pos| <= |ranges| && forall i :: 0 <= i < |pos| ==> pos[i] < Total(ranges[i])
  }

  lemma {:induction false} WithEntriesKeys(ranges: seq<RangeSet>, files: Files, pos: seq<nat>, c: Content, key: IP)
    requires Positions(ranges, pos)
    ensures key in WithEntries(ranges, files, pos, c) <==>
      key in files || exists i :: 0 <= i < |pos| && AddressAt(ranges[i], pos[i]) == key
    ensures key in WithEntries(ranges, files, pos, c) ==>
      WithEntries(ranges, files, pos, c)[key]
        == if exists i :: 0 <= i < |pos| && AddressAt(ranges[i], pos[i]) == key then c else files[key]
  {
    hide Total;
    hide AddressAt;
    if pos != [] {
      var n := |pos| - 1;
      WithEntriesKeys(ranges, files, pos[..n], c, key);
      if i :| 0 <= i < |pos| && AddressAt(ranges[i], pos[i]) == key {
        assert i < n ==> pos[..n][i] == pos[i];
      }
    }
  }

  /** Taking the new entries out again leaves the owner map without what the container held before. */
  lemma {:induction false} RemoveOwn(ranges: seq<RangeSet>, files: Files, pos: seq<nat>, c: Content)
    requires Positions(ranges, pos)
    requires forall i :: 0 <= i < |pos| ==> AddressAt(ranges[i], pos[i]) !in files
    ensures Without(WithEntries(ranges, files, pos, c), c) == Without(files, c)
  {
    hide Total;
    hide AddressAt;
    if pos != [] {
      var n := |pos| - 1;
      var inner, key := WithEntries(ranges, files, pos[..n], c), AddressAt(ranges[n], pos[n]);
      RemoveOwn(ranges, files, pos[..n], c);
      WithEntriesKeys(ranges, files, pos[..n], c, key);
      assert Without(inner[key := c], c) == Without(inner, c);
    }
  }

  /** The container holds nothing, in either style. */
  predicate HoldsNothing(files: Files, id: string, ifname: string) {
    Entry(id, ifname) !in files.Values && OldEntry(id) !in files.Values
  }

  ghost predicate Granted(ranges: seq<RangeSet>, ips: seq<IPConfig>, pos: seq<nat>) {
    && Positions(ranges, pos) && |ips| == |pos|
    && forall i :: 0 <= i < |pos| ==> ips[i] == ConfigAt(ranges[i], pos[i])
  }

  /** Each served set remembers its new address as the last reserved one; the other sets remember what they did. */
  ghost predicate LastMoved(ranges: seq<RangeSet>, last: map<nat, IP>, last': map<nat, IP>, pos: seq<nat>)
    requires Positions(ranges, pos)
  {
    && (forall k :: 0 <= k < |pos| ==> k in last' && last'[k] == AddressAt(ranges[k], pos[k]))
    && forall k :: k >= |pos| ==> (k in last <==> k in last') && (k in last ==> last[k] == last'[k])
  }

  /** The store after the sets at pos were served. */
  ghost predicate Written(ranges: seq<RangeSet>, st: State, now: State, pos: seq<nat>, c: Content) {
    && Positions(ranges, pos)
    && now.files == WithEntries(ranges, st.files, pos, c)
    && LastMoved(ranges, st.last, now.last, pos)
  }

  lemma WrittenStep(ranges: seq<RangeSet>, st: State, now: State, pos: seq<nat>, id: string, ifname: string, p: nat)
    requires |pos| < |ranges| && p < Total(ranges[|pos|]) && Written(ranges, st, now, pos, Entry(id, ifname))
    ensures Written(ranges, st, Reserved(ranges[|pos|], now, |pos|, id, ifname, p), pos + [p], Entry(id, ifname))
  {
    hide Total;
    hide AddressAt;
    assert (pos + [p])[..|pos|] == pos;
  }

  lemma GrantedStep(ranges: seq<RangeSet>, ips: seq<IPConfig>, pos: seq<nat>, p: nat)
    requires |pos| < |ranges| && p < Total(ranges[|pos|]) && Granted(ranges, ips, pos)
    ensures Granted(ranges, ips + [ConfigAt(ranges[|pos|], p)], pos + [p])
  {
    hide Total;
    hide ConfigAt;
  }

  // ---- What one allocation does not see of the others ----

  /** Two states that look alike from one range set. */
  ghost predicate SameView(s: RangeSet, rangeID: nat, st: State, st': State) {
    && (rangeID in st.last <==> rangeID in st'.last)
    && (rangeID in st.last ==> st.last[rangeID] == st'.last[rangeID])
    && forall p :: 0 <= p < Total(s) ==> (AddressAt(s, p) in st.files <==> AddressAt(s, p) in st'.files)
  }

  lemma SameLast(s: RangeSet, rangeID: nat, st: State, st': State)
    requires GoodSet(s) && Total(s) > 0 && SameView(s, rangeID, st, st')
    ensures LastPosition(s, st.last, rangeID) == LastPosition(s, st'.last, rangeID)
  {
    hide Total;
    hide GoodSet;
    hide AddressAt;
    hide KeyAt;
    var p, p' := LastPosition(s, st.last, rangeID), LastPosition(s, st'.last, rangeID);
    if p.Some? && p'.Some? {
      KeyAtUnique(s, st.last[rangeID], p.value, p'.value);
    }
  }

  lemma {:induction false} SameFirstFree(s: RangeSet, rangeID: nat, st: State, st': State, ps: seq<nat>)
    requires SameView(s, rangeID, st, st')
    requires forall i :: 0 <= i < |ps| ==> ps[i] < Total(s)
    ensures FirstFree(s, st.files, ps) == FirstFree(s, st'.files, ps)
  {
    hide Total;
    hide AddressAt;
    if ps != [] {
      SameFirstFree(s, rangeID, st, st', ps[1..]);
      assert AddressAt(s, ps[0]) in st.files <==> AddressAt(s, ps[0]) in st'.files;
    }
  }

  lemma SameChoice(s: RangeSet, rangeID: nat, st: State, st': State)
    requires GoodSet(s) && Total(s) > 0 && SameView(s, rangeID, st, st')
    ensures Choice(s, st, rangeID) == Choice(s, st', rangeID)
    ensures Endless(s, st.last, rangeID) <==> Endless(s, st'.last, rangeID)
  {
    hide Total;
    hide GoodSet;
    hide AddressAt;
    hide RangeAt;
    hide Walk;
    hide LastPosition;
    hide SameView;
    SameLast(s, rangeID, st, st');
    SameFirstFree(s, rangeID, st, st', Walk(s, Begin(s, st.last, rangeID)));
  }

  lemma MemberAt(s: RangeSet, ip: IP, p: nat)
    requires IsAt(s, ip, p)
    ensures Member(s, ip)
  {
  }

  /** An address of one set is no address of another, however it is read. */
  lemma ApartAddresses(ranges: seq<RangeSet>, j: nat, q: nat, i: nat)
    requires AllGood(ranges) && SetsApart(ranges) && i < |ranges| && j < |ranges| && i != j && q < Total(ranges[j])
    ensures var key := AddressAt(ranges[j], q);
      && ParseIP(key).Some?
      && !SetContains(ranges[i], ParseIP(key).value)
      && forall p :: 0 <= p < Total(ranges[i]) ==> AddressAt(ranges[i], p) != key
  {
    hide Total;
    hide GoodSet;
    hide AddressAt;
    hide SetContains;
    hide ParseIP;
    hide CanonicalizeIP;
    hide Member;
    var key := AddressAt(ranges[j], q);
    AddressKey(ranges[j], q);
    KeyAtParts(ranges[j], key, q);
    MemberAt(ranges[j], key, q);
    MemberAt(ranges[j], ParseIP(key).value, q);
    assert !Member(ranges[i], key) && !Member(ranges[i], ParseIP(key).value);
    SetContainsMember(ranges[i], ParseIP(key).value);
    forall p | 0 <= p < Total(ranges[i]) ensures AddressAt(ranges[i], p) != key {
      AddressKey(ranges[i], p);
      MemberAt(ranges[i], AddressAt(ranges[i], p), p);
    }
  }

  lemma SetContainsMember(s: RangeSet, ip: IP)
    requires GoodSet(s)
    ensures SetContains(s, ip) <==> Member(s, ip)
  {
    hide GoodSet;
    hide IsAt;
    SetContainsIsAt(s, ip);
  }

  /** Entries in other sets do not show in set i. */
  lemma OtherSetsApart(ranges: seq<RangeSet>, files: Files, pos: seq<nat>, c: Content, i: nat, p: nat)
    requires AllGood(ranges) && SetsApart(ranges) && Positions(ranges, pos) && |pos| <= i < |ranges|
    requires p < Total(ranges[i])
    ensures AddressAt(ranges[i], p) in WithEntries(ranges, files, pos, c) <==> AddressAt(ranges[i], p) in files
  {
    hide Total;
    hide GoodSet;
    hide AddressAt;
    hide WithEntries;
    hide ParseIP;
    hide SetContains;
    WithEntriesKeys(ranges, files, pos, c, AddressAt(ranges[i], p));
    forall j | 0 <= j < |pos| ensures AddressAt(ranges[j], pos[j]) != AddressAt(ranges[i], p) {
      ApartAddresses(ranges, j, pos[j], i);
    }
  }

  /** What the container got so far lies in other sets, so set i sees of it what it saw before. */
  lemma HoldsKept(ranges: seq<RangeSet>, files: Files, pos: seq<nat>, id: string, ifname: string, i: nat)
    requires AllGood(ranges) && SetsApart(ranges) && Positions(ranges, pos) && |pos| <= i < |ranges|
    ensures Holds(ranges[i], WithEntries(ranges, files, pos, Entry(id, ifname)), id, ifname) <==>
      Holds(ranges[i], files, id, ifname)
  {
    hide *;
    var now := WithEntries(ranges, files, pos, Entry(id, ifname));
    HoldsDef(ranges[i], now, id, ifname);
    HoldsDef(ranges[i], files, id, ifname);
    forall k | k in now && Matches(now[k], id, ifname) && ParseIP(k).Some? && SetContains(ranges[i], ParseIP(k).value)
      ensures k in files && Matches(files[k], id, ifname)
    {
      EntryOfOther(ranges, files, pos, id, ifname, i, k);
    }
    forall k | k in files && Matches(files[k], id, ifname) ensures k in now && Matches(now[k], id, ifname) {
      WithEntriesKeys(ranges, files, pos, Entry(id, ifname), k);
      MatchesOwn(id, ifname);
    }
  }

  lemma MatchesOwn(id: string, ifname: string)
    ensures Matches(Entry(id, ifname), id, ifname)
  {
  }

  lemma HoldsDef(s: RangeSet, files: Files, id: string, ifname: string)
    ensures Holds(s, files, id, ifname) <==>
      exists k :: k in files && Matches(files[k], id, ifname) && ParseIP(k).Some? && SetContains(s, ParseIP(k).value)
  {
    hide SetContains;
    hide ParseIP;
    hide Matches;
  }

  /** An address of set i that is in the owner map was there before. */
  lemma EntryOfOther(ranges: seq<RangeSet>, files: Files, pos: seq<nat>, id: string, ifname: string, i: nat, k: IP)
    requires AllGood(ranges) && SetsApart(ranges) && Positions(ranges, pos) && |pos| <= i < |ranges|
    requires ParseIP(k).Some? && SetContains(ranges[i], ParseIP(k).value)
    requires k in WithEntries(ranges, files, pos, Entry(id, ifname))
    ensures k in files && WithEntries(ranges, files, pos, Entry(id, ifname))[k] == files[k]
  {
    hide Total;
    hide GoodSet;
    hide AddressAt;
    hide WithEntries;
    hide SetContains;
    hide ParseIP;
    hide SetsApart;
    WithEntriesKeys(ranges, files, pos, Entry(id, ifname), k);
    forall j | 0 <= j < |pos| ensures AddressAt(ranges[j], pos[j]) != k {
      ApartAddresses(ranges, j, pos[j], i);
    }
  }

  lemma ViewKept(ranges: seq<RangeSet>, st: State, now: State, pos: seq<nat>, c: Content, i: nat)
    requires AllGood(ranges) && SetsApart(ranges) && Positions(ranges, pos) && |pos| <= i < |ranges|
    requires now.files == WithEntries(ranges, st.files, pos, c)
    requires i in st.last <==> i in now.last
    requires i in st.last ==> st.last[i] == now.last[i]
    ensures SameView(ranges[i], i, st, now)
  {
    hide Total;
    hide GoodSet;
    hide AddressAt;
    hide WithEntries;
    hide SetsApart;
    forall p | 0 <= p < Total(ranges[i])
      ensures AddressAt(ranges[i], p) in st.files <==> AddressAt(ranges[i], p) in now.files
    {
      OtherSetsApart(ranges, st.files, pos, c, i, p);
    }
  }

  lemma WrittenView(ranges: seq<RangeSet>, st: State, now: State, pos: seq<nat>, c: Content, i: nat)
    requires AllGood(ranges) && SetsApart(ranges) && |pos| <= i < |ranges| && Written(ranges, st, now, pos, c)
    ensures SameView(ranges[i], i, st, now)
  {
    hide Total;
    hide GoodSet;
    hide AddressAt;
    hide WithEntries;
    hide SetsApart;
    hide SameView;
    ViewKept(ranges, st, now, pos, c, i);
  }

  lemma WrittenHolds(ranges: seq<RangeSet>, st: State, now: State, pos: seq<nat>, id: string, ifname: string, i: nat)
    requires AllGood(ranges) && SetsApart(ranges) && |pos| <= i < |ranges|
    requires Written(ranges, st, now, pos, Entry(id, ifname))
    ensures Holds(ranges[i], st.files, id, ifname) <==> Holds(ranges[i], now.files, id, ifname)
  {
    hide Total;
    hide GoodSet;
    hide AddressAt;
    hide WithEntries;
    hide SetsApart;
    hide Holds;
    HoldsKept(ranges, st.files, pos, id, ifname, i);
  }

  // ---- Which requests are used up ----

  /** Set j was served: by a request that is used up, or, without requests, by the first free address. */
  ghost predicate Served(s: RangeSet, st: State, rangeID: nat, requests: set<IP>, left: map<IP, IP>, p: nat)
    requires Total(s) > 0
  {
    && p < Total(s) && !IsGateway(s, p) && AddressAt(s, p) !in st.files
    && (|| (exists ip :: ip in requests && ip !in left && IsAt(s, ip, p))
        || ((forall ip :: !RequestedIn(s, requests, ip)) && Choice(s, st, rangeID) == Some(p)))
  }

  /** The used-up requests are those the positions taken so far stand for. */
  ghost predicate Progress(ranges: seq<RangeSet>, st: State, requests: set<IP>, left: map<IP, IP>, pos: seq<nat>)
    requires AllGood(ranges)
  {
    && Positions(ranges, pos)
    && (forall j :: 0 <= j < |pos| ==> Served(ranges[j], st, j, requests, left, pos[j]))
    && (forall ip :: ip in left ==> ip in requests && left[ip] == ip)
    && (forall ip :: ip in requests && ip !in left ==> exists j :: 0 <= j < |pos| && IsAt(ranges[j], ip, pos[j]))
  }

  lemma MemberOfTwo(ranges: seq<RangeSet>, ip: IP, i: nat, j: nat)
    requires SetsApart(ranges) && i < |ranges| && j < |ranges| && Member(ranges[i], ip) && Member(ranges[j], ip)
    ensures i == j
  {
    hide Member;
  }

  lemma StartProgress(ranges: seq<RangeSet>, st: State, requests: set<IP>, left: map<IP, IP>, c: Content)
    requires AllGood(ranges) && left.Keys == requests && forall ip :: ip in left ==> left[ip] == ip
    ensures Progress(ranges, st, requests, left, []) && Granted(ranges, [], []) && Written(ranges, st, st, [], c)
  {
    hide Total;
    hide GoodSet;
  }

  lemma ProgressRequests(ranges: seq<RangeSet>, st: State, requests: set<IP>, left: map<IP, IP>, pos: seq<nat>)
    requires AllGood(ranges) && Progress(ranges, st, requests, left, pos)
    ensures forall ip :: ip in left ==> ip in requests && left[ip] == ip
  {
    hide Total;
    hide GoodSet;
    hide Served;
    hide IsAt;
  }

  /** One more set served. */
  lemma ProgressStep(ranges: seq<RangeSet>, st: State, requests: set<IP>, left: map<IP, IP>, pos: seq<nat>, p: nat,
                     used: Option<IP>)
    requires AllGood(ranges) && Progress(ranges, st, requests, left, pos) && |pos| < |ranges|
    requires p < Total(ranges[|pos|]) && !IsGateway(ranges[|pos|], p) && AddressAt(ranges[|pos|], p) !in st.files
    requires match used
      case Some(ip) => ip in left && IsAt(ranges[|pos|], ip, p)
      case None =>
        (forall ip :: !RequestedIn(ranges[|pos|], requests, ip)) && Choice(ranges[|pos|], st, |pos|) == Some(p)
    ensures Progress(ranges, st, requests, match used case Some(ip) => left - {ip} case None => left, pos + [p])
  {
    hide Total;
    hide GoodSet;
    hide AddressAt;
    hide IsGateway;
    hide IsAt;
    hide Choice;
    hide RequestedIn;
    var next, pos' := match used case Some(ip) => left - {ip} case None => left, pos + [p];
    forall j | 0 <= j < |pos'| ensures Served(ranges[j], st, j, requests, next, pos'[j]) {
      if j < |pos| {
        assert Served(ranges[j], st, j, requests, left, pos[j]);
      }
    }
    forall ip | ip in requests && ip !in next ensures exists j :: 0 <= j < |pos'| && IsAt(ranges[j], ip, pos'[j]) {
      if ip !in left {
        var j :| 0 <= j < |pos| && IsAt(ranges[j], ip, pos[j]);
        assert IsAt(ranges[j], ip, pos'[j]);
      } else {
        assert IsAt(ranges[|pos|], ip, pos'[|pos|]);
      }
    }
  }

  /** When every request is used up at the end, the outcome is reached. */
  lemma ProgressDone(ranges: seq<RangeSet>, st: State, requests: set<IP>, pos: seq<nat>)
    requires AllGood(ranges) && SetsApart(ranges) && |pos| == |ranges|
    requires Progress(ranges, st, requests, map[], pos)
    ensures Outcome(ranges, st, requests, pos)
  {
    hide Total;
    hide GoodSet;
    hide AddressAt;
    hide IsGateway;
    hide Choice;
    hide IsAt;
    hide SetsApart;
    forall ip | ip in requests ensures exists i :: 0 <= i < |ranges| && Member(ranges[i], ip) {
      var j :| 0 <= j < |pos| && IsAt(ranges[j], ip, pos[j]);
      MemberAt(ranges[j], ip, pos[j]);
    }
    forall i | 0 <= i < |ranges| ensures IsTarget(ranges[i], st, i, requests, pos[i]) {
      assert Served(ranges[i], st, i, requests, map[], pos[i]);
      forall ip | RequestedIn(ranges[i], requests, ip) ensures IsAt(ranges[i], ip, pos[i]) {
        var j :| 0 <= j < |pos| && IsAt(ranges[j], ip, pos[j]);
        MemberAt(ranges[j], ip, pos[j]);
        MemberOfTwo(ranges, ip, i, j);
      }
      forall ip | ip in requests && IsAt(ranges[i], ip, pos[i]) ensures RequestedIn(ranges[i], requests, ip) {
        MemberAt(ranges[i], ip, pos[i]);
      }
    }
  }

  /** In a served set with a request left over, another request was used up. */
  lemma UsedInstead(ranges: seq<RangeSet>, st: State, requests: set<IP>, left: map<IP, IP>, pos: seq<nat>, i: nat,
                    ip: IP) returns (other: IP)
    requires AllGood(ranges) && Progress(ranges, st, requests, left, pos)
    requires i < |pos| && RequestedIn(ranges[i], requests, ip) && ip in left
    ensures other != ip && other in requests && RequestedIn(ranges[i], requests, other)
  {
    hide Total;
    hide GoodSet;
    hide IsGateway;
    hide AddressAt;
    hide Choice;
    hide IsAt;
    hide Member;
    assert Served(ranges[i], st, i, requests, left, pos[i]);
    other :| other in requests && other !in left && IsAt(ranges[i], other, pos[i]);
    MemberAt(ranges[i], other, pos[i]);
  }

  /** A request left over at the end rules out success. */
  lemma LeftOver(ranges: seq<RangeSet>, st: State, requests: set<IP>, left: map<IP, IP>, pos: seq<nat>, ip: IP,
                 want: seq<nat>)
    requires AllGood(ranges) && |pos| == |ranges| && Progress(ranges, st, requests, left, pos) && ip in left
    requires ip in requests
    requires forall r :: r in requests ==> CanonicalizeIP(r) == Some(r)
    ensures !Outcome(ranges, st, requests, want)
  {
    hide *;
    if Outcome(ranges, st, requests, want) {
      var i := OutcomeCovers(ranges, st, requests, want, ip);
      var other := UsedInstead(ranges, st, requests, left, pos, i, ip);
      OutcomeTarget(ranges, st, requests, want, i);
      GoodAt(ranges, i);
      TargetOfTwo(ranges[i], st, i, requests, want[i], ip, other);
    }
  }

  // ---- Rolling back ----

  /**
   * Rolling back restores the owner map exactly if nothing was reserved yet, or the container held
   * no entry before and, once two sets were served, no old-style entry either.
   */
  lemma RollbackExact(ranges: seq<RangeSet>, files: Files, pos: seq<nat>, id: string, ifname: string)
    requires Positions(ranges, pos)
    requires forall j :: 0 <= j < |pos| ==> AddressAt(ranges[j], pos[j]) !in files
    ensures ReleasedTimes(WithEntries(ranges, files, pos, Entry(id, ifname)), id, ifname, |pos|) == files <==>
      || |pos| == 0
      || (Entry(id, ifname) !in files.Values && (|pos| == 1 || OldEntry(id) !in files.Values))
  {
    hide Total;
    hide AddressAt;
    hide WithEntries;
    hide Without;
    hide ReleasedTimes;
    var e, o, now := Entry(id, ifname), OldEntry(id), WithEntries(ranges, files, pos, Entry(id, ifname));
    NoTimes(now, id, ifname);
    if |pos| == 0 {
      NoEntries(ranges, files, pos, e);
    } else {
      WithEntriesKeys(ranges, files, pos, e, AddressAt(ranges[0], pos[0]));
      assert now[AddressAt(ranges[0], pos[0])] in now.Values;
      ReleasedTimesExact(now, id, ifname, |pos|);
      RemoveOwn(ranges, files, pos, e);
      WithoutNothing(files, e);
      WithoutNothing(Without(files, e), o);
      OtherEntriesKept(files, e, o);
      if e in files.Values {
        WithoutNothing(Without(files, e), e);
        OtherEntriesKept(Without(files, e), o, e);
      }
    }
  }

  lemma NoTimes(files: Files, id: string, ifname: string)
    ensures ReleasedTimes(files, id, ifname, 0) == files
  {
  }

  lemma NoEntries(ranges: seq<RangeSet>, files: Files, pos: seq<nat>, c: Content)
    requires Positions(ranges, pos) && pos == []
    ensures WithEntries(ranges, files, pos, c) == files
  {
  }

  lemma WrittenBack(ranges: seq<RangeSet>, st: State, now: State, left: map<IP, IP>, requests: set<IP>, pos: seq<nat>,
                    id: string, ifname: string)
    requires AllGood(ranges) && Progress(ranges, st, requests, left, pos)
    requires Written(ranges, st, now, pos, Entry(id, ifname))
    ensures RolledBack(ranges, st, State(ReleasedTimes(now.files, id, ifname, |pos|), now.last), pos, id, ifname)
    ensures HoldsNothing(st.files, id, ifname) ==> ReleasedTimes(now.files, id, ifname, |pos|) == st.files
  {
    hide Total;
    hide GoodSet;
    hide AddressAt;
    hide IsGateway;
    hide Choice;
    hide IsAt;
    hide RequestedIn;
    hide ReleasedTimes;
    hide WithEntries;
    forall j | 0 <= j < |pos| ensures AddressAt(ranges[j], pos[j]) !in st.files {
      assert Served(ranges[j], st, j, requests, left, pos[j]);
    }
    RollbackExact(ranges, st.files, pos, id, ifname);
  }

  /**
   * The store after a failure: as many releases as addresses were reserved. The last reserved
   * addresses are not rolled back.
   */
  ghost predicate RolledBack(ranges: seq<RangeSet>, st: State, now: State, pos: seq<nat>, id: string, ifname: string) {
    && Positions(ranges, pos)
    && (forall j :: 0 <= j < |pos| ==> AddressAt(ranges[j], pos[j]) !in st.files)
    && now.files == ReleasedTimes(WithEntries(ranges, st.files, pos, Entry(id, ifname)), id, ifname, |pos|)
    && LastMoved(ranges, st.last, now.last, pos)
  }

  // ---- One round ----

  /** A pick that fits the requests: some request in the set, or none exactly when none is. */
  ghost predicate RightPick(s: RangeSet, requests: set<IP>, pick: Option<IP>) {
    match pick
    case Some(ip) => RequestedIn(s, requests, ip)
    case None => forall ip :: !RequestedIn(s, requests, ip)
  }

  /**
   * The set can grant the pick: its address is free, or, without request, some address is and the
   * container has none.
   */
  ghost predicate Grantable(s: RangeSet, st: State, rangeID: nat, pick: Option<IP>, id: string, ifname: string)
    requires Total(s) > 0
  {
    match pick
    case Some(ip) => exists p :: IsAt(s, ip, p) && !IsGateway(s, p) && AddressAt(s, p) !in st.files
    case None => !Holds(s, st.files, id, ifname) && Choice(s, st, rangeID).Some?
  }

  /** cmdAdd can get past the set. */
  ghost predicate Servable(s: RangeSet, st: State, rangeID: nat, requests: set<IP>, id: string, ifname: string)
    requires Total(s) > 0
  {
    exists pick :: RightPick(s, requests, pick) && Grantable(s, st, rangeID, pick, id, ifname)
  }

  /** What may be picked from the requests left over is what may be picked from all. */
  lemma MayPickExactly(ranges: seq<RangeSet>, st: State, requests: set<IP>, a: Adding, pos: seq<nat>, pick: Option<IP>)
    requires AllGood(ranges) && SetsApart(ranges) && |pos| == |a.ips| < |ranges|
    requires Progress(ranges, st, requests, a.left, pos)
    ensures MayPickNext(ranges, a, pick) <==> RightPick(ranges[|pos|], requests, pick)
    ensures MayPickNext(ranges, a, pick) ==> Request(a.left, pick) == pick
  {
    hide Total;
    hide GoodSet;
    hide Served;
    hide SetContains;
    hide Member;
    hide IsAt;
    hide AddressAt;
    hide SetsApart;
    var s := ranges[|pos|];
    forall ip | ip in requests ensures SetContains(s, ip) <==> Member(s, ip) {
      SetContainsMember(s, ip);
    }
    forall ip | RequestedIn(s, requests, ip) ensures ip in a.left {
      if ip !in a.left {
        var j :| 0 <= j < |pos| && IsAt(ranges[j], ip, pos[j]);
        MemberAt(ranges[j], ip, pos[j]);
        MemberOfTwo(ranges, ip, |pos|, j);
      }
    }
    assert forall ip :: ip in a.left ==> ip in requests && a.left[ip] == ip;
    assert forall ip :: ip in a.left ==> (SetContains(s, a.left[ip]) <==> Member(s, ip));
    assert forall ip :: ip in a.left ==> (RequestedIn(s, requests, ip) <==> SetContains(s, a.left[ip]));
  }

  /** A request's Get in set i decides whether the outcome is still possible. */
  lemma RequestServes(ranges: seq<RangeSet>, st: State, now: State, requests: set<IP>, i: nat, ip: IP, id: string,
                      ifname: string)
    returns (p: nat)
    requires AllGood(ranges) && i < |ranges| && SameView(ranges[i], i, st, now)
    requires RightPick(ranges[i], requests, Some(ip))
    ensures p < Total(ranges[i]) && IsAt(ranges[i], ip, p)
    ensures var (result, after) := GetRequested(ranges[i], now, i, id, ifname, ip);
      match result
      case Ok(conf) =>
        && !IsGateway(ranges[i], p) && AddressAt(ranges[i], p) !in st.files
        && conf == ConfigAt(ranges[i], p) && after == Reserved(ranges[i], now, i, id, ifname, p)
      case Err(_) => after == now && forall q :: !IsTarget(ranges[i], st, i, requests, q)
    ensures GetRequested(ranges[i], now, i, id, ifname, ip).0.Ok? <==> Grantable(ranges[i], st, i, Some(ip), id, ifname)
  {
    hide Total;
    hide GoodSet;
    hide AddressAt;
    hide IsGateway;
    hide Choice;
    hide ConfigAt;
    hide Reserved;
    hide CanonicalizeIP;
    hide GetRequested;
    p :| IsAt(ranges[i], ip, p);
    GetRequestedOnCircle(ranges[i], now, i, id, ifname, ip);
    forall q | IsAt(ranges[i], ip, q) ensures q == p {
      IsAtUnique(ranges[i], ip, p, q);
    }
    assert AddressAt(ranges[i], p) in st.files <==> AddressAt(ranges[i], p) in now.files;
    assert RequestedIn(ranges[i], requests, ip);
  }

  /** So does a Get without request; p is then the set's choice. */
  lemma ChoiceServes(ranges: seq<RangeSet>, st: State, now: State, requests: set<IP>, i: nat, id: string,
                     ifname: string)
    returns (p: nat)
    requires AllGood(ranges) && i < |ranges| && SameView(ranges[i], i, st, now)
    requires RightPick(ranges[i], requests, None)
    requires Holds(ranges[i], st.files, id, ifname) <==> Holds(ranges[i], now.files, id, ifname)
    ensures var (result, after) := GetAny(ranges[i], now, i, id, ifname);
      match result
      case Ok(conf) =>
        && p < Total(ranges[i]) && !IsGateway(ranges[i], p) && AddressAt(ranges[i], p) !in st.files
        && Choice(ranges[i], st, i) == Some(p)
        && conf == ConfigAt(ranges[i], p) && after == Reserved(ranges[i], now, i, id, ifname, p)
      case Err(_) =>
        && after == now
        && (!Holds(ranges[i], st.files, id, ifname) ==> forall q :: !IsTarget(ranges[i], st, i, requests, q))
    ensures GetAny(ranges[i], now, i, id, ifname).0.Ok? <==> Grantable(ranges[i], st, i, None, id, ifname)
  {
    hide Total;
    hide GoodSet;
    hide AddressAt;
    hide IsGateway;
    hide Choice;
    hide ConfigAt;
    hide Reserved;
    hide RequestedIn;
    hide Holds;
    hide SameView;
    hide GetAny;
    SameChoice(ranges[i], i, st, now);
    ChoiceIsFirstFree(ranges[i], st, i);
    GetAnyOnCircle(ranges[i], now, i, id, ifname);
    p := Choice(ranges[i], st, i).GetOr(0);
  }

  /** What one Get does, seen from where cmdAdd began. */
  lemma RoundServes(ranges: seq<RangeSet>, st: State, requests: set<IP>, a: Adding, pos: seq<nat>, pick: Option<IP>,
                    id: string, ifname: string) returns (p: nat)
    requires AllGood(ranges) && SetsApart(ranges) && |pos| == |a.ips| && MayPickNext(ranges, a, pick)
    requires Progress(ranges, st, requests, a.left, pos) && Written(ranges, st, a.st, pos, Entry(id, ifname))
    ensures |pos| < |ranges|
    ensures var i, (result, after) := |pos|, NextGet(ranges, a, pick, id, ifname);
      match result
      case Ok(conf) =>
        && p < Total(ranges[i]) && conf == ConfigAt(ranges[i], p)
        && Progress(ranges, st, requests, Used(a.left, pick), pos + [p])
        && Written(ranges, st, after, pos + [p], Entry(id, ifname))
      case Err(_) =>
        && after == a.st
        && (!Holds(ranges[i], st.files, id, ifname) ==> forall q :: !IsTarget(ranges[i], st, i, requests, q))
    ensures RightPick(ranges[|pos|], requests, pick)
    ensures NextGet(ranges, a, pick, id, ifname).0.Ok? <==> Grantable(ranges[|pos|], st, |pos|, pick, id, ifname)
  {
    hide *;
    var i := |pos|;
    NextGetDef(ranges, a, pick, id, ifname);
    GoodAt(ranges, i);
    MayPickExactly(ranges, st, requests, a, pos, pick);
    WrittenView(ranges, st, a.st, pos, Entry(id, ifname), i);
    p := 0;
    if pick.Some? {
      p := RequestServes(ranges, st, a.st, requests, i, pick.value, id, ifname);
      if NextGet(ranges, a, pick, id, ifname).0.Ok? {
        RequestLeft(ranges, st, requests, a, pos, pick);
        ProgressStep(ranges, st, requests, a.left, pos, p, pick);
        WrittenStep(ranges, st, a.st, pos, id, ifname, p);
      }
    } else {
      WrittenHolds(ranges, st, a.st, pos, id, ifname, i);
      p := ChoiceServes(ranges, st, a.st, requests, i, id, ifname);
      if NextGet(ranges, a, pick, id, ifname).0.Ok? {
        UsedNone(ranges, requests, a.left, i);
        ProgressStep(ranges, st, requests, a.left, pos, p, None);
        WrittenStep(ranges, st, a.st, pos, id, ifname, p);
      }
    }
  }

  lemma RequestLeft(ranges: seq<RangeSet>, st: State, requests: set<IP>, a: Adding, pos: seq<nat>, pick: Option<IP>)
    requires MayPickNext(ranges, a, pick)
    ensures pick.Some? ==> pick.value in a.left
    ensures Used(a.left, pick) == match pick case Some(ip) => a.left - {ip} case None => a.left
  {
    hide SetContains;
  }

  lemma UsedNone(ranges: seq<RangeSet>, requests: set<IP>, left: map<IP, IP>, i: nat)
    requires i < |ranges| && RightPick(ranges[i], requests, None)
    ensures Used(left, None) == left && forall ip :: !RequestedIn(ranges[i], requests, ip)
  {
    hide RequestedIn;
  }

  // ---- The whole call ----

  ghost predicate Reachable(ranges: seq<RangeSet>, st: State, requests: set<IP>, id: string, ifname: string, i: nat)
    requires AllGood(ranges) && i <= |ranges|
  {
    forall j :: 0 <= j < i ==> Servable(ranges[j], st, j, requests, id, ifname)
  }

  /** In good sets that are apart, the sets served so far are served as the outcome asks. */
  lemma {:induction false} RoundsProgress(ranges: seq<RangeSet>, st: State, ipArgs: seq<IP>, picks: seq<Option<IP>>,
                                          id: string, ifname: string)
    returns (pos: seq<nat>)
    requires AllGood(ranges) && SetsApart(ranges)
    requires Rounds(ranges, Start(st, ipArgs), picks, id, ifname).Some?
    ensures |pos| == |picks| <= |ranges|
    ensures var b, requests := Rounds(ranges, Start(st, ipArgs), picks, id, ifname).value, set ip | ip in ipArgs;
      && Progress(ranges, st, requests, b.left, pos)
      && Written(ranges, st, b.st, pos, Entry(id, ifname))
      && Granted(ranges, b.ips, pos)
      && Reachable(ranges, st, requests, id, ifname, |picks|)
    decreases |picks|
  {
    hide *;
    var requests := set ip | ip in ipArgs;
    RoundsDef(ranges, Start(st, ipArgs), picks, id, ifname);
    StartDef(st, ipArgs);
    if picks == [] {
      pos := [];
      StartProgress(ranges, st, requests, Start(st, ipArgs).left, Entry(id, ifname));
      ReachableNext(ranges, st, requests, id, ifname, 0, None);
    } else {
      var n := |picks| - 1;
      var before := Rounds(ranges, Start(st, ipArgs), picks[..n], id, ifname).value;
      pos := RoundsProgress(ranges, st, ipArgs, picks[..n], id, ifname);
      var p := RoundServes(ranges, st, requests, before, pos, picks[n], id, ifname);
      GrantedStep(ranges, before.ips, pos, p);
      ReachableNext(ranges, st, requests, id, ifname, n, picks[n]);
      pos := pos + [p];
    }
  }

  lemma ReachableNext(ranges: seq<RangeSet>, st: State, requests: set<IP>, id: string, ifname: string, n: nat,
                      pick: Option<IP>)
    requires AllGood(ranges) && n <= |ranges|
    ensures Reachable(ranges, st, requests, id, ifname, 0)
    ensures n < |ranges| && Total(ranges[n]) > 0 && Reachable(ranges, st, requests, id, ifname, n) ==>
      RightPick(ranges[n], requests, pick) && Grantable(ranges[n], st, n, pick, id, ifname) ==>
        Reachable(ranges, st, requests, id, ifname, n + 1)
  {
    hide GoodSet;
    hide Total;
    hide RightPick;
    hide Grantable;
  }

  /**
   * In good sets that are apart, cmdAdd takes one address per set, the requested one where there is
   * one, or none at all: whatever the map's order, it can only end like this.
   */
  lemma AddInGoodSets(ranges: seq<RangeSet>, st: State, ipArgs: seq<IP>, picks: seq<Option<IP>>, id: string,
                      ifname: string, result: Result<seq<IPConfig>, AddError>, now: State)
    requires AllGood(ranges) && SetsApart(ranges)
    requires forall i :: 0 <= i < |ipArgs| ==> Canonical(ipArgs[i])
    requires Ends(ranges, Start(st, ipArgs), picks, id, ifname, result, now)
    ensures var requests := set ip | ip in ipArgs;
      && (result.Ok? ==>
            exists pos ::
              && Outcome(ranges, st, requests, pos) && Granted(ranges, result.value, pos)
              && Written(ranges, st, now, pos, Entry(id, ifname)))
      && (result.Err? ==>
            exists pos ::
              RolledBack(ranges, st, now, pos, id, ifname) && |pos| == ServedBefore(result.error, |ranges|))
      && (result.Err? && (HoldsNothing(st.files, id, ifname) || result.error.NotAllRequestedIPs?) ==>
            forall pos :: !Outcome(ranges, st, requests, pos))
      && (result.Err? && HoldsNothing(st.files, id, ifname) ==> now.files == st.files)
      && (result.Err? && result.error.AllocationFailed? ==>
            var i := result.error.index;
            && i < |ranges|
            && (!Holds(ranges[i], st.files, id, ifname) ==> forall q :: !IsTarget(ranges[i], st, i, requests, q)))
  {
    hide *;
    var requests := set ip | ip in ipArgs;
    StartDef(st, ipArgs);
    var b := EndsDef(ranges, Start(st, ipArgs), picks, id, ifname, result, now);
    var pos := RoundsProgress(ranges, st, ipArgs, picks, id, ifname);
    ProgressRequests(ranges, st, requests, b.left, pos);
    match result {
      case Ok(ips) =>
        ProgressDone(ranges, st, requests, pos);
      case Err(error) =>
        WrittenBack(ranges, st, b.st, b.left, requests, pos, id, ifname);
        BackDef(b.st, id, ifname, |pos|);
        assert RolledBack(ranges, st, now, pos, id, ifname) && |pos| == ServedBefore(error, |ranges|);
        if error.AllocationFailed? {
          var pick := FailingPick(ranges, b, error.error, id, ifname);
          var p := RoundServes(ranges, st, requests, b, pos, pick, id, ifname);
          if HoldsNothing(st.files, id, ifname) {
            forall want ensures !Outcome(ranges, st, requests, want) {
              FailureRulesOut(ranges, st, requests, id, ifname, |pos|, want);
            }
          }
        } else {
          var ip :| ip in b.left;
          forall want ensures !Outcome(ranges, st, requests, want) {
            CanonicalRequests(ipArgs);
            LeftOver(ranges, st, requests, b.left, pos, ip, want);
          }
        }
    }
  }

  lemma FailingPick(ranges: seq<RangeSet>, a: Adding, error: GetError, id: string, ifname: string)
    returns (pick: Option<IP>)
    requires NextFails(ranges, a, error, id, ifname)
    ensures MayPickNext(ranges, a, pick) && NextGet(ranges, a, pick, id, ifname) == (Err(error), a.st)
  {
    hide MayPickNext;
    hide NextGet;
    pick :| MayPickNext(ranges, a, pick) && NextGet(ranges, a, pick, id, ifname) == (Err(error), a.st);
  }

  lemma CanonicalRequests(ipArgs: seq<IP>)
    requires forall i :: 0 <= i < |ipArgs| ==> Canonical(ipArgs[i])
    ensures forall ip :: ip in (set ip | ip in ipArgs) ==> CanonicalizeIP(ip) == Some(ip)
  {
    forall ip | ip in ipArgs ensures CanonicalizeIP(ip) == Some(ip) {
      CanonicalizeIdempotent(ip);
    }
  }

  /** A container that holds nothing holds nothing in any set, so a set without target rules out success. */
  lemma FailureRulesOut(ranges: seq<RangeSet>, st: State, requests: set<IP>, id: string, ifname: string, i: nat,
                        want: seq<nat>)
    requires AllGood(ranges) && i < |ranges| && HoldsNothing(st.files, id, ifname)
    requires !Holds(ranges[i], st.files, id, ifname) ==> forall q :: !IsTarget(ranges[i], st, i, requests, q)
    ensures !Outcome(ranges, st, requests, want)
  {
    hide Total;
    hide GoodSet;
    hide IsTarget;
    hide SetContains;
    hide ParseIP;
    hide Outcome;
    assert forall k :: k in st.files ==> st.files[k] in st.files.Values;
    GoodAt(ranges, i);
    NoTarget(ranges, st, requests, want, i);
  }

  // ---- When cmdAdd ends ----

  /** Every search ends that cmdAdd starts in a set it can reach. */
  ghost predicate SearchesEnd(ranges: seq<RangeSet>, st: State, requests: set<IP>, id: string, ifname: string)
    requires AllGood(ranges)
  {
    forall i, pick :: 0 <= i < |ranges| && Reachable(ranges, st, requests, id, ifname, i) ==>
      RightPick(ranges[i], requests, pick) ==> GetEnds(ranges[i], st, i, id, ifname, pick)
  }

  /** A set's Get ends now if and only if it would have ended before the other sets were served. */
  lemma EndsAsBefore(ranges: seq<RangeSet>, st: State, now: State, pos: seq<nat>, pick: Option<IP>, id: string,
                     ifname: string, i: nat)
    requires AllGood(ranges) && SetsApart(ranges) && |pos| == i < |ranges|
    requires Written(ranges, st, now, pos, Entry(id, ifname))
    ensures GetEnds(ranges[i], now, i, id, ifname, pick) <==> GetEnds(ranges[i], st, i, id, ifname, pick)
  {
    hide *;
    var s := ranges[i];
    GoodAt(ranges, i);
    WrittenView(ranges, st, now, pos, Entry(id, ifname), i);
    WrittenHolds(ranges, st, now, pos, id, ifname, i);
    SameChoice(s, i, st, now);
    SearchEndsOnCircle(s, st, i);
    SearchEndsOnCircle(s, now, i);
    GetEndsDef(s, st, i, id, ifname, pick);
    GetEndsDef(s, now, i, id, ifname, pick);
  }

  lemma GetEndsDef(s: RangeSet, st: State, rangeID: nat, id: string, ifname: string, pick: Option<IP>)
    ensures GetEnds(s, st, rangeID, id, ifname, pick) <==>
      pick.Some? || Holds(s, st.files, id, ifname) || SearchEnds(s, st, rangeID)
  {
    hide Holds;
    hide SearchEnds;
  }

  /** Every set all of whose predecessors can be served is reached by some choice of requests. */
  lemma {:induction false} ReachedBySome(ranges: seq<RangeSet>, st: State, ipArgs: seq<IP>, id: string, ifname: string,
                                         i: nat)
    returns (picks: seq<Option<IP>>)
    requires AllGood(ranges) && SetsApart(ranges) && i <= |ranges|
    requires Reachable(ranges, st, (set ip | ip in ipArgs), id, ifname, i)
    ensures |picks| == i && Rounds(ranges, Start(st, ipArgs), picks, id, ifname).Some?
    decreases i
  {
    hide *;
    var requests := set ip | ip in ipArgs;
    if i == 0 {
      picks := [];
      RoundsDef(ranges, Start(st, ipArgs), picks, id, ifname);
    } else {
      ReachableParts(ranges, st, requests, id, ifname, i);
      picks := ReachedBySome(ranges, st, ipArgs, id, ifname, i - 1);
      var a := Rounds(ranges, Start(st, ipArgs), picks, id, ifname).value;
      var pos := RoundsProgress(ranges, st, ipArgs, picks, id, ifname);
      GoodAt(ranges, i - 1);
      StartDef(st, ipArgs);
      assert |a.ips| == i - 1;
      var pick := ServablePick(ranges[i - 1], st, i - 1, requests, id, ifname);
      MayPickExactly(ranges, st, requests, a, pos, pick);
      var p := RoundServes(ranges, st, requests, a, pos, pick, id, ifname);
      RoundsAppend(ranges, Start(st, ipArgs), picks, pick, id, ifname);
      picks := picks + [pick];
    }
  }

  lemma ServablePick(s: RangeSet, st: State, rangeID: nat, requests: set<IP>, id: string, ifname: string)
      returns (pick: Option<IP>)
    requires Total(s) > 0 && Servable(s, st, rangeID, requests, id, ifname)
    ensures RightPick(s, requests, pick) && Grantable(s, st, rangeID, pick, id, ifname)
  {
    hide Total;
    hide RightPick;
    hide Grantable;
    pick :| RightPick(s, requests, pick) && Grantable(s, st, rangeID, pick, id, ifname);
  }

  lemma ReachableParts(ranges: seq<RangeSet>, st: State, requests: set<IP>, id: string, ifname: string, i: nat)
    requires AllGood(ranges) && 0 < i <= |ranges| && Reachable(ranges, st, requests, id, ifname, i)
    ensures Reachable(ranges, st, requests, id, ifname, i - 1)
    ensures Total(ranges[i - 1]) > 0 && Servable(ranges[i - 1], st, i - 1, requests, id, ifname)
  {
    hide GoodSet;
    hide Total;
    hide Servable;
  }

  /**
   * In good sets that are apart, cmdAdd ends for every order of its map if and only if the search
   * ends in each set it can reach, that is, each set all of whose predecessors can be served.
   */
  lemma AddEndsExactly(ranges: seq<RangeSet>, st: State, ipArgs: seq<IP>, id: string, ifname: string)
    requires AllGood(ranges) && SetsApart(ranges)
    ensures AddEnds(ranges, Start(st, ipArgs), id, ifname) <==>
      SearchesEnd(ranges, st, (set ip | ip in ipArgs), id, ifname)
  {
    hide AllGood;
    hide SetsApart;
    hide Rounds;
    hide MayPick;
    hide GetEnds;
    hide Reachable;
    hide RightPick;
    var a, requests := Start(st, ipArgs), set ip | ip in ipArgs;
    forall picks, pick | SearchesEnd(ranges, st, requests, id, ifname)
      ensures RoundEnds(ranges, a, picks, pick, id, ifname)
    {
      var before := Rounds(ranges, a, picks, id, ifname);
      if before.Some? && MayPickNext(ranges, before.value, pick) {
        RoundEndsExactly(ranges, st, ipArgs, picks, pick, id, ifname);
      }
    }
    forall i, pick | AddEnds(ranges, a, id, ifname) && 0 <= i < |ranges|
        && Reachable(ranges, st, requests, id, ifname, i) && RightPick(ranges[i], requests, pick)
      ensures GetEnds(ranges[i], st, i, id, ifname, pick)
    {
      var picks := ReachedBySome(ranges, st, ipArgs, id, ifname, i);
      assert RoundEnds(ranges, a, picks, pick, id, ifname);
      RoundEndsExactly(ranges, st, ipArgs, picks, pick, id, ifname);
    }
  }

  lemma RoundEndsExactly(ranges: seq<RangeSet>, st: State, ipArgs: seq<IP>, picks: seq<Option<IP>>, pick: Option<IP>,
                         id: string, ifname: string)
    requires AllGood(ranges) && SetsApart(ranges) && Rounds(ranges, Start(st, ipArgs), picks, id, ifname).Some?
    requires |picks| < |ranges|
    ensures var b, i := Rounds(ranges, Start(st, ipArgs), picks, id, ifname).value, |picks|;
      var requests := set ip | ip in ipArgs;
      && |b.ips| == i
      && Reachable(ranges, st, requests, id, ifname, i)
      && (MayPickNext(ranges, b, pick) <==> RightPick(ranges[i], requests, pick))
      && (MayPickNext(ranges, b, pick) ==> Request(b.left, pick) == pick)
      && (GetEnds(ranges[i], b.st, i, id, ifname, pick) <==> GetEnds(ranges[i], st, i, id, ifname, pick))
  {
    hide *;
    var b, requests := Rounds(ranges, Start(st, ipArgs), picks, id, ifname).value, set ip | ip in ipArgs;
    var pos := RoundsProgress(ranges, st, ipArgs, picks, id, ifname);
    StartDef(st, ipArgs);
    assert |b.ips| == |picks|;
    MayPickExactly(ranges, st, requests, b, pos, pick);
    EndsAsBefore(ranges, st, b.st, pos, pick, id, ifname, |picks|);
  }
}
