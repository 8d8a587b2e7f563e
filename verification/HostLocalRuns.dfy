/** Particular and interleaved runs of cmdAdd: what its rollback costs, and what others may do meanwhile. */
module HostLocalRuns {
  import opened Wrappers
  import opened Bytes
  import opened Cidr
  import opened Ranges
  import opened RangeMeaning
  import opened RangeSets
  import opened RangeInputs
  import opened Ring
  import opened RangeIterator
  import opened DiskStore
  import opened Allocator
  import opened AllocatorRuns
  import opened AllocatorExhaustion
  import opened HostLocal
  import opened HostLocalOutcome

  // ---- Rollback against old-style entries ----

  /** Nothing but the request stands in the way: the container holds no address of any set, and each has a free one. */
  ghost predicate OnlyRequestFails(ranges: seq<RangeSet>, st: State, ip: IP, id: string, ifname: string)
    requires AllGood(ranges)
  {
    && (forall i :: 0 <= i < |ranges| ==> !Member(ranges[i], ip) && !Holds(ranges[i], st.files, id, ifname))
    && forall i :: 0 <= i < |ranges| ==> Choice(ranges[i], st, i).Some?
  }

  /**
   * With at least two range sets, a request outside of all of them makes cmdAdd fail after serving
   * every set, and its rollback then takes the container's old-style entries along.
   */
  method FailOutsideRequest(store: Store, ranges: seq<RangeSet>, ip: IP, id: string, ifname: string)
    returns (result: Result<seq<IPConfig>, AddError>)
    requires AllGood(ranges) && SetsApart(ranges) && |ranges| >= 2 && Canonical(ip)
    requires OnlyRequestFails(ranges, State(store.files, store.last), ip, id, ifname)
    modifies store
    ensures result == Err(NotAllRequestedIPs)
    ensures Entry(id, ifname) !in store.files.Values && OldEntry(id) !in store.files.Values
  {
    hide *;
    ghost var st, requests, ipArgs := State(store.files, store.last), {ip}, [ip];
    assert (set a | a in ipArgs) == requests;
    RequestFailsOnly(ranges, st, ip, id, ifname);
    AddEndsExactly(ranges, st, ipArgs, id, ifname);
    AllBounded(ranges);
    result := CmdAdd(store, ranges, [ip], id, ifname);
    ghost var now := State(store.files, store.last);
    ghost var picks :| Ends(ranges, Start(st, ipArgs), picks, id, ifname, result, now);
    AddInGoodSets(ranges, st, ipArgs, picks, id, ifname, result, now);
    ghost var pos :| RolledBack(ranges, st, now, pos, id, ifname) && |pos| == ServedBefore(result.error, |ranges|);
    NothingAfterTwo(ranges, st, now, pos, id, ifname, |ranges|);
  }

  lemma AllBounded(ranges: seq<RangeSet>)
    requires AllGood(ranges)
    ensures forall i :: 0 <= i < |ranges| ==> Bounded(ranges[i])
  {
    hide GoodSet;
    hide Bounded;
    hide Total;
    forall i | 0 <= i < |ranges| ensures Bounded(ranges[i]) {
      GoodIsBounded(ranges[i]);
    }
  }

  lemma RequestFailsOnly(ranges: seq<RangeSet>, st: State, ip: IP, id: string, ifname: string)
    requires AllGood(ranges) && OnlyRequestFails(ranges, st, ip, id, ifname) && |ranges| >= 2
    ensures SearchesEnd(ranges, st, {ip}, id, ifname)
    ensures forall pos :: !Outcome(ranges, st, {ip}, pos)
    ensures forall i :: 0 <= i < |ranges| ==>
      !Holds(ranges[i], st.files, id, ifname) && exists q :: IsTarget(ranges[i], st, i, {ip}, q)
    ensures ServedBefore(NotAllRequestedIPs, |ranges|) == |ranges|
  {
    hide Total;
    hide GoodSet;
    hide Member;
    hide Holds;
    hide Choice;
    hide AddressAt;
    hide IsGateway;
    hide IsAt;
    hide SearchEnds;
    forall i, pick | 0 <= i < |ranges| && RightPick(ranges[i], {ip}, pick)
      ensures GetEnds(ranges[i], st, i, id, ifname, pick)
    {
      SearchEndsOnCircle(ranges[i], st, i);
    }
    forall i | 0 <= i < |ranges|
      ensures !Holds(ranges[i], st.files, id, ifname) && exists q :: IsTarget(ranges[i], st, i, {ip}, q)
    {
      ChoiceIsFirstFree(ranges[i], st, i);
      assert IsTarget(ranges[i], st, i, {ip}, Choice(ranges[i], st, i).value);
    }
  }

  lemma NothingAfterTwo(ranges: seq<RangeSet>, st: State, now: State, pos: seq<nat>, id: string, ifname: string, n: nat)
    requires RolledBack(ranges, st, now, pos, id, ifname) && |pos| == n >= 2
    ensures Entry(id, ifname) !in now.files.Values && OldEntry(id) !in now.files.Values
  {
    hide Total;
    hide AddressAt;
    hide WithEntries;
    hide Without;
    hide ReleasedTimes;
    var e, o, written := Entry(id, ifname), OldEntry(id), WithEntries(ranges, st.files, pos, Entry(id, ifname));
    ReleasedTimesExact(written, id, ifname, n);
    WithoutNothing(written, e);
    WithoutNothing(Without(written, e), o);
    OtherEntriesKept(Without(written, e), o, e);
  }

  const OLD_KEY: IP := [192, 168, 0, 1]
  const OUTSIDE: IP := [192, 168, 0, 9]

  /** One such run: an entry of an older version at 192.168.0.1 is lost when 192.168.0.9 is requested. */
  method LoseOldEntry(store: Store, id: string, ifname: string) returns (result: Result<seq<IPConfig>, AddError>)
    requires store.files == map[OLD_KEY := OldEntry(id)] && store.last == map[]
    modifies store
    ensures result == Err(NotAllRequestedIPs)
    ensures OldEntry(id) !in store.files.Values
  {
    hide *;
    var ranges := [CanonicalSet([SmallRange(10)]), CanonicalSet([SmallRange(11)])];
    TwoSmallSets(ranges, State(store.files, store.last), id, ifname);
    result := FailOutsideRequest(store, ranges, OUTSIDE, id, ifname);
  }

  lemma TwoSmallSets(ranges: seq<RangeSet>, st: State, id: string, ifname: string)
    requires ranges == [CanonicalSet([SmallRange(10)]), CanonicalSet([SmallRange(11)])]
    requires st == State(map[OLD_KEY := OldEntry(id)], map[])
    ensures AllGood(ranges) && SetsApart(ranges) && Canonical(OUTSIDE)
    ensures OnlyRequestFails(ranges, st, OUTSIDE, id, ifname)
  {
    hide *;
    HighAddresses();
    SmallSet(10);
    SmallSet(11);
    TwoSetsGood(ranges);
    forall ip | Member(ranges[0], ip) && Member(ranges[1], ip) ensures false {
      SmallMember(10, ip);
      SmallMember(11, ip);
    }
    TwoSetsApart(ranges);
    forall i | 0 <= i < |ranges|
      ensures !Member(ranges[i], OUTSIDE) && !Holds(ranges[i], st.files, id, ifname) && Choice(ranges[i], st, i).Some?
    {
      if Member(ranges[i], OUTSIDE) {
        SmallMember(10 + i, OUTSIDE);
      }
      if SetContains(ranges[i], ParseIP(OLD_KEY).value) {
        SetContainsMember(ranges[i], ParseIP(OLD_KEY).value);
        SmallMember(10 + i, ParseIP(OLD_KEY).value);
      }
      OneOldEntry(ranges[i], st.files, id, ifname);
      TwoFree(ranges[i], st, i);
    }
    OnlyRequest(ranges, st, OUTSIDE, id, ifname);
  }

  lemma SmallSet(b: Byte)
    requires b != 0
    ensures var s := CanonicalSet([SmallRange(b)]);
      GoodSet(s) && Total(s) == 254 && forall p :: 0 <= p < Total(s) ==> (IsGateway(s, p) <==> p == 0)
  {
    hide *;
    SmallFields(b);
    SmallNet(SmallRange(b), b);
    SmallSubnetOnly(b);
    SubnetAlone(SmallRange(b));
  }

  /** Members of a small network begin with its first byte. */
  lemma SmallMember(b: Byte, ip: IP)
    requires b != 0 && Member(CanonicalSet([SmallRange(b)]), ip)
    ensures CanonicalizeIP(ip).Some? && b * 0x100_0000 <= Value(CanonicalizeIP(ip).value) < b * 0x100_0000 + 256
  {
    hide *;
    var r, s := SmallRange(b), CanonicalSet([SmallRange(b)]);
    SmallFields(b);
    SmallNet(r, b);
    SmallSet(b);
    SmallSubnetOnly(b);
    SmallEnds(r, b);
    var p := MemberPosition(s, ip);
    AddressFacts(s, p);
    NumberInRange(s, p);
  }

  lemma MemberPosition(s: RangeSet, ip: IP) returns (p: nat)
    requires Member(s, ip)
    ensures p < Total(s) && CanonicalizeIP(ip) == Some(AddressAt(s, p))
  {
    hide Total;
    hide AddressAt;
    hide CanonicalizeIP;
    p :| IsAt(s, ip, p);
  }

  lemma SmallEnds(r: Range, b: Byte)
    requires r == SmallRange(b) && SubnetOnly(r) && Network(r) == [b, 0, 0, 0] && Size(r) == 256
    requires Value([b, 0, 0, 0]) == b * 0x100_0000
    ensures var s := CanonicalSet([r]);
      |s| == 1 && Lo(s[0]) == b * 0x100_0000 + 1 && Hi(s[0]) == b * 0x100_0000 + 254
  {
    hide Value;
    hide CanonicalizeIP;
    hide Canonicalized;
    hide IsNetwork;
    CanonicalizeAccepts(r);
    OnlyProduces(r);
  }

  lemma HighAddresses()
    ensures Canonical(OUTSIDE) && Canonical(OLD_KEY) && ParseIP(OLD_KEY).Some?
    ensures CanonicalizeIP(OUTSIDE) == Some(OUTSIDE) && CanonicalizeIP(ParseIP(OLD_KEY).value) == Some(OLD_KEY)
    ensures Value(OUTSIDE) >= 0xc000_0000 && Value(OLD_KEY) >= 0xc000_0000
  {
    hide Value;
    CanonicalOfTo16(OLD_KEY);
    assert OUTSIDE == [192] + [168, 0, 9] && OLD_KEY == [192] + [168, 0, 1];
    ValueFront(192, [168, 0, 9]);
    ValueFront(192, [168, 0, 1]);
    ShortPowers();
  }

  lemma TwoSetsGood(ranges: seq<RangeSet>)
    requires |ranges| == 2 && forall i :: 0 <= i < |ranges| ==> GoodSet(ranges[i]) && Total(ranges[i]) == 254
    ensures AllGood(ranges)
  {
    hide GoodSet;
    hide Total;
  }

  lemma TwoSetsApart(ranges: seq<RangeSet>)
    requires |ranges| == 2 && forall ip :: !(Member(ranges[0], ip) && Member(ranges[1], ip))
    ensures SetsApart(ranges)
  {
    hide Member;
  }

  lemma OneOldEntry(s: RangeSet, files: Files, id: string, ifname: string)
    requires files == map[OLD_KEY := OldEntry(id)] && ParseIP(OLD_KEY).Some? && !SetContains(s, ParseIP(OLD_KEY).value)
    ensures !Holds(s, files, id, ifname)
  {
    hide SetContains;
    hide ParseIP;
  }

  /** One entry leaves one of two addresses free. */
  lemma TwoFree(s: RangeSet, st: State, rangeID: nat)
    requires GoodSet(s) && Total(s) == 254 && forall p :: 0 <= p < Total(s) ==> (IsGateway(s, p) <==> p == 0)
    requires st.files.Keys == {OLD_KEY}
    ensures Choice(s, st, rangeID).Some?
  {
    hide Total;
    hide GoodSet;
    hide AddressAt;
    hide IsGateway;
    hide Choice;
    ChoiceIsFirstFree(s, st, rangeID);
    if AddressAt(s, 1) == AddressAt(s, 2) {
      AddressInjective(s, 1, 2);
    }
  }

  lemma OnlyRequest(ranges: seq<RangeSet>, st: State, ip: IP, id: string, ifname: string)
    requires AllGood(ranges)
    requires forall i :: 0 <= i < |ranges| ==>
      !Member(ranges[i], ip) && !Holds(ranges[i], st.files, id, ifname) && Choice(ranges[i], st, i).Some?
    ensures OnlyRequestFails(ranges, st, ip, id, ifname)
  {
    hide AllGood;
    hide Member;
    hide Holds;
    hide Choice;
    hide Total;
  }

  // ---- Other containers in between ----

  /** One Get or Release on one of the range sets: what the store's lock makes atomic. */
  datatype SetOp = SetOp(index: nat, op: Op)

  ghost predicate InRange(ranges: seq<RangeSet>, es: seq<SetOp>) {
    forall i :: 0 <= i < |es| ==> es[i].index < |ranges|
  }

  ghost function Happens(ranges: seq<RangeSet>, st: State, e: SetOp): State
    requires e.index < |ranges|
  {
    Apply(ranges[e.index], e.index, st, e.op)
  }

  /** The operations of all containers in the order in which they get the lock. */
  ghost function Interleaved(ranges: seq<RangeSet>, st: State, es: seq<SetOp>): State
    requires InRange(ranges, es)
  {
    if es == [] then st else Happens(ranges, Interleaved(ranges, st, es[..|es| - 1]), es[|es| - 1])
  }

  /** The addresses a container holds in the new style. */
  function Own(files: Files, id: string, ifname: string): set<IP> {
    set k | k in files && files[k] == Entry(id, ifname)
  }

  predicate IsOwn(e: SetOp, id: string, ifname: string) {
    e.op.id == id && e.op.ifname == ifname
  }

  /** The file of the address a Get of the container is granted, if this is one. */
  ghost function Gained(ranges: seq<RangeSet>, st: State, e: SetOp, id: string, ifname: string): set<IP>
    requires e.index < |ranges|
  {
    if !IsOwn(e, id, ifname) || !e.op.GetOp? then {}
    else
      match GetSpec(ranges[e.index], st, e.index, id, ifname, e.op.requested).0
      case Ok(conf) => {FileKey(conf.address)}
      case Err(_) => {}
  }

  /** What each operation does to the container's own addresses; others' operations do nothing to them. */
  lemma OwnStep(ranges: seq<RangeSet>, st: State, e: SetOp, id: string, ifname: string)
    requires e.index < |ranges|
    ensures Own(Happens(ranges, st, e).files, id, ifname)
         == if IsOwn(e, id, ifname) && e.op.ReleaseOp? then {}
            else Own(st.files, id, ifname) + Gained(ranges, st, e, id, ifname)
  {
    hide *;
    if e.op.ReleaseOp? {
      OwnAfterRelease(ranges, st, e, id, ifname);
    } else {
      OwnAfterGet(ranges, st, e, id, ifname);
    }
  }

  lemma OwnAfterRelease(ranges: seq<RangeSet>, st: State, e: SetOp, id: string, ifname: string)
    requires e.index < |ranges| && e.op.ReleaseOp?
    ensures Own(Happens(ranges, st, e).files, id, ifname)
         == if IsOwn(e, id, ifname) then {} else Own(st.files, id, ifname)
    ensures Gained(ranges, st, e, id, ifname) == {}
  {
    var before := st.files;
    assert forall k :: k in before ==> before[k] in before.Values;
  }

  lemma OwnAfterGet(ranges: seq<RangeSet>, st: State, e: SetOp, id: string, ifname: string)
    requires e.index < |ranges| && e.op.GetOp?
    ensures Own(Happens(ranges, st, e).files, id, ifname)
         == Own(st.files, id, ifname) + Gained(ranges, st, e, id, ifname)
  {
    hide *;
    var s, files := ranges[e.index], st.files;
    var (result, after) := GetSpec(s, st, e.index, e.op.id, e.op.ifname, e.op.requested);
    GetAdds(s, st, e.index, e.op.id, e.op.ifname, e.op.requested);
    GainedByGet(ranges, st, e, id, ifname);
    if result.Ok? {
      OwnAdded(files, FileKey(result.value.address), e.op.id, e.op.ifname, id, ifname);
    }
  }

  lemma GainedByGet(ranges: seq<RangeSet>, st: State, e: SetOp, id: string, ifname: string)
    requires e.index < |ranges| && e.op.GetOp?
    ensures var (result, after) := GetSpec(ranges[e.index], st, e.index, e.op.id, e.op.ifname, e.op.requested);
      && Happens(ranges, st, e) == after
      && Gained(ranges, st, e, id, ifname)
           == if result.Ok? && e.op.id == id && e.op.ifname == ifname then {FileKey(result.value.address)} else {}
  {
    hide GetSpec;
    hide FileKey;
  }

  lemma OwnAdded(files: Files, key: IP, otherId: string, otherName: string, id: string, ifname: string)
    requires key !in files
    ensures Own(files[key := Entry(otherId, otherName)], id, ifname)
         == Own(files, id, ifname) + (if otherId == id && otherName == ifname then {key} else {})
    ensures key !in Own(files, id, ifname)
  {
  }

  /** Everything the container's Gets were granted along the run. */
  ghost function AllGained(ranges: seq<RangeSet>, st: State, es: seq<SetOp>, id: string, ifname: string): set<IP>
    requires InRange(ranges, es)
  {
    if es == [] then {}
    else
      var n := |es| - 1;
      AllGained(ranges, st, es[..n], id, ifname) + Gained(ranges, Interleaved(ranges, st, es[..n]), es[n], id, ifname)
  }

  /** Until its first release a container that held nothing holds exactly what its Gets were granted. */
  lemma {:induction false} AllAmongOthers(ranges: seq<RangeSet>, st: State, es: seq<SetOp>, id: string, ifname: string)
    requires InRange(ranges, es) && Own(st.files, id, ifname) == {}
    requires forall i :: 0 <= i < |es| && IsOwn(es[i], id, ifname) ==> es[i].op.GetOp?
    ensures Own(Interleaved(ranges, st, es).files, id, ifname) == AllGained(ranges, st, es, id, ifname)
    decreases |es|
  {
    hide Happens;
    hide Gained;
    hide Own;
    if es != [] {
      var n := |es| - 1;
      AllAmongOthers(ranges, st, es[..n], id, ifname);
      OwnStep(ranges, Interleaved(ranges, st, es[..n]), es[n], id, ifname);
    }
  }

  /** And once it has begun to release it holds nothing, whatever it held and whatever others do. */
  lemma {:induction false} NothingAmongOthers(ranges: seq<RangeSet>, st: State, es: seq<SetOp>, id: string,
                                              ifname: string, m: nat)
    requires InRange(ranges, es)
    requires m < |es| && forall i :: m <= i < |es| && IsOwn(es[i], id, ifname) ==> es[i].op.ReleaseOp?
    requires IsOwn(es[m], id, ifname)
    ensures Own(Interleaved(ranges, st, es).files, id, ifname) == {}
    decreases |es|
  {
    hide Happens;
    hide Own;
    var n := |es| - 1;
    OwnStep(ranges, Interleaved(ranges, st, es[..n]), es[n], id, ifname);
    if m < n {
      NothingAmongOthers(ranges, st, es[..n], id, ifname, m);
    }
  }

  // ---- A whole cmdAdd among others ----

  /** Operations of other containers. */
  ghost predicate Foreign(ranges: seq<RangeSet>, es: seq<SetOp>, id: string, ifname: string) {
    InRange(ranges, es) && forall i :: 0 <= i < |es| ==> !IsOwn(es[i], id, ifname)
  }

  ghost predicate AllForeign(ranges: seq<RangeSet>, others: seq<seq<SetOp>>, id: string, ifname: string) {
    forall i :: 0 <= i < |others| ==> Foreign(ranges, others[i], id, ifname)
  }

  /** Others' operations leave the container's addresses alone. */
  lemma {:induction false} ForeignKeeps(ranges: seq<RangeSet>, st: State, es: seq<SetOp>, id: string, ifname: string)
    requires Foreign(ranges, es, id, ifname)
    ensures Own(Interleaved(ranges, st, es).files, id, ifname) == Own(st.files, id, ifname)
    decreases |es|
  {
    hide Happens;
    hide Own;
    if es != [] {
      var n := |es| - 1;
      ForeignKeeps(ranges, st, es[..n], id, ifname);
      OwnStep(ranges, Interleaved(ranges, st, es[..n]), es[n], id, ifname);
    }
  }

  /** cmdAdd's rounds, each after some operations of others. */
  ghost function RoundsAmong(ranges: seq<RangeSet>, a: Adding, others: seq<seq<SetOp>>, picks: seq<Option<IP>>,
                             id: string, ifname: string)
    : (r: Option<Adding>)
    requires |others| == |picks| && AllForeign(ranges, others, id, ifname)
    ensures r.Some? ==> |r.value.ips| == |a.ips| + |picks|
  {
    if picks == [] then Some(a)
    else
      var n := |picks| - 1;
      var before := RoundsAmong(ranges, a, others[..n], picks[..n], id, ifname);
      if before.Some?
      then OneRound(ranges, before.value.(st := Interleaved(ranges, before.value.st, others[n])), picks[n], id, ifname)
      else None
  }

  /** The rollback's releases, each after some operations of others. */
  ghost function ReleasesAmong(ranges: seq<RangeSet>, st: State, others: seq<seq<SetOp>>, id: string, ifname: string)
      : State
    requires AllForeign(ranges, others, id, ifname)
  {
    if others == [] then st
    else
      var n := |others| - 1;
      var before := Interleaved(ranges, ReleasesAmong(ranges, st, others[..n], id, ifname), others[n]);
      State(Released(before.files, id, ifname), before.last)
  }

  /**
   * What a cmdAdd answers when others' operations come before each of its rounds, after the last of
   * them, and before each of its releases.
   */
  ghost predicate EndsAmong(ranges: seq<RangeSet>, a: Adding, others: seq<seq<SetOp>>, picks: seq<Option<IP>>,
                            later: seq<SetOp>, backs: seq<seq<SetOp>>, id: string, ifname: string,
                            result: Result<seq<IPConfig>, AddError>, now: State)
    requires |others| == |picks| && AllForeign(ranges, others, id, ifname)
    requires Foreign(ranges, later, id, ifname) && AllForeign(ranges, backs, id, ifname)
  {
    var served := RoundsAmong(ranges, a, others, picks, id, ifname);
    && served.Some?
    && var b := served.value.(st := Interleaved(ranges, served.value.st, later));
       match result
       case Ok(ips) => |picks| == |ranges| && b.left == map[] && ips == b.ips && backs == [] && now == b.st
       case Err(AllocationFailed(i, error)) =>
         && |picks| == |backs| == i
         && now == ReleasesAmong(ranges, b.st, backs, id, ifname)
         && NextFails(ranges, b, error, id, ifname)
       case Err(NotAllRequestedIPs) =>
         |picks| == |backs| == |ranges| && b.left != map[] && now == ReleasesAmong(ranges, b.st, backs, id, ifname)
  }

  /** The granted addresses are in different files, which are exactly the container's. */
  ghost predicate OwnsAll(files: Files, ips: seq<IPConfig>, id: string, ifname: string) {
    && (forall i, j :: 0 <= i < j < |ips| ==> FileKey(ips[i].address) != FileKey(ips[j].address))
    && Own(files, id, ifname) == FilesOf(ips)
  }

  function FilesOf(ips: seq<IPConfig>): set<IP> {
    set i | 0 <= i < |ips| :: FileKey(ips[i].address)
  }

  lemma FilesOfMore(ips: seq<IPConfig>, conf: IPConfig)
    ensures FilesOf(ips + [conf]) == FilesOf(ips) + {FileKey(conf.address)}
    ensures FileKey(conf.address) !in FilesOf(ips) <==>
      forall i :: 0 <= i < |ips| ==> FileKey(ips[i].address) != FileKey(conf.address)
  {
    hide FileKey;
    var more := ips + [conf];
    assert more[|ips|] == conf && forall i :: 0 <= i < |ips| ==> more[i] == ips[i];
    assert forall i :: 0 <= i < |ips| ==> FileKey(more[i].address) in FilesOf(more);
  }

  /** Requests used up so far were granted. */
  ghost predicate UsedAreGranted(a: Adding, b: Adding) {
    && (forall ip :: ip in b.left ==> ip in a.left && b.left[ip] == a.left[ip])
    && forall ip :: ip in a.left && ip !in b.left ==>
         exists i :: |a.ips| <= i < |b.ips| && CanonicalizeIP(a.left[ip]) == Some(b.ips[i].address)
  }

  lemma {:induction false} RoundsOwn(ranges: seq<RangeSet>, a: Adding, others: seq<seq<SetOp>>, picks: seq<Option<IP>>,
                                     id: string, ifname: string)
    requires |others| == |picks| && AllForeign(ranges, others, id, ifname)
    requires a.ips == [] && Own(a.st.files, id, ifname) == {}
    requires RoundsAmong(ranges, a, others, picks, id, ifname).Some?
    ensures OwnsAll(RoundsAmong(ranges, a, others, picks, id, ifname).value.st.files,
                    RoundsAmong(ranges, a, others, picks, id, ifname).value.ips, id, ifname)
    decreases |picks|
  {
    hide OneRound;
    hide Own;
    hide IsOwn;
    hide FileKey;
    if picks != [] {
      var n := |picks| - 1;
      RoundsOwn(ranges, a, others[..n], picks[..n], id, ifname);
      var before := RoundsAmong(ranges, a, others[..n], picks[..n], id, ifname).value;
      assert Foreign(ranges, others[n], id, ifname);
      ForeignKeeps(ranges, before.st, others[n], id, ifname);
      RoundOwns(ranges, before.(st := Interleaved(ranges, before.st, others[n])), picks[n], id, ifname);
    }
  }

  /** A round that succeeds adds the granted address to the container's. */
  lemma RoundOwns(ranges: seq<RangeSet>, a: Adding, pick: Option<IP>, id: string, ifname: string)
    requires OneRound(ranges, a, pick, id, ifname).Some? && OwnsAll(a.st.files, a.ips, id, ifname)
    ensures var b := OneRound(ranges, a, pick, id, ifname).value; OwnsAll(b.st.files, b.ips, id, ifname)
  {
    hide GetSpec;
    hide MayPick;
    hide Own;
    hide FilesOf;
    hide FileKey;
    NextGetDef(ranges, a, pick, id, ifname);
    var (result, after) := NextGet(ranges, a, pick, id, ifname);
    GetAdds(ranges[|a.ips|], a.st, |a.ips|, id, ifname, Request(a.left, pick));
    OwnAdded(a.st.files, FileKey(result.value.address), id, ifname, id, ifname);
    FilesOfMore(a.ips, result.value);
  }

  lemma {:induction false} RoundsUse(ranges: seq<RangeSet>, a: Adding, others: seq<seq<SetOp>>, picks: seq<Option<IP>>,
                                     id: string, ifname: string)
    requires |others| == |picks| && AllForeign(ranges, others, id, ifname)
    requires RoundsAmong(ranges, a, others, picks, id, ifname).Some?
    ensures UsedAreGranted(a, RoundsAmong(ranges, a, others, picks, id, ifname).value)
    decreases |picks|
  {
    hide OneRound;
    hide IsOwn;
    hide CanonicalizeIP;
    if picks != [] {
      var n := |picks| - 1;
      RoundsUse(ranges, a, others[..n], picks[..n], id, ifname);
      var before := RoundsAmong(ranges, a, others[..n], picks[..n], id, ifname).value;
      assert Foreign(ranges, others[n], id, ifname);
      RoundUses(ranges, a, before.(st := Interleaved(ranges, before.st, others[n])), picks[n], id, ifname);
    }
  }

  lemma RoundUses(ranges: seq<RangeSet>, a: Adding, b: Adding, pick: Option<IP>, id: string, ifname: string)
    requires OneRound(ranges, b, pick, id, ifname).Some? && UsedAreGranted(a, b) && |a.ips| <= |b.ips|
    ensures UsedAreGranted(a, OneRound(ranges, b, pick, id, ifname).value)
  {
    hide GetAny;
    hide CanonicalizeIP;
    hide Contains;
    hide EqualOption;
    hide FileKey;
    var c := OneRound(ranges, b, pick, id, ifname).value;
    assert pick.Some? ==> CanonicalizeIP(b.left[pick.value]) == Some(c.ips[|b.ips|].address);
    forall ip | ip in a.left && ip !in c.left
      ensures exists i :: |a.ips| <= i < |c.ips| && CanonicalizeIP(a.left[ip]) == Some(c.ips[i].address)
    {
      if ip !in b.left {
        var i :| |a.ips| <= i < |b.ips| && CanonicalizeIP(a.left[ip]) == Some(b.ips[i].address);
        assert c.ips[i] == b.ips[i];
      }
    }
  }

  /** In good sets every granted address is one of its set. */
  lemma {:induction false} RoundsInSets(ranges: seq<RangeSet>, a: Adding, others: seq<seq<SetOp>>,
                                        picks: seq<Option<IP>>, id: string, ifname: string)
    requires AllGood(ranges) && a.ips == []
    requires |others| == |picks| && AllForeign(ranges, others, id, ifname)
    requires RoundsAmong(ranges, a, others, picks, id, ifname).Some?
    ensures InSets(ranges, RoundsAmong(ranges, a, others, picks, id, ifname).value.ips)
    decreases |picks|
  {
    hide OneRound;
    hide IsOwn;
    hide Member;
    hide AllGood;
    if picks != [] {
      var n := |picks| - 1;
      RoundsInSets(ranges, a, others[..n], picks[..n], id, ifname);
      var before := RoundsAmong(ranges, a, others[..n], picks[..n], id, ifname).value;
      assert Foreign(ranges, others[n], id, ifname);
      RoundInSet(ranges, before.(st := Interleaved(ranges, before.st, others[n])), picks[n], id, ifname);
    }
  }

  ghost predicate InSets(ranges: seq<RangeSet>, ips: seq<IPConfig>) {
    |ips| <= |ranges| && forall i :: 0 <= i < |ips| ==> Member(ranges[i], ips[i].address)
  }

  lemma RoundInSet(ranges: seq<RangeSet>, a: Adding, pick: Option<IP>, id: string, ifname: string)
    requires AllGood(ranges) && OneRound(ranges, a, pick, id, ifname).Some? && InSets(ranges, a.ips)
    ensures InSets(ranges, OneRound(ranges, a, pick, id, ifname).value.ips)
  {
    hide GetAny;
    hide GetRequested;
    hide MayPick;
    hide GoodSet;
    hide Total;
    hide IsAt;
    hide AddressAt;
    hide RangeAt;
    hide IsGateway;
    hide Holds;
    hide Choice;
    hide To4;
    var s, st, k := ranges[|a.ips|], a.st, |a.ips|;
    NextGetDef(ranges, a, pick, id, ifname);
    GoodAt(ranges, k);
    GetAnyOnCircle(s, st, k, id, ifname);
    ChoiceIsFirstFree(s, st, k);
    var address := NextGet(ranges, a, pick, id, ifname).0.value.address;
    var p: nat;
    if pick.Some? {
      GetRequestedOnCircle(s, st, k, id, ifname, a.left[pick.value]);
      p :| IsAt(s, a.left[pick.value], p);
      AtInSet(s, a.left[pick.value], p);
    } else {
      p := Choice(s, st, k).value;
    }
    AddressKey(s, p);
    assert address == AddressAt(s, p);
    AtPosition(s, address, p);
  }

  lemma AtPosition(s: RangeSet, ip: IP, p: nat)
    requires p < Total(s) && CanonicalizeIP(ip) == Some(AddressAt(s, p))
    ensures Member(s, ip)
  {
    assert IsAt(s, ip, p);
  }

  /** After at least one release of its own the container holds nothing. */
  lemma {:induction false} ReleasesLeaveNothing(ranges: seq<RangeSet>, st: State, others: seq<seq<SetOp>>, id: string,
                                                ifname: string)
    requires AllForeign(ranges, others, id, ifname)
    requires others == [] ==> Own(st.files, id, ifname) == {}
    ensures Own(ReleasesAmong(ranges, st, others, id, ifname).files, id, ifname) == {}
  {
    hide Interleaved;
    hide IsOwn;
    if others != [] {
      var n := |others| - 1;
      assert Foreign(ranges, others[n], id, ifname);
      var before := Interleaved(ranges, ReleasesAmong(ranges, st, others[..n], id, ifname), others[n]);
      assert forall k :: k in before.files ==> before.files[k] in before.files.Values;
    }
  }

  /**
   * All or nothing among others: whatever other containers do between the operations of a cmdAdd of a
   * container that held nothing, it then holds exactly one address for each range set (and of it, in
   * good sets), every requested one among them, or, after a failure, nothing.
   */
  lemma AddAmongOthers(ranges: seq<RangeSet>, st: State, ipArgs: seq<IP>, others: seq<seq<SetOp>>,
                       picks: seq<Option<IP>>, later: seq<SetOp>, backs: seq<seq<SetOp>>, id: string, ifname: string,
                       result: Result<seq<IPConfig>, AddError>, now: State)
    requires |others| == |picks| && AllForeign(ranges, others, id, ifname)
    requires Foreign(ranges, later, id, ifname) && AllForeign(ranges, backs, id, ifname)
    requires Own(st.files, id, ifname) == {}
    requires EndsAmong(ranges, Start(st, ipArgs), others, picks, later, backs, id, ifname, result, now)
    ensures match result
      case Ok(ips) =>
        && |ips| == |ranges| && OwnsAll(now.files, ips, id, ifname)
        && (AllGood(ranges) ==> InSets(ranges, ips))
        && forall ip :: ip in ipArgs ==> exists i :: 0 <= i < |ips| && CanonicalizeIP(ip) == Some(ips[i].address)
      case Err(_) => Own(now.files, id, ifname) == {}
  {
    hide Own;
    hide IsOwn;
    hide NextFails;
    hide CanonicalizeIP;
    hide FileKey;
    hide RoundsAmong;
    hide ReleasesAmong;
    hide AllGood;
    hide InSets;
    var a := Start(st, ipArgs);
    var b := RoundsAmong(ranges, a, others, picks, id, ifname).value;
    RoundsOwn(ranges, a, others, picks, id, ifname);
    RoundsUse(ranges, a, others, picks, id, ifname);
    if AllGood(ranges) {
      RoundsInSets(ranges, a, others, picks, id, ifname);
    }
    ForeignKeeps(ranges, b.st, later, id, ifname);
    if result.Err? {
      ReleasesLeaveNothing(ranges, Interleaved(ranges, b.st, later), backs, id, ifname);
    } else {
      assert forall ip :: ip in ipArgs ==> ip in a.left && a.left[ip] == ip && ip !in b.left;
    }
  }
}
