/** cmdAdd and cmdDel of the host-local plugin, main.go, on any configuration. */
module HostLocal {
  import opened Wrappers
  import opened Cidr
  import opened RangeSets
  import opened RangeIterator
  import opened DiskStore
  import opened Allocator

  datatype AddError = AllocationFailed(index: nat, error: GetError) | NotAllRequestedIPs

  // ---- The rounds of cmdAdd ----

  /** What cmdAdd carries from one range set to the next. */
  datatype Adding = Adding(st: State, left: map<IP, IP>, ips: seq<IPConfig>)

  /** The request the map's order may choose for a set: any one in it, or none exactly when none is. */
  ghost predicate MayPick(s: RangeSet, left: map<IP, IP>, pick: Option<IP>) {
    match pick
    case Some(k) => k in left && SetContains(s, left[k])
    case None => forall k :: k in left ==> !SetContains(s, left[k])
  }

  ghost predicate MayPickNext(ranges: seq<RangeSet>, a: Adding, pick: Option<IP>) {
    |a.ips| < |ranges| && MayPick(ranges[|a.ips|], a.left, pick)
  }

  function Request(left: map<IP, IP>, pick: Option<IP>): Option<IP>
    requires pick.Some? ==> pick.value in left
  {
    if pick.Some? then Some(left[pick.value]) else None
  }

  function Used(left: map<IP, IP>, pick: Option<IP>): map<IP, IP> {
    if pick.Some? then left - {pick.value} else left
  }

  /** The Get of the next set. */
  ghost function NextGet(ranges: seq<RangeSet>, a: Adding, pick: Option<IP>, id: string, ifname: string)
      : (Result<IPConfig, GetError>, State)
    requires MayPickNext(ranges, a, pick)
  {
    GetSpec(ranges[|a.ips|], a.st, |a.ips|, id, ifname, Request(a.left, pick))
  }

  /** Where the sets are served one after the other with these choices; None if that is not possible. */
  ghost function Rounds(ranges: seq<RangeSet>, a: Adding, picks: seq<Option<IP>>, id: string, ifname: string)
      : (r: Option<Adding>)
    ensures r.Some? ==> |r.value.ips| == |a.ips| + |picks|
  {
    if picks == [] then Some(a)
    else
      var n := |picks| - 1;
      var before := Rounds(ranges, a, picks[..n], id, ifname);
      if before.Some? then OneRound(ranges, before.value, picks[n], id, ifname) else None
  }

  ghost function OneRound(ranges: seq<RangeSet>, a: Adding, pick: Option<IP>, id: string, ifname: string)
      : (r: Option<Adding>)
    ensures r.Some? ==> |r.value.ips| == |a.ips| + 1
  {
    if MayPickNext(ranges, a, pick) && NextGet(ranges, a, pick, id, ifname).0.Ok? then
      var (result, after) := NextGet(ranges, a, pick, id, ifname);
      Some(Adding(after, Used(a.left, pick), a.ips + [result.value]))
    else None
  }

  /** Every Get that cmdAdd can come to ends, whatever it chooses. */
  ghost predicate AddEnds(ranges: seq<RangeSet>, a: Adding, id: string, ifname: string) {
    forall picks, pick :: RoundEnds(ranges, a, picks, pick, id, ifname)
  }

  ghost predicate RoundEnds(ranges: seq<RangeSet>, a: Adding, picks: seq<Option<IP>>, pick: Option<IP>, id: string,
                            ifname: string) {
    var before := Rounds(ranges, a, picks, id, ifname);
    before.Some? && MayPickNext(ranges, before.value, pick) ==>
      var b := before.value;
      GetEnds(ranges[|b.ips|], b.st, |b.ips|, id, ifname, Request(b.left, pick))
  }

  /** The Get of the next set can fail with this error, and changes nothing then. */
  ghost predicate NextFails(ranges: seq<RangeSet>, a: Adding, error: GetError, id: string, ifname: string) {
    exists pick :: MayPickNext(ranges, a, pick) && NextGet(ranges, a, pick, id, ifname) == (Err(error), a.st)
  }

  /** The state after one release for each address reserved so far. */
  function Back(st: State, id: string, ifname: string, n: nat): State {
    State(ReleasedTimes(st.files, id, ifname, n), st.last)
  }

  /** What cmdAdd answers and leaves when it has served the sets with these choices and then stops. */
  ghost predicate Ends(ranges: seq<RangeSet>, a: Adding, picks: seq<Option<IP>>, id: string, ifname: string,
                       result: Result<seq<IPConfig>, AddError>, now: State)
  {
    var served := Rounds(ranges, a, picks, id, ifname);
    && served.Some?
    && var b := served.value;
       match result
       case Ok(ips) => |picks| == |ranges| && b.left == map[] && ips == b.ips && now == b.st
       case Err(AllocationFailed(i, error)) =>
         && |picks| == i
         && now == Back(b.st, id, ifname, i)
         && NextFails(ranges, b, error, id, ifname)
       case Err(NotAllRequestedIPs) =>
         |picks| == |ranges| && b.left != map[] && now == Back(b.st, id, ifname, |ranges|)
  }

  /** Where cmdAdd begins: no set served, every request left. */
  function Start(st: State, ipArgs: seq<IP>): Adding {
    Adding(st, map ip | ip in ipArgs :: ip, [])
  }

  // ---- The methods ----

  /** Looks for a request in the set; the order of the map is left open. */
  method PickRequest(s: RangeSet, requestedIPs: map<IP, IP>) returns (k: Option<IP>)
    ensures k.Some? ==> k.value in requestedIPs && SetContains(s, requestedIPs[k.value])
    ensures k.None? ==> forall j :: j in requestedIPs ==> !SetContains(s, requestedIPs[j])
  {
    hide SetContains;
    var todo := requestedIPs.Keys;
    while todo != {}
      invariant todo <= requestedIPs.Keys
      invariant forall j :: j in requestedIPs && j !in todo ==> !SetContains(s, requestedIPs[j])
      decreases |todo|
    {
      var j :| j in todo;
      todo := todo - {j};
      var r := RangeFor(s, requestedIPs[j]);
      if r.Some? {
        InSet(s, requestedIPs[j], r.value);
        return Some(j);
      }
    }
    return None;
  }

  /** The requested addresses, keyed by their printed form. */
  method CollectRequests(ipArgs: seq<IP>) returns (requestedIPs: map<IP, IP>)
    requires forall i :: 0 <= i < |ipArgs| ==> Canonical(ipArgs[i])
    ensures requestedIPs.Keys == set ip | ip in ipArgs
    ensures forall ip :: ip in requestedIPs ==> requestedIPs[ip] == ip
  {
    requestedIPs := map[];
    for i := 0 to |ipArgs|
      invariant requestedIPs.Keys == set ip | ip in ipArgs[..i]
      invariant forall ip :: ip in requestedIPs ==> requestedIPs[ip] == ip
    {
      var ip := ipArgs[i];
      CanonicalizeIdempotent(ip);
      assert FileKey(ip) == ip;
      requestedIPs := requestedIPs[FileKey(ip) := ip];
      assert ipArgs[..i + 1] == ipArgs[..i] + [ip];
    }
    assert ipArgs[..|ipArgs|] == ipArgs;
  }

  /** Releases through every allocator used so far. */
  method RollBack(store: Store, allocs: seq<IPAllocator>, id: string, ifname: string)
    requires forall i :: 0 <= i < |allocs| ==> allocs[i].store == store
    modifies store
    ensures store.files == ReleasedTimes(old(store.files), id, ifname, |allocs|)
    ensures store.last == old(store.last)
  {
    hide Released;
    for i := 0 to |allocs|
      invariant store.files == ReleasedTimes(old(store.files), id, ifname, i)
      invariant store.last == old(store.last)
    {
      allocs[i].Release(id, ifname);
    }
  }

  /** One round of cmdAdd's loop: chooses a request for the set and calls Get. */
  method ServeSet(alloc: IPAllocator, requestedIPs: map<IP, IP>, id: string, ifname: string)
    returns (left: map<IP, IP>, result: Result<IPConfig, GetError>, ghost pick: Option<IP>)
    requires Bounded(alloc.rangeset)
    requires forall pick :: MayPick(alloc.rangeset, requestedIPs, pick) ==>
      GetEnds(alloc.rangeset, State(alloc.store.files, alloc.store.last), alloc.rangeID, id, ifname,
              Request(requestedIPs, pick))
    modifies alloc.store
    ensures MayPick(alloc.rangeset, requestedIPs, pick) && left == Used(requestedIPs, pick)
    ensures (result, State(alloc.store.files, alloc.store.last))
         == GetSpec(alloc.rangeset, old(State(alloc.store.files, alloc.store.last)), alloc.rangeID, id, ifname,
                    Request(requestedIPs, pick))
  {
    hide SetContains;
    hide GetEnds;
    hide GetSpec;
    var k := PickRequest(alloc.rangeset, requestedIPs);
    pick := k;
    assert MayPick(alloc.rangeset, requestedIPs, pick);
    if k.Some? {
      left := requestedIPs - {k.value};
      result := alloc.Get(id, ifname, Some(requestedIPs[k.value]));
    } else {
      left := requestedIPs;
      result := alloc.Get(id, ifname, None);
    }
  }

  /** cmdAdd, from the configuration LoadIPAMConfig returned. It asks that every Get it can come to ends. */
  method CmdAdd(store: Store, ranges: seq<RangeSet>, ipArgs: seq<IP>, id: string, ifname: string)
    returns (result: Result<seq<IPConfig>, AddError>)
    requires forall i :: 0 <= i < |ranges| ==> Bounded(ranges[i])
    requires forall i :: 0 <= i < |ipArgs| ==> Canonical(ipArgs[i])
    requires AddEnds(ranges, Start(State(store.files, store.last), ipArgs), id, ifname)
    modifies store
    ensures exists picks ::
      Ends(ranges, Start(old(State(store.files, store.last)), ipArgs), picks, id, ifname, result,
           State(store.files, store.last))
  {
    hide Bounded;
    hide AddEnds;
    hide SetContains;
    hide GetSpec;
    hide GetEnds;
    hide ReleasedTimes;
    ghost var a := Start(State(store.files, store.last), ipArgs);
    var requestedIPs := CollectRequests(ipArgs);
    var allocs: seq<IPAllocator>, ips: seq<IPConfig> := [], [];
    ghost var picks: seq<Option<IP>> := [];
    assert requestedIPs == a.left;
    for idx := 0 to |ranges|
      invariant |allocs| == |ips| == |picks| == idx
      invariant forall i :: 0 <= i < idx ==> allocs[i].store == store
      invariant Rounds(ranges, a, picks, id, ifname) == Some(Adding(State(store.files, store.last), requestedIPs, ips))
    {
      var alloc := new IPAllocator(ranges[idx], store, idx);
      ghost var now := Adding(State(store.files, store.last), requestedIPs, ips);
      AllEnd(ranges, a, picks, now, id, ifname);
      var left, got, pick := ServeSet(alloc, requestedIPs, id, ifname);
      if got.Err? {
        GetAdds(ranges[idx], now.st, idx, id, ifname, Request(requestedIPs, pick));
        assert MayPickNext(ranges, now, pick) && NextGet(ranges, now, pick, id, ifname) == (Err(got.error), now.st);
        RollBack(store, allocs, id, ifname);
        result := Err(AllocationFailed(idx, got.error));
        assert Ends(ranges, a, picks, id, ifname, result, State(store.files, store.last));
        return;
      }
      assert (picks + [pick])[..idx] == picks;
      requestedIPs, allocs, ips, picks := left, allocs + [alloc], ips + [got.value], picks + [pick];
    }
    if |requestedIPs| != 0 {
      RollBack(store, allocs, id, ifname);
      result := Err(NotAllRequestedIPs);
    } else {
      result := Ok(ips);
    }
    assert Ends(ranges, a, picks, id, ifname, result, State(store.files, store.last));
  }

  lemma AllEnd(ranges: seq<RangeSet>, a: Adding, picks: seq<Option<IP>>, b: Adding, id: string, ifname: string)
    requires AddEnds(ranges, a, id, ifname) && Rounds(ranges, a, picks, id, ifname) == Some(b) && |b.ips| < |ranges|
    ensures forall pick :: MayPick(ranges[|b.ips|], b.left, pick) ==>
      GetEnds(ranges[|b.ips|], b.st, |b.ips|, id, ifname, Request(b.left, pick))
  {
    hide Rounds;
    hide SetContains;
    hide GetEnds;
    forall pick | MayPick(ranges[|b.ips|], b.left, pick)
      ensures GetEnds(ranges[|b.ips|], b.st, |b.ips|, id, ifname, Request(b.left, pick))
    {
      assert RoundEnds(ranges, a, picks, pick, id, ifname);
    }
  }

  /** cmdDel releases through every range set's allocator. */
  method CmdDel(store: Store, ranges: seq<RangeSet>, id: string, ifname: string)
    modifies store
    ensures store.files == ReleasedTimes(old(store.files), id, ifname, |ranges|)
    ensures store.last == old(store.last)
  {
    hide Released;
    for idx := 0 to |ranges|
      invariant store.files == ReleasedTimes(old(store.files), id, ifname, idx)
      invariant store.last == old(store.last)
    {
      var ipAllocator := new IPAllocator(ranges[idx], store, idx);
      ipAllocator.Release(id, ifname);
    }
  }

  // ---- Definitions unfolded ----

  lemma RoundsDef(ranges: seq<RangeSet>, a: Adding, picks: seq<Option<IP>>, id: string, ifname: string)
    ensures picks == [] ==> Rounds(ranges, a, picks, id, ifname) == Some(a)
    ensures picks != [] && Rounds(ranges, a, picks, id, ifname).Some? ==>
      var n := |picks| - 1;
      var before := Rounds(ranges, a, picks[..n], id, ifname);
      && before.Some? && |before.value.ips| == |a.ips| + n
      && MayPickNext(ranges, before.value, picks[n])
      && var (result, after) := NextGet(ranges, before.value, picks[n], id, ifname);
         && result.Ok?
         && Rounds(ranges, a, picks, id, ifname).value
              == Adding(after, Used(before.value.left, picks[n]), before.value.ips + [result.value])
  {
    hide MayPickNext;
    hide NextGet;
    hide Used;
  }

  lemma StartDef(st: State, ipArgs: seq<IP>)
    ensures var a, requests := Start(st, ipArgs), set ip | ip in ipArgs;
      a.st == st && a.ips == [] && a.left.Keys == requests && forall ip :: ip in a.left ==> a.left[ip] == ip
  {
  }

  lemma RoundsAppend(ranges: seq<RangeSet>, a: Adding, picks: seq<Option<IP>>, pick: Option<IP>, id: string,
                     ifname: string)
    requires Rounds(ranges, a, picks, id, ifname).Some?
    requires MayPickNext(ranges, Rounds(ranges, a, picks, id, ifname).value, pick)
    requires NextGet(ranges, Rounds(ranges, a, picks, id, ifname).value, pick, id, ifname).0.Ok?
    ensures Rounds(ranges, a, picks + [pick], id, ifname).Some?
  {
    hide MayPickNext;
    hide NextGet;
    hide Used;
    assert (picks + [pick])[..|picks|] == picks;
  }

  lemma NextGetDef(ranges: seq<RangeSet>, a: Adding, pick: Option<IP>, id: string, ifname: string)
    requires MayPickNext(ranges, a, pick)
    ensures |a.ips| < |ranges| && (pick.Some? ==> pick.value in a.left)
    ensures NextGet(ranges, a, pick, id, ifname) == match Request(a.left, pick)
      case None => GetAny(ranges[|a.ips|], a.st, |a.ips|, id, ifname)
      case Some(ip) => GetRequested(ranges[|a.ips|], a.st, |a.ips|, id, ifname, ip)
  {
    hide GetAny;
    hide GetRequested;
    hide SetContains;
  }

  lemma EndsDef(ranges: seq<RangeSet>, a: Adding, picks: seq<Option<IP>>, id: string, ifname: string,
                result: Result<seq<IPConfig>, AddError>, now: State) returns (b: Adding)
    requires Ends(ranges, a, picks, id, ifname, result, now)
    ensures Rounds(ranges, a, picks, id, ifname) == Some(b) && |b.ips| == |a.ips| + |picks|
    ensures result.Ok? ==> |picks| == |ranges| && b.left == map[] && result.value == b.ips && now == b.st
    ensures result.Err? ==>
      |picks| == ServedBefore(result.error, |ranges|) && now == Back(b.st, id, ifname, |picks|)
    ensures result.Err? && result.error.AllocationFailed? ==>
      |picks| == result.error.index && NextFails(ranges, b, result.error.error, id, ifname)
    ensures result.Err? && result.error.NotAllRequestedIPs? ==> |picks| == |ranges| && b.left != map[]
  {
    hide Rounds;
    hide MayPickNext;
    hide NextGet;
    hide NextFails;
    hide Back;
    b := Rounds(ranges, a, picks, id, ifname).value;
  }

  lemma BackDef(st: State, id: string, ifname: string, n: nat)
    ensures Back(st, id, ifname, n) == State(ReleasedTimes(st.files, id, ifname, n), st.last)
  {
    hide ReleasedTimes;
  }

  /** How many sets were served before the failure. */
  function ServedBefore(error: AddError, total: nat): nat {
    match error
    case AllocationFailed(i, _) => i
    case NotAllRequestedIPs => total
  }
}
