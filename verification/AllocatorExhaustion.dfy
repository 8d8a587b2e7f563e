/**
 * How the range-end case is reached: filling a set of several ranges from an empty store leaves
 * the allocator in it.
 */
module AllocatorExhaustion {
  import opened Wrappers
  import opened Bytes
  import opened Ranges
  import opened RangeMeaning
  import opened RangeSets
  import opened RangeInputs
  import opened Ring
  import opened RangeIterator
  import opened DiskStore
  import opened Allocator
  import opened AllocatorRuns

  /** Every address that is not its own range's gateway is reserved. */
  ghost predicate Full(s: RangeSet, files: Files) {
    forall q :: 0 <= q < Total(s) && !IsGateway(s, q) ==> AddressAt(s, q) in files
  }

  /** On a full set no Get changes anything. */
  lemma FullStays(s: RangeSet, rangeID: nat, st: State, op: Op)
    requires GoodSet(s) && Total(s) > 0 && Full(s, st.files) && op.GetOp?
    ensures Apply(s, rangeID, st, op) == st
  {
    hide Total;
    hide GoodSet;
    hide AddressAt;
    hide IsGateway;
    hide Choice;
    hide Holds;
    hide IsAt;
    hide GetAny;
    hide GetRequested;
    ChoiceIsFirstFree(s, st, rangeID);
    GetAnyOnCircle(s, st, rangeID, op.id, op.ifname);
    if op.requested.Some? {
      GetRequestedOnCircle(s, st, rangeID, op.id, op.ifname, op.requested.value);
      if p :| IsAt(s, op.requested.value, p) {
        AtInSet(s, op.requested.value, p);
      }
    }
  }

  lemma {:induction false} FullStaysThroughout(s: RangeSet, rangeID: nat, st: State, ops: seq<Op>)
    requires GoodSet(s) && Total(s) > 0 && Full(s, st.files) && forall i :: 0 <= i < |ops| ==> ops[i].GetOp?
    ensures Exec(s, rangeID, st, ops) == st
  {
    hide Total;
    hide GoodSet;
    hide Full;
    hide Apply;
    if ops != [] {
      FullStaysThroughout(s, rangeID, st, ops[..|ops| - 1]);
      FullStays(s, rangeID, st, ops[|ops| - 1]);
    }
  }

  /**
   * Ordinary exhaustion reaches the range-end case: once a Get is granted a range's last address, in
   * a set of several ranges in which every other address is taken, no later Get without request
   * ends that comes from a container holding nothing, until something is released.
   */
  lemma LastGrantGetsStuck(s: RangeSet, rangeID: nat, st: State, op: Op, p: nat, gets: seq<Op>, id: string,
                           ifname: string)
    requires GoodSet(s) && Total(s) > 0 && |s| >= 2 && Grants(s, rangeID, st, op, p)
    requires p < Total(s) && NumberAt(s, p) == Hi(s[RangeAt(s, p)])
    requires forall q :: 0 <= q < Total(s) && q != p && !IsGateway(s, q) ==> AddressAt(s, q) in st.files
    requires forall i :: 0 <= i < |gets| ==> gets[i].GetOp?
    requires !Holds(s, Apply(s, rangeID, st, op).files, id, ifname)
    ensures var st' := Exec(s, rangeID, Apply(s, rangeID, st, op), gets);
      st' == Apply(s, rangeID, st, op) && !GetEnds(s, st', rangeID, id, ifname, None)
  {
    hide Total;
    hide GoodSet;
    hide AddressAt;
    hide NumberAt;
    hide RangeAt;
    hide Hi;
    hide IsGateway;
    hide Choice;
    hide Holds;
    hide LastPosition;
    hide Apply;
    hide Exec;
    hide GetEnds;
    var st1 := Apply(s, rangeID, st, op);
    GrantEffect(s, rangeID, st, op, p);
    GrantKeeps(s, rangeID, st, op, p);
    assert Full(s, st1.files);
    FullStaysThroughout(s, rangeID, st1, gets);
    GetEndsExactly(s, st1, rangeID, id, ifname, None);
  }

  lemma GrantKeeps(s: RangeSet, rangeID: nat, st: State, op: Op, p: nat)
    requires GoodSet(s) && Total(s) > 0 && Grants(s, rangeID, st, op, p)
    ensures forall k :: k in st.files ==> k in Apply(s, rangeID, st, op).files
    ensures p < Total(s) && Apply(s, rangeID, st, op).files == st.files[AddressAt(s, p) := Entry(op.id, op.ifname)]
  {
    hide Total;
    hide GoodSet;
    hide AddressAt;
    hide IsGateway;
    hide Grants;
    hide Apply;
    GrantApplies(s, rangeID, st, op, p);
  }

  // ---- Filling an empty store ----

  const EMPTY := State(map[], map[])

  function Gets(ids: seq<string>, ifname: string): (ops: seq<Op>)
    ensures |ops| == |ids| && forall i :: 0 <= i < |ids| ==> ops[i] == GetOp(ids[i], ifname, None)
  {
    seq(|ids|, i requires 0 <= i < |ids| => GetOp(ids[i], ifname, None))
  }

  ghost predicate Different(ids: seq<string>) {
    forall i, j :: 0 <= i < j < |ids| ==> ids[i] != ids[j]
  }

  /** The first k addresses of the walk are held by the first k containers, and the last of them is remembered. */
  ghost predicate Filled(s: RangeSet, rangeID: nat, st: State, ids: seq<string>, ifname: string, k: nat)
    requires Total(s) > 0
  {
    var w := Walk(s, 0);
    && k <= |w| && k <= |ids|
    && (forall i :: 0 <= i < k ==>
          AddressAt(s, w[i]) in st.files && st.files[AddressAt(s, w[i])] == Entry(ids[i], ifname))
    && (forall key :: key in st.files ==> exists i :: 0 <= i < k && AddressAt(s, w[i]) == key)
    && LastPosition(s, st.last, rangeID) == if k == 0 then None else Some(w[k - 1])
  }

  /** The walk from the first address is ascending. */
  lemma WalkAscends(s: RangeSet)
    requires Total(s) > 0
    ensures var w := Walk(s, 0);
      && (forall i, j :: 0 <= i < j < |w| ==> w[i] < w[j])
      && (forall p :: p in w <==> 0 <= p < Total(s) && !IsGateway(s, p))
      && forall i :: 0 <= i < |w| ==> w[i] in w && w[i] < Total(s)
  {
    hide Total;
    hide IsGateway;
    hide Walk;
    WalkExact(s, 0);
    var w := Walk(s, 0);
    forall i, j | 0 <= i < j < |w| ensures w[i] < w[j] {
      assert Distance(Total(s), 0, w[i]) < Distance(Total(s), 0, w[j]);
    }
  }

  lemma NobodyHolds(s: RangeSet, rangeID: nat, st: State, ids: seq<string>, ifname: string, k: nat, id: string)
    requires Total(s) > 0 && Filled(s, rangeID, st, ids, ifname, k) && forall i :: 0 <= i < k ==> ids[i] != id
    ensures !Holds(s, st.files, id, ifname)
  {
    hide Total;
    hide AddressAt;
    hide Walk;
    hide LastPosition;
    hide ParseIP;
    hide SetContains;
  }

  /** The next container gets the next address of the walk. */
  lemma NextOfWalk(s: RangeSet, rangeID: nat, st: State, ids: seq<string>, ifname: string, k: nat)
    requires GoodSet(s) && Total(s) > 0 && Filled(s, rangeID, st, ids, ifname, k) && k < |Walk(s, 0)|
    ensures Choice(s, st, rangeID) == Some(Walk(s, 0)[k])
  {
    hide Total;
    hide GoodSet;
    hide AddressAt;
    hide IsGateway;
    hide Walk;
    hide Choice;
    hide LastPosition;
    var n, w, begin := Total(s), Walk(s, 0), Begin(s, st.last, rangeID);
    WalkAscends(s);
    ChoiceIsFirstFree(s, st, rangeID);
    Unreserved(s, rangeID, st, ids, ifname, k, k);
    assert w[k] in w && begin <= w[k];
    forall j | k < j < |w| ensures Distance(n, begin, w[k]) < Distance(n, begin, w[j]) {
    }
    var j :| 0 <= j < |w| && w[j] == Choice(s, st, rangeID).value;
  }

  /** Later addresses of the walk are free. */
  lemma Unreserved(s: RangeSet, rangeID: nat, st: State, ids: seq<string>, ifname: string, k: nat, j: nat)
    requires GoodSet(s) && Total(s) > 0 && Filled(s, rangeID, st, ids, ifname, k) && k <= j < |Walk(s, 0)|
    ensures AddressAt(s, Walk(s, 0)[j]) !in st.files
  {
    hide Total;
    hide GoodSet;
    hide AddressAt;
    hide IsGateway;
    hide Walk;
    hide LastPosition;
    var w := Walk(s, 0);
    WalkAscends(s);
    forall i | 0 <= i < k ensures AddressAt(s, w[i]) != AddressAt(s, w[j]) {
      if AddressAt(s, w[i]) == AddressAt(s, w[j]) {
        AddressInjective(s, w[i], w[j]);
      }
    }
  }

  lemma FillStep(s: RangeSet, rangeID: nat, st: State, ids: seq<string>, ifname: string, k: nat)
    requires GoodSet(s) && Total(s) > 0 && Filled(s, rangeID, st, ids, ifname, k)
    requires k < |Walk(s, 0)| && k < |ids| && Different(ids)
    ensures Grants(s, rangeID, st, GetOp(ids[k], ifname, None), Walk(s, 0)[k])
    ensures Filled(s, rangeID, Apply(s, rangeID, st, GetOp(ids[k], ifname, None)), ids, ifname, k + 1)
  {
    hide Total;
    hide GoodSet;
    hide AddressAt;
    hide IsGateway;
    hide Walk;
    hide Choice;
    hide Holds;
    hide LastPosition;
    hide Apply;
    var w, op := Walk(s, 0), GetOp(ids[k], ifname, None);
    NobodyHolds(s, rangeID, st, ids, ifname, k, ids[k]);
    NextOfWalk(s, rangeID, st, ids, ifname, k);
    Unreserved(s, rangeID, st, ids, ifname, k, k);
    GrantEffect(s, rangeID, st, op, w[k]);
    GrantKeeps(s, rangeID, st, op, w[k]);
  }

  /** Different containers fill an empty store in the order of the walk. */
  lemma {:induction false} FillUp(s: RangeSet, rangeID: nat, ids: seq<string>, ifname: string, k: nat)
    requires GoodSet(s) && Total(s) > 0 && k <= |ids| <= |Walk(s, 0)| && Different(ids)
    ensures Filled(s, rangeID, Exec(s, rangeID, EMPTY, Gets(ids, ifname)[..k]), ids, ifname, k)
    decreases k
  {
    hide *;
    var ops := Gets(ids, ifname);
    RunOfFront(s, rangeID, EMPTY, ops, k);
    if k == 0 {
      FilledNone(s, rangeID, ids, ifname);
    } else {
      FillUp(s, rangeID, ids, ifname, k - 1);
      FillStep(s, rangeID, Exec(s, rangeID, EMPTY, ops[..k - 1]), ids, ifname, k - 1);
    }
  }

  lemma RunOfFront(s: RangeSet, rangeID: nat, st: State, ops: seq<Op>, k: nat)
    requires k <= |ops|
    ensures Exec(s, rangeID, st, ops[..k])
         == if k == 0 then st else Apply(s, rangeID, Exec(s, rangeID, st, ops[..k - 1]), ops[k - 1])
  {
    hide Apply;
    assert k > 0 ==> ops[..k][..k - 1] == ops[..k - 1];
  }

  lemma FilledNone(s: RangeSet, rangeID: nat, ids: seq<string>, ifname: string)
    requires Total(s) > 0
    ensures Filled(s, rangeID, EMPTY, ids, ifname, 0)
  {
    hide Total;
    hide AddressAt;
    hide Walk;
  }

  /**
   * From an empty store, as many containers as there are allocatable addresses take them all. The
   * next container's Get then does not end exactly when the set has several ranges and its last
   * allocatable address ends one, as it does when its very last address is no gateway.
   */
  lemma FillingGetsStuckExactly(s: RangeSet, rangeID: nat, ids: seq<string>, ifname: string, id: string)
    requires GoodSet(s) && Total(s) > 0 && |ids| == |Walk(s, 0)| > 0 && Different(ids) && id !in ids
    ensures var st := Exec(s, rangeID, EMPTY, Gets(ids, ifname));
      var last := Walk(s, 0)[|ids| - 1];
      && Full(s, st.files)
      && (!GetEnds(s, st, rangeID, id, ifname, None) <==>
            |s| >= 2 && last < Total(s) && NumberAt(s, last) == Hi(s[RangeAt(s, last)]))
      && (|s| >= 2 && !IsGateway(s, Total(s) - 1) ==> !GetEnds(s, st, rangeID, id, ifname, None))
  {
    hide *;
    var n, w, ops := |ids|, Walk(s, 0), Gets(ids, ifname);
    var st := Exec(s, rangeID, EMPTY, ops);
    FillUp(s, rangeID, ids, ifname, n);
    assert ops[..n] == ops;
    NobodyHolds(s, rangeID, st, ids, ifname, n, id);
    FilledIsFull(s, rangeID, st, ids, ifname);
    FullEnds(s, rangeID, st, id, ifname);
    LastOfWalk(s);
  }

  lemma FilledIsFull(s: RangeSet, rangeID: nat, st: State, ids: seq<string>, ifname: string)
    requires Total(s) > 0 && |ids| == |Walk(s, 0)| > 0 && Filled(s, rangeID, st, ids, ifname, |ids|)
    ensures Full(s, st.files) && LastPosition(s, st.last, rangeID) == Some(Walk(s, 0)[|ids| - 1])
    ensures Walk(s, 0)[|ids| - 1] < Total(s)
  {
    hide Total;
    hide AddressAt;
    hide IsGateway;
    hide Walk;
    hide LastPosition;
    WalkAscends(s);
    forall q | 0 <= q < Total(s) && !IsGateway(s, q) ensures AddressAt(s, q) in st.files {
      assert q in Walk(s, 0);
    }
  }

  /** On a full set a container that holds nothing waits for ever exactly in the range-end case. */
  lemma FullEnds(s: RangeSet, rangeID: nat, st: State, id: string, ifname: string)
    requires GoodSet(s) && Total(s) > 0 && Full(s, st.files) && !Holds(s, st.files, id, ifname)
    requires var last := LastPosition(s, st.last, rangeID); last.Some? && last.value < Total(s)
    ensures var p := LastPosition(s, st.last, rangeID).value;
      !GetEnds(s, st, rangeID, id, ifname, None) <==> |s| >= 2 && NumberAt(s, p) == Hi(s[RangeAt(s, p)])
  {
    hide Total;
    hide GoodSet;
    hide AddressAt;
    hide NumberAt;
    hide RangeAt;
    hide Hi;
    hide IsGateway;
    hide Holds;
    hide LastPosition;
    hide GetEnds;
    GetEndsExactly(s, st, rangeID, id, ifname, None);
  }

  /** Where the walk from the first address ends if the very last address is no gateway. */
  lemma LastOfWalk(s: RangeSet)
    requires GoodSet(s) && Total(s) > 0
    ensures var w := Walk(s, 0);
      !IsGateway(s, Total(s) - 1) ==>
        w != [] && w[|w| - 1] == Total(s) - 1 && NumberAt(s, Total(s) - 1) == Hi(s[RangeAt(s, Total(s) - 1)])
  {
    hide Total;
    hide GoodSet;
    hide NumberAt;
    hide RangeAt;
    hide Hi;
    hide IsGateway;
    hide Walk;
    WalkAscends(s);
    LastIsRangeEnd(s);
    var w := Walk(s, 0);
    if !IsGateway(s, Total(s) - 1) {
      assert Total(s) - 1 in w;
      var j :| 0 <= j < |w| && w[j] == Total(s) - 1;
      forall i | 0 <= i < |w| - 1 ensures w[i] < w[|w| - 1] {
      }
    }
  }

  lemma LastIsRangeEnd(s: RangeSet)
    requires GoodSet(s) && Total(s) > 0
    ensures NumberAt(s, Total(s) - 1) == Hi(s[RangeAt(s, Total(s) - 1)])
  {
    hide *;
    var p := Total(s) - 1;
    var k := RangeAt(s, p);
    NumberInRange(s, p);
    GoodSetParts(s, k);
    EndPosition(s, k);
    OffsetMonotone(s, k + 1, |s|);
    NumberDef(s, p);
  }

  lemma NumberDef(s: RangeSet, p: nat)
    requires p < Total(s)
    ensures var k := RangeAt(s, p);
      && Offset(s, k) <= p < Offset(s, k + 1) <= Total(s)
      && NumberAt(s, p) == Lo(s[k]) + (p - Offset(s, k))
      && Offset(s, k + 1) == Offset(s, k) + RangeSize(s[k])
      && (Lo(s[k]) <= Hi(s[k]) ==> RangeSize(s[k]) == Hi(s[k]) - Lo(s[k]) + 1)
  {
    hide Lo;
    hide Hi;
    OffsetMonotone(s, RangeAt(s, p) + 1, |s|);
  }

  // ---- Subnets configured together ----

  /**
   * In particular a set of two or more plain subnets, once filled from an empty store, leaves every
   * further container without an answer.
   */
  lemma SubnetsGetStuck(s: RangeSet, rangeID: nat, ids: seq<string>, ifname: string, id: string)
    requires SubnetsOnly(s) && |s| >= 2 && Total(CanonicalSet(s)) > 0
    requires |ids| == |Walk(CanonicalSet(s), 0)| && Different(ids) && id !in ids
    ensures var st := Exec(CanonicalSet(s), rangeID, EMPTY, Gets(ids, ifname));
      Full(CanonicalSet(s), st.files) && !GetEnds(CanonicalSet(s), st, rangeID, id, ifname, None)
  {
    hide *;
    var c := CanonicalSet(s);
    SubnetsTogether(s);
    CanonicalSetDef(s);
    LastOfWalk(c);
    LastIsRangeEnd(c);
    assert !IsGateway(c, Total(c) - 1);
    FillingGetsStuckExactly(c, rangeID, ids, ifname, id);
  }

  lemma SmallSubnetOnly(b: Byte)
    requires GoodSubnet(SmallRange(b)) && Network(SmallRange(b))[0] != 0
    ensures SubnetOnly(SmallRange(b))
  {
    hide GoodSubnet;
    hide Network;
  }

  /** 10.0.0.0/24 and 11.0.0.0/24 are such subnets. */
  lemma TwoSmallSubnets()
    ensures SubnetsOnly([SmallRange(10), SmallRange(11)])
  {
    hide *;
    SmallFields(10);
    SmallNet(SmallRange(10), 10);
    SmallSubnetOnly(10);
    SmallFields(11);
    SmallNet(SmallRange(11), 11);
    SmallSubnetOnly(11);
    TwoSubnets(SmallRange(10), SmallRange(11));
  }

  lemma TwoSubnets(r: Range, r1: Range)
    requires SubnetOnly(r) && SubnetOnly(r1) && |Network(r)| == |Network(r1)|
    requires GoodSubnet(r) && GoodSubnet(r1) && Value(Network(r)) + Size(r) <= Value(Network(r1))
    ensures SubnetsOnly([r, r1])
  {
    hide SubnetOnly;
    hide GoodSubnet;
    hide Network;
    hide Size;
    hide Value;
  }
}
