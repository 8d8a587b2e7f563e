/** Whole runs of Get and Release on one range set. */
module AllocatorRuns {
  import opened Wrappers
  import opened Cidr
  import opened Ranges
  import opened RangeSets
  import opened Ring
  import opened RangeIterator
  import opened DiskStore
  import opened Allocator

  datatype Op = GetOp(id: string, ifname: string, requested: Option<IP>) | ReleaseOp(id: string, ifname: string)

  /** The state after one operation; a Get that does not end changes nothing. */
  ghost function Apply(s: RangeSet, rangeID: nat, st: State, op: Op): State {
    match op
    case GetOp(id, ifname, requested) => GetSpec(s, st, rangeID, id, ifname, requested).1
    case ReleaseOp(id, ifname) => State(Released(st.files, id, ifname), st.last)
  }

  ghost function Exec(s: RangeSet, rangeID: nat, st: State, ops: seq<Op>): State {
    if ops == [] then st
    else Apply(s, rangeID, Exec(s, rangeID, st, ops[..|ops| - 1]), ops[|ops| - 1])
  }

  lemma {:induction false} ExecConcat(s: RangeSet, rangeID: nat, st: State, a: seq<Op>, b: seq<Op>)
    ensures Exec(s, rangeID, st, a + b) == Exec(s, rangeID, Exec(s, rangeID, st, a), b)
  {
    hide Apply;
    if b == [] {
      assert a + b == a;
    } else {
      var n := |b| - 1;
      assert (a + b)[..|a + b| - 1] == a + b[..n];
      ExecConcat(s, rangeID, st, a, b[..n]);
    }
  }

  // ---- What Get chooses ----

  /**
   * An unrequested Get takes the first free address in cyclic order, and finds none exactly
   * when every address that is not its own range's gateway is reserved.
   */
  lemma ChoiceIsFirstFree(s: RangeSet, st: State, rangeID: nat)
    requires GoodSet(s) && Total(s) > 0
    ensures var n, begin := Total(s), Begin(s, st.last, rangeID);
      match Choice(s, st, rangeID)
      case None => forall q :: 0 <= q < n && !IsGateway(s, q) ==> AddressAt(s, q) in st.files
      case Some(p) =>
        && p < n && !IsGateway(s, p) && AddressAt(s, p) !in st.files
        && forall q :: 0 <= q < n && !IsGateway(s, q) && Distance(n, begin, q) < Distance(n, begin, p) ==>
             AddressAt(s, q) in st.files
  {
    hide Total;
    hide GoodSet;
    hide AddressAt;
    hide IsGateway;
    hide Begin;
    hide Walk;
    hide Distance;
    var begin := Begin(s, st.last, rangeID);
    WalkExact(s, begin);
    FirstInOrder(s, st.files, Walk(s, begin), begin);
  }

  /** In a list ordered by distance the first free position is the nearest free one. */
  lemma {:induction false} FirstInOrder(s: RangeSet, files: Files, ps: seq<nat>, begin: nat)
    requires begin < Total(s)
    requires forall i :: 0 <= i < |ps| ==> ps[i] < Total(s)
    requires forall i, j :: 0 <= i < j < |ps| ==> Distance(Total(s), begin, ps[i]) < Distance(Total(s), begin, ps[j])
    ensures FirstFree(s, files, ps).Some? ==>
      var d := Distance(Total(s), begin, FirstFree(s, files, ps).value);
      forall i :: 0 <= i < |ps| && Distance(Total(s), begin, ps[i]) < d ==> AddressAt(s, ps[i]) in files
  {
    hide Total;
    hide AddressAt;
    hide Distance;
    if ps != [] && AddressAt(s, ps[0]) in files {
      FirstInOrder(s, files, ps[1..], begin);
      forall i | 0 < i < |ps| ensures ps[i] == ps[1..][i - 1] {
      }
    }
  }

  /**
   * In a good set Get fails to end in exactly one case: nothing is requested, the container holds nothing in the
   * set, the last reserved address ends a range of a set with several, and every address that is
   * not its own range's gateway is reserved.
   */
  lemma GetEndsExactly(s: RangeSet, st: State, rangeID: nat, id: string, ifname: string, requested: Option<IP>)
    requires GoodSet(s) && Total(s) > 0
    ensures !GetEnds(s, st, rangeID, id, ifname, requested) <==>
      && requested.None?
      && !Holds(s, st.files, id, ifname)
      && |s| >= 2
      && LastPosition(s, st.last, rangeID).Some?
      && (var p := LastPosition(s, st.last, rangeID).value; p < Total(s) && NumberAt(s, p) == Hi(s[RangeAt(s, p)]))
      && forall q :: 0 <= q < Total(s) && !IsGateway(s, q) ==> AddressAt(s, q) in st.files
  {
    hide Total;
    hide GoodSet;
    hide AddressAt;
    hide NumberAt;
    hide RangeAt;
    hide Hi;
    hide IsGateway;
    hide Endless;
    hide Choice;
    hide Holds;
    hide LastPosition;
    hide SearchEnds;
    LastInSet(s, st.last, rangeID);
    EndlessExactly(s, st.last, rangeID);
    ChoiceIsFirstFree(s, st, rangeID);
    SearchEndsOnCircle(s, st, rangeID);
  }

  // ---- Ownership ----

  /** Only the owner's release takes an entry away. */
  ghost predicate ReleasedBy(c: Content, op: Op) {
    && op.ReleaseOp?
    && match c
       case Entry(id, ifname) => op == ReleaseOp(id, ifname)
       case OldEntry(id) => op.id == id
  }

  lemma OwnerStep(s: RangeSet, rangeID: nat, st: State, op: Op, key: IP)
    requires key in st.files && !ReleasedBy(st.files[key], op)
    ensures var files := Apply(s, rangeID, st, op).files; key in files && files[key] == st.files[key]
  {
    hide GetSpec;
    hide FileKey;
    if op.GetOp? {
      GetAdds(s, st, rangeID, op.id, op.ifname, op.requested);
    }
  }

  /** On any range set an address keeps its owner until that owner's release, over every run. */
  lemma {:induction false} OwnerKept(s: RangeSet, rangeID: nat, st: State, ops: seq<Op>, key: IP)
    requires key in st.files
    requires forall i :: 0 <= i < |ops| ==> !ReleasedBy(st.files[key], ops[i])
    ensures var files := Exec(s, rangeID, st, ops).files; key in files && files[key] == st.files[key]
  {
    hide Apply;
    if ops != [] {
      var n := |ops| - 1;
      OwnerKept(s, rangeID, st, ops[..n], key);
      OwnerStep(s, rangeID, Exec(s, rangeID, st, ops[..n]), ops[n], key);
    }
  }

  /** The key is an address of exactly one range, and not that range's gateway. */
  ghost predicate Allocatable(s: RangeSet, key: IP) {
    exists p ::
      && 0 <= p < Total(s) && AddressAt(s, p) == key && !IsGateway(s, p)
      && forall k :: 0 <= k < |s| ==> (Contains(s[k], key) <==> k == RangeAt(s, p))
  }

  lemma AllocatableAt(s: RangeSet, p: nat)
    requires GoodSet(s) && p < Total(s) && !IsGateway(s, p)
    ensures Allocatable(s, AddressAt(s, p))
    ensures forall k :: 0 <= k < |s| ==> (Contains(s[k], AddressAt(s, p)) <==> k == RangeAt(s, p))
  {
    hide Total;
    hide GoodSet;
    hide AddressAt;
    hide IsGateway;
    hide Contains;
    hide RangeAt;
    hide CanonicalizeIP;
    var key := AddressAt(s, p);
    AddressKey(s, p);
    forall k | 0 <= k < |s| ensures Contains(s[k], key) <==> k == RangeAt(s, p) {
      ContainsIsPosition(s, k, key);
      forall q | 0 <= q < Total(s) && CanonicalizeIP(key) == Some(AddressAt(s, q)) ensures q == p {
        AddressInjective(s, p, q);
      }
    }
  }

  /**
   * An answer carries the mask and the gateway of the one range of the set that contains its
   * address; the address is not that gateway, and the version is that of the address.
   */
  lemma AnswerOfItsRange(s: RangeSet, st: State, rangeID: nat, id: string, ifname: string, requested: Option<IP>)
    requires GoodSet(s)
    ensures var result := GetSpec(s, st, rangeID, id, ifname, requested).0;
      result.Ok? ==>
        var conf := result.value;
        && (conf.v6 <==> |conf.address| == 16) && Canonical(conf.address) && conf.gateway != Some(conf.address)
        && exists k ::
             && 0 <= k < |s| && conf.mask == s[k].mask && conf.gateway == s[k].gateway
             && forall j :: 0 <= j < |s| ==> (Contains(s[j], conf.address) <==> j == k)
  {
    hide *;
    TotalPositive(s);
    AnswerAt(s, st, rangeID, id, ifname, requested);
    var result := GetSpec(s, st, rangeID, id, ifname, requested).0;
    if p :| 0 <= p < Total(s) && !IsGateway(s, p) && result == Ok(ConfigAt(s, p)) {
      AllocatableAt(s, p);
      ConfigParts(s, p);
    }
  }

  lemma ConfigParts(s: RangeSet, p: nat)
    requires GoodSet(s) && p < Total(s) && !IsGateway(s, p)
    ensures var conf := ConfigAt(s, p);
      && conf.address == AddressAt(s, p) && Canonical(conf.address)
      && (conf.v6 <==> |conf.address| == 16)
      && conf.mask == s[RangeAt(s, p)].mask && conf.gateway == s[RangeAt(s, p)].gateway
      && conf.gateway != Some(conf.address)
  {
    hide GoodSet;
    hide Total;
    hide AddressAt;
    hide RangeAt;
    AddressFacts(s, p);
    CanonicalizeIdempotent(AddressAt(s, p));
  }

  lemma AnswerAt(s: RangeSet, st: State, rangeID: nat, id: string, ifname: string, requested: Option<IP>)
    requires GoodSet(s) && Total(s) > 0
    ensures GetSpec(s, st, rangeID, id, ifname, requested).0.Ok? ==>
      exists p ::
        && 0 <= p < Total(s) && !IsGateway(s, p)
        && GetSpec(s, st, rangeID, id, ifname, requested).0 == Ok(ConfigAt(s, p))
  {
    hide Total;
    hide GoodSet;
    hide AddressAt;
    hide IsGateway;
    hide IsAt;
    hide Holds;
    hide Choice;
    hide GetAny;
    hide GetRequested;
    hide ConfigAt;
    ChoiceIsFirstFree(s, st, rangeID);
    if requested.None? {
      GetAnyOnCircle(s, st, rangeID, id, ifname);
    } else {
      var ip := requested.value;
      GetRequestedOnCircle(s, st, rangeID, id, ifname, ip);
      if p :| IsAt(s, ip, p) {
        AtInSet(s, ip, p);
      }
    }
  }

  /** Whatever a run of Get and Release adds to the store is allocatable. */
  lemma {:induction false} OnlyAllocatableReserved(s: RangeSet, rangeID: nat, st: State, ops: seq<Op>, key: IP)
    requires GoodSet(s) && Total(s) > 0
    requires key in Exec(s, rangeID, st, ops).files && key !in st.files
    ensures Allocatable(s, key)
  {
    hide Total;
    hide GoodSet;
    hide Allocatable;
    hide Apply;
    if ops != [] {
      var n := |ops| - 1;
      var before := Exec(s, rangeID, st, ops[..n]);
      if key in before.files {
        OnlyAllocatableReserved(s, rangeID, st, ops[..n], key);
      } else {
        AddedIsAllocatable(s, rangeID, before, ops[n], key);
      }
    }
  }

  lemma AddedIsAllocatable(s: RangeSet, rangeID: nat, st: State, op: Op, key: IP)
    requires GoodSet(s) && Total(s) > 0
    requires key in Apply(s, rangeID, st, op).files && key !in st.files
    ensures Allocatable(s, key)
  {
    hide Total;
    hide GoodSet;
    hide Allocatable;
    hide AddressAt;
    hide IsGateway;
    hide IsAt;
    hide Holds;
    hide Choice;
    hide GetAny;
    hide GetRequested;
    hide ConfigAt;
    ChoiceIsFirstFree(s, st, rangeID);
    if op.GetOp? {
      GetAnyOnCircle(s, st, rangeID, op.id, op.ifname);
      if op.requested.Some? {
        GetRequestedOnCircle(s, st, rangeID, op.id, op.ifname, op.requested.value);
        var p :| IsAt(s, op.requested.value, p);
        AtInSet(s, op.requested.value, p);
      }
    }
    var p :| 0 <= p < Total(s) && key == AddressAt(s, p) && !IsGateway(s, p);
    AllocatableAt(s, p);
  }

  lemma AtInSet(s: RangeSet, ip: IP, p: nat)
    requires IsAt(s, ip, p)
    ensures p < Total(s)
  {
  }

  // ---- Fairness ----

  /** Every address but the one at a, gateways aside, was reserved at some moment of the run. */
  ghost predicate Seen(s: RangeSet, rangeID: nat, st: State, ops: seq<Op>, p: nat)
    requires p < Total(s)
  {
    exists t :: 0 <= t <= |ops| && AddressAt(s, p) in Exec(s, rangeID, st, ops[..t]).files
  }

  ghost predicate AllSeen(s: RangeSet, rangeID: nat, st: State, ops: seq<Op>, a: nat) {
    forall p :: 0 <= p < Total(s) && p != a && !IsGateway(s, p) ==> Seen(s, rangeID, st, ops, p)
  }

  /** The run has seen every address between a and q. */
  ghost predicate SeenUpTo(s: RangeSet, rangeID: nat, st: State, ops: seq<Op>, a: nat, q: nat)
    requires a < Total(s) && q < Total(s)
  {
    forall p :: 0 <= p < Total(s) && Distance(Total(s), a, p) <= Distance(Total(s), a, q) ==>
      p != a && !IsGateway(s, p) ==> Seen(s, rangeID, st, ops, p)
  }

  /** op is a Get without request that grants the address at p. */
  ghost predicate Grants(s: RangeSet, rangeID: nat, st: State, op: Op, p: nat)
    requires Total(s) > 0
  {
    && op.GetOp? && op.requested.None?
    && !Holds(s, st.files, op.id, op.ifname)
    && Choice(s, st, rangeID) == Some(p)
  }

  ghost predicate Unrequested(ops: seq<Op>) {
    forall i :: 0 <= i < |ops| && ops[i].GetOp? ==> ops[i].requested.None?
  }

  lemma SeenLonger(s: RangeSet, rangeID: nat, st: State, ops: seq<Op>, n: nat, p: nat)
    requires p < Total(s) && n <= |ops| && Seen(s, rangeID, st, ops[..n], p)
    ensures Seen(s, rangeID, st, ops, p)
  {
    hide Total;
    hide AddressAt;
    hide Exec;
    var t :| 0 <= t <= n && AddressAt(s, p) in Exec(s, rangeID, st, ops[..n][..t]).files;
    assert ops[..n][..t] == ops[..t];
  }

  /** The sweep: whatever lies behind the last reserved address was seen, or everything was. */
  lemma {:induction false} Sweep(s: RangeSet, rangeID: nat, st: State, ops: seq<Op>, a: nat)
    requires GoodSet(s) && a < Total(s) && LastPosition(s, st.last, rangeID) == Some(a) && Unrequested(ops)
    ensures var last := LastPosition(s, Exec(s, rangeID, st, ops).last, rangeID);
      && last.Some? && last.value < Total(s)
      && (AllSeen(s, rangeID, st, ops, a) || SeenUpTo(s, rangeID, st, ops, a, last.value))
  {
    hide Total;
    hide GoodSet;
    hide AddressAt;
    hide IsGateway;
    hide LastPosition;
    hide Apply;
    hide Seen;
    if ops == [] {
      LastInSet(s, st.last, rangeID);
    } else {
      var n := |ops| - 1;
      var now := Exec(s, rangeID, st, ops[..n]);
      Sweep(s, rangeID, st, ops[..n], a);
      LastInSet(s, now.last, rangeID);
      forall p | 0 <= p < Total(s) && Seen(s, rangeID, st, ops[..n], p) ensures Seen(s, rangeID, st, ops, p) {
        SeenLonger(s, rangeID, st, ops, n, p);
      }
      if p :| Grants(s, rangeID, now, ops[n], p) {
        SweepStep(s, rangeID, st, ops, a, LastPosition(s, now.last, rangeID).value, p);
      } else {
        LastUnchanged(s, rangeID, now, ops[n]);
      }
    }
  }

  lemma LastInSet(s: RangeSet, last: map<nat, IP>, rangeID: nat)
    ensures LastPosition(s, last, rangeID).Some? ==> LastPosition(s, last, rangeID).value < Total(s)
  {
    hide Total;
    hide AddressAt;
  }

  lemma LastUnchanged(s: RangeSet, rangeID: nat, st: State, op: Op)
    requires GoodSet(s) && Total(s) > 0
    requires (op.GetOp? ==> op.requested.None?) && forall p :: !Grants(s, rangeID, st, op, p)
    ensures Apply(s, rangeID, st, op).last == st.last
  {
    hide GoodSet;
    hide Total;
    hide AddressAt;
    hide Choice;
    hide Holds;
    hide GetAny;
    if op.GetOp? {
      GetAnyOnCircle(s, st, rangeID, op.id, op.ifname);
      if Choice(s, st, rangeID).Some? {
        assert !Grants(s, rangeID, st, op, Choice(s, st, rangeID).value);
      }
    }
  }

  /** A granted Get reserves its address and remembers it. */
  lemma GrantApplies(s: RangeSet, rangeID: nat, st: State, op: Op, p: nat)
    requires GoodSet(s) && Total(s) > 0 && Grants(s, rangeID, st, op, p)
    ensures p < Total(s) && !IsGateway(s, p)
    ensures Apply(s, rangeID, st, op) == Reserved(s, st, rangeID, op.id, op.ifname, p)
  {
    hide Total;
    hide GoodSet;
    hide AddressAt;
    hide IsGateway;
    hide Choice;
    hide Holds;
    hide GetAny;
    ChoiceIsFirstFree(s, st, rangeID);
    GetAnyOnCircle(s, st, rangeID, op.id, op.ifname);
  }

  lemma GrantEffect(s: RangeSet, rangeID: nat, st: State, op: Op, p: nat)
    requires GoodSet(s) && Total(s) > 0 && Grants(s, rangeID, st, op, p)
    ensures p < Total(s) && !IsGateway(s, p)
    ensures var st' := Apply(s, rangeID, st, op);
      LastPosition(s, st'.last, rangeID) == Some(p) && AddressAt(s, p) in st'.files
  {
    hide Total;
    hide GoodSet;
    hide AddressAt;
    hide IsGateway;
    hide Grants;
    hide Apply;
    hide KeyAt;
    GrantApplies(s, rangeID, st, op, p);
    AddressKey(s, p);
    var last := Apply(s, rangeID, st, op).last;
    assert KeyAt(s, last[rangeID], p);
    KeyAtUnique(s, last[rangeID], p, LastPosition(s, last, rangeID).value);
  }

  /** A grant at p finds everything between the last reserved address q and p reserved. */
  lemma SweepStep(s: RangeSet, rangeID: nat, st: State, ops: seq<Op>, a: nat, q: nat, p: nat)
    requires GoodSet(s) && a < Total(s) && q < Total(s) && ops != []
    requires var now := Exec(s, rangeID, st, ops[..|ops| - 1]);
      LastPosition(s, now.last, rangeID) == Some(q) && Grants(s, rangeID, now, ops[|ops| - 1], p)
    requires AllSeen(s, rangeID, st, ops, a) || SeenUpTo(s, rangeID, st, ops, a, q)
    ensures p < Total(s) && LastPosition(s, Exec(s, rangeID, st, ops).last, rangeID) == Some(p)
    ensures AllSeen(s, rangeID, st, ops, a) || SeenUpTo(s, rangeID, st, ops, a, p)
    ensures p == a ==> AllSeen(s, rangeID, st, ops, a)
  {
    hide Total;
    hide GoodSet;
    hide AddressAt;
    hide IsGateway;
    hide Apply;
    hide Choice;
    hide LastPosition;
    var m := |ops| - 1;
    var now, n := Exec(s, rangeID, st, ops[..m]), Total(s);
    GrantEffect(s, rangeID, now, ops[m], p);
    ChoiceIsFirstFree(s, now, rangeID);
    assert ops[..|ops|] == ops;
    assert Seen(s, rangeID, st, ops, p);
    forall r | 0 <= r < n && !IsGateway(s, r) && Distance(n, Ahead(n, q, 1), r) < Distance(n, Ahead(n, q, 1), p)
      ensures Seen(s, rangeID, st, ops, r)
    {
      assert AddressAt(s, r) in Exec(s, rangeID, st, ops[..m]).files;
    }
    if !AllSeen(s, rangeID, st, ops, a) {
      forall r | 0 <= r < n && r != a && !IsGateway(s, r)
        && (Distance(n, a, r) <= Distance(n, a, p) || Distance(n, a, p) <= Distance(n, a, q))
        ensures Seen(s, rangeID, st, ops, r)
      {
        if Distance(n, a, r) > Distance(n, a, q) && r != p {
          Between(n, a, q, p, r);
        }
      }
    }
  }

  /** Circular order: r after q and before p, where p may lie beyond a. */
  lemma Between(n: nat, a: nat, q: nat, p: nat, r: nat)
    requires a < n && q < n && p < n && r < n && r != p
    requires Distance(n, a, q) < Distance(n, a, r)
    requires Distance(n, a, r) <= Distance(n, a, p) || Distance(n, a, p) <= Distance(n, a, q)
    ensures Distance(n, Ahead(n, q, 1), r) < Distance(n, Ahead(n, q, 1), p)
  {
  }

  /**
   * Round-robin fairness: in a run of unrequested Gets and Releases, between two grants of the
   * same address every other address of the set that is not its own range's gateway was
   * reserved at some moment.
   */
  lemma Fairness(s: RangeSet, rangeID: nat, st: State, ops: seq<Op>, i: nat, j: nat, a: nat)
    requires GoodSet(s) && Total(s) > 0 && i < j < |ops| && Unrequested(ops[i..j + 1])
    requires Grants(s, rangeID, Exec(s, rangeID, st, ops[..i]), ops[i], a)
    requires Grants(s, rangeID, Exec(s, rangeID, st, ops[..j]), ops[j], a)
    ensures a < Total(s)
    ensures forall p :: 0 <= p < Total(s) && p != a && !IsGateway(s, p) ==>
      exists t :: i < t <= j + 1 && AddressAt(s, p) in Exec(s, rangeID, st, ops[..t]).files
  {
    hide Total;
    hide GoodSet;
    hide AddressAt;
    hide IsGateway;
    hide Apply;
    hide Choice;
    hide LastPosition;
    hide Holds;
    var st1 := Exec(s, rangeID, st, ops[..i + 1]);
    assert ops[..i + 1][..i] == ops[..i];
    GrantEffect(s, rangeID, Exec(s, rangeID, st, ops[..i]), ops[i], a);
    var run := ops[i + 1..j + 1];
    var m := |run| - 1;
    assert run[..m] == ops[i + 1..j];
    assert ops[..j] == ops[..i + 1] + run[..m];
    ExecConcat(s, rangeID, st, ops[..i + 1], run[..m]);
    assert Unrequested(run[..m]) by {
      forall k | 0 <= k < m && run[..m][k].GetOp? ensures run[..m][k].requested.None? {
        assert run[..m][k] == ops[i..j + 1][k + 1];
      }
    }
    Sweep(s, rangeID, st1, run[..m], a);
    var q := LastPosition(s, Exec(s, rangeID, st1, run[..m]).last, rangeID).value;
    SeenInPrefix(s, rangeID, st1, run, a, q);
    SweepStep(s, rangeID, st1, run, a, q, a);
    forall p | 0 <= p < Total(s) && p != a && !IsGateway(s, p)
      ensures exists t :: i < t <= j + 1 && AddressAt(s, p) in Exec(s, rangeID, st, ops[..t]).files
    {
      assert Seen(s, rangeID, st1, run, p);
      SeenInRun(s, rangeID, st, ops, i, j, p);
    }
  }

  /** What was seen in a part of the run was seen in the run. */
  lemma SeenInRun(s: RangeSet, rangeID: nat, st: State, ops: seq<Op>, i: nat, j: nat, p: nat)
    requires Total(s) > 0 && i <= j < |ops| && p < Total(s)
    requires Seen(s, rangeID, Exec(s, rangeID, st, ops[..i + 1]), ops[i + 1..j + 1], p)
    ensures exists t :: i < t <= j + 1 && AddressAt(s, p) in Exec(s, rangeID, st, ops[..t]).files
  {
    hide Total;
    hide AddressAt;
    hide Exec;
    var run := ops[i + 1..j + 1];
    var t :| 0 <= t <= |run| && AddressAt(s, p) in Exec(s, rangeID, Exec(s, rangeID, st, ops[..i + 1]), run[..t]).files;
    assert ops[..i + 1 + t] == ops[..i + 1] + run[..t];
    ExecConcat(s, rangeID, st, ops[..i + 1], run[..t]);
  }

  lemma SeenInPrefix(s: RangeSet, rangeID: nat, st: State, ops: seq<Op>, a: nat, q: nat)
    requires a < Total(s) && q < Total(s) && ops != []
    requires AllSeen(s, rangeID, st, ops[..|ops| - 1], a) || SeenUpTo(s, rangeID, st, ops[..|ops| - 1], a, q)
    ensures AllSeen(s, rangeID, st, ops, a) || SeenUpTo(s, rangeID, st, ops, a, q)
  {
    hide Total;
    hide AddressAt;
    hide IsGateway;
    hide Seen;
    forall p | 0 <= p < Total(s) && Seen(s, rangeID, st, ops[..|ops| - 1], p) ensures Seen(s, rangeID, st, ops, p) {
      SeenLonger(s, rangeID, st, ops, |ops| - 1, p);
    }
  }
}
