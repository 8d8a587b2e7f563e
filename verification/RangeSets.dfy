/** Range sets and the configuration checks over them: range_set.go and config.go. */
module RangeSets {
  import opened Wrappers
  import opened Bytes
  import opened Cidr
  import opened Masks
  import opened Ranges
  import opened RangeMeaning

  type RangeSet = seq<Range>

  /** RangeFor: the index of the first range containing the address. */
  method RangeFor(s: RangeSet, addr: IP) returns (k: Option<nat>)
    ensures k.Some? ==> k.value < |s| && Contains(s[k.value], addr) && forall i :: 0 <= i < k.value ==>
      !Contains(s[i], addr)
    ensures k.None? ==> !SetContains(s, addr)
    ensures k == FirstFrom(s, addr, 0)
  {
    if CanonicalizeIP(addr).None? {
      return None;
    }
    for i := 0 to |s|
      invariant forall j :: 0 <= j < i ==> !Contains(s[j], addr)
    {
      if Contains(s[i], CanonicalizeIP(addr).value) {
        ContainsCanonical(s[i], addr);
        return Some(i);
      }
      ContainsCanonical(s[i], addr);
    }
    return None;
  }

  /** The first range from index k on that contains the address. */
  function FirstFrom(s: RangeSet, addr: IP, k: nat): (r: Option<nat>)
    requires k <= |s|
    ensures r.Some? ==> k <= r.value < |s| && Contains(s[r.value], addr) && forall i :: k <= i < r.value ==>
      !Contains(s[i], addr)
    ensures r.None? ==> forall i :: k <= i < |s| ==> !Contains(s[i], addr)
    decreases |s| - k
  {
    if k == |s| then None else if Contains(s[k], addr) then Some(k) else FirstFrom(s, addr, k + 1)
  }

  lemma ContainsCanonical(r: Range, addr: IP)
    requires CanonicalizeIP(addr).Some?
    ensures Contains(r, CanonicalizeIP(addr).value) <==> Contains(r, addr)
  {
    hide NetContains;
    CanonicalizeIdempotent(addr);
  }

  ghost predicate SetContains(s: RangeSet, addr: IP) {
    exists k :: 0 <= k < |s| && Contains(s[k], addr)
  }

  method SetsOverlap(s: RangeSet, p: RangeSet) returns (overlap: bool)
    ensures overlap <==> OverlappingSets(s, p)
  {
    hide Overlaps;
    for i := 0 to |s|
      invariant forall k, l :: 0 <= k < i && 0 <= l < |p| ==> !Overlaps(s[k], p[l])
    {
      for j := 0 to |p|
        invariant forall l :: 0 <= l < j ==> !Overlaps(s[i], p[l])
      {
        if Overlaps(s[i], p[j]) {
          return true;
        }
      }
    }
    return false;
  }

  ghost predicate OverlappingSets(s: RangeSet, p: RangeSet) {
    exists k, l :: 0 <= k < |s| && 0 <= l < |p| && Overlaps(s[k], p[l])
  }

  datatype SetError =
    | EmptySet
    | InvalidRange(error: RangeError)
    | MixedFamilies
    | OverlappingRanges

  /** The length of a range's first address, which stands for its family. */
  function Family(r: Range): nat {
    |r.rangeStart.GetOr([])|
  }

  /** What RangeSet.Canonicalize is to accept. */
  ghost predicate AcceptableSet(s: RangeSet) {
    && s != []
    && (forall i :: 0 <= i < |s| ==> Canonicalized(s[i]).1.None?)
    && (forall i :: 0 <= i < |s| ==> Family(Canonicalized(s[i]).0) == Family(Canonicalized(s[0]).0))
    && (forall i, j :: 0 <= i < j < |s| ==> !Overlaps(Canonicalized(s[i]).0, Canonicalized(s[j]).0))
  }

  /** The first n ranges are accepted on their own and start in one family. */
  ghost predicate AcceptedUpTo(s: RangeSet, n: nat)
    requires n <= |s|
  {
    forall i :: 0 <= i < n ==>
      Canonicalized(s[i]).1.None? && Family(Canonicalized(s[i]).0) == Family(Canonicalized(s[0]).0)
  }

  /** What is wrong with a set when it is rejected for the given reason: the first failure in reading order. */
  ghost predicate SetFault(s: RangeSet, e: SetError) {
    match e
    case EmptySet => s == []
    case InvalidRange(error) =>
      exists i :: 0 <= i < |s| && AcceptedUpTo(s, i) && Canonicalized(s[i]).1 == Some(error)
    case MixedFamilies =>
      exists i :: 0 < i < |s| && AcceptedUpTo(s, i) && Canonicalized(s[i]).1.None?
        && Family(Canonicalized(s[i]).0) != Family(Canonicalized(s[0]).0)
    case OverlappingRanges =>
      && AcceptedUpTo(s, |s|)
      && exists i, j :: 0 <= i < j < |s| && Overlaps(Canonicalized(s[i]).0, Canonicalized(s[j]).0)
  }

  /** A rejected set has one fault, an accepted one has none. */
  lemma OneFault(s: RangeSet, e: SetError, e1: SetError)
    requires SetFault(s, e)
    ensures !AcceptableSet(s)
    ensures SetFault(s, e1) ==> e == e1
  {
    hide Canonicalized;
    hide Overlaps;
    hide Family;
    hide AcceptableSet;
    FaultRejects(s, e);
    if SetFault(s, e1) && (e.InvalidRange? || e.MixedFamilies?) && (e1.InvalidRange? || e1.MixedFamilies?) {
      var i := FaultAt(s, e);
      var j := FaultAt(s, e1);
    }
  }

  lemma FaultRejects(s: RangeSet, e: SetError)
    requires SetFault(s, e)
    ensures !AcceptableSet(s)
  {
    hide Canonicalized;
    hide Overlaps;
    hide Family;
  }

  /** The index of the range at fault. */
  lemma FaultAt(s: RangeSet, e: SetError) returns (i: nat)
    requires SetFault(s, e) && (e.InvalidRange? || e.MixedFamilies?)
    ensures i < |s| && AcceptedUpTo(s, i)
    ensures e.InvalidRange? ==> Canonicalized(s[i]).1 == Some(e.error)
    ensures e.MixedFamilies? ==>
      Canonicalized(s[i]).1.None? && Family(Canonicalized(s[i]).0) != Family(Canonicalized(s[0]).0)
  {
    hide Canonicalized;
    hide Family;
    hide AcceptedUpTo;
    if e.InvalidRange? {
      i :| 0 <= i < |s| && AcceptedUpTo(s, i) && Canonicalized(s[i]).1 == Some(e.error);
    } else {
      i :| 0 < i < |s| && AcceptedUpTo(s, i) && Canonicalized(s[i]).1.None?
        && Family(Canonicalized(s[i]).0) != Family(Canonicalized(s[0]).0);
    }
  }

  /** RangeSet.Canonicalize, rewriting the ranges in place. */
  method CanonicalizeSet(s: array<Range>) returns (err: Option<SetError>)
    modifies s
    ensures err.None? <==> AcceptableSet(old(s[..]))
    ensures err.None? ==> s[..] == CanonicalSet(old(s[..]))
    ensures err.Some? ==> SetFault(old(s[..]), err.value)
  {
    hide Canonicalized;
    hide Overlaps;
    ghost var was := s[..];
    if s.Length == 0 {
      return Some(EmptySet);
    }
    var fam := 0;
    for i := 0 to s.Length
      invariant forall j :: 0 <= j < i ==> Canonicalized(was[j]) == (s[j], None)
      invariant forall j :: i <= j < s.Length ==> s[j] == was[j]
      invariant i > 0 ==> fam == Family(s[0])
      invariant forall j :: 0 <= j < i ==> Family(s[j]) == fam
    {
      var e := Canonicalize(s, i);
      if e.Some? {
        assert Canonicalized(was[i]).1.Some?;
        return Some(InvalidRange(e.value));
      }
      if i == 0 {
        fam := |s[i].rangeStart.GetOr([])|;
      } else if fam != |s[i].rangeStart.GetOr([])| {
        assert Family(Canonicalized(was[i]).0) != Family(Canonicalized(was[0]).0);
        return Some(MixedFamilies);
      }
    }
    for i := 0 to s.Length - 1
      invariant forall k, l :: 0 <= k < i && k < l < s.Length ==> !Overlaps(s[k], s[l])
    {
      for j := i + 1 to s.Length
        invariant forall l :: i < l < j ==> !Overlaps(s[i], s[l])
      {
        if Overlaps(s[i], s[j]) {
          assert Overlaps(Canonicalized(was[i]).0, Canonicalized(was[j]).0);
          return Some(OverlappingRanges);
        }
      }
    }
    return None;
  }

  /** The canonical form of every range of a set. */
  function CanonicalSet(s: RangeSet): (c: RangeSet)
    ensures |c| == |s|
  {
    seq(|s|, i requires 0 <= i < |s| => Canonicalized(s[i]).0)
  }

  datatype ConfigError =
    | BadRequestedIP
    | NoRanges
    | InvalidRangeSet(index: nat, error: SetError)
    | TooManyAddresses
    | OverlappingSetsError(first: nat, second: nat)

  /** The family a set is counted in, read off its first start. */
  predicate StartsV4(s: RangeSet) {
    s != [] && To4(s[0].rangeStart.GetOr([])).Some?
  }

  /** The number of sets of the given family. */
  function CountFamily(sets: seq<RangeSet>, v4: bool): nat {
    if sets == [] then 0
    else CountFamily(sets[..|sets| - 1], v4) + if StartsV4(sets[|sets| - 1]) == v4 then 1 else 0
  }

  /** No two sets of one family. */
  ghost predicate OnePerFamily(sets: seq<RangeSet>) {
    forall i, j :: 0 <= i < j < |sets| ==> StartsV4(sets[i]) != StartsV4(sets[j])
  }

  /** There is a set of a family exactly if one is counted, and there are two exactly if two are. */
  lemma {:induction false} CountedSets(sets: seq<RangeSet>, v4: bool)
    ensures CountFamily(sets, v4) >= 1 <==> exists i :: 0 <= i < |sets| && StartsV4(sets[i]) == v4
    ensures CountFamily(sets, v4) >= 2 <==>
      exists i, j :: 0 <= i < j < |sets| && StartsV4(sets[i]) == v4 && StartsV4(sets[j]) == v4
  {
    hide StartsV4;
    if sets != [] {
      var n := |sets| - 1;
      var front := sets[..n];
      CountedSets(front, v4);
      assert forall i :: 0 <= i < n ==> front[i] == sets[i];
      if i, j :| 0 <= i < j < |front| && StartsV4(front[i]) == v4 && StartsV4(front[j]) == v4 {
        assert StartsV4(sets[i]) == v4 && StartsV4(sets[j]) == v4;
      }
      if i :| 0 <= i < |front| && StartsV4(front[i]) == v4 {
        assert StartsV4(sets[i]) == v4;
      }
    }
  }

  lemma CountsExact(sets: seq<RangeSet>)
    ensures CountFamily(sets, true) <= 1 && CountFamily(sets, false) <= 1 <==> OnePerFamily(sets)
  {
    hide StartsV4;
    hide CountFamily;
    CountedSets(sets, true);
    CountedSets(sets, false);
  }

  ghost predicate DisjointSets(sets: seq<RangeSet>) {
    forall i, j :: 0 <= i < j < |sets| ==> !OverlappingSets(sets[i], sets[j])
  }

  function CanonicalSets(sets: seq<RangeSet>): (c: seq<RangeSet>)
    ensures |c| == |sets| && forall i :: 0 <= i < |c| ==> c[i] == CanonicalSet(sets[i])
  {
    seq(|sets|, i requires 0 <= i < |sets| => CanonicalSet(sets[i]))
  }

  /**
   * The configurations LoadIPAMConfig is to accept. oldVersion says whether the configuration
   * names a CNI version that knows only one address per family.
   */
  ghost predicate AcceptableConfig(ipArgs: seq<IP>, gathered: seq<RangeSet>, oldVersion: bool) {
    var sets := CanonicalSets(gathered);
    && (forall i :: 0 <= i < |ipArgs| ==> CanonicalizeIP(ipArgs[i]).Some?)
    && gathered != []
    && (forall i :: 0 <= i < |gathered| ==> AcceptableSet(gathered[i]))
    && (oldVersion ==> OnePerFamily(sets))
    && DisjointSets(sets)
  }

  /** What is wrong with a configuration when it is rejected for the given reason: the first failure again. */
  ghost predicate ConfigFault(ipArgs: seq<IP>, gathered: seq<RangeSet>, oldVersion: bool, e: ConfigError) {
    var sets := CanonicalSets(gathered);
    var argsGood := forall i :: 0 <= i < |ipArgs| ==> CanonicalizeIP(ipArgs[i]).Some?;
    match e
    case BadRequestedIP => !argsGood
    case NoRanges => argsGood && gathered == []
    case InvalidRangeSet(k, error) =>
      argsGood && k < |gathered| && AllAcceptable(gathered[..k]) && SetFault(gathered[k], error)
    case TooManyAddresses => argsGood && AllAcceptable(gathered) && oldVersion && !OnePerFamily(sets)
    case OverlappingSetsError(i, j) =>
      && argsGood && AllAcceptable(gathered) && (oldVersion ==> OnePerFamily(sets))
      && FirstOverlap(sets, i, j)
  }

  ghost predicate AllAcceptable(sets: seq<RangeSet>) {
    forall i :: 0 <= i < |sets| ==> AcceptableSet(sets[i])
  }

  ghost predicate FirstOverlap(sets: seq<RangeSet>, i: nat, j: nat) {
    && i < j < |sets| && OverlappingSets(sets[i], sets[j])
    && forall k, l :: 0 <= k < l < |sets| && (k < i || (k == i && l < j)) ==> !OverlappingSets(sets[k], sets[l])
  }

  /** Acceptance of a set, read off the configured ranges. */
  lemma AcceptedSetExactly(s: RangeSet)
    ensures AcceptableSet(s) <==>
      && s != []
      && (forall i :: 0 <= i < |s| ==> Acceptable(s[i]) && StartLength(s[i]) == StartLength(s[0]))
      && (forall i, j :: 0 <= i < j < |s| ==> !Overlaps(Canonicalized(s[i]).0, Canonicalized(s[j]).0))
  {
    hide Canonicalized;
    hide Acceptable;
    hide Overlaps;
    hide StartLength;
    forall i | 0 <= i < |s|
      ensures Canonicalized(s[i]).1.None? <==> Acceptable(s[i])
      ensures Canonicalized(s[i]).1.None? ==> Family(Canonicalized(s[i]).0) == StartLength(s[i])
    {
      CanonicalizeAccepts(s[i]);
      if Canonicalized(s[i]).1.None? {
        StartLengthExact(s[i]);
      }
    }
  }

  /** A set counts as IPv4 exactly if its starts have four bytes. */
  lemma CountedFamily(s: RangeSet)
    requires AcceptableSet(s)
    ensures s != [] && (StartsV4(CanonicalSet(s)) <==> StartLength(s[0]) == 4)
  {
    hide Canonicalized;
    hide Overlaps;
    hide StartLength;
    hide To4;
    hide InBlock;
    hide Network;
    assert Canonicalized(s[0]).1.None?;
    StartKind(s[0]);
    StartForm(Canonicalized(s[0]).0.rangeStart.value, s[0]);
  }

  lemma StartForm(start: IP, r: Range)
    requires GoodSubnet(r)
    requires |start| == |Network(r)| ==> InBlock(Network(r), PrefixLength(r), start)
    requires |start| != |Network(r)| && CanonicalizeIP(start).Some? ==>
      |CanonicalizeIP(start).value| != |Network(r)|
    ensures To4(start).Some? <==> |start| == 4
  {
    hide Value;
    hide Pow2;
    hide SimpleMaskLength;
    hide IsNetwork;
    SubnetIdempotent(r);
    FamilyLength(Network(r));
    CanonicalizeIdempotent(start);
  }

  /** Acceptance of a configuration, read off the configured ranges. */
  lemma AcceptedExactly(ipArgs: seq<IP>, gathered: seq<RangeSet>, oldVersion: bool)
    ensures AcceptableConfig(ipArgs, gathered, oldVersion) <==>
      && (forall i :: 0 <= i < |ipArgs| ==> |ipArgs[i]| == 4 || |ipArgs[i]| == 16)
      && gathered != []
      && (forall k :: 0 <= k < |gathered| ==> AcceptableSet(gathered[k]) && gathered[k] != [])
      && (forall k, i, l, j ::
            0 <= k < l < |gathered| && 0 <= i < |gathered[k]| && 0 <= j < |gathered[l]| ==>
              !Overlaps(Canonicalized(gathered[k][i]).0, Canonicalized(gathered[l][j]).0))
      && (oldVersion ==>
            forall k, l :: 0 <= k < l < |gathered| ==>
              !(StartLength(gathered[k][0]) == 4 <==> StartLength(gathered[l][0]) == 4))
  {
    hide Canonicalized;
    hide AcceptableSet;
    hide Overlaps;
    hide StartLength;
    hide StartsV4;
    var sets := CanonicalSets(gathered);
    forall i | 0 <= i < |ipArgs| ensures CanonicalizeIP(ipArgs[i]).Some? <==> |ipArgs[i]| == 4 || |ipArgs[i]| == 16 {
      CanonicalizeIdempotent(ipArgs[i]);
    }
    hide CanonicalizeIP;
    forall k | 0 <= k < |gathered| && AcceptableSet(gathered[k])
      ensures gathered[k] != [] && (StartsV4(sets[k]) <==> StartLength(gathered[k][0]) == 4)
    {
      CountedFamily(gathered[k]);
    }
    forall k, i, l, j | 0 <= k < l < |gathered| && 0 <= i < |gathered[k]| && 0 <= j < |gathered[l]|
      ensures sets[k][i] == Canonicalized(gathered[k][i]).0 && sets[l][j] == Canonicalized(gathered[l][j]).0
    {
    }
  }

  /** A rejected configuration has one fault, an accepted one has none. */
  lemma OneConfigFault(ipArgs: seq<IP>, gathered: seq<RangeSet>, oldVersion: bool, e: ConfigError, e1: ConfigError)
    requires ConfigFault(ipArgs, gathered, oldVersion, e)
    ensures !AcceptableConfig(ipArgs, gathered, oldVersion)
    ensures ConfigFault(ipArgs, gathered, oldVersion, e1) ==> e == e1
  {
    hide AcceptableSet;
    hide SetFault;
    hide OverlappingSets;
    hide StartsV4;
    hide CanonicalizeIP;
    hide CanonicalSet;
    hide FirstOverlap;
    if e.InvalidRangeSet? {
      OneFault(gathered[e.index], e.error, e.error);
    }
    if e.OverlappingSetsError? {
      FirstOverlapParts(CanonicalSets(gathered), e.first, e.second, e.first, e.second);
    }
    if ConfigFault(ipArgs, gathered, oldVersion, e1) {
      if e.InvalidRangeSet? && e1.InvalidRangeSet? {
        SameIndex(gathered, e.index, e.error, e1.index, e1.error);
      } else if e1.InvalidRangeSet? {
        OneFault(gathered[e1.index], e1.error, e1.error);
      } else if e.OverlappingSetsError? && e1.OverlappingSetsError? {
        FirstOverlapParts(CanonicalSets(gathered), e.first, e.second, e1.first, e1.second);
      } else if e1.OverlappingSetsError? {
        FirstOverlapParts(CanonicalSets(gathered), e1.first, e1.second, e1.first, e1.second);
      }
    }
  }

  lemma FirstOverlapParts(sets: seq<RangeSet>, i: nat, j: nat, k: nat, l: nat)
    requires FirstOverlap(sets, i, j) && FirstOverlap(sets, k, l)
    ensures i == k && j == l && j < |sets| && !DisjointSets(sets)
  {
    hide OverlappingSets;
  }

  lemma SameIndex(sets: seq<RangeSet>, k: nat, error: SetError, l: nat, error1: SetError)
    requires k < |sets| && AllAcceptable(sets[..k]) && SetFault(sets[k], error)
    requires l < |sets| && AllAcceptable(sets[..l]) && SetFault(sets[l], error1)
    ensures k == l && error == error1
  {
    hide AcceptableSet;
    hide SetFault;
    hide AllAcceptable;
    OneFault(sets[k], error, error);
    OneFault(sets[l], error1, error1);
    if k < l {
      InFront(sets, k, l);
    } else if l < k {
      InFront(sets, l, k);
    } else {
      OneFault(sets[k], error, error1);
    }
  }

  lemma InFront(sets: seq<RangeSet>, i: nat, j: nat)
    requires i < |sets| && j <= |sets| && AllAcceptable(sets[..j]) && i < j
    ensures AcceptableSet(sets[i])
  {
    hide AcceptableSet;
    assert sets[..j][i] == sets[i];
  }

  /** The configured range sets in order: runtime sets, the legacy single range, the other sets. */
  function Gathered(single: Option<Range>, configured: seq<RangeSet>, runtime: seq<RangeSet>): seq<RangeSet> {
    runtime + (if single.Some? then [[single.value]] else []) + configured
  }

  /**
   * The gathered sets by their index: the runtime sets come first, then the legacy range as a set of
   * its own, then the sets of the configuration.
   */
  lemma GatheredByIndex(single: Option<Range>, configured: seq<RangeSet>, runtime: seq<RangeSet>)
    ensures var g, m := Gathered(single, configured, runtime), |runtime| + (if single.Some? then 1 else 0);
      && |g| == m + |configured|
      && (forall k :: 0 <= k < |runtime| ==> g[k] == runtime[k])
      && (single.Some? ==> g[|runtime|] == [single.value])
      && forall k :: 0 <= k < |configured| ==> g[m + k] == configured[k]
  {
    var g, m := Gathered(single, configured, runtime), |runtime| + (if single.Some? then 1 else 0);
    assert g == g[..m] + configured;
  }

  function Contents(arrays: seq<array<Range>>): (c: seq<RangeSet>)
    reads set a | a in arrays
    ensures |c| == |arrays| && forall i :: 0 <= i < |c| ==> c[i] == arrays[i][..]
  {
    seq(|arrays|, i requires 0 <= i < |arrays| reads set a | a in arrays => arrays[i][..])
  }

  ghost predicate Distinct(a: seq<array<Range>>) {
    forall i, j :: 0 <= i < j < |a| ==> a[i] != a[j]
  }

  method CanonicalizeArgs(ipArgs: array<IP>) returns (ok: bool)
    modifies ipArgs
    ensures ok <==> forall i :: 0 <= i < ipArgs.Length ==> CanonicalizeIP(old(ipArgs[i])).Some?
    ensures ok ==> forall i :: 0 <= i < ipArgs.Length ==> CanonicalizeIP(old(ipArgs[i])) == Some(ipArgs[i])
  {
    hide CanonicalizeIP;
    for i := 0 to ipArgs.Length
      invariant forall j :: 0 <= j < i ==> CanonicalizeIP(old(ipArgs[j])) == Some(ipArgs[j])
      invariant forall j :: i <= j < ipArgs.Length ==> ipArgs[j] == old(ipArgs[j])
    {
      var c := CanonicalizeIP(ipArgs[i]);
      if c.None? {
        return false;
      }
      ipArgs[i] := c.value;
    }
    return true;
  }

  /** The gathering step: the legacy range becomes a fresh one-element set. */
  method Gather(single: Option<Range>, configured: seq<array<Range>>, runtime: seq<array<Range>>)
    returns (ranges: seq<array<Range>>)
    requires Distinct(runtime + configured)
    ensures Distinct(ranges)
    ensures forall a :: a in ranges ==> fresh(a) || a in runtime + configured
    ensures Contents(ranges) == Gathered(single, Contents(configured), Contents(runtime))
    ensures var m := |runtime| + (if single.Some? then 1 else 0);
      && |ranges| == m + |configured|
      && (forall k :: 0 <= k < |runtime| ==> ranges[k] == runtime[k])
      && (single.Some? ==> ranges[|runtime|][..] == [single.value])
      && forall k :: 0 <= k < |configured| ==> ranges[m + k] == configured[k]
  {
    hide Contents;
    hide Distinct;
    ranges := configured;
    ghost var legacy: seq<array<Range>> := [];
    if single.Some? {
      var first := new Range[1](_ => single.value);
      ContentsOf(first);
      assert first[..] == [single.value];
      legacy := [first];
      ranges := [first] + ranges;
    }
    if |runtime| > 0 {
      ranges := runtime + ranges;
    }
    assert ranges == runtime + legacy + configured;
    GatheredArrays(runtime, legacy, configured);
    ContentsNone();
  }

  lemma GatheredArrays(a: seq<array<Range>>, b: seq<array<Range>>, c: seq<array<Range>>)
    requires Distinct(a + c) && |b| <= 1 && forall x :: x in b ==> x !in a + c
    ensures Distinct(a + b + c)
    ensures Contents(a + b + c) == Contents(a) + Contents(b) + Contents(c)
  {
    hide Contents;
    assert Distinct(b);
    hide Distinct;
    DistinctConcat(a, c);
    DistinctConcat(a, b);
    DistinctConcat(a + b, c);
    ContentsConcat(a, b);
    ContentsConcat(a + b, c);
  }

  lemma ContentsNone()
    ensures Contents([]) == []
  {
  }

  lemma DistinctConcat(a: seq<array<Range>>, b: seq<array<Range>>)
    ensures Distinct(a + b) <==> Distinct(a) && Distinct(b) && forall x :: x in a ==> x !in b
  {
    var c := a + b;
    assert forall k :: 0 <= k < |a| ==> a[k] == c[k];
    assert forall k :: 0 <= k < |b| ==> b[k] == c[|a| + k];
    if Distinct(c) {
      forall x | x in a ensures x !in b {
        var i :| 0 <= i < |a| && a[i] == x;
        assert forall j :: 0 <= j < |b| ==> c[i] != b[j];
      }
    }
    if Distinct(a) && Distinct(b) && forall x :: x in a ==> x !in b {
      forall i, j | 0 <= i < j < |c| ensures c[i] != c[j] {
        if i < |a| && j >= |a| {
          assert c[i] in a && c[j] == b[j - |a|];
          assert c[j] in b;
        } else if i >= |a| {
          assert c[i] == b[i - |a|] && c[j] == b[j - |a|];
        }
      }
    }
  }

  lemma ContentsOf(a: array<Range>)
    ensures Contents([a]) == [a[..]]
  {
  }

  lemma ContentsConcat(a: seq<array<Range>>, b: seq<array<Range>>)
    ensures Contents(a + b) == Contents(a) + Contents(b)
  {
  }

  /** The validation loop: canonicalizes every set in place and counts the families. */
  method CanonicalizeSets(ranges: seq<array<Range>>) returns (numV4: nat, numV6: nat, err: Option<ConfigError>)
    requires Distinct(ranges)
    modifies set a | a in ranges
    ensures err.None? <==> forall i :: 0 <= i < |ranges| ==> AcceptableSet(old(ranges[i][..]))
    ensures err.None? ==> forall i :: 0 <= i < |ranges| ==> ranges[i][..] == CanonicalSet(old(ranges[i][..]))
    ensures err.Some? ==>
      && err.value.InvalidRangeSet? && err.value.index < |ranges|
      && (forall j :: 0 <= j < err.value.index ==> AcceptableSet(old(ranges[j][..])))
      && SetFault(old(ranges[err.value.index][..]), err.value.error)
    ensures err.None? ==> numV4 == CountFamily(Contents(ranges), true)
    ensures err.None? ==> numV6 == CountFamily(Contents(ranges), false)
  {
    hide AcceptableSet;
    hide SetFault;
    hide CanonicalSet;
    hide Canonicalized;
    hide To4;
    numV4, numV6 := 0, 0;
    ghost var was := Contents(ranges);
    ghost var done: seq<RangeSet> := [];
    for i := 0 to |ranges|
      invariant |done| == i && forall k :: 0 <= k < i ==> done[k] == ranges[k][..]
      invariant forall k :: 0 <= k < i ==> AcceptableSet(was[k]) && ranges[k][..] == CanonicalSet(was[k])
      invariant forall k :: i <= k < |ranges| ==> ranges[k][..] == was[k]
      invariant numV4 == CountFamily(done, true) && numV6 == CountFamily(done, false)
    {
      ghost var before := done;
      assert forall k :: 0 <= k < |ranges| && k != i ==> ranges[k] != ranges[i];
      var e := CanonicalizeSet(ranges[i]);
      if e.Some? {
        return numV4, numV6, Some(InvalidRangeSet(i, e.value));
      }
      assert AcceptableSet(was[i]) && ranges[i][..] == CanonicalSet(was[i]);
      NonEmptySet(was[i]);
      done := done + [ranges[i][..]];
      assert done[..i] == before;
      if To4(ranges[i][0].rangeStart.GetOr([])).Some? {
        numV4 := numV4 + 1;
      } else {
        numV6 := numV6 + 1;
      }
    }
    assert done == Contents(ranges);
    err := None;
  }

  lemma NonEmptySet(s: RangeSet)
    requires AcceptableSet(s)
    ensures s != []
  {
  }

  /** The cross-set overlap check. */
  method FindOverlap(ranges: seq<array<Range>>) returns (err: Option<ConfigError>)
    requires |ranges| > 0
    ensures err.None? <==> DisjointSets(Contents(ranges))
    ensures err.Some? ==>
      err.value.OverlappingSetsError? && FirstOverlap(Contents(ranges), err.value.first, err.value.second)
  {
    hide OverlappingSets;
    for i := 0 to |ranges| - 1
      invariant forall k, l :: 0 <= k < i && k < l < |ranges| ==> !OverlappingSets(ranges[k][..], ranges[l][..])
    {
      for j := i + 1 to |ranges|
        invariant forall l :: i < l < j ==> !OverlappingSets(ranges[i][..], ranges[l][..])
      {
        var overlap := SetsOverlap(ranges[i][..], ranges[j][..]);
        if overlap {
          assert OverlappingSets(Contents(ranges)[i], Contents(ranges)[j]);
          return Some(OverlappingSetsError(i, j));
        }
      }
    }
    return None;
  }

  /** The validation part of LoadIPAMConfig: the loop over the sets, the version test and the overlap check. */
  method ValidateSets(ranges: seq<array<Range>>, oldVersion: bool) returns (err: Option<ConfigError>)
    requires Distinct(ranges)
    modifies set a | a in ranges
    ensures err.None? <==> AcceptableConfig([], old(Contents(ranges)), oldVersion)
    ensures err.None? ==> Contents(ranges) == CanonicalSets(old(Contents(ranges)))
    ensures err.Some? ==> ConfigFault([], old(Contents(ranges)), oldVersion, err.value)
  {
    hide *;
    ghost var was := Contents(ranges);
    if |ranges| == 0 {
      ConfigParts([], was, oldVersion, NoRanges);
      return Some(NoRanges);
    }
    var numV4, numV6, e := CanonicalizeSets(ranges);
    if e.Some? {
      InvalidSet(was, oldVersion, e.value);
      return e;
    }
    assert Contents(ranges) == CanonicalSets(was);
    CountsExact(CanonicalSets(was));
    if (numV4 > 1 || numV6 > 1) && oldVersion {
      ConfigParts([], was, oldVersion, TooManyAddresses);
      return Some(TooManyAddresses);
    }
    err := FindOverlap(ranges);
    ConfigParts([], was, oldVersion, if err.Some? then err.value else NoRanges);
  }

  lemma InvalidSet(gathered: seq<RangeSet>, oldVersion: bool, e: ConfigError)
    requires e.InvalidRangeSet? && e.index < |gathered| && SetFault(gathered[e.index], e.error)
    requires forall j :: 0 <= j < e.index ==> AcceptableSet(gathered[j])
    ensures ConfigFault([], gathered, oldVersion, e) && !AcceptableConfig([], gathered, oldVersion)
  {
    hide AcceptableSet;
    hide SetFault;
    hide CanonicalizeIP;
    hide CanonicalSet;
    assert ConfigFault([], gathered, oldVersion, e);
    OneConfigFault([], gathered, oldVersion, e, e);
  }

  /** The faults other than a bad set, once all sets are acceptable or there is none. */
  lemma ConfigParts(ipArgs: seq<IP>, gathered: seq<RangeSet>, oldVersion: bool, e: ConfigError)
    requires forall i :: 0 <= i < |ipArgs| ==> CanonicalizeIP(ipArgs[i]).Some?
    requires forall i :: 0 <= i < |gathered| ==> AcceptableSet(gathered[i])
    ensures AcceptableConfig(ipArgs, gathered, oldVersion) <==>
      gathered != [] && (oldVersion ==> OnePerFamily(CanonicalSets(gathered))) && DisjointSets(CanonicalSets(gathered))
    ensures e.NoRanges? ==> (ConfigFault(ipArgs, gathered, oldVersion, e) <==> gathered == [])
    ensures e.TooManyAddresses? ==>
      (ConfigFault(ipArgs, gathered, oldVersion, e) <==> oldVersion && !OnePerFamily(CanonicalSets(gathered)))
    ensures e.OverlappingSetsError? ==>
      (ConfigFault(ipArgs, gathered, oldVersion, e) <==>
        && (oldVersion ==> OnePerFamily(CanonicalSets(gathered)))
        && FirstOverlap(CanonicalSets(gathered), e.first, e.second))
  {
    hide AcceptableSet;
    hide CanonicalizeIP;
    hide CanonicalSet;
    hide OnePerFamily;
    hide FirstOverlap;
    hide DisjointSets;
  }

  /** The requested addresses are judged first. */
  lemma ArgsFirst(ipArgs: seq<IP>, gathered: seq<RangeSet>, oldVersion: bool, e: ConfigError)
    requires forall i :: 0 <= i < |ipArgs| ==> CanonicalizeIP(ipArgs[i]).Some?
    ensures AcceptableConfig(ipArgs, gathered, oldVersion) <==> AcceptableConfig([], gathered, oldVersion)
    ensures ConfigFault([], gathered, oldVersion, e) ==> ConfigFault(ipArgs, gathered, oldVersion, e)
  {
    hide AcceptableSet;
    hide SetFault;
    hide CanonicalizeIP;
    hide CanonicalSet;
    hide OnePerFamily;
    hide FirstOverlap;
    hide DisjointSets;
  }

  /** The range-gathering and validation part of LoadIPAMConfig. */
  method LoadIPAMConfig(ipArgs: array<IP>, single: Option<Range>, configured: seq<array<Range>>,
                        runtime: seq<array<Range>>, oldVersion: bool)
    returns (ranges: seq<array<Range>>, err: Option<ConfigError>)
    requires Distinct(runtime + configured)
    modifies ipArgs, set a | a in runtime + configured
    ensures err.None? <==>
      AcceptableConfig(old(ipArgs[..]), Gathered(single, old(Contents(configured)), old(Contents(runtime))), oldVersion)
    ensures err.None? ==> forall i :: 0 <= i < ipArgs.Length ==> Some(ipArgs[i]) == CanonicalizeIP(old(ipArgs[i]))
    ensures err.None? ==>
      Contents(ranges) == CanonicalSets(Gathered(single, old(Contents(configured)), old(Contents(runtime))))
    ensures err.None? ==>
      var m := |runtime| + (if single.Some? then 1 else 0);
      && |ranges| == m + |configured|
      && (forall k :: 0 <= k < |runtime| ==> ranges[k][..] == CanonicalSet(old(runtime[k][..])))
      && (single.Some? ==> ranges[|runtime|][..] == CanonicalSet([single.value]))
      && forall k :: 0 <= k < |configured| ==> ranges[m + k][..] == CanonicalSet(old(configured[k][..]))
    ensures err.Some? ==>
      ConfigFault(old(ipArgs[..]), Gathered(single, old(Contents(configured)), old(Contents(runtime))), oldVersion,
                  err.value)
  {
    hide AcceptableConfig;
    hide ConfigFault;
    hide CanonicalizeIP;
    hide CanonicalSet;
    hide CanonicalSets;
    hide Gathered;
    hide Distinct;
    ghost var args := ipArgs[..];
    ranges := [];
    var ok := CanonicalizeArgs(ipArgs);
    if !ok {
      BadArgs(args, Gathered(single, old(Contents(configured)), old(Contents(runtime))), oldVersion);
      return [], Some(BadRequestedIP);
    }
    ranges := Gather(single, configured, runtime);
    ghost var gathered := Contents(ranges);
    err := ValidateSets(ranges, oldVersion);
    ArgsFirst(args, gathered, oldVersion, err.GetOr(NoRanges));
    GatheredByIndex(single, old(Contents(configured)), old(Contents(runtime)));
  }

  lemma BadArgs(ipArgs: seq<IP>, gathered: seq<RangeSet>, oldVersion: bool)
    requires exists i :: 0 <= i < |ipArgs| && CanonicalizeIP(ipArgs[i]).None?
    ensures ConfigFault(ipArgs, gathered, oldVersion, BadRequestedIP)
    ensures !AcceptableConfig(ipArgs, gathered, oldVersion)
  {
    hide AcceptableSet;
    hide CanonicalizeIP;
    hide CanonicalSet;
    hide OnePerFamily;
    hide DisjointSets;
  }

  /** The subnets whose default addresses keep their length: no leading zero byte. */
  ghost predicate NoZeroNetwork(s: RangeSet) {
    forall i :: 0 <= i < |s| && GoodSubnet(s[i]) ==> Network(s[i])[0] != 0
  }

  // ---- When the overlap check is right ----

  /** What Contains asks of a canonical address, in numbers. */
  lemma ContainsByNumbers(c: Range, ones: nat, x: IP)
    requires IsNetwork(c.subnet, c.mask, ones) && c.rangeStart.Some? && c.rangeEnd.Some? && Canonical(x)
    ensures Contains(c, x) <==>
            InBlock(c.subnet, ones, x) && IpToInt(c.rangeStart.value) <= Value(x) <= IpToInt(c.rangeEnd.value)
  {
    hide Value;
    hide Pow2;
    hide NetContains;
    hide CIDRMask;
    hide IpToInt;
    hide IsNetwork;
    hide CanonicalizeIP;
    NetworkParts(c.subnet, c.mask, ones);
    NetworkContains(c.subnet, c.mask, ones, x);
    IpToIntValue(x);
    InBlockParts(c.subnet, ones, x);
    assert CanonicalizeIP(x) == Some(x);
  }

  /** An accepted range as numbers, and an address it contains. */
  lemma Accepted(r: Range, a: IP)
    requires Canonicalized(r).1.None? && Contains(Canonicalized(r).0, a)
    ensures var c := Canonicalized(r).0;
      && GoodSubnet(r) && c.subnet == Network(r) && c.mask == r.mask && c.rangeStart.Some? && c.rangeEnd.Some?
      && IsNetwork(c.subnet, c.mask, PrefixLength(r)) && PrefixLength(r) <= 8 * |c.subnet|
      && CanonicalizeIP(a).Some? && Contains(c, CanonicalizeIP(a).value)
      && Canonical(CanonicalizeIP(a).value) && |CanonicalizeIP(a).value| == |c.subnet|
  {
    hide *;
    CanonicalizeAccepts(r);
    var c := Canonicalized(r).0;
    StartKind(r);
    EndKind(r);
    EndInSubnetExactly(r);
    GoodSubnetNetwork(r);
    NetworkParts(c.subnet, c.mask, PrefixLength(r));
    ContainsFamily(c, a);
    ContainsCanonical(c, a);
    CanonicalizeIdempotent(a);
  }

  lemma GoodSubnetNetwork(r: Range)
    requires GoodSubnet(r)
    ensures IsNetwork(Network(r), r.mask, PrefixLength(r))
  {
    hide IsNetwork;
    hide SimpleMaskLength;
    hide CanonicalizeIP;
  }

  lemma ContainsFamily(c: Range, a: IP)
    requires Contains(c, a)
    ensures CanonicalizeIP(a).Some? && |CanonicalizeIP(a).value| == |c.subnet|
  {
    hide NetContains;
    hide CanonicalizeIP;
  }

  /** The end of r is an address, and one that does not lie behind the end of r1. */
  ghost predicate EndSeen(r: Range, r1: Range) {
    !MappedEnd(r) && EndNumber(r) <= EndNumber(r1)
  }

  /**
   * The check finds the overlap of r and r1: their starts have the same length, and it is that of
   * an address or the end of one of them is seen from the other.
   */
  ghost predicate Finds(r: Range, r1: Range) {
    && StartLength(r) == StartLength(r1)
    && (StartLength(r) == |Network(r)| || EndSeen(r, r1) || EndSeen(r1, r))
  }

  /** When a range contains the start of another with which it shares an address. */
  lemma StartFound(r: Range, r1: Range, a: IP)
    requires Canonicalized(r).1.None? && Canonicalized(r1).1.None?
    requires Contains(Canonicalized(r).0, a) && Contains(Canonicalized(r1).0, a)
    ensures var c, c1 := Canonicalized(r).0, Canonicalized(r1).0;
      && c.rangeStart.Some? && c1.rangeStart.Some?
      && (Contains(c1, c.rangeStart.value) ==> StartLength(r) == |Network(r)|)
      && (StartLength(r) == |Network(r)| && StartLength(r1) == |Network(r1)| ==>
            Contains(c1, c.rangeStart.value) || Contains(c, c1.rangeStart.value))
  {
    hide *;
    Accepted(r, a);
    Accepted(r1, a);
    var c, c1, v := Canonicalized(r).0, Canonicalized(r1).0, CanonicalizeIP(a).value;
    StartKind(r);
    StartKind(r1);
    var start, start1 := c.rangeStart.value, c1.rangeStart.value;
    ContainsByNumbers(c, PrefixLength(r), v);
    ContainsByNumbers(c1, PrefixLength(r1), v);
    InBlockParts(c.subnet, PrefixLength(r), v);
    InBlockParts(c1.subnet, PrefixLength(r1), v);
    if Contains(c1, start) {
      ContainsFamily(c1, start);
    }
    if StartLength(r) == |Network(r)| && StartLength(r1) == |Network(r1)| {
      InBlockParts(c.subnet, PrefixLength(r), start);
      InBlockParts(c1.subnet, PrefixLength(r1), start1);
      IpToIntValue(start);
      IpToIntValue(start1);
      ContainsByNumbers(c, PrefixLength(r), start1);
      ContainsByNumbers(c1, PrefixLength(r1), start);
      InBlockParts(c.subnet, PrefixLength(r), start1);
      InBlockParts(c1.subnet, PrefixLength(r1), start);
    }
  }

  /** A range contains the end of another with which it shares an address exactly when it sees it. */
  lemma EndFound(r: Range, r1: Range, a: IP)
    requires Canonicalized(r).1.None? && Canonicalized(r1).1.None?
    requires Contains(Canonicalized(r).0, a) && Contains(Canonicalized(r1).0, a)
    ensures var c, c1 := Canonicalized(r).0, Canonicalized(r1).0;
      c.rangeEnd.Some? && (Contains(c1, c.rangeEnd.value) <==> EndSeen(r, r1))
  {
    hide *;
    Accepted(r, a);
    Accepted(r1, a);
    var c, c1, v := Canonicalized(r).0, Canonicalized(r1).0, CanonicalizeIP(a).value;
    EndKind(r);
    EndKind(r1);
    SizeIsPower(r1);
    var end := c.rangeEnd.value;
    EndSeenDef(r, r1);
    ContainsByNumbers(c, PrefixLength(r), v);
    ContainsByNumbers(c1, PrefixLength(r1), v);
    InBlockParts(c.subnet, PrefixLength(r), v);
    InBlockParts(c1.subnet, PrefixLength(r1), v);
    if MappedEnd(r) {
      if Contains(c1, end) {
        ContainsFamily(c1, end);
      }
    } else {
      InBlockParts(c.subnet, PrefixLength(r), end);
      ContainsByNumbers(c1, PrefixLength(r1), end);
      InBlockParts(c1.subnet, PrefixLength(r1), end);
    }
  }

  lemma EndSeenDef(r: Range, r1: Range)
    ensures EndSeen(r, r1) <==> !MappedEnd(r) && EndNumber(r) <= EndNumber(r1)
  {
    hide MappedEnd;
    hide EndNumber;
  }

  lemma SizeIsPower(r: Range)
    requires GoodSubnet(r)
    ensures PrefixLength(r) <= 8 * |Network(r)| && Size(r) == Pow2(8 * |Network(r)| - PrefixLength(r))
  {
    hide Pow2;
  }

  /** For any two accepted ranges with a common address, exactly when the overlap check finds the overlap. */
  lemma OverlapFoundExactly(r: Range, r1: Range, a: IP)
    requires Canonicalized(r).1.None? && Canonicalized(r1).1.None?
    requires Contains(Canonicalized(r).0, a) && Contains(Canonicalized(r1).0, a)
    ensures Overlaps(Canonicalized(r).0, Canonicalized(r1).0) <==> Finds(r, r1)
    ensures !MappedEnd(r) && !MappedEnd(r1) ==>
      (Overlaps(Canonicalized(r).0, Canonicalized(r1).0) <==> StartLength(r) == StartLength(r1))
  {
    hide *;
    if !MappedEnd(r) && !MappedEnd(r1) {
      FindsByStarts(r, r1);
    }
    Accepted(r, a);
    Accepted(r1, a);
    StartKind(r);
    StartKind(r1);
    StartFound(r, r1, a);
    StartFound(r1, r, a);
    EndFound(r, r1, a);
    EndFound(r1, r, a);
    OverlapsParts(Canonicalized(r).0, Canonicalized(r1).0);
    FindsDef(r, r1);
  }

  lemma FindsDef(r: Range, r1: Range)
    ensures Finds(r, r1) <==>
      StartLength(r) == StartLength(r1) && (StartLength(r) == |Network(r)| || EndSeen(r, r1) || EndSeen(r1, r))
  {
    hide EndSeen;
    hide StartLength;
    hide Network;
  }

  lemma OverlapsParts(c: Range, c1: Range)
    requires c.rangeStart.Some? && c.rangeEnd.Some? && c1.rangeStart.Some? && c1.rangeEnd.Some?
    ensures Overlaps(c, c1) <==>
      && |c.rangeStart.value| == |c1.rangeStart.value|
      && (|| Contains(c, c1.rangeStart.value) || Contains(c, c1.rangeEnd.value)
          || Contains(c1, c.rangeStart.value) || Contains(c1, c.rangeEnd.value))
  {
    hide Contains;
  }

  /** Some address is in the range. */
  ghost predicate NonEmpty(c: Range) {
    exists a :: Contains(c, a)
  }

  /**
   * Between accepted ranges of one family that hold any address, the check reports overlaps only
   * where there are some: it is true exactly when an address is in both and it finds such overlaps.
   */
  lemma OverlapsOfNonEmpty(r: Range, r1: Range)
    requires Canonicalized(r).1.None? && Canonicalized(r1).1.None? && |Network(r)| == |Network(r1)|
    requires NonEmpty(Canonicalized(r).0) && NonEmpty(Canonicalized(r1).0)
    ensures Overlaps(Canonicalized(r).0, Canonicalized(r1).0)
       <==> Share(Canonicalized(r).0, Canonicalized(r1).0) && Finds(r, r1)
  {
    hide Contains;
    hide Canonicalized;
    hide Finds;
    hide Overlaps;
    hide Network;
    hide StartLength;
    hide MappedEnd;
    var c, c1 := Canonicalized(r).0, Canonicalized(r1).0;
    if a :| Contains(c, a) && Contains(c1, a) {
      OverlapFoundExactly(r, r1, a);
    }
    StartKind(r);
    StartKind(r1);
    EndKind(r);
    EndKind(r1);
    OverlapsParts(c, c1);
    EndpointsShared(r, r1);
    EndpointsShared(r1, r);
  }

  /** An end of a non-empty range that lies in another range of the family is in its own range. */
  lemma EndpointsShared(r: Range, r1: Range)
    requires Canonicalized(r).1.None? && Canonicalized(r1).1.None? && |Network(r)| == |Network(r1)|
    requires NonEmpty(Canonicalized(r).0) && NonEmpty(Canonicalized(r1).0)
    ensures var c, c1 := Canonicalized(r).0, Canonicalized(r1).0;
      && c.rangeStart.Some? && c.rangeEnd.Some?
      && (Contains(c1, c.rangeStart.value) || Contains(c1, c.rangeEnd.value) ==> Share(c, c1))
  {
    hide *;
    var c, c1 := Canonicalized(r).0, Canonicalized(r1).0;
    StartKind(r);
    EndKind(r);
    var a := SomeAddress(c);
    var b := SomeAddress(c1);
    Accepted(r, a);
    Accepted(r1, b);
    var ones := PrefixLength(r);
    ContainsByNumbers(c, ones, CanonicalizeIP(a).value);
    var start, end := c.rangeStart.value, c.rangeEnd.value;
    if Contains(c1, start) {
      ContainsFamily(c1, start);
      InBlockParts(c.subnet, ones, start);
      IpToIntValue(start);
      ContainsByNumbers(c, ones, start);
      SharedBy(c, c1, start);
    }
    if Contains(c1, end) {
      ContainsFamily(c1, end);
      InBlockParts(c.subnet, ones, end);
      ContainsByNumbers(c, ones, end);
      SharedBy(c, c1, end);
    }
  }

  lemma SomeAddress(c: Range) returns (a: IP)
    requires NonEmpty(c)
    ensures Contains(c, a)
  {
    hide Contains;
    a :| Contains(c, a);
  }

  lemma SharedBy(c: Range, c1: Range, a: IP)
    requires Contains(c, a) && Contains(c1, a)
    ensures Share(c, c1)
  {
    hide Contains;
  }

  /** Away from the IPv4-mapped block, and so in IPv4, only the lengths of the starts matter. */
  lemma FindsByStarts(r: Range, r1: Range)
    requires !MappedEnd(r) && !MappedEnd(r1)
    ensures Finds(r, r1) <==> StartLength(r) == StartLength(r1)
  {
    hide EndNumber;
    hide StartLength;
    hide MappedEnd;
  }

  /**
   * In an accepted configuration two ranges that share an address, of one set or of several, are
   * one and the same whenever the check finds overlaps such as theirs; a range finds itself unless
   * neither of its ends can be read.
   */
  lemma EveryAddressInOneRange(ipArgs: seq<IP>, gathered: seq<RangeSet>, oldVersion: bool, a: IP,
                               k: nat, i: nat, l: nat, j: nat)
    requires AcceptableConfig(ipArgs, gathered, oldVersion)
    requires k < |gathered| && i < |gathered[k]| && l < |gathered| && j < |gathered[l]|
    requires Contains(CanonicalSet(gathered[k])[i], a) && Contains(CanonicalSet(gathered[l])[j], a)
    ensures var r, r1 := gathered[k][i], gathered[l][j];
      && (Finds(r, r1) ==> k == l && i == j)
      && (k == l && i == j ==> (Finds(r, r1) <==> StartLength(r) == |Network(r)| || !MappedEnd(r)))
  {
    hide Contains;
    hide Overlaps;
    hide Canonicalized;
    hide MappedEnd;
    hide EndNumber;
    hide StartLength;
    hide Network;
    var r, r1 := gathered[k][i], gathered[l][j];
    var sets := seq(|gathered|, m requires 0 <= m < |gathered| => CanonicalSet(gathered[m]));
    assert AcceptableSet(gathered[k]) && AcceptableSet(gathered[l]);
    OverlapFoundExactly(r, r1, a);
    OverlapFoundExactly(r1, r, a);
    if k < l {
      assert !OverlappingSets(sets[k], sets[l]);
      assert !Overlaps(sets[k][i], sets[l][j]);
    } else if l < k {
      assert !OverlappingSets(sets[l], sets[k]);
      assert !Overlaps(sets[l][j], sets[k][i]);
    }
    FindsSymmetric(r, r1, a);
  }

  lemma FindsSymmetric(r: Range, r1: Range, a: IP)
    requires Canonicalized(r).1.None? && Canonicalized(r1).1.None?
    requires Contains(Canonicalized(r).0, a) && Contains(Canonicalized(r1).0, a)
    ensures Finds(r, r1) <==> Finds(r1, r)
  {
    hide Contains;
    hide Canonicalized;
    hide MappedEnd;
    hide EndNumber;
    hide StartLength;
    Accepted(r, a);
    Accepted(r1, a);
  }

  /** In particular there is no such pair where no network begins with a zero byte. */
  lemma OneRangeWithoutZeros(ipArgs: seq<IP>, gathered: seq<RangeSet>, oldVersion: bool, a: IP, k: nat, i: nat, l: nat,
                             j: nat)
    requires AcceptableConfig(ipArgs, gathered, oldVersion)
    requires forall m :: 0 <= m < |gathered| ==> NoZeroNetwork(gathered[m])
    requires k < |gathered| && i < |gathered[k]| && l < |gathered| && j < |gathered[l]|
    requires Contains(CanonicalSet(gathered[k])[i], a) && Contains(CanonicalSet(gathered[l])[j], a)
    ensures k == l && i == j
  {
    hide Contains;
    hide Overlaps;
    hide Canonicalized;
    hide MappedEnd;
    hide StartLength;
    hide DisjointSets;
    hide Network;
    var r, r1 := gathered[k][i], gathered[l][j];
    assert AcceptableSet(gathered[k]) && AcceptableSet(gathered[l]);
    assert NoZeroNetwork(gathered[k]) && NoZeroNetwork(gathered[l]);
    EndInSubnetExactly(r);
    EndInSubnetExactly(r1);
    NonZeroNetworkIsPlain(r);
    NonZeroNetworkIsPlain(r1);
    ContainsFamily(CanonicalSet(gathered[k])[i], a);
    ContainsFamily(CanonicalSet(gathered[l])[j], a);
    EveryAddressInOneRange(ipArgs, gathered, oldVersion, a, k, i, l, j);
    FindsByStarts(r, r1);
  }

  /**
   * The family check compares the lengths of the stored starts: it passes two accepted ranges exactly
   * when those agree, which is a matter of their families where no network begins with a zero byte.
   */
  lemma FamilyCheckExactly(r: Range, r1: Range)
    requires Canonicalized(r).1.None? && Canonicalized(r1).1.None?
    ensures Family(Canonicalized(r).0) == Family(Canonicalized(r1).0) <==> StartLength(r) == StartLength(r1)
    ensures GoodSubnet(r) && GoodSubnet(r1)
    ensures Network(r)[0] != 0 && Network(r1)[0] != 0 ==>
      (StartLength(r) == StartLength(r1) <==> |Network(r)| == |Network(r1)|)
  {
    hide Canonicalized;
    hide StartLength;
    hide Network;
    hide MappedEnd;
    StartKind(r);
    StartKind(r1);
    NonEmptyNetwork(r);
    NonEmptyNetwork(r1);
    if Network(r)[0] != 0 && Network(r1)[0] != 0 {
      NonZeroNetworkIsPlain(r);
      NonZeroNetworkIsPlain(r1);
    }
  }

  lemma NonEmptyNetwork(r: Range)
    requires GoodSubnet(r)
    ensures |Network(r)| > 0
  {
    hide SimpleMaskLength;
    hide CanonicalizeIP;
  }

  /** The family check makes the starts of one set equally long. */
  lemma SameStartLength(s: RangeSet, i: nat, j: nat)
    requires AcceptableSet(s) && i < |s| && j < |s|
    ensures StartLength(s[i]) == StartLength(s[j])
  {
    hide Overlaps;
    hide Canonicalized;
    hide StartLength;
    StartLengthExact(s[i]);
    StartLengthExact(s[j]);
  }

  /**
   * Within one accepted set RangeFor finds the same range whichever way the ranges are listed,
   * except between two ranges whose overlap the check does not find.
   */
  lemma RangeForIsOrderIndependent(s: RangeSet, p: RangeSet, a: IP, k: nat, l: nat)
    requires AcceptableSet(s)
    requires multiset(CanonicalSet(s)) == multiset(p)
    requires k < |s| && Contains(CanonicalSet(s)[k], a)
    requires l < |p| && Contains(p[l], a)
    ensures || CanonicalSet(s)[k] == p[l]
            || exists m :: 0 <= m < |s| && m != k && CanonicalSet(s)[m] == p[l] && !Finds(s[m], s[k])
    ensures (forall m :: 0 <= m < |s| ==> !MappedEnd(s[m])) ==> CanonicalSet(s)[k] == p[l]
  {
    hide Contains;
    hide Overlaps;
    hide Canonicalized;
    hide MappedEnd;
    hide StartLength;
    hide Finds;
    var c := CanonicalSet(s);
    assert p[l] in multiset(p);
    assert p[l] in c;
    var m :| 0 <= m < |c| && c[m] == p[l];
    SameStartLength(s, m, k);
    OverlapFoundExactly(s[m], s[k], a);
    OverlapFoundExactly(s[k], s[m], a);
    FindsSymmetric(s[m], s[k], a);
    if forall n :: 0 <= n < |s| ==> !MappedEnd(s[n]) {
      FindsByStarts(s[m], s[k]);
    }
  }
}
