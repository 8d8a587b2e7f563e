/**
 * What a packet sees of many containers' port forwarding: after any run, walking the top-level
 * chain is trying the standing setups in order.
 */
module PortmapPackets {
  import opened Wrappers
  import opened IPTables
  import opened PortmapChain
  import opened PortmapChainLaws
  import opened PortmapRules
  import opened PortmapMeaning
  import opened PortmapForward
  import opened PortmapRuns

  // ---- What a packet sees ----

  datatype Container = Container(config: PortMapConf, net: IPNet, bit: nat)

  ghost function Plans(cs: seq<Container>): (plans: seq<ChainPlan>)
    ensures |plans| == |cs|
  {
    seq(|cs|, i requires 0 <= i < |cs| => DnatPlan(cs[i].config, cs[i].net))
  }

  /** The setups of one chain. */
  function Named(cs: seq<Container>, name: string): seq<Container> {
    if cs == [] then []
    else
      var n := |cs| - 1;
      Named(cs[..n], name) + (if cs[n].config.chainName == name then [cs[n]] else [])
  }

  /** Scanning the mappings of several setups one after the other. */
  function ScanAll(cs: seq<Container>, pkt: Packet, marks: set<nat>): Verdict {
    if cs == [] then Fall(marks)
    else
      var c, v := cs[|cs| - 1], ScanAll(cs[..|cs| - 1], pkt, marks);
      if v.Fall? then Scan(c.config, c.net, c.config.portMaps, c.bit, pkt, marks) else v
  }

  /** A setup's entry rules let the packet through to its chain. */
  ghost predicate Listed(c: Container, pkt: Packet, judge: Judge) {
    && Admitted(c.config, IsV6(c.net), pkt, judge)
    && exists e :: e in c.config.portMaps && e.protocol == pkt.proto && e.hostPort == pkt.dport
  }

  /** The setups in order: the first one that lists the packet and whose chain translates it decides. */
  ghost function ForwardAll(part: seq<Container>, cs: seq<Container>, pkt: Packet, marks: set<nat>, judge: Judge)
      : Verdict
  {
    if part == [] then Fall(marks)
    else
      var c, v := part[|part| - 1], ForwardAll(part[..|part| - 1], cs, pkt, marks, judge);
      if v.Fall? && Listed(c, pkt, judge) then ScanAll(Named(cs, c.config.chainName), pkt, marks) else v
  }

  ghost predicate Marked(t: Table, cs: seq<Container>) {
    forall i :: 0 <= i < |cs| && cs[i].config.snat ==> Marks(t, SetMarkName(cs[i].config), cs[i].bit)
  }

  /** Setups of one chain use one mark chain and bit. */
  ghost predicate SameMark(cs: seq<Container>) {
    forall i, j :: 0 <= i < |cs| && 0 <= j < |cs| && cs[i].config.chainName == cs[j].config.chainName ==>
      SetMarkName(cs[i].config) == SetMarkName(cs[j].config) && cs[i].bit == cs[j].bit
  }

  lemma {:induction false} ScanAllFalls(cs: seq<Container>, pkt: Packet, marks: set<nat>)
    ensures ScanAll(cs, pkt, marks).Fall? ==> ScanAll(cs, pkt, marks) == Fall(marks)
  {
    hide FirstMapping;
    hide NeedsMark;
    hide IsV6;
    if cs != [] {
      ScanAllFalls(cs[..|cs| - 1], pkt, marks);
    }
  }

  lemma {:induction false} ForwardAllFalls(part: seq<Container>, cs: seq<Container>, pkt: Packet, marks: set<nat>,
                                           judge: Judge)
    ensures ForwardAll(part, cs, pkt, marks, judge).Fall? ==> ForwardAll(part, cs, pkt, marks, judge) == Fall(marks)
  {
    hide ScanAll;
    hide Named;
    hide Listed;
    if part != [] {
      ForwardAllFalls(part[..|part| - 1], cs, pkt, marks, judge);
      ScanAllFalls(Named(cs, part[|part| - 1].config.chainName), pkt, marks);
    }
  }

  lemma PlansFront(cs: seq<Container>)
    requires cs != []
    ensures Plans(cs)[..|cs| - 1] == Plans(cs[..|cs| - 1])
    ensures Plans(cs)[|cs| - 1] == DnatPlan(cs[|cs| - 1].config, cs[|cs| - 1].net)
  {
    hide DnatPlan;
  }

  /** Walking the rules of all setups of a chain is scanning their mappings. */
  lemma {:induction false} RulesMean(t: Table, cs: seq<Container>, name: string, pkt: Packet, marks: set<nat>,
                                     judge: Judge, depth: nat)
    requires Marked(t, cs) && depth >= 1
    ensures Walk(t, AllRules(Plans(cs), name), pkt, marks, judge, depth) == ScanAll(Named(cs, name), pkt, marks)
    decreases |cs|
  {
    hide Walk;
    hide DnatRules;
    hide EntryRules;
    hide Marks;
    hide Scan;
    hide Plans;
    hide IsV6;
    WalkNothing(t, pkt, marks, judge, depth);
    if cs != [] {
      var n := |cs| - 1;
      var c, front := cs[n], Named(cs[..n], name);
      PlansFront(cs);
      RulesMean(t, cs[..n], name, pkt, marks, judge, depth);
      ScanAllFalls(front, pkt, marks);
      assert (front + [c])[..|front|] == front;
      if c.config.chainName == name {
        WalkConcat(t, AllRules(Plans(cs[..n]), name), DnatRules(c.config, c.net, c.config.portMaps), pkt, marks,
                   judge, depth);
        DnatRulesMean(t, c.config, c.net, c.config.portMaps, c.bit, pkt, marks, judge, depth);
      } else {
        assert AllRules(Plans(cs[..n]), name) + [] == AllRules(Plans(cs[..n]), name) && front + [] == front;
      }
    }
  }

  /** All rules of a chain are plain for its setups' mark chain, and jump only if some setup marks. */
  lemma {:induction false} RulesPlain(cs: seq<Container>, name: string, mark: string)
    requires forall i :: 0 <= i < |cs| && cs[i].config.chainName == name ==> SetMarkName(cs[i].config) == mark
    ensures forall r :: r in AllRules(Plans(cs), name) ==> Plain(r, mark)
    ensures forall r :: r in AllRules(Plans(cs), name) && r.target.Jump? ==>
      exists i :: 0 <= i < |cs| && cs[i].config.chainName == name && cs[i].config.snat
    decreases |cs|
  {
    hide DnatRules;
    hide EntryRules;
    hide Plain;
    hide SetMarkName;
    hide Plans;
    if cs != [] {
      var n := |cs| - 1;
      PlansFront(cs);
      RulesPlain(cs[..n], name, mark);
      DnatRulesPlain(cs[n].config, cs[n].net, cs[n].config.portMaps);
    }
  }

  /** A chain as installed means the scan of its setups' mappings, oldest first. */
  lemma ChainMeans(t: Table, cs: seq<Container>, name: string, pkt: Packet, marks: set<nat>, judge: Judge, depth: nat)
    requires Marked(t, cs) && SameMark(cs) && depth >= 1
    ensures Walk(t, Merge(false, [], AllRules(Plans(cs), name)), pkt, marks, judge, depth)
         == ScanAll(Named(cs, name), pkt, marks)
  {
    hide Walk;
    hide Merge;
    hide AllRules;
    hide Plans;
    hide Plain;
    hide Marks;
    hide ScanAll;
    hide Named;
    hide SetMarkName;
    var rules := AllRules(Plans(cs), name);
    RulesMean(t, cs, name, pkt, marks, judge, depth);
    assert [] + rules == rules;
    if i :| 0 <= i < |cs| && cs[i].config.chainName == name {
      var mark := SetMarkName(cs[i].config);
      RulesPlain(cs, name, mark);
      MergeKeepsMeaning(t, [], rules, mark, cs[i].bit, pkt, marks, judge, depth);
    } else {
      RulesPlain(cs, name, SET_MARK_CHAIN);
      MergeKeepsMeaning(t, [], rules, SET_MARK_CHAIN, 0, pkt, marks, judge, depth);
    }
  }

  /** The chains of all setups are installed. */
  ghost predicate Chained(t: Table, cs: seq<Container>) {
    forall i :: 0 <= i < |cs| ==>
      var name := cs[i].config.chainName;
      name in t && t[name] == Merge(false, [], AllRules(Plans(cs), name))
  }

  /** Walking one setup's entry rules. */
  lemma EntriesOfOne(t: Table, cs: seq<Container>, i: nat, pkt: Packet, marks: set<nat>, judge: Judge, depth: nat)
    requires Marked(t, cs) && SameMark(cs) && Chained(t, cs) && depth >= 2 && i < |cs|
    ensures var c := cs[i];
      Walk(t, DnatPlan(c.config, c.net).entries, pkt, marks, judge, depth)
        == if Listed(c, pkt, judge) then ScanAll(Named(cs, c.config.chainName), pkt, marks) else Fall(marks)
  {
    hide Walk;
    hide Merge;
    hide AllRules;
    hide Plans;
    hide DnatRules;
    hide EntryRules;
    hide ScanAll;
    hide Named;
    hide Marked;
    hide SameMark;
    hide MatchAll;
    hide Admitted;
    hide IsV6;
    var c := cs[i];
    var name, entries := c.config.chainName, EntryRules(c.config, IsV6(c.net));
    var jumps := JumpRules(entries, name);
    ChainMeans(t, cs, name, pkt, marks, judge, depth - 1);
    ScanAllFalls(Named(cs, name), pkt, marks);
    JumpsWalk(t, jumps, name, pkt, marks, judge, depth);
    EntryRulesExact(c.config, IsV6(c.net), pkt, marks, judge);
    if ms :| ms in entries && MatchAll(ms, pkt, marks, judge) {
      var k :| 0 <= k < |entries| && entries[k] == ms;
      assert jumps[k] in jumps && jumps[k].matches == ms;
    }
    if r :| r in jumps && MatchAll(r.matches, pkt, marks, judge) {
      var k :| 0 <= k < |jumps| && jumps[k] == r;
      assert entries[k] in entries;
    }
  }

  /** Walking the entry rules of the first n setups. */
  lemma {:induction false} EntriesMean(t: Table, cs: seq<Container>, n: nat, pkt: Packet, marks: set<nat>, judge: Judge,
                                       depth: nat)
    requires Marked(t, cs) && SameMark(cs) && Chained(t, cs) && depth >= 2 && n <= |cs|
    ensures Walk(t, AllEntries(Plans(cs[..n])), pkt, marks, judge, depth) == ForwardAll(cs[..n], cs, pkt, marks, judge)
    decreases n
  {
    hide Walk;
    hide Marked;
    hide SameMark;
    hide Chained;
    hide Plans;
    hide DnatPlan;
    hide Listed;
    hide ScanAll;
    hide Named;
    WalkNothing(t, pkt, marks, judge, depth);
    if n > 0 {
      var part, c := cs[..n], cs[n - 1];
      assert part[..n - 1] == cs[..n - 1] && part[n - 1] == c;
      PlansFront(part);
      EntriesMean(t, cs, n - 1, pkt, marks, judge, depth);
      ForwardAllFalls(cs[..n - 1], cs, pkt, marks, judge);
      EntriesOfOne(t, cs, n - 1, pkt, marks, judge, depth);
      WalkConcat(t, AllEntries(Plans(part[..n - 1])), DnatPlan(c.config, c.net).entries, pkt, marks, judge, depth);
    }
  }

  lemma {:induction false} EntriesTransparent(t: Table, cs: seq<Container>, n: nat, pkt: Packet, marks: set<nat>,
                                              judge: Judge, depth: nat)
    requires Marked(t, cs) && SameMark(cs) && Chained(t, cs) && depth >= 2 && n <= |cs|
    ensures forall r :: r in AllEntries(Plans(cs[..n])) ==> Transparent(t, r, pkt, marks, judge, depth)
    decreases n
  {
    hide Execute;
    hide Walk;
    hide MatchAll;
    hide Marked;
    hide SameMark;
    hide Plans;
    hide Merge;
    hide AllRules;
    hide DnatRules;
    hide EntryRules;
    hide ScanAll;
    hide Named;
    if n > 0 {
      var part, c := cs[..n], cs[n - 1];
      assert part[..n - 1] == cs[..n - 1] && part[n - 1] == c;
      PlansFront(part);
      EntriesTransparent(t, cs, n - 1, pkt, marks, judge, depth);
      ChainMeans(t, cs, c.config.chainName, pkt, marks, judge, depth - 1);
      ScanAllFalls(Named(cs, c.config.chainName), pkt, marks);
      forall r | r in DnatPlan(c.config, c.net).entries ensures Transparent(t, r, pkt, marks, judge, depth) {
        JumpExecutes(t, r, c.config.chainName, pkt, marks, judge, depth);
      }
    }
  }

  lemma WalkNothing(t: Table, pkt: Packet, marks: set<nat>, judge: Judge, depth: nat)
    ensures Walk(t, [], pkt, marks, judge, depth) == Fall(marks)
  {
  }

  /** Marks and chains of the table after a run. */
  lemma RunChains(t0: Table, plans: seq<ChainPlan>, t: Table, cs: seq<Container>)
    requires Holding(t0, plans, t) && plans == Plans(cs)
    requires Marked(t0, cs) && forall i :: 0 <= i < |cs| ==> SetMarkName(cs[i].config) != TOP_LEVEL_DNAT_CHAIN
    ensures Marked(t, cs) && Chained(t, cs)
  {
    hide Merge;
    hide AllRules;
    hide AllEntries;
    hide DnatRules;
    hide EntryRules;
    hide SetMarkName;
    forall i | 0 <= i < |cs|
      ensures cs[i].config.chainName in t
      ensures t[cs[i].config.chainName] == Merge(false, [], AllRules(plans, cs[i].config.chainName))
    {
      assert plans[i] in plans && plans[i].name == cs[i].config.chainName;
    }
  }

  /**
   * The whole compiler: after any run of setups and teardowns, a packet walking the top-level chain
   * meets the rules that were there before and then, among the standing setups in order, the first
   * one that lists it and whose chain has a fitting mapping. A chain that was set up again with
   * other mappings is scanned oldest setup first.
   */
  lemma RunMeans(t0: Table, all: set<ChainPlan>, events: seq<Event>, cs: seq<Container>, pkt: Packet, marks: set<nat>,
                 judge: Judge, depth: nat)
    requires Ready(t0, all) && depth >= 2
    requires forall i :: 0 <= i < |events| ==> events[i].c in all
    requires Standing(events) == Plans(cs)
    requires Marked(t0, cs) && SameMark(cs)
    requires forall i :: 0 <= i < |cs| ==> SetMarkName(cs[i].config) != TOP_LEVEL_DNAT_CHAIN
    ensures TOP_LEVEL_DNAT_CHAIN in Run(t0, events) && TOP_LEVEL_DNAT_CHAIN in t0
    ensures var t := Run(t0, events);
      var v := Walk(t, t0[TOP_LEVEL_DNAT_CHAIN], pkt, marks, judge, depth);
      Walk(t, t[TOP_LEVEL_DNAT_CHAIN], pkt, marks, judge, depth)
        == if v.Fall? then ForwardAll(cs, cs, pkt, v.marks, judge) else v
  {
    hide *;
    var t := Run(t0, events);
    RunHolds(t0, all, events);
    HoldingTop(t0, Plans(cs), t);
    RunChains(t0, Plans(cs), t, cs);
    var base, entries := t0[TOP_LEVEL_DNAT_CHAIN], AllEntries(Plans(cs));
    WalkConcat(t, base, Merge(false, [], entries), pkt, marks, judge, depth);
    var v := Walk(t, base, pkt, marks, judge, depth);
    if v.Fall? {
      assert cs[..|cs|] == cs && [] + entries == entries;
      EntriesTransparent(t, cs, |cs|, pkt, v.marks, judge, depth);
      TransparentMerge(t, [], entries, pkt, v.marks, judge, depth);
      EntriesMean(t, cs, |cs|, pkt, v.marks, judge, depth);
    }
  }

  lemma HoldingTop(t0: Table, plans: seq<ChainPlan>, t: Table)
    requires Holding(t0, plans, t)
    ensures TOP_LEVEL_DNAT_CHAIN in t0 && TOP_LEVEL_DNAT_CHAIN in t
    ensures t[TOP_LEVEL_DNAT_CHAIN] == t0[TOP_LEVEL_DNAT_CHAIN] + Merge(false, [], AllEntries(plans))
  {
    hide Merge;
    hide AllEntries;
  }

  // ---- Containers set up once ----

  /** No two standing setups have a chain in common. */
  ghost predicate ApartChains(cs: seq<Container>) {
    forall i, j :: 0 <= i < j < |cs| ==> cs[i].config.chainName != cs[j].config.chainName
  }

  /** The first container whose own forwarding translates the packet decides. */
  function FirstForward(cs: seq<Container>, pkt: Packet, marks: set<nat>, judge: Judge): Verdict {
    if cs == [] then Fall(marks)
    else
      var c, v := cs[|cs| - 1], FirstForward(cs[..|cs| - 1], pkt, marks, judge);
      if v.Fall? then Forward(c.config, c.net, c.bit, pkt, marks, judge) else v
  }

  lemma {:induction false} NamedApart(cs: seq<Container>, i: nat)
    requires ApartChains(cs) && i < |cs|
    ensures Named(cs, cs[i].config.chainName) == [cs[i]]
    decreases |cs|
  {
    var n := |cs| - 1;
    assert ApartChains(cs[..n]);
    if i < n {
      NamedApart(cs[..n], i);
    } else {
      NamedNone(cs[..n], cs[n].config.chainName);
    }
  }

  lemma {:induction false} NamedNone(cs: seq<Container>, name: string)
    requires forall i :: 0 <= i < |cs| ==> cs[i].config.chainName != name
    ensures Named(cs, name) == []
  {
    if cs != [] {
      NamedNone(cs[..|cs| - 1], name);
    }
  }

  /** When every standing container was set up once, each decides by its own mappings alone. */
  lemma {:induction false} ApartForward(cs: seq<Container>, n: nat, pkt: Packet, marks: set<nat>, judge: Judge)
    requires ApartChains(cs) && n <= |cs|
    ensures ForwardAll(cs[..n], cs, pkt, marks, judge) == FirstForward(cs[..n], pkt, marks, judge)
    decreases n
  {
    hide Forward;
    hide Listed;
    hide Named;
    if n > 0 {
      var part, c := cs[..n], cs[n - 1];
      assert part[..n - 1] == cs[..n - 1] && part[n - 1] == c;
      ApartForward(cs, n - 1, pkt, marks, judge);
      NamedApart(cs, n - 1);
      ForwardAllFalls(cs[..n - 1], cs, pkt, marks, judge);
      OneForward(c, pkt, marks, judge);
    }
  }

  lemma OneForward(c: Container, pkt: Packet, marks: set<nat>, judge: Judge)
    ensures Forward(c.config, c.net, c.bit, pkt, marks, judge)
         == if Listed(c, pkt, judge) then ScanAll([c], pkt, marks) else Fall(marks)
  {
    hide Admitted;
    hide NeedsMark;
    hide FirstMapping;
    hide IsV6;
    assert [c][..0] == [];
    assert ScanAll([], pkt, marks) == Fall(marks);
    FirstMappingFits(c.config.portMaps, IsV6(c.net), pkt);
  }

  // ---- A container set up again with other mappings ----

  /** After a second setup without teardown a packet meets the first setup's mappings first. */
  lemma StaleMappingsFirst(t: Table, stale: Container, newer: Container, pkt: Packet, marks: set<nat>, judge: Judge,
                           depth: nat)
    requires stale.config.chainName == newer.config.chainName && newer.config.chainName in t
    requires stale.config.chainName != TOP_LEVEL_DNAT_CHAIN
    requires t[stale.config.chainName] == Merge(false, [], DnatRules(stale.config, stale.net, stale.config.portMaps))
    requires SetupSpec(t, DnatPlan(newer.config, newer.net)).1
    requires SameMark([stale, newer]) && Marked(SetupSpec(t, DnatPlan(newer.config, newer.net)).0, [stale, newer])
    requires depth >= 1
    ensures newer.config.chainName in SetupSpec(t, DnatPlan(newer.config, newer.net)).0
    ensures var t' := SetupSpec(t, DnatPlan(newer.config, newer.net)).0;
      Walk(t', t'[newer.config.chainName], pkt, marks, judge, depth) == ScanAll([stale, newer], pkt, marks)
  {
    hide SetupSpec;
    hide Walk;
    hide Merge;
    hide DnatRules;
    hide EntryRules;
    hide ScanAll;
    hide Marked;
    hide SameMark;
    var plan, name, cs := DnatPlan(newer.config, newer.net), newer.config.chainName, [stale, newer];
    var t' := SetupSpec(t, plan).0;
    SetupOverStale(t, plan);
    MergeConcat([], DnatRules(stale.config, stale.net, stale.config.portMaps),
                DnatRules(newer.config, newer.net, newer.config.portMaps));
    TwoSetups(stale, newer);
    ChainMeans(t', cs, name, pkt, marks, judge, depth);
  }

  lemma TwoSetups(stale: Container, newer: Container)
    requires stale.config.chainName == newer.config.chainName
    ensures var cs, name := [stale, newer], newer.config.chainName;
      && Named(cs, name) == cs
      && AllRules(Plans(cs), name)
           == DnatRules(stale.config, stale.net, stale.config.portMaps)
              + DnatRules(newer.config, newer.net, newer.config.portMaps)
  {
    hide DnatRules;
    hide EntryRules;
    var cs, name := [stale, newer], newer.config.chainName;
    assert cs[..1] == [stale] && [stale][..0] == [];
    var plans := Plans(cs);
    assert plans[..1] == [DnatPlan(stale.config, stale.net)] && plans[..1][..0] == [];
    assert Named([stale], name) == [stale];
    assert AllRules(plans[..1], name) == [] + DnatRules(stale.config, stale.net, stale.config.portMaps);
  }

  /** A container whose host port 8080 leads to the given port. */
  function Example(port: int): Container {
    Container(
      PortMapConf("net", "id", "CNI-DN-id", [PortMapEntry(8080, port, "tcp", None)], false, None, None, None, 13),
      IPNet([10, 0, 0, 2], [255, 255, 255, 0]), 13)
  }

  /**
   * The first mapping wins: a container set up with 8080 to 80 and then, without a teardown, with
   * 8080 to 81 is reached at port 80, where a container set up with the latter alone is reached at 81.
   */
  lemma StaleMappingWins(judge: Judge)
    ensures var t0: Table := map[TOP_LEVEL_DNAT_CHAIN := []];
      var stale, newer := DnatPlan(Example(80).config, Example(80).net), DnatPlan(Example(81).config, Example(81).net);
      var pkt := Packet("tcp", 8080, [10, 9, 9, 9], [10, 1, 1, 1], true);
      var t, alone := Run(t0, [Up(stale), Up(newer)]), Run(t0, [Up(newer)]);
      && TOP_LEVEL_DNAT_CHAIN in t && TOP_LEVEL_DNAT_CHAIN in alone
      && Walk(t, t[TOP_LEVEL_DNAT_CHAIN], pkt, {}, judge, 2) == Translated([10, 0, 0, 2], 80, {})
      && Walk(alone, alone[TOP_LEVEL_DNAT_CHAIN], pkt, {}, judge, 2) == Translated([10, 0, 0, 2], 81, {})
  {
    hide *;
    var t0: Table := map[TOP_LEVEL_DNAT_CHAIN := []];
    var stale, newer := DnatPlan(Example(80).config, Example(80).net), DnatPlan(Example(81).config, Example(81).net);
    var pkt := Packet("tcp", 8080, [10, 9, 9, 9], [10, 1, 1, 1], true);
    var both, one := [Example(80), Example(81)], [Example(81)];
    ExampleReady(t0, {stale, newer});
    ExamplePlans(both, one, [Up(stale), Up(newer)], [Up(newer)]);
    ExampleScans(pkt, judge);
    RunMeans(t0, {stale, newer}, [Up(stale), Up(newer)], both, pkt, {}, judge, 2);
    RunMeans(t0, {stale, newer}, [Up(newer)], one, pkt, {}, judge, 2);
    WalkNothing(Run(t0, [Up(stale), Up(newer)]), pkt, {}, judge, 2);
    WalkNothing(Run(t0, [Up(newer)]), pkt, {}, judge, 2);
  }

  lemma ExampleReady(t0: Table, all: set<ChainPlan>)
    requires t0 == map[TOP_LEVEL_DNAT_CHAIN := []]
    requires all == {DnatPlan(Example(80).config, Example(80).net), DnatPlan(Example(81).config, Example(81).net)}
    ensures Ready(t0, all)
  {
    hide EntryRules;
    hide IsV6;
    hide MappingRules;
    hide DnatRules;
    DnatRulesPlain(Example(80).config, Example(80).net, Example(80).config.portMaps);
    DnatRulesPlain(Example(81).config, Example(81).net, Example(81).config.portMaps);
    assert "CNI-DN-id"[4] != TOP_LEVEL_DNAT_CHAIN[4];
    forall c | c in all ensures !Referenced(t0, c.name) {
    }
  }

  lemma ExamplePlans(both: seq<Container>, one: seq<Container>, twice: seq<Event>, once: seq<Event>)
    requires both == [Example(80), Example(81)] && one == [Example(81)]
    requires twice
         == [Up(DnatPlan(Example(80).config, Example(80).net)), Up(DnatPlan(Example(81).config, Example(81).net))]
    requires once == [Up(DnatPlan(Example(81).config, Example(81).net))]
    ensures Standing(twice) == Plans(both) && Standing(once) == Plans(one)
    ensures SameMark(both) && SameMark(one)
    ensures forall t :: Marked(t, both) && Marked(t, one)
    ensures forall c :: c in both || c in one ==> SetMarkName(c.config) != TOP_LEVEL_DNAT_CHAIN
  {
    hide DnatPlan;
    hide Marks;
    assert twice[..1][..0] == [] && once[..0] == [] && twice[..1] == [twice[0]];
    assert Standing([twice[0]]) == [] + [twice[0].c];
    assert Standing(once) == [] + [once[0].c];
    assert SET_MARK_CHAIN[13] != TOP_LEVEL_DNAT_CHAIN[13];
  }

  lemma ExampleScans(pkt: Packet, judge: Judge)
    requires pkt == Packet("tcp", 8080, [10, 9, 9, 9], [10, 1, 1, 1], true)
    ensures var both, one := [Example(80), Example(81)], [Example(81)];
      && ForwardAll(both, both, pkt, {}, judge) == Translated([10, 0, 0, 2], 80, {})
      && ForwardAll(one, one, pkt, {}, judge) == Translated([10, 0, 0, 2], 81, {})
  {
    hide Listed;
    hide ScanAll;
    hide Named;
    var a, b := Example(80), Example(81);
    ExampleListed(80, pkt, judge);
    ExampleListed(81, pkt, judge);
    ExampleScan(80, pkt);
    ExampleScan(81, pkt);
    ScanPair(a, b, pkt);
    PairNamed(a, b);
    OneNamed(b);
    FirstListed([b], b, pkt, judge);
    FirstListed([a, b], a, pkt, judge);
    hide Example;
    SecondSkipped([a, b], a, b, pkt, judge);
  }

  lemma FirstListed(cs: seq<Container>, c: Container, pkt: Packet, judge: Judge)
    requires Listed(c, pkt, judge)
    ensures ForwardAll([c], cs, pkt, {}, judge) == ScanAll(Named(cs, c.config.chainName), pkt, {})
  {
    hide Listed;
    hide ScanAll;
    hide Named;
    assert [c][..0] == [];
    assert ForwardAll([], cs, pkt, {}, judge) == Fall({});
  }

  lemma SecondSkipped(cs: seq<Container>, c: Container, d: Container, pkt: Packet, judge: Judge)
    requires !ForwardAll([c], cs, pkt, {}, judge).Fall?
    ensures ForwardAll([c, d], cs, pkt, {}, judge) == ForwardAll([c], cs, pkt, {}, judge)
  {
    hide Listed;
    hide ScanAll;
    hide Named;
    assert [c, d][..1] == [c];
  }

  lemma PairNamed(c: Container, d: Container)
    requires c.config.chainName == d.config.chainName
    ensures Named([c, d], c.config.chainName) == [c, d]
  {
    OneNamed(c);
    assert [c, d][..1] == [c];
  }

  lemma ExampleListed(port: int, pkt: Packet, judge: Judge)
    requires pkt.proto == "tcp" && pkt.dport == 8080
    ensures Listed(Example(port), pkt, judge)
  {
    assert Example(port).config.portMaps[0] in Example(port).config.portMaps;
  }

  lemma ExampleScan(port: int, pkt: Packet)
    requires pkt.proto == "tcp" && pkt.dport == 8080
    ensures ScanAll([Example(port)], pkt, {}) == Translated([10, 0, 0, 2], port, {})
  {
    assert [Example(port)][..0] == [];
    assert ScanAll([], pkt, {}) == Fall({});
  }

  lemma ScanPair(a: Container, b: Container, pkt: Packet)
    ensures !ScanAll([a], pkt, {}).Fall? ==> ScanAll([a, b], pkt, {}) == ScanAll([a], pkt, {})
  {
    hide Scan;
    assert [a, b][..1] == [a];
  }

  lemma OneNamed(c: Container)
    ensures Named([c], c.config.chainName) == [c]
  {
    assert [c][..0] == [];
  }
}
