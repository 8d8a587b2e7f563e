/**
 * Port forwarding seen from the kernel's hooks: what happens to a packet that enters
 * PREROUTING, OUTPUT or POSTROUTING after the shared chains were set up and any number of
 * containers came and went.
 */
module PortmapHooks {
  import opened Wrappers
  import opened IPTables
  import opened PortmapChain
  import opened PortmapChainLaws
  import opened PortmapRules
  import opened PortmapMeaning
  import opened PortmapForward
  import opened PortmapRuns
  import opened PortmapPackets

  /** The plugin has never run: its shared chains do not exist and nothing leads to them. */
  ghost predicate Untouched(t: Table) {
    && Pristine(t)
    && forall n :: n in [TOP_LEVEL_DNAT_CHAIN, SET_MARK_CHAIN, MARK_MASQ_CHAIN] ==> !Referenced(t, n)
  }

  /** The rule that leads packets for local addresses to the top-level chain. */
  function LocalJump(): Rule {
    Rule([DstLocal], Jump(TOP_LEVEL_DNAT_CHAIN))
  }

  function MasqJump(): Rule {
    Rule([Comment("CNI portfwd requiring masquerade")], Jump(MARK_MASQ_CHAIN))
  }

  // ---- Setting up one chain with one entry rule ----

  function Added(prepend: bool, prior: seq<Rule>, e: Rule): seq<Rule> {
    if prepend then [e] + prior else prior + [e]
  }

  lemma {:induction false} OneEntryEverywhere(t: Table, entryChains: seq<string>, prepend: bool, e: Rule)
    requires forall k :: 0 <= k < |entryChains| ==> entryChains[k] in t && e !in t[entryChains[k]]
    requires forall i, j :: 0 <= i < j < |entryChains| ==> entryChains[i] != entryChains[j]
    requires e.target.Jump? && e.target.chain in t
    ensures AddEntries(t, entryChains, prepend, [e]).1
    ensures AddEntries(t, entryChains, prepend, [e]).0.Keys == t.Keys
    ensures forall n :: n in t ==>
      AddEntries(t, entryChains, prepend, [e]).0[n] == if n in entryChains then Added(prepend, t[n], e) else t[n]
    decreases entryChains
  {
    if entryChains != [] {
      var c, rest := entryChains[0], entryChains[1..];
      var t1: Table := t[c := Added(prepend, t[c], e)];
      assert AddAll(t, c, prepend, [e]) == (t1, true) by {
        assert [e][1..] == [];
        assert Add(t, c, prepend, e) == (t1, true);
        assert AddAll(t1, c, prepend, []) == (t1, true);
      }
      assert forall k :: 0 <= k < |rest| ==> rest[k] == entryChains[k + 1];
      OneEntryEverywhere(t1, rest, prepend, e);
      assert forall n :: n in entryChains <==> n == c || n in rest;
    }
  }

  /** A fresh chain with one rule leading to it changes each entry chain by that rule only. */
  lemma FreshEntries(t: Table, c: ChainPlan, e: Rule)
    requires c.name !in t && c.name !in c.entryChains
    requires c.entries == [e] && e.target == Jump(c.name)
    requires forall i :: 0 <= i < |c.rules| ==> !c.rules[i].target.Jump?
    requires forall k :: 0 <= k < |c.entryChains| ==> c.entryChains[k] in t && e !in t[c.entryChains[k]]
    requires forall i, j :: 0 <= i < j < |c.entryChains| ==> c.entryChains[i] != c.entryChains[j]
    ensures forall n :: n in t && n in c.entryChains ==>
      n in SetupSpec(t, c).0 && SetupSpec(t, c).0[n] == Added(c.prepend, t[n], e)
  {
    hide AddAll;
    hide AddEntries;
    hide Added;
    hide Merge;
    var t0: Table := Ensured(t, c.name);
    AddAllExact(t0, c.name, false, c.rules);
    var t1: Table := AddAll(t0, c.name, false, c.rules).0;
    assert forall n :: n in t ==> n in t1 && t1[n] == t[n];
    OneEntryEverywhere(t1, c.entryChains, c.prepend, e);
  }

  /** Setting up a chain takes no rule away, so what is installed stays installed. */
  lemma StaysInstalled(t: Table, c: ChainPlan, p: ChainPlan)
    requires Installed(t, p)
    ensures Installed(SetupSpec(t, c).0, p)
  {
    hide AddAll;
    hide AddEntries;
    var t0: Table := Ensured(t, c.name);
    AddAllExact(t0, c.name, false, c.rules);
    var t1: Table := AddAll(t0, c.name, false, c.rules).0;
    AddEntriesGrows(t1, c.entryChains, c.prepend, c.entries);
    var t2: Table := SetupSpec(t, c).0;
    assert forall n :: n in t ==> n in t2 && forall r :: r in t[n] ==> r in t2[n];
    forall k | 0 <= k < |p.entryChains| ensures AllIn(t2, p.entryChains[k], p.entries) {
      KeepsAllIn(t, t2, p.entryChains[k], p.entries);
    }
    KeepsAllIn(t, t2, p.name, p.rules);
  }

  lemma KeepsAllIn(t: Table, t2: Table, chain: string, rules: seq<Rule>)
    requires AllIn(t, chain, rules)
    requires chain in t ==> chain in t2 && forall r :: r in t[chain] ==> r in t2[chain]
    ensures AllIn(t2, chain, rules)
  {
  }

  // ---- The shared chains ----

  /** What the table looks like once the shared chains are set up. */
  ghost predicate SharedReady(t: Table, t0: Table, config: PortMapConf) {
    && "PREROUTING" in t && "OUTPUT" in t && "POSTROUTING" in t
    && "PREROUTING" in t0 && t0["PREROUTING"] == t["PREROUTING"] + [LocalJump()]
    && "OUTPUT" in t0 && t0["OUTPUT"] == t["OUTPUT"] + [LocalJump()]
    && "POSTROUTING" in t0 && t0["POSTROUTING"] == [MasqJump()] + t["POSTROUTING"]
    && TOP_LEVEL_DNAT_CHAIN in t0 && t0[TOP_LEVEL_DNAT_CHAIN] == []
    && MARK_MASQ_CHAIN in t0 && t0[MARK_MASQ_CHAIN] == [Rule([MarkIs(config.markMasqBit)], Masquerade)]
    && Marks(t0, SET_MARK_CHAIN, config.markMasqBit)
    && forall i :: 0 <= i < |SharedPlans(config)| ==> Installed(t0, SharedPlans(config)[i])
  }

  /** Setting up the shared chains on a table the plugin never touched. */
  lemma SharedSetup(t: Table, config: PortMapConf)
    requires Untouched(t) && config.snat && config.externalSetMarkChain.None?
    ensures SetupSeq(t, SharedPlans(config)).1 && SharedReady(t, SetupSeq(t, SharedPlans(config)).0, config)
  {
    hide *;
    var bit := config.markMasqBit;
    var mark, masq, top := SetMarkPlan(bit), MarkMasqPlan(bit), TopLevelPlan();
    SharedPlansParts(config);
    UntouchedParts(t);
    SharedChainsReady(t, config);
    EntriesOfPlans(bit);

    SetupFrames(t, mark);
    FreshSetup(t, mark);
    SetupInstalls(t, mark);
    var t1 := SetupSpec(t, mark).0;
    SetupSeqFront(t, mark, [masq] + ([top] + []));

    SetupFrames(t1, masq);
    FreshSetup(t1, masq);
    SetupInstalls(t1, masq);
    StaysInstalled(t1, masq, mark);
    FreshEntries(t1, masq, MasqJump());
    var t2 := SetupSpec(t1, masq).0;
    SetupSeqFront(t1, masq, [top] + []);

    SetupFrames(t2, top);
    FreshSetup(t2, top);
    SetupInstalls(t2, top);
    StaysInstalled(t2, top, mark);
    StaysInstalled(t2, top, masq);
    FreshEntries(t2, top, LocalJump());
    var t3 := SetupSpec(t2, top).0;
    SetupSeqFront(t2, top, []);
    SetupSeqFront(t3, top, []);
    SharedReadyParts(t, t3, config);
  }

  lemma UntouchedParts(t: Table)
    requires Untouched(t)
    ensures Pristine(t) && "PREROUTING" in t && "OUTPUT" in t && "POSTROUTING" in t
    ensures TOP_LEVEL_DNAT_CHAIN !in t && SET_MARK_CHAIN !in t && MARK_MASQ_CHAIN !in t
    ensures LocalJump() !in t["PREROUTING"] && LocalJump() !in t["OUTPUT"] && MasqJump() !in t["POSTROUTING"]
  {
    hide Referenced;
    hide WithoutJumps;
    NoJumps(t, "PREROUTING", TOP_LEVEL_DNAT_CHAIN);
    WithoutJumpsExact(t["PREROUTING"], TOP_LEVEL_DNAT_CHAIN);
    NoJumps(t, "OUTPUT", TOP_LEVEL_DNAT_CHAIN);
    WithoutJumpsExact(t["OUTPUT"], TOP_LEVEL_DNAT_CHAIN);
    NoJumps(t, "POSTROUTING", MARK_MASQ_CHAIN);
    WithoutJumpsExact(t["POSTROUTING"], MARK_MASQ_CHAIN);
  }

  lemma EntriesOfPlans(bit: nat)
    ensures TopLevelPlan().entries == [LocalJump()] && !TopLevelPlan().prepend
    ensures MarkMasqPlan(bit).entries == [MasqJump()] && MarkMasqPlan(bit).prepend
    ensures LocalJump().target == Jump(TOP_LEVEL_DNAT_CHAIN) && MasqJump().target == Jump(MARK_MASQ_CHAIN)
    ensures Merge(false, [], MarkMasqPlan(bit).rules) == [Rule([MarkIs(bit)], Masquerade)]
    ensures forall prior, e :: Added(true, prior, e) == [e] + prior && Added(false, prior, e) == prior + [e]
    ensures "PREROUTING" != "OUTPUT"
  {
    var rule := Rule([MarkIs(bit)], Masquerade);
    assert MarkMasqPlan(bit).rules == [rule];
    assert [rule][1..] == [] && [] + [rule] == [rule];
    assert Merge(false, [], [rule]) == Merge(false, [rule], []);
    assert "PREROUTING"[0] != "OUTPUT"[0];
  }

  lemma SharedReadyParts(t: Table, t0: Table, config: PortMapConf)
    requires "PREROUTING" in t && "OUTPUT" in t && "POSTROUTING" in t
    requires "PREROUTING" in t0 && t0["PREROUTING"] == t["PREROUTING"] + [LocalJump()]
    requires "OUTPUT" in t0 && t0["OUTPUT"] == t["OUTPUT"] + [LocalJump()]
    requires "POSTROUTING" in t0 && t0["POSTROUTING"] == [MasqJump()] + t["POSTROUTING"]
    requires TOP_LEVEL_DNAT_CHAIN in t0 && t0[TOP_LEVEL_DNAT_CHAIN] == []
    requires MARK_MASQ_CHAIN in t0 && t0[MARK_MASQ_CHAIN] == [Rule([MarkIs(config.markMasqBit)], Masquerade)]
    requires Marks(t0, SET_MARK_CHAIN, config.markMasqBit)
    requires Installed(t0, SetMarkPlan(config.markMasqBit)) && Installed(t0, MarkMasqPlan(config.markMasqBit))
    requires Installed(t0, TopLevelPlan())
    requires SharedPlans(config)
         == [SetMarkPlan(config.markMasqBit)] + ([MarkMasqPlan(config.markMasqBit)] + ([TopLevelPlan()] + []))
    ensures SharedReady(t, t0, config)
  {
    hide Installed;
    hide SetMarkPlan;
    hide MarkMasqPlan;
    hide TopLevelPlan;
    hide SharedPlans;
    hide Marks;
  }

  // ---- While containers come and go ----

  /** Containers leave the shared chains and the hooks as they were set up. */
  lemma SharedInRun(t: Table, t0: Table, config: PortMapConf, all: set<ChainPlan>, events: seq<Event>)
    requires SharedReady(t, t0, config) && config.snat && config.externalSetMarkChain.None?
    requires Ready(t0, all) && forall i :: 0 <= i < |events| ==> events[i].c in all
    ensures var t1 := Run(t0, events);
      && (forall i :: 0 <= i < |SharedPlans(config)| ==> Installed(t1, SharedPlans(config)[i]))
      && forall n :: n in ["PREROUTING", "OUTPUT", "POSTROUTING", MARK_MASQ_CHAIN, SET_MARK_CHAIN] ==>
           n in t0 && n in t1 && t1[n] == t0[n]
  {
    hide Run;
    hide Ready;
    hide Standing;
    hide Merge;
    hide AllRules;
    hide AllEntries;
    hide Installed;
    hide SharedPlans;
    hide SetMarkPlan;
    hide MarkMasqPlan;
    hide TopLevelPlan;
    RunHolds(t0, all, events);
    SharedPlansParts(config);
    var t1 := Run(t0, events);
    forall i | 0 <= i < |SharedPlans(config)| ensures Installed(t1, SharedPlans(config)[i]) {
      NoTopRules(config.markMasqBit);
      InstalledElsewhere(t0, t1, SharedPlans(config)[i]);
    }
  }

  /** No shared plan puts a rule into the top-level chain. */
  lemma NoTopRules(bit: nat)
    ensures TopLevelPlan().rules == []
    ensures forall p :: p in [SetMarkPlan(bit), MarkMasqPlan(bit), TopLevelPlan()] ==>
      TOP_LEVEL_DNAT_CHAIN !in p.entryChains
  {
    SharedPlansParts(PortMapConf("", "", "", [], true, None, None, None, bit));
  }

  lemma InstalledElsewhere(t0: Table, t1: Table, p: ChainPlan)
    requires Installed(t0, p) && TOP_LEVEL_DNAT_CHAIN !in p.entryChains
    requires p.name == TOP_LEVEL_DNAT_CHAIN ==> p.rules == []
    requires forall n :: n in t0 ==> n in t1 && (n != TOP_LEVEL_DNAT_CHAIN ==> t1[n] == t0[n])
    ensures Installed(t1, p)
  {
    forall k | 0 <= k < |p.entryChains| ensures AllIn(t1, p.entryChains[k], p.entries) {
      assert p.entryChains[k] in p.entryChains;
      KeepsAllIn(t0, t1, p.entryChains[k], p.entries);
    }
  }

  /** In any such run, forwardPorts is the setup of the container's own chain. */
  lemma ForwardInRun(t: Table, t0: Table, config: PortMapConf, all: set<ChainPlan>, events: seq<Event>, net: IPNet)
    requires SharedReady(t, t0, config) && config.snat && config.externalSetMarkChain.None?
    requires Ready(t0, all) && forall i :: 0 <= i < |events| ==> events[i].c in all
    ensures SetupSeq(Run(t0, events), ForwardPlans(config, net)) == After(Run(t0, events), Up(DnatPlan(config, net)))
  {
    hide *;
    SharedInRun(t, t0, config, all, events);
    ForwardIsUp(Run(t0, events), config, net);
    AfterUp(Run(t0, events), DnatPlan(config, net));
  }

  lemma AfterUp(t: Table, c: ChainPlan)
    ensures After(t, Up(c)) == SetupSpec(t, c)
  {
    hide SetupSpec;
  }

  // ---- Packets ----

  /** The oldest setup with a fitting mapping. */
  function FirstFitting(cs: seq<Container>, pkt: Packet): Option<Container> {
    if cs == [] then None
    else
      var c, before := cs[|cs| - 1], FirstFitting(cs[..|cs| - 1], pkt);
      if before.Some? then before
      else if FirstMapping(c.config.portMaps, IsV6(c.net), pkt).Some? then Some(c) else None
  }

  /** The setup that decides a packet: the first one to list it whose chain has a fitting mapping leads to it. */
  ghost function Decider(part: seq<Container>, cs: seq<Container>, pkt: Packet, judge: Judge): Option<Container> {
    if part == [] then None
    else
      var c, before := part[|part| - 1], Decider(part[..|part| - 1], cs, pkt, judge);
      if before.Some? then before
      else if Listed(c, pkt, judge) then FirstFitting(Named(cs, c.config.chainName), pkt) else None
  }

  /** The translation a container applies to a packet it decides. */
  predicate TranslatedBy(v: Verdict, c: Container, pkt: Packet, marks: set<nat>) {
    var e := FirstMapping(c.config.portMaps, IsV6(c.net), pkt);
    && e.Some?
    && v == Translated(c.net.ip, e.value.containerPort,
                       if NeedsMark(c.config, c.net, pkt) then marks + {c.bit} else marks)
  }

  lemma {:induction false} FittingDecides(cs: seq<Container>, pkt: Packet, marks: set<nat>)
    ensures var v := ScanAll(cs, pkt, marks);
      match FirstFitting(cs, pkt)
      case None => v == Fall(marks)
      case Some(c) => c in cs && TranslatedBy(v, c, pkt, marks)
    decreases |cs|
  {
    hide FirstMapping;
    hide NeedsMark;
    hide IsV6;
    if cs != [] {
      FittingDecides(cs[..|cs| - 1], pkt, marks);
    }
  }

  lemma {:induction false} NamedOf(cs: seq<Container>, name: string)
    ensures forall c :: c in Named(cs, name) <==> c in cs && c.config.chainName == name
  {
    if cs != [] {
      NamedOf(cs[..|cs| - 1], name);
      assert cs == cs[..|cs| - 1] + [cs[|cs| - 1]];
    }
  }

  lemma {:induction false} DeciderDecides(part: seq<Container>, cs: seq<Container>, pkt: Packet, marks: set<nat>,
                                          judge: Judge)
    ensures var v := ForwardAll(part, cs, pkt, marks, judge);
      match Decider(part, cs, pkt, judge)
      case None => v == Fall(marks)
      case Some(c) => c in cs && TranslatedBy(v, c, pkt, marks)
    decreases |part|
  {
    hide FirstFitting;
    hide ScanAll;
    hide Named;
    hide Listed;
    hide FirstMapping;
    hide NeedsMark;
    hide IsV6;
    if part != [] {
      var name := part[|part| - 1].config.chainName;
      DeciderDecides(part[..|part| - 1], cs, pkt, marks, judge);
      FittingDecides(Named(cs, name), pkt, marks);
      NamedOf(cs, name);
    }
  }

  /** The containers use the plugin's own mark chain, with the bit it was set up for. */
  ghost predicate SameBit(cs: seq<Container>, bit: nat) {
    forall i :: 0 <= i < |cs| ==> cs[i].config.externalSetMarkChain.None? && cs[i].bit == bit
  }

  lemma SameBitMarked(t: Table, cs: seq<Container>, bit: nat)
    requires SameBit(cs, bit) && Marks(t, SET_MARK_CHAIN, bit)
    ensures Marked(t, cs) && SameMark(cs)
    ensures forall i :: 0 <= i < |cs| ==> SetMarkName(cs[i].config) != TOP_LEVEL_DNAT_CHAIN
  {
    hide Marks;
    SharedPlansParts(PortMapConf("", "", "", [], true, None, None, None, bit));
  }

  /**
   * A packet entering PREROUTING or OUTPUT meets the rules that were there before the plugin and
   * then, if it is for a local address, the standing setups of the containers in order.
   */
  lemma PacketAtHook(t: Table, t0: Table, config: PortMapConf, all: set<ChainPlan>, events: seq<Event>,
                     cs: seq<Container>, hook: string, pkt: Packet, marks: set<nat>, judge: Judge, depth: nat)
    requires SharedReady(t, t0, config) && config.snat && config.externalSetMarkChain.None?
    requires Ready(t0, all) && forall i :: 0 <= i < |events| ==> events[i].c in all
    requires Standing(events) == Plans(cs) && SameBit(cs, config.markMasqBit)
    requires hook in ["PREROUTING", "OUTPUT"] && depth >= 3
    ensures hook in t && hook in Run(t0, events)
    ensures var t1 := Run(t0, events);
      var v := Walk(t1, t[hook], pkt, marks, judge, depth);
      Walk(t1, t1[hook], pkt, marks, judge, depth)
        == if v.Fall? && pkt.dstLocal then ForwardAll(cs, cs, pkt, v.marks, judge) else v
  {
    hide *;
    var t1 := Run(t0, events);
    HookParts(t, t0, config);
    SharedInRun(t, t0, config, all, events);
    SameBitMarked(t0, cs, config.markMasqBit);
    RunMeans(t0, all, events, cs, pkt, marks, judge, depth - 1);
    WalkConcat(t1, t[hook], [LocalJump()], pkt, marks, judge, depth);
    var v := Walk(t1, t[hook], pkt, marks, judge, depth);
    if v.Fall? {
      RunMeans(t0, all, events, cs, pkt, v.marks, judge, depth - 1);
      WalkNothing(t1, pkt, v.marks, judge, depth - 1);
      WalkOne(t1, LocalJump(), pkt, v.marks, judge, depth);
      LocalJumpExecutes(t1, pkt, v.marks, judge, depth);
    }
  }

  lemma HookParts(t: Table, t0: Table, config: PortMapConf)
    requires SharedReady(t, t0, config)
    ensures forall n :: n in ["PREROUTING", "OUTPUT"] ==> n in t && n in t0 && t0[n] == t[n] + [LocalJump()]
    ensures "POSTROUTING" in t && "POSTROUTING" in t0 && t0["POSTROUTING"] == [MasqJump()] + t["POSTROUTING"]
    ensures MARK_MASQ_CHAIN in t0 && t0[MARK_MASQ_CHAIN] == [Rule([MarkIs(config.markMasqBit)], Masquerade)]
    ensures TOP_LEVEL_DNAT_CHAIN in t0 && t0[TOP_LEVEL_DNAT_CHAIN] == []
    ensures Marks(t0, SET_MARK_CHAIN, config.markMasqBit)
  {
    hide Marks;
    hide Installed;
    hide SharedPlans;
  }

  lemma LocalJumpExecutes(t: Table, pkt: Packet, marks: set<nat>, judge: Judge, depth: nat)
    requires depth >= 1 && TOP_LEVEL_DNAT_CHAIN in t
    ensures Execute(t, LocalJump(), pkt, marks, judge, depth)
         == if pkt.dstLocal then Walk(t, t[TOP_LEVEL_DNAT_CHAIN], pkt, marks, judge, depth - 1) else Fall(marks)
  {
    hide Walk;
    var r := LocalJump();
    assert r.matches[0] == DstLocal && |r.matches| == 1;
  }

  /**
   * A marked packet leaving through POSTROUTING is masqueraded before any other rule sees it;
   * others see the old rules only.
   */
  lemma PacketAtPostrouting(t: Table, t0: Table, config: PortMapConf, all: set<ChainPlan>, events: seq<Event>,
                            pkt: Packet, marks: set<nat>, judge: Judge, depth: nat)
    requires SharedReady(t, t0, config) && config.snat && config.externalSetMarkChain.None?
    requires Ready(t0, all) && forall i :: 0 <= i < |events| ==> events[i].c in all
    requires depth >= 1
    ensures "POSTROUTING" in t && "POSTROUTING" in Run(t0, events)
    ensures var t1 := Run(t0, events);
      Walk(t1, t1["POSTROUTING"], pkt, marks, judge, depth)
        == if config.markMasqBit in marks then Masqueraded(marks)
           else Walk(t1, t["POSTROUTING"], pkt, marks, judge, depth)
  {
    hide *;
    var t1 := Run(t0, events);
    HookParts(t, t0, config);
    SharedInRun(t, t0, config, all, events);
    WalkConcat(t1, [MasqJump()], t["POSTROUTING"], pkt, marks, judge, depth);
    WalkOne(t1, MasqJump(), pkt, marks, judge, depth);
    MasqJumpExecutes(t1, config.markMasqBit, pkt, marks, judge, depth);
  }

  lemma MasqJumpExecutes(t: Table, bit: nat, pkt: Packet, marks: set<nat>, judge: Judge, depth: nat)
    requires depth >= 1 && MARK_MASQ_CHAIN in t && t[MARK_MASQ_CHAIN] == [Rule([MarkIs(bit)], Masquerade)]
    ensures Execute(t, MasqJump(), pkt, marks, judge, depth) == if bit in marks then Masqueraded(marks) else Fall(marks)
  {
    hide Walk;
    var r, m := Rule([MarkIs(bit)], Masquerade), MasqJump();
    assert MatchAll(m.matches, pkt, marks, judge);
    WalkOne(t, r, pkt, marks, judge, depth - 1);
    assert r.matches[0] == MarkIs(bit) && |r.matches| == 1;
  }

  /**
   * The journey of a packet to a host port, through both hooks: if the older rules let it pass
   * unmarked, the setup that decides it translates it, and it is masqueraded on its way out exactly
   * when that setup's configuration asks for it.
   */
  lemma Journey(t: Table, t0: Table, config: PortMapConf, all: set<ChainPlan>, events: seq<Event>, cs: seq<Container>,
                hook: string, pkt: Packet, out: Packet, judge: Judge, depth: nat)
    requires SharedReady(t, t0, config) && config.snat && config.externalSetMarkChain.None?
    requires Ready(t0, all) && forall i :: 0 <= i < |events| ==> events[i].c in all
    requires Standing(events) == Plans(cs) && SameBit(cs, config.markMasqBit)
    requires hook in ["PREROUTING", "OUTPUT"] && depth >= 3 && pkt.dstLocal
    requires hook in t && Walk(Run(t0, events), t[hook], pkt, {}, judge, depth) == Fall({})
    requires "POSTROUTING" in t && !Walk(Run(t0, events), t["POSTROUTING"], out, {}, judge, depth).Masqueraded?
    requires Decider(cs, cs, pkt, judge).Some?
    ensures hook in Run(t0, events) && "POSTROUTING" in Run(t0, events)
    ensures var t1, c := Run(t0, events), Decider(cs, cs, pkt, judge).value;
      var v := Walk(t1, t1[hook], pkt, {}, judge, depth);
      && c in cs && TranslatedBy(v, c, pkt, {})
      && (Walk(t1, t1["POSTROUTING"], out, v.marks, judge, depth).Masqueraded? <==> NeedsMark(c.config, c.net, pkt))
  {
    hide *;
    var t1, c := Run(t0, events), Decider(cs, cs, pkt, judge).value;
    PacketAtHook(t, t0, config, all, events, cs, hook, pkt, {}, judge, depth);
    DeciderDecides(cs, cs, pkt, {}, judge);
    var v := ForwardAll(cs, cs, pkt, {}, judge);
    TranslationMarks(v, c, cs, pkt, config.markMasqBit);
    PacketAtPostrouting(t, t0, config, all, events, out, v.marks, judge, depth);
  }

  lemma TranslationMarks(v: Verdict, c: Container, cs: seq<Container>, pkt: Packet, bit: nat)
    requires TranslatedBy(v, c, pkt, {}) && c in cs && SameBit(cs, bit)
    ensures v.Translated? && v.marks == if NeedsMark(c.config, c.net, pkt) then {bit} else {}
  {
    hide FirstMapping;
    hide NeedsMark;
    hide IsV6;
  }
}
