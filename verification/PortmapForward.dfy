/** forwardPorts and unforwardPorts of portmap.go, and the chains they work with. */
module PortmapForward {
  import opened IPTables
  import opened PortmapChain
  import opened PortmapChainLaws
  import opened PortmapRules
  import opened PortmapMeaning

  // ---- The chains of portmap.go ----

  function TopLevelPlan(): ChainPlan {
    ChainPlan(TOP_LEVEL_DNAT_CHAIN, ["PREROUTING", "OUTPUT"], JumpRules([[DstLocal]], TOP_LEVEL_DNAT_CHAIN), [], false)
  }

  function SetMarkPlan(bit: nat): ChainPlan {
    ChainPlan(SET_MARK_CHAIN, [], [], [Rule([Comment("CNI portfwd masquerade mark")], SetMark(bit))], false)
  }

  function MarkMasqPlan(bit: nat): ChainPlan {
    ChainPlan(MARK_MASQ_CHAIN, ["POSTROUTING"],
              JumpRules([[Comment("CNI portfwd requiring masquerade")]], MARK_MASQ_CHAIN),
              [Rule([MarkIs(bit)], Masquerade)], true)
  }

  ghost function DnatPlan(config: PortMapConf, net: IPNet): ChainPlan {
    ChainPlan(config.chainName, [TOP_LEVEL_DNAT_CHAIN], JumpRules(EntryRules(config, IsV6(net)), config.chainName),
              DnatRules(config, net, config.portMaps), false)
  }

  method GenToplevelDnatChain() returns (c: Chain)
    ensures fresh(c) && c.Plan() == TopLevelPlan()
  {
    c := new Chain(TOP_LEVEL_DNAT_CHAIN, ["PREROUTING", "OUTPUT"], [[DstLocal]], [], false);
  }

  method GenSetMarkChain(markBit: nat) returns (c: Chain)
    ensures fresh(c) && c.Plan() == SetMarkPlan(markBit)
  {
    c := new Chain(SET_MARK_CHAIN, [], [], [Rule([Comment("CNI portfwd masquerade mark")], SetMark(markBit))], false);
  }

  method GenMarkMasqChain(markBit: nat) returns (c: Chain)
    ensures fresh(c) && c.Plan() == MarkMasqPlan(markBit)
  {
    c := new Chain(MARK_MASQ_CHAIN, ["POSTROUTING"], [[Comment("CNI portfwd requiring masquerade")]],
                   [Rule([MarkIs(markBit)], Masquerade)], true);
  }

  method GenDnatChain(chainName: string) returns (c: Chain)
    ensures fresh(c) && c.name == chainName && c.entryChains == [TOP_LEVEL_DNAT_CHAIN] && !c.prependEntry
    ensures c.entryRules == [] && c.rules == []
  {
    c := new Chain(chainName, [TOP_LEVEL_DNAT_CHAIN], [], [], false);
  }

  /** Setting up several chains one after the other, stopping at the first failure. */
  ghost function SetupSeq(t: Table, plans: seq<ChainPlan>): (Table, bool)
    decreases plans
  {
    if plans == [] then (t, true)
    else
      var (t1, ok) := SetupSpec(t, plans[0]);
      if ok then SetupSeq(t1, plans[1..]) else (t1, false)
  }

  /** The chains forwardPorts sets up, in order: the mark chains come first. */
  ghost function ForwardPlans(config: PortMapConf, net: IPNet): seq<ChainPlan> {
    (if config.snat && config.externalSetMarkChain.None?
     then [SetMarkPlan(config.markMasqBit), MarkMasqPlan(config.markMasqBit)]
     else [])
    + [TopLevelPlan(), DnatPlan(config, net)]
  }

  lemma SetupSeqFront(t: Table, p: ChainPlan, rest: seq<ChainPlan>)
    ensures SetupSeq(t, [p] + rest) == if SetupSpec(t, p).1 then SetupSeq(SetupSpec(t, p).0, rest) else SetupSpec(t, p)
    ensures SetupSeq(t, []) == (t, true)
  {
    hide SetupSpec;
    assert ([p] + rest)[1..] == rest;
  }

  /** forwardPorts, without the sysctl that lets local addresses be routed. */
  method ForwardPorts(ipt: NatTable, config: PortMapConf, containerNet: IPNet) returns (ok: bool)
    modifies ipt
    ensures (ipt.chains, ok) == SetupSeq(old(ipt.chains), ForwardPlans(config, containerNet))
  {
    hide SetupSpec;
    hide SetupSeq;
    hide DnatRules;
    hide EntryRules;
    hide IsV6;
    ghost var dnat := DnatPlan(config, containerNet);
    if config.snat && config.externalSetMarkChain.None? {
      ghost var masq := MarkMasqPlan(config.markMasqBit);
      assert ForwardPlans(config, containerNet)
        == [SetMarkPlan(config.markMasqBit)] + ([masq] + ([TopLevelPlan()] + [dnat]));
      SetupSeqFront(ipt.chains, SetMarkPlan(config.markMasqBit), [masq] + ([TopLevelPlan()] + [dnat]));
      var setMarkChain := GenSetMarkChain(config.markMasqBit);
      ok := setMarkChain.Setup(ipt);
      if !ok {
        return;
      }
      SetupSeqFront(ipt.chains, masq, [TopLevelPlan()] + [dnat]);
      var masqChain := GenMarkMasqChain(config.markMasqBit);
      ok := masqChain.Setup(ipt);
      if !ok {
        return;
      }
    }
    assert !(config.snat && config.externalSetMarkChain.None?) ==>
      ForwardPlans(config, containerNet) == [TopLevelPlan()] + [dnat];
    SetupSeqFront(ipt.chains, TopLevelPlan(), [dnat]);
    var toplevelDnatChain := GenToplevelDnatChain();
    ok := toplevelDnatChain.Setup(ipt);
    if !ok {
      return;
    }
    SetupSeqFront(ipt.chains, dnat, []);
    assert [dnat] + [] == [dnat];
    var dnatChain := GenDnatChain(config.chainName);
    FillDnatRules(dnatChain, config, containerNet);
    assert dnatChain.Plan() == dnat;
    ok := dnatChain.Setup(ipt);
    SetupSeqFront(ipt.chains, dnat, []);
  }

  /** The chains every container shares. */
  ghost function SharedPlans(config: PortMapConf): seq<ChainPlan> {
    (if config.snat && config.externalSetMarkChain.None?
     then [SetMarkPlan(config.markMasqBit), MarkMasqPlan(config.markMasqBit)]
     else [])
    + [TopLevelPlan()]
  }

  lemma {:induction false} SetupSeqConcat(t: Table, a: seq<ChainPlan>, b: seq<ChainPlan>)
    ensures SetupSeq(t, a + b) == if SetupSeq(t, a).1 then SetupSeq(SetupSeq(t, a).0, b) else SetupSeq(t, a)
    decreases |a|
  {
    hide SetupSpec;
    if a == [] {
      assert a + b == b;
    } else {
      assert (a + b)[1..] == a[1..] + b;
      SetupSeqConcat(SetupSpec(t, a[0]).0, a[1..], b);
    }
  }

  lemma {:induction false} SetupSeqInstalled(t: Table, plans: seq<ChainPlan>)
    requires forall i :: 0 <= i < |plans| ==> Installed(t, plans[i])
    ensures SetupSeq(t, plans) == (t, true)
  {
    hide SetupSpec;
    hide Installed;
    if plans != [] {
      SetupOfInstalled(t, plans[0]);
      SetupSeqInstalled(t, plans[1..]);
    }
  }

  /** Once the shared chains are installed, forwardPorts only sets up the container's own chain. */
  lemma ForwardIsUp(t: Table, config: PortMapConf, net: IPNet)
    requires forall i :: 0 <= i < |SharedPlans(config)| ==> Installed(t, SharedPlans(config)[i])
    ensures SetupSeq(t, ForwardPlans(config, net)) == SetupSpec(t, DnatPlan(config, net))
  {
    hide SetupSpec;
    hide Installed;
    hide DnatPlan;
    var shared, dnat := SharedPlans(config), DnatPlan(config, net);
    SetupSeqInstalled(t, shared);
    SetupSeqConcat(t, shared, [dnat]);
    SetupSeqFront(t, dnat, []);
    SetupSeqFront(SetupSpec(t, dnat).0, dnat, []);
    assert [dnat] + [] == [dnat];
    assert ForwardPlans(config, net) == shared + [dnat];
  }

  /**
   * forwardPorts touches its own chain, the top-level chain and the two hooks that lead to it; the mark
   * and masquerade chains and POSTROUTING only if it is to masquerade and the user gave no mark chain.
   */
  lemma ForwardTouches(t: Table, config: PortMapConf, net: IPNet, n: string)
    requires n != config.chainName && n !in ["PREROUTING", "OUTPUT", "CNI-HOSTPORT-DNAT"]
    requires config.snat && config.externalSetMarkChain.None? ==>
      n !in ["POSTROUTING", "CNI-HOSTPORT-SETMARK", "CNI-HOSTPORT-MASQ"]
    ensures var after := SetupSeq(t, ForwardPlans(config, net)).0;
      (n in after <==> n in t) && (n in t ==> after[n] == t[n])
  {
    hide SetupSpec;
    hide EntryRules;
    hide DnatRules;
    SetupSeqFrame(t, ForwardPlans(config, net), n);
  }

  lemma {:induction false} SetupSeqFrame(t: Table, plans: seq<ChainPlan>, n: string)
    requires forall i :: 0 <= i < |plans| ==> n != plans[i].name && n !in plans[i].entryChains
    ensures var after := SetupSeq(t, plans).0; (n in after <==> n in t) && (n in t ==> after[n] == t[n])
    decreases |plans|
  {
    hide SetupSpec;
    if plans != [] {
      SetupFrame(t, plans[0], n);
      SetupSeqFrame(SetupSpec(t, plans[0]).0, plans[1..], n);
    }
  }

  /**
   * The mark chain has to be there first: where it is missing, setting up the chain of a container that
   * is masqueraded fails exactly if some mapping yields rules.
   */
  lemma MarkChainComesFirst(t: Table, config: PortMapConf, net: IPNet)
    requires config.snat && SetMarkName(config) !in t && SetMarkName(config) != config.chainName
    requires TOP_LEVEL_DNAT_CHAIN in t && config.chainName !in t
    ensures SetupSpec(t, DnatPlan(config, net)).1 <==>
      forall e :: e in config.portMaps ==> e.hostIP.Some? && !(IsV6(net) <==> !IPv4Form(e.hostIP.value))
  {
    hide SetupSpec;
    hide EntryRules;
    hide DnatRules;
    hide IsV6;
    hide IPv4Form;
    hide SetMarkName;
    var plan := DnatPlan(config, net);
    SetupSucceedsExactly(t, plan);
    forall e | e in config.portMaps ensures Skipped(e, IsV6(net)) <==>
      e.hostIP.Some? && !(IsV6(net) <==> !IPv4Form(e.hostIP.value))
    {
      if e.hostIP.Some? {
        HostAddress(e.hostIP.value);
      }
    }
    if e :| e in config.portMaps && !Skipped(e, IsV6(net)) {
      MarkRuleThere(config, net, config.portMaps, e);
    } else {
      AllSkipped(config, net, config.portMaps);
    }
  }

  lemma {:induction false} MarkRuleThere(config: PortMapConf, net: IPNet, entries: seq<PortMapEntry>, e: PortMapEntry)
    requires config.snat && e in entries && !Skipped(e, IsV6(net))
    ensures exists r :: r in DnatRules(config, net, entries) && r.target == Jump(SetMarkName(config))
  {
    hide IsV6;
    hide Skipped;
    hide SetMarkName;
    hide RuleBase;
    var n := |entries| - 1;
    if entries[n] == e {
      var r := MappingRules(config, net, e)[0];
      assert r in DnatRules(config, net, entries) && r.target == Jump(SetMarkName(config));
    } else {
      assert entries == entries[..n] + [entries[n]];
      MarkRuleThere(config, net, entries[..n], e);
      var r :| r in DnatRules(config, net, entries[..n]) && r.target == Jump(SetMarkName(config));
      assert r in DnatRules(config, net, entries);
    }
  }

  lemma {:induction false} AllSkipped(config: PortMapConf, net: IPNet, entries: seq<PortMapEntry>)
    requires forall e :: e in entries ==> Skipped(e, IsV6(net))
    ensures DnatRules(config, net, entries) == []
  {
    hide IsV6;
    hide Skipped;
    if entries != [] {
      AllSkipped(config, net, entries[..|entries| - 1]);
    }
  }

  /** The built-in chains are there and none of the plugin's shared chains is. */
  ghost predicate Pristine(t: Table) {
    && "PREROUTING" in t && "OUTPUT" in t && "POSTROUTING" in t
    && TOP_LEVEL_DNAT_CHAIN !in t && SET_MARK_CHAIN !in t && MARK_MASQ_CHAIN !in t
  }

  /** Setting up the shared chains first makes the mark chain a mark chain and the top-level chain empty. */
  lemma SharedChainsReady(t: Table, config: PortMapConf)
    requires Pristine(t) && config.snat && config.externalSetMarkChain.None?
    ensures var (t', ok) := SetupSeq(t, SharedPlans(config));
      && ok
      && Marks(t', SET_MARK_CHAIN, config.markMasqBit)
      && TOP_LEVEL_DNAT_CHAIN in t' && t'[TOP_LEVEL_DNAT_CHAIN] == []
  {
    hide *;
    var mark, masq, top := SetMarkPlan(config.markMasqBit), MarkMasqPlan(config.markMasqBit), TopLevelPlan();
    SharedPlansParts(config);
    PristineParts(t);
    FreshSetup(t, mark);
    SetupFrames(t, mark);
    var t1 := SetupSpec(t, mark).0;
    SetupSeqFront(t, mark, [masq] + ([top] + []));
    FreshSetup(t1, masq);
    SetupFrames(t1, masq);
    var t2 := SetupSpec(t1, masq).0;
    SetupSeqFront(t1, masq, [top] + []);
    FreshSetup(t2, top);
    SetupFrames(t2, top);
    SetupSeqFront(t2, top, []);
    SetupSeqFront(SetupSpec(t2, top).0, top, []);
    MergedPlans(SetupSpec(t2, top).0, config.markMasqBit);
  }

  lemma PristineParts(t: Table)
    requires Pristine(t)
    ensures "PREROUTING" in t && "OUTPUT" in t && "POSTROUTING" in t
    ensures TOP_LEVEL_DNAT_CHAIN !in t && SET_MARK_CHAIN !in t && MARK_MASQ_CHAIN !in t
  {
  }

  /** The shapes of the shared plans. */
  lemma SharedPlansParts(config: PortMapConf)
    ensures var mark, masq, top := SetMarkPlan(config.markMasqBit), MarkMasqPlan(config.markMasqBit), TopLevelPlan();
      && (config.snat && config.externalSetMarkChain.None? ==> SharedPlans(config) == [mark] + ([masq] + ([top] + [])))
      && mark.name == SET_MARK_CHAIN && masq.name == MARK_MASQ_CHAIN && top.name == TOP_LEVEL_DNAT_CHAIN
      && mark.entryChains == [] && masq.entryChains == ["POSTROUTING"] && top.entryChains == ["PREROUTING", "OUTPUT"]
      && (forall p :: p in [mark, masq, top] ==> forall i :: 0 <= i < |p.rules| ==> !p.rules[i].target.Jump?)
      && (forall p :: p in [mark, masq, top] ==>
            forall i :: 0 <= i < |p.entries| ==> p.entries[i].target == Jump(p.name))
    ensures SET_MARK_CHAIN != MARK_MASQ_CHAIN && SET_MARK_CHAIN != TOP_LEVEL_DNAT_CHAIN
    ensures MARK_MASQ_CHAIN != TOP_LEVEL_DNAT_CHAIN
    ensures forall n :: n in [SET_MARK_CHAIN, MARK_MASQ_CHAIN, TOP_LEVEL_DNAT_CHAIN] ==>
      n !in ["PREROUTING", "OUTPUT", "POSTROUTING"]
  {
    assert SET_MARK_CHAIN[13] == 'S' && MARK_MASQ_CHAIN[13] == 'M' && TOP_LEVEL_DNAT_CHAIN[13] == 'D';
    assert SET_MARK_CHAIN[0] == 'C' && MARK_MASQ_CHAIN[0] == 'C' && TOP_LEVEL_DNAT_CHAIN[0] == 'C';
    assert "PREROUTING"[0] == 'P' && "OUTPUT"[0] == 'O' && "POSTROUTING"[0] == 'P';
  }

  lemma SetupFrames(t: Table, c: ChainPlan)
    ensures forall n :: n != c.name && n !in c.entryChains ==>
      (n in SetupSpec(t, c).0 <==> n in t) && (n in t ==> SetupSpec(t, c).0[n] == t[n])
    ensures t.Keys <= SetupSpec(t, c).0.Keys
  {
    hide AddAll;
    hide AddEntries;
    forall n | n != c.name && n !in c.entryChains
      ensures (n in SetupSpec(t, c).0 <==> n in t) && (n in t ==> SetupSpec(t, c).0[n] == t[n])
    {
      SetupFrame(t, c, n);
    }
    var t0: Table := Ensured(t, c.name);
    AddAllExact(t0, c.name, false, c.rules);
    AddEntriesGrows(AddAll(t0, c.name, false, c.rules).0, c.entryChains, c.prepend, c.entries);
  }

  lemma MergedPlans(t: Table, bit: nat)
    requires SET_MARK_CHAIN in t && t[SET_MARK_CHAIN] == Merge(false, [], SetMarkPlan(bit).rules)
    requires TOP_LEVEL_DNAT_CHAIN in t && t[TOP_LEVEL_DNAT_CHAIN] == Merge(false, [], TopLevelPlan().rules)
    ensures Marks(t, SET_MARK_CHAIN, bit) && t[TOP_LEVEL_DNAT_CHAIN] == []
  {
    var rule := Rule([Comment("CNI portfwd masquerade mark")], SetMark(bit));
    assert [rule][1..] == [] && [] + [rule] == [rule];
    assert Merge(false, [], [rule]) == Merge(false, [rule], []);
  }

  /** A chain that is absent is set up with its rules when its entry chains exist and its rules jump nowhere. */
  lemma FreshSetup(t: Table, c: ChainPlan)
    requires c.name !in t && c.name !in c.entryChains
    requires forall i :: 0 <= i < |c.rules| ==> !c.rules[i].target.Jump?
    requires forall i :: 0 <= i < |c.entries| ==> c.entries[i].target == Jump(c.name)
    requires forall k :: 0 <= k < |c.entryChains| ==> c.entryChains[k] in t
    ensures SetupSpec(t, c).1
    ensures c.name in SetupSpec(t, c).0 && SetupSpec(t, c).0[c.name] == Merge(false, [], c.rules)
  {
    hide Merge;
    hide AddAll;
    var t0: Table := Ensured(t, c.name);
    AddAllExact(t0, c.name, false, c.rules);
    var t1: Table := AddAll(t0, c.name, false, c.rules).0;
    EntriesSucceed(t1, c.entryChains, c.prepend, c.entries);
    AddEntriesGrows(t1, c.entryChains, c.prepend, c.entries);
  }

  lemma {:induction false} EntriesSucceed(t: Table, entryChains: seq<string>, prepend: bool, entries: seq<Rule>)
    requires forall k :: 0 <= k < |entryChains| ==> entryChains[k] in t
    requires forall i :: 0 <= i < |entries| ==> entries[i].target.Jump? && entries[i].target.chain in t
    ensures AddEntries(t, entryChains, prepend, entries).1
    decreases entryChains
  {
    hide AddAll;
    if entryChains != [] {
      AddAllExact(t, entryChains[0], prepend, entries);
      var t1: Table := AddAll(t, entryChains[0], prepend, entries).0;
      assert forall k :: 0 <= k < |entryChains| - 1 ==> entryChains[1..][k] == entryChains[k + 1];
      EntriesSucceed(t1, entryChains[1..], prepend, entries);
    }
  }

  const OLD_TOP_LEVEL_SNAT_CHAIN := "CNI-HOSTPORT-SNAT"

  /**
   * unforwardPorts on one table: tears the container's chain down, and then, ignoring failures,
   * the chain an older version may have left.
   */
  method UnforwardPorts(ipt: NatTable, config: PortMapConf, oldChainName: string) returns (ok: bool)
    modifies ipt
    ensures var (t, done) := TeardownSpec(old(ipt.chains), config.chainName, [TOP_LEVEL_DNAT_CHAIN]);
      && ok == done
      && ipt.chains == if done then TeardownSpec(t, oldChainName, [OLD_TOP_LEVEL_SNAT_CHAIN]).0 else t
  {
    hide TeardownSpec;
    var dnatChain := GenDnatChain(config.chainName);
    ok := dnatChain.Teardown(ipt);
    if !ok {
      return;
    }
    var oldSnatChain := new Chain(oldChainName, [OLD_TOP_LEVEL_SNAT_CHAIN], [], [], false);
    var ignored := oldSnatChain.Teardown(ipt);
  }
}
