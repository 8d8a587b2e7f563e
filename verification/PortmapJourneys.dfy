/** Port forwarding from a table the plugin never touched: the shared chains, then containers coming and going. */
module PortmapJourneys {
  import opened Wrappers
  import opened IPTables
  import opened PortmapChain
  import opened PortmapRules
  import opened PortmapMeaning
  import opened PortmapForward
  import opened PortmapRuns
  import opened PortmapPackets
  import opened PortmapHooks

  const SHARED := [TOP_LEVEL_DNAT_CHAIN, SET_MARK_CHAIN, MARK_MASQ_CHAIN]
  const HOOKS := ["PREROUTING", "OUTPUT", "POSTROUTING"]

  /** The table with the shared chains set up. */
  ghost function WithShared(t: Table, config: PortMapConf): Table {
    SetupSeq(t, SharedPlans(config)).0
  }

  /** Setting up the shared chains touches no other chain. */
  lemma SharedFrame(t: Table, config: PortMapConf)
    requires Untouched(t) && config.snat && config.externalSetMarkChain.None?
    ensures forall n :: n !in SHARED && n !in HOOKS ==>
      (n in WithShared(t, config) <==> n in t) && (n in t ==> WithShared(t, config)[n] == t[n])
  {
    hide *;
    var mark, masq, top := SetMarkPlan(config.markMasqBit), MarkMasqPlan(config.markMasqBit), TopLevelPlan();
    SharedPlansParts(config);
    UntouchedParts(t);
    Names();
    FreshSetup(t, mark);
    SetupFrames(t, mark);
    var t1 := SetupSpec(t, mark).0;
    SetupSeqFront(t, mark, [masq] + ([top] + []));
    FreshSetup(t1, masq);
    SetupFrames(t1, masq);
    var t2 := SetupSpec(t1, masq).0;
    SetupSeqFront(t1, masq, [top] + []);
    FreshSetup(t2, top);
    SetupFrames(t2, top);
    SetupSeqFront(t2, top, []);
    SetupSeqFront(SetupSpec(t2, top).0, top, []);
    WithSharedDef(t, config);
  }

  lemma Names()
    ensures forall n :: n in SHARED <==> n == TOP_LEVEL_DNAT_CHAIN || n == SET_MARK_CHAIN || n == MARK_MASQ_CHAIN
    ensures forall n :: n in HOOKS <==> n == "PREROUTING" || n == "OUTPUT" || n == "POSTROUTING"
  {
  }

  lemma WithSharedDef(t: Table, config: PortMapConf)
    ensures WithShared(t, config) == SetupSeq(t, SharedPlans(config)).0
  {
  }

  /** Plans of containers the table knows nothing of, whose rules jump to the plugin's mark chain only. */
  ghost predicate Newcomers(t: Table, all: set<ChainPlan>) {
    && (forall c :: c in all ==> ContainerPlan(c) && c.name !in t && c.name !in SHARED && !Referenced(t, c.name))
    && (forall c, i :: c in all && 0 <= i < |c.rules| && c.rules[i].target.Jump? ==>
          c.rules[i].target.chain == SET_MARK_CHAIN)
  }

  /** With the shared chains set up the table is ready for every newcomer. */
  lemma ReadyAfterShared(t: Table, config: PortMapConf, all: set<ChainPlan>)
    requires Untouched(t) && config.snat && config.externalSetMarkChain.None? && Newcomers(t, all)
    ensures SetupSeq(t, SharedPlans(config)).1
    ensures SharedReady(t, WithShared(t, config), config) && Ready(WithShared(t, config), all)
  {
    hide *;
    var t0 := WithShared(t, config);
    WithSharedDef(t, config);
    UntouchedParts(t);
    Names();
    SharedSetup(t, config);
    SharedFrame(t, config);
    SharedContents(t, t0, config);
    ReadyFrom(t, t0, all);
  }

  /** The chains the shared setups change lead to shared chains only, besides where they led before. */
  lemma SharedContents(t: Table, t0: Table, config: PortMapConf)
    requires SharedReady(t, t0, config)
    ensures forall n :: n in SHARED || n in HOOKS ==> n in t0
    ensures forall n, i :: n in t0 && (n in SHARED || n in HOOKS) && 0 <= i < |t0[n]| && t0[n][i].target.Jump? ==>
      t0[n][i].target.chain in SHARED || (n in t && t0[n][i] in t[n])
  {
    hide SharedPlans;
    hide Installed;
    SharedPlansParts(config);
    var jump, masq := LocalJump(), MasqJump();
    assert forall n :: n in HOOKS ==>
      n in t0 && forall i :: 0 <= i < |t0[n]| ==> t0[n][i] in t[n] || t0[n][i] == jump || t0[n][i] == masq;
  }

  lemma ReadyFrom(t: Table, t0: Table, all: set<ChainPlan>)
    requires Newcomers(t, all)
    requires forall n :: n in HOOKS ==> n in t
    requires forall n :: n in SHARED || n in HOOKS ==> n in t0
    requires forall n :: n !in SHARED && n !in HOOKS ==> (n in t0 <==> n in t) && (n in t ==> t0[n] == t[n])
    requires forall n, i :: n in t0 && (n in SHARED || n in HOOKS) && 0 <= i < |t0[n]| && t0[n][i].target.Jump? ==>
      t0[n][i].target.chain in SHARED || (n in t && t0[n][i] in t[n])
    ensures Ready(t0, all)
  {
    hide ContainerPlan;
    Names();
    forall c | c in all ensures !Referenced(t0, c.name) {
      assert !Referenced(t, c.name) && c.name !in SHARED;
      forall n, i | n in t0 && 0 <= i < |t0[n]| ensures t0[n][i].target != Jump(c.name) {
        if n in t && t0[n][i] in t[n] {
          var j :| 0 <= j < |t[n]| && t[n][j] == t0[n][i];
          assert t[n][j].target != Jump(c.name);
        }
      }
    }
  }

  /** Containers of the plugin's own mark chain that the table knows nothing of are newcomers. */
  ghost predicate NewContainers(t: Table, cs: seq<Container>) {
    forall i :: 0 <= i < |cs| ==>
      && cs[i].config.externalSetMarkChain.None?
      && cs[i].config.chainName !in t && cs[i].config.chainName !in SHARED && !Referenced(t, cs[i].config.chainName)
  }

  ghost function PlanSet(cs: seq<Container>): set<ChainPlan> {
    set i | 0 <= i < |cs| :: DnatPlan(cs[i].config, cs[i].net)
  }

  lemma ContainersAreNewcomers(t: Table, cs: seq<Container>)
    requires NewContainers(t, cs)
    ensures Newcomers(t, PlanSet(cs))
  {
    hide DnatPlan;
    hide Referenced;
    forall i | 0 <= i < |cs|
      ensures var c := DnatPlan(cs[i].config, cs[i].net);
        && ContainerPlan(c) && c.name == cs[i].config.chainName
        && forall k :: 0 <= k < |c.rules| && c.rules[k].target.Jump? ==> c.rules[k].target.chain == SET_MARK_CHAIN
    {
      PlanOfContainer(cs[i]);
    }
  }

  lemma PlanOfContainer(c: Container)
    requires c.config.externalSetMarkChain.None?
    ensures var p := DnatPlan(c.config, c.net);
      && ContainerPlan(p) && p.name == c.config.chainName
      && forall k :: 0 <= k < |p.rules| && p.rules[k].target.Jump? ==> p.rules[k].target.chain == SET_MARK_CHAIN
  {
    hide EntryRules;
    hide DnatRules;
    hide IsV6;
    hide MatchAll;
    DnatRulesPlain(c.config, c.net, c.config.portMaps);
    var rules := DnatRules(c.config, c.net, c.config.portMaps);
    assert forall k :: 0 <= k < |rules| ==> rules[k] in rules;
  }

  /** The first forwardPorts on an untouched table sets up the shared chains and then the container's own. */
  lemma FirstForwardPorts(t: Table, config: PortMapConf, net: IPNet)
    requires Untouched(t) && config.snat && config.externalSetMarkChain.None?
    ensures SetupSeq(t, ForwardPlans(config, net)) == After(WithShared(t, config), Up(DnatPlan(config, net)))
  {
    hide SetupSpec;
    hide SetupSeq;
    hide DnatPlan;
    hide Untouched;
    var shared, dnat := SharedPlans(config), DnatPlan(config, net);
    SharedSetup(t, config);
    SetupSeqConcat(t, shared, [dnat]);
    SetupSeqFront(WithShared(t, config), dnat, []);
    SetupSeqFront(SetupSpec(WithShared(t, config), dnat).0, dnat, []);
    assert [dnat] + [] == [dnat];
    assert ForwardPlans(config, net) == shared + [dnat];
  }

  /**
   * From a table the plugin never touched: after the shared chains were set up and containers came and
   * went in any way, a packet to a host port of a standing one is translated by the setup that
   * decides it and masqueraded on its way out exactly when that setup asks for it.
   */
  lemma JourneyFromScratch(t: Table, config: PortMapConf, known: seq<Container>, events: seq<Event>, cs: seq<Container>,
                           hook: string, pkt: Packet, out: Packet, judge: Judge, depth: nat)
    requires Untouched(t) && config.snat && config.externalSetMarkChain.None? && NewContainers(t, known)
    requires forall i :: 0 <= i < |events| ==> events[i].c in PlanSet(known)
    requires Standing(events) == Plans(cs) && SameBit(cs, config.markMasqBit)
    requires hook in ["PREROUTING", "OUTPUT"] && depth >= 3 && pkt.dstLocal
    requires hook in t && Walk(Run(WithShared(t, config), events), t[hook], pkt, {}, judge, depth) == Fall({})
    requires "POSTROUTING" in t
    requires !Walk(Run(WithShared(t, config), events), t["POSTROUTING"], out, {}, judge, depth).Masqueraded?
    requires Decider(cs, cs, pkt, judge).Some?
    ensures hook in Run(WithShared(t, config), events) && "POSTROUTING" in Run(WithShared(t, config), events)
    ensures var t1, c := Run(WithShared(t, config), events), Decider(cs, cs, pkt, judge).value;
      var v := Walk(t1, t1[hook], pkt, {}, judge, depth);
      && c in cs && TranslatedBy(v, c, pkt, {})
      && (Walk(t1, t1["POSTROUTING"], out, v.marks, judge, depth).Masqueraded? <==> NeedsMark(c.config, c.net, pkt))
  {
    hide *;
    ContainersAreNewcomers(t, known);
    ReadyAfterShared(t, config, PlanSet(known));
    Journey(t, WithShared(t, config), config, PlanSet(known), events, cs, hook, pkt, out, judge, depth);
  }

  /** With empty built-in chains the plugin has never run, and the example container is new. */
  lemma EmptyTableUntouched()
    ensures var t: Table := map["PREROUTING" := [], "OUTPUT" := [], "POSTROUTING" := []];
      Untouched(t) && NewContainers(t, [Example(80)])
  {
    SharedPlansParts(PortMapConf("", "", "", [], true, None, None, None, 0));
    Names();
    assert "CNI-DN-id"[4] == 'D' && "CNI-DN-id"[0] == 'C';
    assert TOP_LEVEL_DNAT_CHAIN[4] == 'H' && SET_MARK_CHAIN[4] == 'H' && MARK_MASQ_CHAIN[4] == 'H';
  }
}
