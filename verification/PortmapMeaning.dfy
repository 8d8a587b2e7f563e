/**
 * What the generated rules do to a packet: walking a chain takes the first rule that
 * translates, a jump to the mark chain sets the mark and returns. The rules of a container
 * mean the same as scanning its mappings for the first one that fits.
 */
module PortmapMeaning {
  import opened Wrappers
  import opened Cidr
  import opened Masks
  import opened IPTables
  import opened PortmapChain
  import opened PortmapChainLaws
  import opened PortmapRules

  datatype Packet = Packet(proto: string, dport: int, src: IP, dst: IP, dstLocal: bool)

  /** How the user's extra conditions judge a packet. */
  type Judge = (seq<string>, Packet) -> bool

  /** The end of a walk: fallen off the chain, or translated; in both cases with the marks set so far. */
  datatype Verdict =
    | Fall(marks: set<nat>)
    | Translated(ip: IP, port: int, marks: set<nat>)
    | Masqueraded(marks: set<nat>)

  predicate MatchOne(m: Match, pkt: Packet, marks: set<nat>, judge: Judge) {
    match m
    case Comment(_) => true
    case Proto(p) => pkt.proto == p
    case DPort(n) => pkt.dport == n
    case DPorts(ns) => pkt.dport in ns
    case Dst(ip) => Equal(pkt.dst, ip)
    case SrcNet(net, mask) => NetContains(net, mask, pkt.src)
    case Src(ip) => Equal(pkt.src, ip)
    case DstLocal => pkt.dstLocal
    case MarkIs(bit) => bit in marks
    case Conditions(args) => judge(args, pkt)
  }

  predicate MatchAll(ms: seq<Match>, pkt: Packet, marks: set<nat>, judge: Judge) {
    forall i :: 0 <= i < |ms| ==> MatchOne(ms[i], pkt, marks, judge)
  }

  /** Walks a rule list; jumps go at most depth chains deep. */
  function Walk(t: Table, rules: seq<Rule>, pkt: Packet, marks: set<nat>, judge: Judge, depth: nat): Verdict
    decreases depth, |rules|
  {
    if rules == [] then Fall(marks)
    else
      match Execute(t, rules[0], pkt, marks, judge, depth)
      case Fall(marks') => Walk(t, rules[1..], pkt, marks', judge, depth)
      case v => v
  }

  function Execute(t: Table, rule: Rule, pkt: Packet, marks: set<nat>, judge: Judge, depth: nat): Verdict
    decreases depth, 0
  {
    if !MatchAll(rule.matches, pkt, marks, judge) then Fall(marks)
    else
      match rule.target
      case SetMark(bit) => Fall(marks + {bit})
      case Dnat(ip, port) => Translated(ip, port, marks)
      case Masquerade => Masqueraded(marks)
      case Jump(chain) =>
        if depth == 0 || chain !in t then Fall(marks) else Walk(t, t[chain], pkt, marks, judge, depth - 1)
  }

  lemma {:induction false} WalkConcat(t: Table, a: seq<Rule>, b: seq<Rule>, pkt: Packet, marks: set<nat>, judge: Judge,
                                      depth: nat)
    ensures Walk(t, a + b, pkt, marks, judge, depth) ==
      match Walk(t, a, pkt, marks, judge, depth)
      case Fall(marks') => Walk(t, b, pkt, marks', judge, depth)
      case v => v
    decreases |a|
  {
    hide Execute;
    if a == [] {
      assert a + b == b;
    } else {
      assert (a + b)[1..] == a[1..] + b;
      var v := Execute(t, a[0], pkt, marks, judge, depth);
      if v.Fall? {
        WalkConcat(t, a[1..], b, pkt, v.marks, judge, depth);
      }
    }
  }

  lemma WalkOne(t: Table, r: Rule, pkt: Packet, marks: set<nat>, judge: Judge, depth: nat)
    ensures Walk(t, [r], pkt, marks, judge, depth) == Execute(t, r, pkt, marks, judge, depth)
  {
    hide Execute;
  }

  // ---- The meaning of a configuration ----

  /** The mark chain holds one rule that sets the bit for every packet. */
  ghost predicate Marks(t: Table, chain: string, bit: nat) {
    chain in t && exists text :: t[chain] == [Rule([Comment(text)], SetMark(bit))]
  }

  /** An IPv4 address, in either of its forms. */
  predicate IPv4Form(ip: IP) {
    |ip| == 4 || (|ip| == 16 && ip[..12] == V4_IN_V6_PREFIX)
  }

  /** 0.0.0.0, in either form, or ::. */
  predicate AnyAddress(ip: IP) {
    || ip == [0, 0, 0, 0]
    || ip == [0, 0, 0, 0, 0, 0, 0, 0, 0, 0, 255, 255, 0, 0, 0, 0]
    || ip == [0, 0, 0, 0, 0, 0, 0, 0, 0, 0, 0, 0, 0, 0, 0, 0]
  }

  /**
   * A mapping that fits a packet: right protocol and host port and, if it names a host address, one
   * of the container's family that is the packet's destination or stands for any.
   */
  predicate Fits(e: PortMapEntry, isV6: bool, pkt: Packet) {
    && e.protocol == pkt.proto
    && e.hostPort == pkt.dport
    && (e.hostIP.Some? ==>
          && (isV6 <==> !IPv4Form(e.hostIP.value))
          && (AnyAddress(e.hostIP.value) || Equal(pkt.dst, e.hostIP.value)))
  }

  function FirstMapping(entries: seq<PortMapEntry>, isV6: bool, pkt: Packet): Option<PortMapEntry> {
    if entries == [] then None
    else if Fits(entries[0], isV6, pkt) then Some(entries[0])
    else FirstMapping(entries[1..], isV6, pkt)
  }

  /** Hairpin and, for IPv4, localhost traffic is to be masqueraded. */
  predicate NeedsMark(config: PortMapConf, net: IPNet, pkt: Packet) {
    config.snat && (NetContains(net.ip, net.mask, pkt.src) || (!IsV6(net) && Equal(pkt.src, [127, 0, 0, 1])))
  }

  /** Scanning the mappings. */
  function Scan(config: PortMapConf, net: IPNet, entries: seq<PortMapEntry>, bit: nat, pkt: Packet, marks: set<nat>)
      : Verdict
  {
    match FirstMapping(entries, IsV6(net), pkt)
    case None => Fall(marks)
    case Some(e) => Translated(net.ip, e.containerPort, if NeedsMark(config, net, pkt) then marks + {bit} else marks)
  }

  /** The base matches of a mapping that is not skipped hold exactly of the packets it fits. */
  lemma RuleBaseExact(e: PortMapEntry, isV6: bool, pkt: Packet, marks: set<nat>, judge: Judge)
    ensures Fits(e, isV6, pkt) <==> !Skipped(e, isV6) && MatchAll(RuleBase(e), pkt, marks, judge)
  {
    hide Equal;
    hide IsUnspecified;
    hide To4;
    hide IPv4Form;
    hide AnyAddress;
    if e.hostIP.Some? {
      HostAddress(e.hostIP.value);
    }
    var base := RuleBase(e);
    assert base[0] == Proto(e.protocol) && base[1] == DPort(e.hostPort);
    if e.hostIP.Some? && !IsUnspecified(e.hostIP.value) {
      assert base[2] == Dst(e.hostIP.value);
    }
  }

  lemma HostAddress(ip: IP)
    ensures To4(ip).Some? <==> IPv4Form(ip)
    ensures IsUnspecified(ip) <==> AnyAddress(ip)
  {
    assert V4_IN_V6_PREFIX + [0, 0, 0, 0] == [0, 0, 0, 0, 0, 0, 0, 0, 0, 0, 255, 255, 0, 0, 0, 0];
    if |ip| == 4 && V4_IN_V6_PREFIX + ip == UNSPECIFIED_V4 {
      assert (V4_IN_V6_PREFIX + ip)[12..] == ip && UNSPECIFIED_V4[12..] == [0, 0, 0, 0];
    }
  }

  lemma MatchAllMore(ms: seq<Match>, m: Match, pkt: Packet, marks: set<nat>, judge: Judge)
    ensures MatchAll(ms + [m], pkt, marks, judge) <==> MatchAll(ms, pkt, marks, judge) && MatchOne(m, pkt, marks, judge)
  {
    hide MatchOne;
    assert forall i :: 0 <= i < |ms| ==> (ms + [m])[i] == ms[i];
    assert (ms + [m])[|ms|] == m;
  }

  lemma MarkJump(t: Table, ms: seq<Match>, chain: string, bit: nat, pkt: Packet, marks: set<nat>, judge: Judge,
                 depth: nat)
    requires Marks(t, chain, bit) && depth >= 1
    ensures Execute(t, Rule(ms, Jump(chain)), pkt, marks, judge, depth)
         == Fall(if MatchAll(ms, pkt, marks, judge) then marks + {bit} else marks)
  {
    var text :| t[chain] == [Rule([Comment(text)], SetMark(bit))];
    var r := Rule([Comment(text)], SetMark(bit));
    WalkOne(t, r, pkt, marks, judge, depth - 1);
    assert MatchAll(r.matches, pkt, marks, judge);
  }

  /** The rules of one mapping mean the mapping. */
  lemma MappingMeans(t: Table, config: PortMapConf, net: IPNet, e: PortMapEntry, bit: nat, pkt: Packet, marks: set<nat>,
                     judge: Judge, depth: nat)
    requires config.snat ==> Marks(t, SetMarkName(config), bit)
    requires depth >= 1
    ensures Walk(t, MappingRules(config, net, e), pkt, marks, judge, depth) == Scan(config, net, [e], bit, pkt, marks)
  {
    hide Marks;
    hide Skipped;
    hide Fits;
    hide IsV6;
    hide MatchAll;
    hide Execute;
    hide NetContains;
    hide Equal;
    hide RuleBase;
    ScanOne(config, net, e, bit, pkt, marks);
    if Skipped(e, IsV6(net)) {
      RuleBaseExact(e, IsV6(net), pkt, marks, judge);
    } else {
      var dnat := Rule(RuleBase(e), Dnat(net.ip, e.containerPort));
      var marks' := if Fits(e, IsV6(net), pkt) && NeedsMark(config, net, pkt) then marks + {bit} else marks;
      MarkRulesMean(t, config, net, e, bit, pkt, marks, judge, depth);
      WalkConcat(t, MarkRules(config, net, e), [dnat], pkt, marks, judge, depth);
      WalkOne(t, dnat, pkt, marks', judge, depth);
      RuleBaseExact(e, IsV6(net), pkt, marks', judge);
      DnatExecutes(t, dnat, pkt, marks', judge, depth);
    }
  }

  lemma ScanOne(config: PortMapConf, net: IPNet, e: PortMapEntry, bit: nat, pkt: Packet, marks: set<nat>)
    ensures Scan(config, net, [e], bit, pkt, marks) ==
      if Fits(e, IsV6(net), pkt)
      then Translated(net.ip, e.containerPort, if NeedsMark(config, net, pkt) then marks + {bit} else marks)
      else Fall(marks)
  {
    hide Fits;
    hide NeedsMark;
    hide IsV6;
    assert [e][1..] == [];
    assert FirstMapping([], IsV6(net), pkt) == None;
  }

  lemma DnatExecutes(t: Table, r: Rule, pkt: Packet, marks: set<nat>, judge: Judge, depth: nat)
    requires r.target.Dnat?
    ensures Execute(t, r, pkt, marks, judge, depth)
         == if MatchAll(r.matches, pkt, marks, judge)
            then Translated(r.target.ip, r.target.port, marks) else Fall(marks)
  {
    hide MatchAll;
  }

  lemma MarkRulesMean(t: Table, config: PortMapConf, net: IPNet, e: PortMapEntry, bit: nat, pkt: Packet,
                      marks: set<nat>, judge: Judge, depth: nat)
    requires config.snat ==> Marks(t, SetMarkName(config), bit)
    requires depth >= 1 && !Skipped(e, IsV6(net))
    ensures Walk(t, MarkRules(config, net, e), pkt, marks, judge, depth)
         == Fall(if Fits(e, IsV6(net), pkt) && NeedsMark(config, net, pkt) then marks + {bit} else marks)
  {
    hide Marks;
    hide Skipped;
    hide Fits;
    hide IsV6;
    hide MatchAll;
    hide Execute;
    hide NetContains;
    hide Equal;
    hide RuleBase;
    if config.snat {
      var chain := SetMarkName(config);
      var hairpin := Rule(RuleBase(e) + [SrcNet(net.ip, net.mask)], Jump(chain));
      RuleBaseExact(e, IsV6(net), pkt, marks, judge);
      MatchAllMore(RuleBase(e), SrcNet(net.ip, net.mask), pkt, marks, judge);
      MarkJump(t, hairpin.matches, chain, bit, pkt, marks, judge, depth);
      WalkOne(t, hairpin, pkt, marks, judge, depth);
      if !IsV6(net) {
        var local := Rule(RuleBase(e) + [Src([127, 0, 0, 1])], Jump(chain));
        var marks' := Execute(t, hairpin, pkt, marks, judge, depth).marks;
        RuleBaseExact(e, IsV6(net), pkt, marks', judge);
        MatchAllMore(RuleBase(e), Src([127, 0, 0, 1]), pkt, marks', judge);
        MarkJump(t, local.matches, chain, bit, pkt, marks', judge, depth);
        WalkOne(t, local, pkt, marks', judge, depth);
        WalkConcat(t, [hairpin], [local], pkt, marks, judge, depth);
      }
    }
  }

  lemma {:induction false} FirstMappingConcat(a: seq<PortMapEntry>, b: seq<PortMapEntry>, isV6: bool, pkt: Packet)
    ensures FirstMapping(a + b, isV6, pkt)
         == if FirstMapping(a, isV6, pkt).Some? then FirstMapping(a, isV6, pkt) else FirstMapping(b, isV6, pkt)
  {
    hide Fits;
    if a == [] {
      assert a + b == b;
    } else {
      assert (a + b)[1..] == a[1..] + b;
      FirstMappingConcat(a[1..], b, isV6, pkt);
    }
  }

  /** The chain rules of a container mean the scan of its mappings. */
  lemma {:induction false} DnatRulesMean(t: Table, config: PortMapConf, net: IPNet, entries: seq<PortMapEntry>,
                                         bit: nat, pkt: Packet, marks: set<nat>, judge: Judge, depth: nat)
    requires config.snat ==> Marks(t, SetMarkName(config), bit)
    requires depth >= 1
    ensures Walk(t, DnatRules(config, net, entries), pkt, marks, judge, depth)
         == Scan(config, net, entries, bit, pkt, marks)
    decreases |entries|
  {
    hide Marks;
    hide MappingRules;
    hide Fits;
    hide NeedsMark;
    if entries != [] {
      var n := |entries| - 1;
      DnatRulesMean(t, config, net, entries[..n], bit, pkt, marks, judge, depth);
      assert entries == entries[..n] + [entries[n]];
      FirstMappingConcat(entries[..n], [entries[n]], IsV6(net), pkt);
      WalkConcat(t, DnatRules(config, net, entries[..n]), MappingRules(config, net, entries[n]), pkt, marks,
                 judge, depth);
      MappingMeans(t, config, net, entries[n], bit, pkt, marks, judge, depth);
    }
  }

  // ---- Dropping duplicate rules ----

  /** Rules whose matching does not look at marks and whose effect is a mark or a translation. */
  ghost predicate Plain(r: Rule, markChain: string) {
    && (r.target.Dnat? || r.target == Jump(markChain))
    && forall i :: 0 <= i < |r.matches| ==> !r.matches[i].MarkIs?
  }

  lemma PlainMatch(r: Rule, markChain: string, pkt: Packet, marks: set<nat>, marks': set<nat>, judge: Judge)
    requires Plain(r, markChain)
    ensures MatchAll(r.matches, pkt, marks, judge) <==> MatchAll(r.matches, pkt, marks', judge)
  {
    forall i | 0 <= i < |r.matches|
      ensures MatchOne(r.matches[i], pkt, marks, judge) <==> MatchOne(r.matches[i], pkt, marks', judge)
    {
    }
  }

  /** The mark chain, if rules jump to it, sets a bit. */
  ghost predicate MarksIfUsed(t: Table, rules: seq<Rule>, markChain: string, bit: nat) {
    (exists r :: r in rules && r.target == Jump(markChain)) ==> Marks(t, markChain, bit)
  }

  /** A plain rule either translates or adds the bit to the marks. */
  lemma PlainExecutes(t: Table, r: Rule, markChain: string, bit: nat, pkt: Packet, marks: set<nat>, judge: Judge,
                      depth: nat)
    requires Plain(r, markChain) && depth >= 1 && (r.target == Jump(markChain) ==> Marks(t, markChain, bit))
    ensures Execute(t, r, pkt, marks, judge, depth)
         == if !MatchAll(r.matches, pkt, marks, judge) then Fall(marks)
            else if r.target.Dnat? then Translated(r.target.ip, r.target.port, marks)
            else Fall(marks + {bit})
  {
    hide MatchAll;
    hide Marks;
    if r.target.Jump? {
      MarkJump(t, r.matches, markChain, bit, pkt, marks, judge, depth);
    }
  }

  /** Once a list was walked to its end, executing one of its rules again changes nothing. */
  lemma {:induction false} FallAbsorbs(t: Table, rules: seq<Rule>, markChain: string, bit: nat, pkt: Packet,
                                       marks: set<nat>, judge: Judge, depth: nat)
    requires forall r :: r in rules ==> Plain(r, markChain)
    requires MarksIfUsed(t, rules, markChain, bit) && depth >= 1
    requires Walk(t, rules, pkt, marks, judge, depth).Fall?
    ensures var marks' := Walk(t, rules, pkt, marks, judge, depth).marks;
      && marks <= marks'
      && forall r :: r in rules ==> Execute(t, r, pkt, marks', judge, depth) == Fall(marks')
    decreases |rules|
  {
    hide Execute;
    hide MatchAll;
    hide Plain;
    hide Marks;
    if rules != [] {
      var r := rules[0];
      assert r in rules;
      PlainExecutes(t, r, markChain, bit, pkt, marks, judge, depth);
      var next := Execute(t, r, pkt, marks, judge, depth);
      assert forall s :: s in rules[1..] ==> s in rules;
      FallAbsorbs(t, rules[1..], markChain, bit, pkt, next.marks, judge, depth);
      var marks' := Walk(t, rules, pkt, marks, judge, depth).marks;
      PlainExecutes(t, r, markChain, bit, pkt, marks', judge, depth);
      PlainMatch(r, markChain, pkt, marks, marks', judge);
      assert bit in marks' ==> marks' + {bit} == marks';
      forall s | s in rules ensures Execute(t, s, pkt, marks', judge, depth) == Fall(marks') {
        assert s == r || s in rules[1..];
      }
    }
  }

  /** Leaving out rules that were there before does not change the walk. */
  lemma {:induction false} MergeKeepsMeaning(t: Table, prior: seq<Rule>, rules: seq<Rule>, markChain: string, bit: nat,
                                             pkt: Packet, marks: set<nat>, judge: Judge, depth: nat)
    requires forall r :: r in prior + rules ==> Plain(r, markChain)
    requires MarksIfUsed(t, prior + rules, markChain, bit) && depth >= 1
    ensures Walk(t, Merge(false, prior, rules), pkt, marks, judge, depth)
         == Walk(t, prior + rules, pkt, marks, judge, depth)
    decreases rules
  {
    hide Execute;
    hide Plain;
    hide Marks;
    if rules == [] {
      assert prior + rules == prior;
    } else {
      var r, rest := rules[0], rules[1..];
      var next := if r in prior then prior else prior + [r];
      assert prior + rules == prior + ([r] + rest) == prior + [r] + rest;
      assert forall s :: s in next + rest ==> s in prior + rules;
      MergeKeepsMeaning(t, next, rest, markChain, bit, pkt, marks, judge, depth);
      if r in prior {
        SkipRepeated(t, prior, r, rest, markChain, bit, pkt, marks, judge, depth);
      }
    }
  }

  lemma SkipRepeated(t: Table, prior: seq<Rule>, r: Rule, rest: seq<Rule>, markChain: string, bit: nat, pkt: Packet,
                     marks: set<nat>, judge: Judge, depth: nat)
    requires r in prior && (forall s :: s in prior ==> Plain(s, markChain))
    requires MarksIfUsed(t, prior, markChain, bit) && depth >= 1
    ensures Walk(t, prior + ([r] + rest), pkt, marks, judge, depth) == Walk(t, prior + rest, pkt, marks, judge, depth)
  {
    hide Execute;
    hide Plain;
    hide MarksIfUsed;
    var v := Walk(t, prior, pkt, marks, judge, depth);
    WalkConcat(t, prior, [r] + rest, pkt, marks, judge, depth);
    WalkConcat(t, prior, rest, pkt, marks, judge, depth);
    if v.Fall? {
      FallAbsorbs(t, prior, markChain, bit, pkt, marks, judge, depth);
      WalkConcat(t, [r], rest, pkt, v.marks, judge, depth);
      WalkOne(t, r, pkt, v.marks, judge, depth);
    }
  }

  /** A rule that leaves the packet's marks alone unless it ends the walk. */
  predicate Transparent(t: Table, r: Rule, pkt: Packet, marks: set<nat>, judge: Judge, depth: nat) {
    var v := Execute(t, r, pkt, marks, judge, depth);
    v.Fall? ==> v == Fall(marks)
  }

  lemma {:induction false} TransparentFall(t: Table, rules: seq<Rule>, pkt: Packet, marks: set<nat>, judge: Judge,
                                           depth: nat)
    requires forall r :: r in rules ==> Transparent(t, r, pkt, marks, judge, depth)
    requires Walk(t, rules, pkt, marks, judge, depth).Fall?
    ensures Walk(t, rules, pkt, marks, judge, depth) == Fall(marks)
    ensures forall r :: r in rules ==> Execute(t, r, pkt, marks, judge, depth) == Fall(marks)
    decreases |rules|
  {
    hide Execute;
    if rules != [] {
      assert rules[0] in rules && forall r :: r in rules[1..] ==> r in rules;
      TransparentFall(t, rules[1..], pkt, marks, judge, depth);
      assert forall r :: r in rules ==> r == rules[0] || r in rules[1..];
    }
  }

  /** Leaving out transparent rules that were there before does not change the walk either. */
  lemma {:induction false} TransparentMerge(t: Table, prior: seq<Rule>, rules: seq<Rule>, pkt: Packet, marks: set<nat>,
                                            judge: Judge, depth: nat)
    requires forall r :: r in prior + rules ==> Transparent(t, r, pkt, marks, judge, depth)
    ensures Walk(t, Merge(false, prior, rules), pkt, marks, judge, depth)
         == Walk(t, prior + rules, pkt, marks, judge, depth)
    decreases rules
  {
    hide Execute;
    hide Transparent;
    if rules == [] {
      assert prior + rules == prior;
    } else {
      var r, rest := rules[0], rules[1..];
      var next := if r in prior then prior else prior + [r];
      assert prior + rules == prior + ([r] + rest) == prior + [r] + rest;
      assert forall q :: q in next + rest ==> q in prior + rules;
      TransparentMerge(t, next, rest, pkt, marks, judge, depth);
      if r in prior {
        SkipTransparent(t, prior, r, rest, pkt, marks, judge, depth);
      }
    }
  }

  lemma SkipTransparent(t: Table, prior: seq<Rule>, r: Rule, rest: seq<Rule>, pkt: Packet, marks: set<nat>,
                        judge: Judge, depth: nat)
    requires r in prior && forall q :: q in prior ==> Transparent(t, q, pkt, marks, judge, depth)
    ensures Walk(t, prior + ([r] + rest), pkt, marks, judge, depth) == Walk(t, prior + rest, pkt, marks, judge, depth)
  {
    hide Execute;
    hide Transparent;
    WalkConcat(t, prior, [r] + rest, pkt, marks, judge, depth);
    WalkConcat(t, prior, rest, pkt, marks, judge, depth);
    if Walk(t, prior, pkt, marks, judge, depth).Fall? {
      TransparentFall(t, prior, pkt, marks, judge, depth);
      WalkConcat(t, [r], rest, pkt, marks, judge, depth);
      WalkOne(t, r, pkt, marks, judge, depth);
    }
  }

  lemma {:induction false} DnatRulesPlain(config: PortMapConf, net: IPNet, entries: seq<PortMapEntry>)
    ensures forall r :: r in DnatRules(config, net, entries) ==> Plain(r, SetMarkName(config))
    ensures forall r :: r in DnatRules(config, net, entries) && r.target.Jump? ==> config.snat
  {
    if entries != [] {
      var n := |entries| - 1;
      DnatRulesPlain(config, net, entries[..n]);
      MappingRulesPlain(config, net, entries[n]);
    }
  }

  lemma MappingRulesPlain(config: PortMapConf, net: IPNet, e: PortMapEntry)
    ensures forall r :: r in MappingRules(config, net, e) ==>
      Plain(r, SetMarkName(config)) && (r.target.Jump? ==> config.snat)
  {
    hide IsUnspecified;
    hide IsV6;
    hide Skipped;
  }

  /** The rules either translate to the container or jump to the user's mark chain, if given, else to the plugin's. */
  lemma {:induction false} DnatRuleTargets(config: PortMapConf, net: IPNet, entries: seq<PortMapEntry>, r: Rule)
    requires r in DnatRules(config, net, entries)
    ensures r.target ==
      if r.target.Dnat? then Dnat(net.ip, r.target.port)
      else if config.externalSetMarkChain.Some? then Jump(config.externalSetMarkChain.value)
      else Jump("CNI-HOSTPORT-SETMARK")
    ensures !r.target.Dnat? ==> config.snat
    ensures r.target.Dnat? ==> exists e :: e in entries && e.containerPort == r.target.port
  {
    hide RuleBase;
    hide IsV6;
    hide Skipped;
    var n := |entries| - 1;
    if r in DnatRules(config, net, entries[..n]) {
      DnatRuleTargets(config, net, entries[..n], r);
    } else {
      assert r in MappingRules(config, net, entries[n]);
    }
  }

  /** The installed chain of a container, duplicates dropped, means the scan of its mappings. */
  lemma InstalledRulesMean(t: Table, config: PortMapConf, net: IPNet, bit: nat, pkt: Packet, marks: set<nat>,
                           judge: Judge, depth: nat)
    requires config.snat ==> Marks(t, SetMarkName(config), bit)
    requires depth >= 1
    ensures Walk(t, Merge(false, [], DnatRules(config, net, config.portMaps)), pkt, marks, judge, depth)
         == Scan(config, net, config.portMaps, bit, pkt, marks)
  {
    hide *;
    var rules := DnatRules(config, net, config.portMaps);
    DnatRulesPlain(config, net, config.portMaps);
    assert [] + rules == rules;
    UsedOnlyWithSnat(t, rules, config, bit);
    MergeKeepsMeaning(t, [], rules, SetMarkName(config), bit, pkt, marks, judge, depth);
    DnatRulesMean(t, config, net, config.portMaps, bit, pkt, marks, judge, depth);
  }

  lemma UsedOnlyWithSnat(t: Table, rules: seq<Rule>, config: PortMapConf, bit: nat)
    requires forall r :: r in rules && r.target.Jump? ==> config.snat
    requires config.snat ==> Marks(t, SetMarkName(config), bit)
    ensures MarksIfUsed(t, rules, SetMarkName(config), bit)
  {
    hide Marks;
  }

  // ---- Entry rules ----

  /** The user's conditions for the container's family accept the packet. */
  predicate Admitted(config: PortMapConf, isV6: bool, pkt: Packet, judge: Judge) {
    var conditions := if isV6 then config.conditionsV6 else config.conditionsV4;
    conditions.Some? && conditions.value != [] ==> judge(conditions.value, pkt)
  }

  lemma EntryMatchExact(config: PortMapConf, isV6: bool, proto: string, ports: seq<int>, pkt: Packet, marks: set<nat>,
                        judge: Judge)
    ensures MatchAll(EntryMatch(config, isV6, proto, ports), pkt, marks, judge)
       <==> proto == pkt.proto && pkt.dport in ports && Admitted(config, isV6, pkt, judge)
  {
    hide DnatComment;
    var ms, extra := EntryMatch(config, isV6, proto, ports), ExtraConditions(config, isV6);
    assert ms[0] == Comment(DnatComment(config)) && ms[1] == Proto(proto) && ms[2] == DPorts(ports);
    if extra != [] {
      assert ms[3] == extra[0] && |ms| == 4;
    } else {
      assert |ms| == 3;
    }
  }

  /** Some entry rule matches the packet. */
  ghost predicate SomeEntry(entries: seq<seq<Match>>, pkt: Packet, marks: set<nat>, judge: Judge) {
    exists ms :: ms in entries && MatchAll(ms, pkt, marks, judge)
  }

  lemma {:induction false} EntryRulesForExact(config: PortMapConf, isV6: bool, protos: seq<string>, pkt: Packet,
                                              marks: set<nat>, judge: Judge)
    ensures SomeEntry(EntryRulesFor(config, isV6, protos), pkt, marks, judge)
       <==>
         && pkt.proto in protos && pkt.dport in PortsOf(config.portMaps, pkt.proto)
         && Admitted(config, isV6, pkt, judge)
    decreases |protos|
  {
    hide Chunks;
    hide PortsOf;
    hide MatchAll;
    hide Admitted;
    hide EntryMatch;
    if protos != [] {
      var n := |protos| - 1;
      var ports := PortsOf(config.portMaps, protos[n]);
      var added := ProtoEntries(config, isV6, protos[n], Chunks(ports));
      EntryRulesForExact(config, isV6, protos[..n], pkt, marks, judge);
      ProtoEntriesExact(config, isV6, protos[n], ports, pkt, marks, judge);
      SomeEntryConcat(EntryRulesFor(config, isV6, protos[..n]), added, pkt, marks, judge);
      assert protos == protos[..n] + [protos[n]];
    }
  }

  lemma SomeEntryConcat(a: seq<seq<Match>>, b: seq<seq<Match>>, pkt: Packet, marks: set<nat>, judge: Judge)
    ensures SomeEntry(a + b, pkt, marks, judge) <==> SomeEntry(a, pkt, marks, judge) || SomeEntry(b, pkt, marks, judge)
  {
    hide MatchAll;
  }

  lemma ProtoEntriesExact(config: PortMapConf, isV6: bool, proto: string, ports: seq<int>, pkt: Packet, marks: set<nat>,
                          judge: Judge)
    ensures SomeEntry(ProtoEntries(config, isV6, proto, Chunks(ports)), pkt, marks, judge)
       <==> proto == pkt.proto && pkt.dport in ports && Admitted(config, isV6, pkt, judge)
  {
    hide Chunks;
    hide MatchAll;
    hide Admitted;
    hide EntryMatch;
    var chunks := Chunks(ports);
    var entries := ProtoEntries(config, isV6, proto, chunks);
    ChunksExact(ports);
    forall i | 0 <= i < |chunks| ensures
      (MatchAll(entries[i], pkt, marks, judge) <==>
         proto == pkt.proto && pkt.dport in chunks[i] && Admitted(config, isV6, pkt, judge))
    {
      EntryMatchExact(config, isV6, proto, chunks[i], pkt, marks, judge);
    }
    if pkt.dport in ports {
      var c :| c in chunks && pkt.dport in c;
      var i :| 0 <= i < |chunks| && chunks[i] == c;
      assert entries[i] in entries;
    }
  }

  /** The entry rules let through exactly the admitted packets to one of the mapped ports. */
  lemma EntryRulesExact(config: PortMapConf, isV6: bool, pkt: Packet, marks: set<nat>, judge: Judge)
    ensures SomeEntry(EntryRules(config, isV6), pkt, marks, judge)
       <==>
         && Admitted(config, isV6, pkt, judge)
         && exists e :: e in config.portMaps && e.protocol == pkt.proto && e.hostPort == pkt.dport
  {
    hide MatchAll;
    hide Admitted;
    hide EntryRulesFor;
    hide PortsOf;
    hide StringLess;
    EntryRulesForExact(config, isV6, SortedProtos(config.portMaps), pkt, marks, judge);
    PortsExact(config.portMaps, pkt.proto);
  }

  /** A fitting mapping is among those the entry rules stand for. */
  lemma {:induction false} FirstMappingFits(entries: seq<PortMapEntry>, isV6: bool, pkt: Packet)
    ensures FirstMapping(entries, isV6, pkt).Some? ==>
      FirstMapping(entries, isV6, pkt).value in entries && Fits(FirstMapping(entries, isV6, pkt).value, isV6, pkt)
  {
    hide Fits;
    if entries != [] {
      FirstMappingFits(entries[1..], isV6, pkt);
    }
  }

  /** Walking rules that all jump to one chain which leaves the marks alone unless it translates. */
  lemma {:induction false} JumpsWalk(t: Table, rules: seq<Rule>, name: string, pkt: Packet, marks: set<nat>,
                                     judge: Judge, depth: nat)
    requires forall r :: r in rules ==> r.target == Jump(name)
    requires depth >= 1 && name in t
    requires var v := Walk(t, t[name], pkt, marks, judge, depth - 1); v.Fall? ==> v.marks == marks
    ensures Walk(t, rules, pkt, marks, judge, depth) ==
      if exists r :: r in rules && MatchAll(r.matches, pkt, marks, judge)
      then Walk(t, t[name], pkt, marks, judge, depth - 1) else Fall(marks)
    decreases |rules|
  {
    hide MatchAll;
    if rules != [] {
      var r := rules[0];
      assert r in rules;
      assert forall s :: s in rules[1..] ==> s in rules;
      JumpsWalk(t, rules[1..], name, pkt, marks, judge, depth);
      JumpExecutes(t, r, name, pkt, marks, judge, depth);
      assert forall s :: s in rules ==> s == r || s in rules[1..];
    }
  }

  lemma JumpExecutes(t: Table, r: Rule, name: string, pkt: Packet, marks: set<nat>, judge: Judge, depth: nat)
    requires r.target == Jump(name) && depth >= 1 && name in t
    ensures Execute(t, r, pkt, marks, judge, depth)
         == if MatchAll(r.matches, pkt, marks, judge)
            then Walk(t, t[name], pkt, marks, judge, depth - 1) else Fall(marks)
  {
    hide MatchAll;
    hide Walk;
  }

  /** What a container's port forwarding does to a packet. */
  function Forward(config: PortMapConf, net: IPNet, bit: nat, pkt: Packet, marks: set<nat>, judge: Judge): Verdict {
    if Admitted(config, IsV6(net), pkt, judge) then Scan(config, net, config.portMaps, bit, pkt, marks) else Fall(marks)
  }

  /** Port forwarding in full: the first fitting mapping translates an admitted packet, others are left alone. */
  lemma ForwardByIndex(config: PortMapConf, net: IPNet, bit: nat, pkt: Packet, marks: set<nat>, judge: Judge, i: nat)
    requires i < |config.portMaps| && Fits(config.portMaps[i], !IPv4Form(net.ip), pkt)
    requires forall j :: 0 <= j < i ==> !Fits(config.portMaps[j], !IPv4Form(net.ip), pkt)
    ensures Forward(config, net, bit, pkt, marks, judge) ==
      if !Admitted(config, !IPv4Form(net.ip), pkt, judge) then Fall(marks)
      else if config.snat
        && (|| NetContains(net.ip, net.mask, pkt.src)
            || (IPv4Form(net.ip)
                && (pkt.src == [127, 0, 0, 1] || pkt.src == V4_IN_V6_PREFIX + [127, 0, 0, 1])))
      then Translated(net.ip, config.portMaps[i].containerPort, marks + {bit})
      else Translated(net.ip, config.portMaps[i].containerPort, marks)
  {
    hide Fits;
    hide Admitted;
    hide NetContains;
    hide FirstMapping;
    HostAddress(net.ip);
    FirstByIndex(config.portMaps, !IPv4Form(net.ip), pkt, i);
  }

  /** A packet that no mapping fits is left alone. */
  lemma NoForward(config: PortMapConf, net: IPNet, bit: nat, pkt: Packet, marks: set<nat>, judge: Judge)
    requires forall e :: e in config.portMaps ==> !Fits(e, !IPv4Form(net.ip), pkt)
    ensures Forward(config, net, bit, pkt, marks, judge) == Fall(marks)
  {
    hide Fits;
    hide Admitted;
    HostAddress(net.ip);
    FirstMappingFits(config.portMaps, !IPv4Form(net.ip), pkt);
  }

  lemma {:induction false} FirstByIndex(entries: seq<PortMapEntry>, isV6: bool, pkt: Packet, i: nat)
    requires i < |entries| && Fits(entries[i], isV6, pkt)
    requires forall j :: 0 <= j < i ==> !Fits(entries[j], isV6, pkt)
    ensures FirstMapping(entries, isV6, pkt) == Some(entries[i])
  {
    hide Fits;
    if i > 0 {
      FirstByIndex(entries[1..], isV6, pkt, i - 1);
    }
  }

  /**
   * Meaning preservation: the installed entry rules and chain rules of a container treat every
   * packet as the scan of its mappings does.
   */
  lemma ContainerMeans(t: Table, config: PortMapConf, net: IPNet, bit: nat, pkt: Packet, marks: set<nat>, judge: Judge,
                       depth: nat)
    requires config.snat ==> Marks(t, SetMarkName(config), bit)
    requires config.chainName in t && t[config.chainName] == Merge(false, [], DnatRules(config, net, config.portMaps))
    requires depth >= 2
    ensures Walk(t, Merge(false, [], JumpRules(EntryRules(config, IsV6(net)), config.chainName)), pkt, marks, judge,
                 depth)
         == Forward(config, net, bit, pkt, marks, judge)
  {
    hide Walk;
    hide Merge;
    hide DnatRules;
    hide EntryRules;
    hide MatchAll;
    hide Marks;
    hide FirstMapping;
    hide Admitted;
    hide NeedsMark;
    hide IsV6;
    hide SetMarkName;
    var name, isV6 := config.chainName, IsV6(net);
    var entries := EntryRules(config, isV6);
    var jumps := JumpRules(entries, name);
    var installed := Merge(false, [], jumps);
    InstalledRulesMean(t, config, net, bit, pkt, marks, judge, depth - 1);
    MergeSameRules([], jumps);
    JumpsWalk(t, installed, name, pkt, marks, judge, depth);
    EntryRulesExact(config, isV6, pkt, marks, judge);
    FirstMappingFits(config.portMaps, isV6, pkt);
    if ms :| ms in entries && MatchAll(ms, pkt, marks, judge) {
      var i :| 0 <= i < |entries| && entries[i] == ms;
      assert jumps[i] in installed && jumps[i].matches == ms;
    }
    if r :| r in installed && MatchAll(r.matches, pkt, marks, judge) {
      assert r in jumps;
      var i :| 0 <= i < |jumps| && jumps[i] == r;
      assert entries[i] in entries;
    }
  }
}
