/** Compiling port mappings to rules: portmap.go and utils.go. */
module PortmapRules {
  import opened Wrappers
  import opened Bytes
  import opened Cidr
  import opened IPTables
  import opened PortmapChain

  const TOP_LEVEL_DNAT_CHAIN := "CNI-HOSTPORT-DNAT"
  const SET_MARK_CHAIN := "CNI-HOSTPORT-SETMARK"
  const MARK_MASQ_CHAIN := "CNI-HOSTPORT-MASQ"

  /** A decoded mapping; the host address is in the form net.ParseIP gives it. */
  datatype PortMapEntry = PortMapEntry(hostPort: int, containerPort: int, protocol: string, hostIP: Option<IP>)

  /** A decoded configuration; chainName is the name derived from network name and container id. */
  datatype PortMapConf = PortMapConf(
    name: string,
    containerID: string,
    chainName: string,
    portMaps: seq<PortMapEntry>,
    snat: bool,
    conditionsV4: Option<seq<string>>,
    conditionsV6: Option<seq<string>>,
    externalSetMarkChain: Option<string>,
    markMasqBit: nat)

  datatype IPNet = IPNet(ip: IP, mask: seq<Byte>)

  predicate IsV6(net: IPNet) {
    To4(net.ip).None?
  }

  function SetMarkName(config: PortMapConf): string {
    config.externalSetMarkChain.GetOr(SET_MARK_CHAIN)
  }

  function TrimComment(val: string): string {
    if |val| <= 255 then val else val[..253] + "..."
  }

  function DnatComment(config: PortMapConf): string {
    TrimComment("dnat name: \"" + config.name + "\" id: \"" + config.containerID + "\"")
  }

  /**
   * The trimming is to keep comments within the 255 characters that iptables allows. It does so only
   * for those that need no trimming: a trimmed one has 256.
   */
  lemma TrimCommentExactly(val: string)
    ensures |TrimComment(val)| <= 255 <==> |val| <= 255
    ensures |val| <= 255 ==> TrimComment(val) == val
    ensures |val| > 255 ==>
      |TrimComment(val)| == 256 && TrimComment(val)[..253] == val[..253] && TrimComment(val)[253..] == "..."
  {
    if |val| > 255 {
      assert TrimComment(val) == val[..253] + "...";
    }
  }

  /** The comment of a container's rules is within the limit exactly if its two names together have at most 235. */
  lemma DnatCommentFits(config: PortMapConf)
    ensures |DnatComment(config)| <= 255 <==> |config.name| + |config.containerID| <= 235
    ensures |DnatComment(config)| <= 255 ==>
      DnatComment(config) == "dnat name: \"" + config.name + "\" id: \"" + config.containerID + "\""
  {
    hide TrimComment;
    var val := "dnat name: \"" + config.name + "\" id: \"" + config.containerID + "\"";
    TrimCommentExactly(val);
    assert |val| == |config.name| + |config.containerID| + 20;
  }

  function LongNames(): PortMapConf {
    PortMapConf(seq(172, _ => 'n'), seq(64, _ => 'c'), "CNI-DN-1", [], true, None, None, None, 13)
  }

  /** A network name of 172 characters and a container id of 64. */
  lemma LongCommentBreaksTheLimit()
    ensures |DnatComment(LongNames())| == 256
  {
    var config := LongNames();
    DnatCommentFits(config);
    TrimCommentExactly("dnat name: \"" + config.name + "\" id: \"" + config.containerID + "\"");
  }

  // ---- groupByProto ----

  function PortsOf(entries: seq<PortMapEntry>, proto: string): seq<int> {
    if entries == [] then []
    else
      var n := |entries| - 1;
      PortsOf(entries[..n], proto) + (if entries[n].protocol == proto then [entries[n].hostPort] else [])
  }

  function Protocols(entries: seq<PortMapEntry>): set<string> {
    set e | e in entries :: e.protocol
  }

  method GroupByProto(entries: seq<PortMapEntry>) returns (out: map<string, seq<int>>)
    ensures out.Keys == Protocols(entries)
    ensures forall p :: p in out ==> out[p] == PortsOf(entries, p)
  {
    hide PortsOf;
    out := map[];
    if |entries| == 0 {
      return;
    }
    for i := 0 to |entries|
      invariant out.Keys == Protocols(entries[..i])
      invariant forall p :: p in out ==> out[p] == PortsOf(entries[..i], p)
    {
      var e := entries[i];
      assert entries[..i + 1] == entries[..i] + [e];
      assert Protocols(entries[..i + 1]) == Protocols(entries[..i]) + {e.protocol};
      forall p ensures PortsOf(entries[..i + 1], p)
        == PortsOf(entries[..i], p) + if e.protocol == p then [e.hostPort] else []
      {
        OneMorePort(entries[..i], e, p);
      }
      if e.protocol in out {
        out := out[e.protocol := out[e.protocol] + [e.hostPort]];
      } else {
        NoPorts(entries[..i], e.protocol);
        out := out[e.protocol := [e.hostPort]];
      }
    }
    assert entries[..|entries|] == entries;
  }

  lemma {:induction false} PortsExact(entries: seq<PortMapEntry>, proto: string)
    ensures forall n :: n in PortsOf(entries, proto) <==>
      exists e :: e in entries && e.protocol == proto && e.hostPort == n
  {
    if entries != [] {
      var n := |entries| - 1;
      PortsExact(entries[..n], proto);
      assert entries == entries[..n] + [entries[n]];
    }
  }

  /** The ports of a protocol are in the order of the mappings. */
  lemma {:induction false} PortsInOrder(a: seq<PortMapEntry>, b: seq<PortMapEntry>, proto: string)
    ensures PortsOf(a + b, proto) == PortsOf(a, proto) + PortsOf(b, proto)
    ensures |b| == 1 ==> PortsOf(b, proto) == if b[0].protocol == proto then [b[0].hostPort] else []
    decreases |b|
  {
    hide PortsOf;
    OneMorePort([], PortMapEntry(0, 0, "", None), proto);
    if b == [] {
      assert a + b == a;
    } else {
      var n := |b| - 1;
      assert b[..n] + [b[n]] == b && a + b[..n] + [b[n]] == a + b;
      PortsInOrder(a, b[..n], proto);
      OneMorePort(a + b[..n], b[n], proto);
      OneMorePort(b[..n], b[n], proto);
    }
  }

  lemma OneMorePort(entries: seq<PortMapEntry>, e: PortMapEntry, proto: string)
    ensures PortsOf([], proto) == []
    ensures PortsOf(entries + [e], proto)
         == PortsOf(entries, proto) + if e.protocol == proto then [e.hostPort] else []
  {
    assert (entries + [e])[..|entries|] == entries;
  }

  lemma NoPorts(entries: seq<PortMapEntry>, proto: string)
    requires proto !in Protocols(entries)
    ensures PortsOf(entries, proto) == []
  {
    PortsExact(entries, proto);
    HeadIn(PortsOf(entries, proto));
  }

  lemma HeadIn<T>(s: seq<T>)
    ensures s != [] ==> s[0] in s
  {
  }

  // ---- splitPortList ----

  /** Pieces of fifteen ports; only the last may be shorter. */
  function Chunks(l: seq<int>): seq<seq<int>> {
    if l == [] then []
    else if |l| <= 15 then [l]
    else [l[..15]] + Chunks(l[15..])
  }

  lemma ChunkFront(a: seq<int>, b: seq<int>)
    requires |a| == 15
    ensures Chunks(a + b) == [a] + Chunks(b)
  {
    assert (a + b)[..15] == a && (a + b)[15..] == b;
    if b == [] {
      assert a + b == a;
    }
  }

  lemma LastChunk(a: seq<int>)
    requires |a| < 15
    ensures Chunks(a) == if a == [] then [] else [a]
  {
  }

  method SplitPortList(l: seq<int>) returns (out: seq<seq<int>>)
    ensures out == Chunks(l)
  {
    hide Chunks;
    out := [];
    var acc: seq<int> := [];
    assert acc + l[0..] == l;
    for i := 0 to |l|
      invariant |acc| < 15
      invariant out + Chunks(acc + l[i..]) == Chunks(l)
    {
      assert acc + l[i..] == acc + [l[i]] + l[i + 1..];
      acc := acc + [l[i]];
      if |acc| == 15 {
        ChunkFront(acc, l[i + 1..]);
        assert out + ([acc] + Chunks(l[i + 1..])) == out + [acc] + Chunks(l[i + 1..]);
        out := out + [acc];
        acc := [];
        assert acc + l[i + 1..] == l[i + 1..];
      }
    }
    assert acc + l[|l|..] == acc;
    LastChunk(acc);
    if |acc| > 0 {
      out := out + [acc];
    }
  }

  /** The pieces have one to fifteen ports each and hold the given ports in order. */
  lemma {:induction false} ChunksExact(l: seq<int>)
    ensures forall c :: c in Chunks(l) ==> 1 <= |c| <= 15
    ensures Flatten(Chunks(l)) == l
    ensures forall n :: n in l <==> exists c :: c in Chunks(l) && n in c
    decreases |l|
  {
    if |l| > 15 {
      ChunksExact(l[15..]);
      assert l == l[..15] + l[15..];
      assert Chunks(l)[1..] == Chunks(l[15..]);
    } else if l != [] {
      assert Flatten([l]) == l + Flatten([]);
      assert l in Chunks(l);
    }
  }

  function Flatten<T>(s: seq<seq<T>>): seq<T> {
    if s == [] then [] else s[0] + Flatten(s[1..])
  }

  // ---- sort.Strings ----

  predicate StringLess(a: string, b: string) {
    b != [] && (a == [] || a[0] < b[0] || (a[0] == b[0] && StringLess(a[1..], b[1..])))
  }

  lemma {:induction false} StringOrder(a: string, b: string, c: string)
    ensures !(StringLess(a, b) && StringLess(b, a))
    ensures StringLess(a, b) || StringLess(b, a) || a == b
    ensures StringLess(a, b) && StringLess(b, c) ==> StringLess(a, c)
    decreases |a| + |b| + |c|
  {
    if a != [] && b != [] {
      StringOrder(a[1..], b[1..], if c == [] then [] else c[1..]);
      assert a == [a[0]] + a[1..] && b == [b[0]] + b[1..];
    }
  }

  function InsertString(x: string, s: seq<string>): seq<string> {
    if s == [] || !StringLess(s[0], x) then [x] + s else [s[0]] + InsertString(x, s[1..])
  }

  function SortStrings(s: seq<string>): seq<string> {
    if s == [] then [] else InsertString(s[0], SortStrings(s[1..]))
  }

  /** Strictly ascending, with exactly the given elements. */
  ghost predicate IsSortedList(s: seq<string>, keys: set<string>) {
    && (forall i, j :: 0 <= i < j < |s| ==> StringLess(s[i], s[j]))
    && forall x :: x in s <==> x in keys
  }

  lemma {:induction false} InsertKeepsSorted(x: string, s: seq<string>, keys: set<string>)
    requires IsSortedList(s, keys) && x !in keys
    ensures IsSortedList(InsertString(x, s), keys + {x})
  {
    if s == [] {
    } else {
      StringOrder(s[0], x, x);
      assert s[0] in s;
      if StringLess(s[0], x) {
        forall y | y in s[1..] ensures y in keys - {s[0]} {
          var j :| 0 <= j < |s| - 1 && s[1..][j] == y;
          assert StringLess(s[0], s[j + 1]);
          StringOrder(s[0], s[0], s[0]);
        }
        InsertKeepsSorted(x, s[1..], keys - {s[0]});
        var rest := InsertString(x, s[1..]);
        forall y | y in rest ensures StringLess(s[0], y) {
          if y != x {
            assert y in s[1..];
            var j :| 0 <= j < |s| - 1 && s[1..][j] == y;
            assert StringLess(s[0], s[j + 1]);
          }
        }
      } else {
        forall j | 0 <= j < |s| ensures StringLess(x, s[j]) {
          if j > 0 {
            StringOrder(x, s[0], s[j]);
          }
        }
      }
    }
  }

  lemma {:induction false} SortStringsExact(s: seq<string>)
    requires forall i, j :: 0 <= i < j < |s| ==> s[i] != s[j]
    ensures IsSortedList(SortStrings(s), set x | x in s)
  {
    if s != [] {
      SortStringsExact(s[1..]);
      assert forall j :: 0 <= j < |s| - 1 ==> s[1..][j] == s[j + 1];
      InsertKeepsSorted(s[0], SortStrings(s[1..]), set x | x in s[1..]);
      assert (set x | x in s[1..]) + {s[0]} == set x | x in s;
    }
  }

  /** A set has one sorted list only, so the order in which a map is walked does not matter. */
  lemma {:induction false} SortedListUnique(s: seq<string>, p: seq<string>, keys: set<string>)
    requires IsSortedList(s, keys) && IsSortedList(p, keys)
    ensures s == p
    decreases |s|
  {
    HeadIn(s);
    HeadIn(p);
    if s != [] && p != [] {
      HeadIsLeast(s, p, keys);
      TailSorted(s, keys);
      TailSorted(p, keys);
      SortedListUnique(s[1..], p[1..], keys - {s[0]});
      assert s == [s[0]] + s[1..] && p == [p[0]] + p[1..];
    }
  }

  lemma HeadIsLeast(s: seq<string>, p: seq<string>, keys: set<string>)
    requires IsSortedList(s, keys) && IsSortedList(p, keys) && s != [] && p != []
    ensures s[0] == p[0]
  {
    assert p[0] in s && s[0] in p;
    var i :| 0 <= i < |s| && s[i] == p[0];
    var j :| 0 <= j < |p| && p[j] == s[0];
    StringOrder(s[0], p[0], s[0]);
  }

  lemma TailSorted(s: seq<string>, keys: set<string>)
    requires IsSortedList(s, keys) && s != []
    ensures IsSortedList(s[1..], keys - {s[0]})
  {
    assert s == [s[0]] + s[1..];
    forall i | 0 < i < |s| ensures s[i] != s[0] {
      StringOrder(s[0], s[i], s[0]);
    }
  }

  // ---- fillDnatRules ----

  function ExtraConditions(config: PortMapConf, isV6: bool): seq<Match> {
    if isV6 && config.conditionsV6.Some? && |config.conditionsV6.value| > 0 then [Conditions(config.conditionsV6.value)]
    else if !isV6 && config.conditionsV4.Some? && |config.conditionsV4.value| > 0
    then [Conditions(config.conditionsV4.value)]
    else []
  }

  function EntryMatch(config: PortMapConf, isV6: bool, proto: string, ports: seq<int>): seq<Match> {
    [Comment(DnatComment(config)), Proto(proto), DPorts(ports)] + ExtraConditions(config, isV6)
  }

  function ProtoEntries(config: PortMapConf, isV6: bool, proto: string, chunks: seq<seq<int>>): (r: seq<seq<Match>>)
    ensures |r| == |chunks| && forall i :: 0 <= i < |r| ==> r[i] == EntryMatch(config, isV6, proto, chunks[i])
  {
    seq(|chunks|, i requires 0 <= i < |chunks| => EntryMatch(config, isV6, proto, chunks[i]))
  }

  function EntryRulesFor(config: PortMapConf, isV6: bool, protos: seq<string>): seq<seq<Match>> {
    if protos == [] then []
    else
      var n := |protos| - 1;
      EntryRulesFor(config, isV6, protos[..n])
      + ProtoEntries(config, isV6, protos[n], Chunks(PortsOf(config.portMaps, protos[n])))
  }

  /** The ports that the entry rules list for a protocol, in the order of the rules. */
  function ListedPorts(rules: seq<seq<Match>>, proto: string): seq<int> {
    if rules == [] then []
    else
      var r := rules[0];
      (if |r| >= 3 && r[1] == Proto(proto) && r[2].DPorts? then r[2].ports else []) + ListedPorts(rules[1..], proto)
  }

  lemma {:induction false} ListedConcat(a: seq<seq<Match>>, b: seq<seq<Match>>, proto: string)
    ensures ListedPorts(a + b, proto) == ListedPorts(a, proto) + ListedPorts(b, proto)
    decreases |a|
  {
    if a == [] {
      assert a + b == b;
    } else {
      assert (a + b)[1..] == a[1..] + b;
      ListedConcat(a[1..], b, proto);
    }
  }

  lemma {:induction false} ListedOfProto(config: PortMapConf, isV6: bool, p: string, chunks: seq<seq<int>>,
                                         proto: string)
    ensures ListedPorts(ProtoEntries(config, isV6, p, chunks), proto) == if p == proto then Flatten(chunks) else []
    decreases |chunks|
  {
    hide DnatComment;
    hide ExtraConditions;
    if chunks != [] {
      var entries := ProtoEntries(config, isV6, p, chunks);
      assert entries[1..] == ProtoEntries(config, isV6, p, chunks[1..]);
      ListedOfProto(config, isV6, p, chunks[1..], proto);
    }
  }

  lemma {:induction false} ListedFor(config: PortMapConf, isV6: bool, protos: seq<string>, proto: string)
    requires forall i, j :: 0 <= i < j < |protos| ==> protos[i] != protos[j]
    ensures ListedPorts(EntryRulesFor(config, isV6, protos), proto)
         == if proto in protos then PortsOf(config.portMaps, proto) else []
    decreases |protos|
  {
    hide *;
    NothingListed(proto);
    var n := |protos|;
    EntryRulesSteps(config, isV6, protos, n);
    assert protos[..n] == protos;
    if n > 0 {
      var ports := PortsOf(config.portMaps, protos[n - 1]);
      var before := EntryRulesFor(config, isV6, protos[..n - 1]);
      ListedFor(config, isV6, protos[..n - 1], proto);
      ListedConcat(before, ProtoEntries(config, isV6, protos[n - 1], Chunks(ports)), proto);
      ListedOfProto(config, isV6, protos[n - 1], Chunks(ports), proto);
      ChunksExact(ports);
    }
  }

  lemma NothingListed(proto: string)
    ensures ListedPorts([], proto) == []
  {
  }

  /** The entry rules list the ports of every protocol in the order of the mappings, each as often as it is mapped. */
  lemma EntryRulesListPorts(config: PortMapConf, isV6: bool, proto: string)
    ensures ListedPorts(EntryRules(config, isV6), proto) == PortsOf(config.portMaps, proto)
  {
    hide ListedPorts;
    hide EntryRulesFor;
    hide PortsOf;
    var protos := SortedProtos(config.portMaps);
    forall i, j | 0 <= i < j < |protos| ensures protos[i] != protos[j] {
      StringOrder(protos[i], protos[j], protos[i]);
    }
    ListedFor(config, isV6, protos, proto);
    if proto !in Protocols(config.portMaps) {
      NoPorts(config.portMaps, proto);
    }
  }

  /** The protocols of the entry rules ascend. */
  lemma {:induction false} EntryRulesAscend(config: PortMapConf, isV6: bool, protos: seq<string>)
    requires forall i, j :: 0 <= i < j < |protos| ==> StringLess(protos[i], protos[j])
    ensures forall k :: 0 <= k < |EntryRulesFor(config, isV6, protos)| ==>
      ProtoOf(EntryRulesFor(config, isV6, protos)[k]) in protos
    ensures forall k, l :: 0 <= k < l < |EntryRulesFor(config, isV6, protos)| ==>
      var a, b := ProtoOf(EntryRulesFor(config, isV6, protos)[k]), ProtoOf(EntryRulesFor(config, isV6, protos)[l]);
      a == b || StringLess(a, b)
    decreases |protos|
  {
    hide PortsOf;
    hide Chunks;
    hide StringLess;
    hide DnatComment;
    hide ExtraConditions;
    if protos != [] {
      var n := |protos| - 1;
      EntryRulesAscend(config, isV6, protos[..n]);
      var front := EntryRulesFor(config, isV6, protos[..n]);
      var all := EntryRulesFor(config, isV6, protos);
      assert forall k :: 0 <= k < |all| ==> (if k < |front| then all[k] == front[k] else ProtoOf(all[k]) == protos[n]);
      assert forall i :: 0 <= i < n ==> protos[..n][i] == protos[i];
    }
  }

  function ProtoOf(r: seq<Match>): string {
    if |r| >= 2 && r[1].Proto? then r[1].proto else ""
  }

  /** The protocols of the mappings, sorted. */
  ghost function SortedProtos(entries: seq<PortMapEntry>): (protos: seq<string>)
    ensures IsSortedList(protos, Protocols(entries))
  {
    var listed := SetToSeq(Protocols(entries));
    SortStringsExact(listed);
    assert (set x | x in listed) == Protocols(entries);
    SortStrings(listed)
  }

  ghost function SetToSeq(s: set<string>): (r: seq<string>)
    ensures forall x :: x in r <==> x in s
    ensures forall i, j :: 0 <= i < j < |r| ==> r[i] != r[j]
  {
    if s == {} then [] else var x :| x in s; [x] + SetToSeq(s - {x})
  }

  ghost function EntryRules(config: PortMapConf, isV6: bool): seq<seq<Match>> {
    EntryRulesFor(config, isV6, SortedProtos(config.portMaps))
  }

  const UNSPECIFIED_V4: IP := V4_IN_V6_PREFIX + [0, 0, 0, 0]
  const UNSPECIFIED_V6: IP := [0, 0, 0, 0, 0, 0, 0, 0, 0, 0, 0, 0, 0, 0, 0, 0]

  predicate IsUnspecified(ip: IP) {
    Equal(ip, UNSPECIFIED_V4) || Equal(ip, UNSPECIFIED_V6)
  }

  /** A mapping whose host address is of the other family yields no rules. */
  predicate Skipped(e: PortMapEntry, isV6: bool) {
    e.hostIP.Some? && isV6 != To4(e.hostIP.value).None?
  }

  function RuleBase(e: PortMapEntry): seq<Match> {
    [Proto(e.protocol), DPort(e.hostPort)] +
    (if e.hostIP.Some? && !IsUnspecified(e.hostIP.value) then [Dst(e.hostIP.value)] else [])
  }

  function MarkRules(config: PortMapConf, net: IPNet, e: PortMapEntry): seq<Rule> {
    if !config.snat then []
    else
      [Rule(RuleBase(e) + [SrcNet(net.ip, net.mask)], Jump(SetMarkName(config)))] +
      (if IsV6(net) then [] else [Rule(RuleBase(e) + [Src([127, 0, 0, 1])], Jump(SetMarkName(config)))])
  }

  /** The rules of one mapping: mark hairpin traffic, mark local traffic, translate. */
  function MappingRules(config: PortMapConf, net: IPNet, e: PortMapEntry): seq<Rule> {
    if Skipped(e, IsV6(net)) then []
    else MarkRules(config, net, e) + [Rule(RuleBase(e), Dnat(net.ip, e.containerPort))]
  }

  function DnatRules(config: PortMapConf, net: IPNet, entries: seq<PortMapEntry>): seq<Rule> {
    if entries == [] then []
    else
      var n := |entries| - 1;
      DnatRules(config, net, entries[..n]) + MappingRules(config, net, entries[n])
  }

  method FillDnatRules(c: Chain, config: PortMapConf, containerNet: IPNet)
    modifies c
    ensures c.entryRules == old(c.entryRules) + EntryRules(config, IsV6(containerNet))
    ensures c.rules == DnatRules(config, containerNet, config.portMaps)
  {
    hide DnatRules;
    FillEntryRules(c, config, IsV6(containerNet));
    var entries := config.portMaps;
    c.rules := [];
    RulesOfNone(config, containerNet);
    for i := 0 to |entries|
      invariant c.rules == DnatRules(config, containerNet, entries[..i])
      invariant c.entryRules == old(c.entryRules) + EntryRules(config, IsV6(containerNet))
    {
      AddMapping(c, config, containerNet, entries[i]);
      RulesOfOneMore(config, containerNet, entries, i);
    }
    assert entries[..|entries|] == entries;
  }

  lemma RulesOfNone(config: PortMapConf, net: IPNet)
    ensures DnatRules(config, net, []) == []
  {
  }

  lemma RulesOfOneMore(config: PortMapConf, net: IPNet, entries: seq<PortMapEntry>, i: nat)
    requires i < |entries|
    ensures DnatRules(config, net, entries[..i + 1])
         == DnatRules(config, net, entries[..i]) + MappingRules(config, net, entries[i])
  {
    hide MappingRules;
    assert entries[..i + 1][..i] == entries[..i];
  }

  /** The loop body of fillDnatRules for one mapping. */
  method AddMapping(c: Chain, config: PortMapConf, containerNet: IPNet, entry: PortMapEntry)
    modifies c`rules
    ensures c.rules == old(c.rules) + MappingRules(config, containerNet, entry)
    ensures c.rules == old(c.rules) <==>
      entry.hostIP.Some? && !(To4(entry.hostIP.value).Some? <==> To4(containerNet.ip).Some?)
    ensures |c.rules| > |old(c.rules)| ==>
      c.rules[|c.rules| - 1].target == Dnat(containerNet.ip, entry.containerPort)
  {
    hide To4;
    hide IsUnspecified;
    var isV6 := To4(containerNet.ip).None?;
    var addRuleBaseDst := false;
    if entry.hostIP.Some? {
      var hostIP := entry.hostIP.value;
      if isV6 != To4(hostIP).None? {
        return;
      }
      if !IsUnspecified(hostIP) {
        addRuleBaseDst := true;
      }
    }
    var ruleBase := [Proto(entry.protocol), DPort(entry.hostPort)];
    if addRuleBaseDst {
      ruleBase := ruleBase + [Dst(entry.hostIP.value)];
    }
    assert ruleBase == RuleBase(entry);
    if config.snat {
      c.rules := c.rules + [Rule(ruleBase + [SrcNet(containerNet.ip, containerNet.mask)], Jump(SetMarkName(config)))];
      if !isV6 {
        c.rules := c.rules + [Rule(ruleBase + [Src([127, 0, 0, 1])], Jump(SetMarkName(config)))];
      }
    }
    assert c.rules == old(c.rules) + MarkRules(config, containerNet, entry);
    c.rules := c.rules + [Rule(ruleBase, Dnat(containerNet.ip, entry.containerPort))];
  }

  /** The entry rules: protocols in sorted order, each port list split for multiport. */
  method FillEntryRules(c: Chain, config: PortMapConf, isV6: bool)
    modifies c`entryRules
    ensures c.entryRules == old(c.entryRules) + EntryRules(config, isV6)
  {
    hide *;
    var protoPorts := GroupByProto(config.portMaps);
    var protos := CollectProtos(protoPorts);
    SortedListUnique(protos, SortedProtos(config.portMaps), Protocols(config.portMaps));
    EntryRulesSteps(config, isV6, protos, 0);
    for i := 0 to |protos|
      invariant c.entryRules == old(c.entryRules) + EntryRulesFor(config, isV6, protos[..i])
    {
      SortedMember(protos, protoPorts.Keys, i);
      ghost var done := EntryRulesFor(config, isV6, protos[..i]);
      ghost var added := ProtoEntries(config, isV6, protos[i], Chunks(protoPorts[protos[i]]));
      var chunks := SplitPortList(protoPorts[protos[i]]);
      AddProto(c, config, isV6, protos[i], chunks);
      assert c.entryRules == old(c.entryRules) + (done + added);
      EntryRulesSteps(config, isV6, protos, i + 1);
    }
    assert protos[..|protos|] == protos;
    EntryRulesDef(config, isV6, protos);
  }

  lemma EntryRulesDef(config: PortMapConf, isV6: bool, protos: seq<string>)
    requires protos == SortedProtos(config.portMaps)
    ensures EntryRules(config, isV6) == EntryRulesFor(config, isV6, protos)
  {
  }

  lemma SortedMember(s: seq<string>, keys: set<string>, i: nat)
    requires IsSortedList(s, keys) && i < |s|
    ensures s[i] in keys
  {
    assert s[i] in s;
  }

  lemma EntryRulesSteps(config: PortMapConf, isV6: bool, protos: seq<string>, i: nat)
    requires i <= |protos|
    ensures i == 0 ==> EntryRulesFor(config, isV6, protos[..i]) == []
    ensures i > 0 ==>
      var added := ProtoEntries(config, isV6, protos[i - 1], Chunks(PortsOf(config.portMaps, protos[i - 1])));
      EntryRulesFor(config, isV6, protos[..i]) == EntryRulesFor(config, isV6, protos[..i - 1]) + added
  {
    hide ProtoEntries;
    hide Chunks;
    hide PortsOf;
    if i > 0 {
      assert protos[..i][..i - 1] == protos[..i - 1];
    }
  }

  /** The keys of the map, collected in any order and sorted. */
  method CollectProtos(protoPorts: map<string, seq<int>>) returns (protos: seq<string>)
    ensures IsSortedList(protos, protoPorts.Keys)
  {
    protos := [];
    var todo := protoPorts.Keys;
    while todo != {}
      invariant todo <= protoPorts.Keys
      invariant forall p :: p in protos <==> p in protoPorts.Keys - todo
      invariant forall i, j :: 0 <= i < j < |protos| ==> protos[i] != protos[j]
      decreases |todo|
    {
      var proto :| proto in todo;
      todo := todo - {proto};
      assert proto !in protos;
      ghost var before := protos;
      protos := protos + [proto];
      assert forall i :: 0 <= i < |before| ==> protos[i] == before[i] && before[i] in before;
    }
    SortStringsExact(protos);
    assert (set x | x in protos) == protoPorts.Keys;
    protos := SortStrings(protos);
  }

  /** One entry rule for each piece of a protocol's port list. */
  method AddProto(c: Chain, config: PortMapConf, isV6: bool, proto: string, chunks: seq<seq<int>>)
    modifies c`entryRules
    ensures c.entryRules == old(c.entryRules) + ProtoEntries(config, isV6, proto, chunks)
  {
    hide DnatComment;
    hide ExtraConditions;
    ghost var added := ProtoEntries(config, isV6, proto, chunks);
    for j := 0 to |chunks|
      invariant c.entryRules == old(c.entryRules) + added[..j]
    {
      var r := [Comment(DnatComment(config)), Proto(proto), DPorts(chunks[j])] + ExtraConditions(config, isV6);
      c.entryRules := c.entryRules + [r];
    }
    assert added[..|chunks|] == added;
  }
}
