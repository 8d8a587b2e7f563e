/** Many containers over time: the state of the table after any run of setups and teardowns. */
module PortmapRuns {
  import opened IPTables
  import opened PortmapChain
  import opened PortmapChainLaws
  import opened PortmapRules

  // ---- Runs over many containers ----

  /** A container's plan: entries in the top-level chain that lead to its own chain. */
  ghost predicate ContainerPlan(c: ChainPlan) {
    && c.entryChains == [TOP_LEVEL_DNAT_CHAIN]
    && !c.prepend
    && forall i :: 0 <= i < |c.entries| ==> c.entries[i].target == Jump(c.name)
  }

  /**
   * The table before any of the containers: the top-level chain is there, the containers' chains
   * are not and nothing leads to them, and whatever their rules jump to is there. One container may
   * come with several plans, when it is set up again with other mappings.
   */
  ghost predicate Ready(t: Table, all: set<ChainPlan>) {
    && TOP_LEVEL_DNAT_CHAIN in t
    && (forall c :: c in all ==> ContainerPlan(c) && c.name !in t && !Referenced(t, c.name))
    && (forall c, i :: c in all && 0 <= i < |c.rules| && c.rules[i].target.Jump? ==> c.rules[i].target.chain in t)
  }

  datatype Event = Up(c: ChainPlan) | Down(c: ChainPlan)

  ghost function After(t: Table, e: Event): (Table, bool) {
    match e
    case Up(c) => SetupSpec(t, c)
    case Down(c) => TeardownSpec(t, c.name, c.entryChains)
  }

  ghost function Run(t: Table, events: seq<Event>): Table {
    if events == [] then t else After(Run(t, events[..|events| - 1]), events[|events| - 1]).0
  }

  /** The setups that no teardown of their chain has followed, in order. */
  function Standing(events: seq<Event>): seq<ChainPlan> {
    if events == [] then []
    else
      var before := Standing(events[..|events| - 1]);
      match events[|events| - 1]
      case Up(c) => before + [c]
      case Down(c) => Others(before, c.name)
  }

  /** The plans of other containers. */
  function Others(plans: seq<ChainPlan>, name: string): seq<ChainPlan> {
    if plans == [] then []
    else
      var n := |plans| - 1;
      Others(plans[..n], name) + (if plans[n].name == name then [] else [plans[n]])
  }

  function AllEntries(plans: seq<ChainPlan>): seq<Rule> {
    if plans == [] then [] else AllEntries(plans[..|plans| - 1]) + plans[|plans| - 1].entries
  }

  /** The rules of all plans for one chain. */
  function AllRules(plans: seq<ChainPlan>, name: string): seq<Rule> {
    if plans == [] then []
    else
      var n := |plans| - 1;
      AllRules(plans[..n], name) + (if plans[n].name == name then plans[n].rules else [])
  }

  /**
   * The table with exactly the standing setups installed: the top-level chain is its base followed
   * by their entry rules in order, each chain holds its setups' rules in order, both without
   * repetitions, and every other chain is as it was.
   */
  ghost predicate Holding(t0: Table, plans: seq<ChainPlan>, t: Table) {
    && TOP_LEVEL_DNAT_CHAIN in t0 && TOP_LEVEL_DNAT_CHAIN in t
    && (forall n :: n in t <==> n in t0 || exists c :: c in plans && c.name == n)
    && (forall c :: c in plans && c.name in t ==> t[c.name] == Merge(false, [], AllRules(plans, c.name)))
    && (forall n :: n in t0 && n in t && n != TOP_LEVEL_DNAT_CHAIN ==> t[n] == t0[n])
    && t[TOP_LEVEL_DNAT_CHAIN] == t0[TOP_LEVEL_DNAT_CHAIN] + Merge(false, [], AllEntries(plans))
  }

  lemma {:induction false} OthersExact(plans: seq<ChainPlan>, name: string)
    ensures forall d :: d in Others(plans, name) <==> d in plans && d.name != name
  {
    if plans != [] {
      var n := |plans| - 1;
      OthersExact(plans[..n], name);
      assert plans == plans[..n] + [plans[n]];
    }
  }

  /** Taking one container's plans out leaves the rules of another's chain alone. */
  lemma {:induction false} OthersRules(plans: seq<ChainPlan>, name: string, other: string)
    requires other != name
    ensures AllRules(Others(plans, name), other) == AllRules(plans, other)
  {
    if plans != [] {
      var n := |plans| - 1;
      var d, front := plans[n], Others(plans[..n], name);
      OthersRules(plans[..n], name, other);
      OthersFront(plans, name);
      RulesFront(plans, other);
      hide Others;
      hide AllRules;
      if d.name != name {
        RulesFront(front + [d], other);
        assert (front + [d])[..|front|] == front;
      } else {
        assert front + [] == front && AllRules(plans[..n], other) + [] == AllRules(plans[..n], other);
      }
    }
  }

  lemma OthersFront(plans: seq<ChainPlan>, name: string)
    requires plans != []
    ensures var n := |plans| - 1;
      Others(plans, name) == Others(plans[..n], name) + (if plans[n].name == name then [] else [plans[n]])
  {
  }

  lemma RulesFront(plans: seq<ChainPlan>, name: string)
    requires plans != []
    ensures var n := |plans| - 1;
      AllRules(plans, name) == AllRules(plans[..n], name) + (if plans[n].name == name then plans[n].rules else [])
  {
  }

  lemma {:induction false} NoneNamed(plans: seq<ChainPlan>, name: string)
    requires forall d :: d in plans ==> d.name != name
    ensures AllRules(plans, name) == []
  {
    if plans != [] {
      var n := |plans| - 1;
      assert plans[n] in plans && forall d :: d in plans[..n] ==> d in plans;
      NoneNamed(plans[..n], name);
    }
  }

  lemma OneMore(plans: seq<ChainPlan>, c: ChainPlan)
    ensures AllEntries(plans + [c]) == AllEntries(plans) + c.entries
    ensures AllRules(plans + [c], c.name) == AllRules(plans, c.name) + c.rules
    ensures forall other :: other != c.name ==> AllRules(plans + [c], other) == AllRules(plans, other)
    ensures forall d :: d in plans + [c] <==> d in plans || d == c
  {
    assert (plans + [c])[..|plans|] == plans;
  }

  /** Merging into a list that has none of the rules appends the merged rules. */
  lemma {:induction false} MergeApart(front: seq<Rule>, prior: seq<Rule>, rules: seq<Rule>)
    requires forall r :: r in rules ==> r !in front
    ensures Merge(false, front + prior, rules) == front + Merge(false, prior, rules)
    decreases rules
  {
    if rules != [] {
      var r := rules[0];
      assert r in rules && forall q :: q in rules[1..] ==> q in rules;
      assert front + prior + [r] == front + (prior + [r]);
      MergeApart(front, if r in prior then prior else prior + [r], rules[1..]);
    }
  }

  /** Taking jumps out of a merged list is merging without them. */
  lemma {:induction false} MergeWithout(prior: seq<Rule>, rules: seq<Rule>, name: string)
    ensures WithoutJumps(Merge(false, prior, rules), name)
         == Merge(false, WithoutJumps(prior, name), WithoutJumps(rules, name))
    decreases rules
  {
    hide WithoutJumps;
    if rules == [] {
      NothingLeft(name);
    } else {
      hide Merge;
      var r, rest := rules[0], rules[1..];
      var next := if r in prior then prior else prior + [r];
      var left, more := WithoutJumps(prior, name), WithoutJumps(rest, name);
      MergeWithout(next, rest, name);
      MergeFront(false, prior, rules);
      MergeOne(prior, r);
      WithoutJumpsConcat(prior, [r], name);
      WithoutJumpsConcat([r], rest, name);
      OneRule(r, name);
      WithoutJumpsExact(prior, name);
      assert rules == [r] + rest;
      if r.target == Jump(name) {
        assert left + [] == left && [] + more == more;
      } else {
        MergeConcat(left, [r], more);
        MergeOne(left, r);
      }
    }
  }

  /** The entries that are left when one container's jumps are taken out. */
  lemma {:induction false} EntriesWithout(plans: seq<ChainPlan>, name: string)
    requires forall d :: d in plans ==> ContainerPlan(d)
    ensures WithoutJumps(AllEntries(plans), name) == AllEntries(Others(plans, name))
  {
    if plans != [] {
      var n := |plans| - 1;
      var d, front := plans[n], Others(plans[..n], name);
      assert d in plans && forall e :: e in plans[..n] ==> e in plans;
      EntriesWithout(plans[..n], name);
      WithoutJumpsConcat(AllEntries(plans[..n]), d.entries, name);
      if d.name == name {
        JumpsVanish(d.entries, name);
        assert front + [] == front;
        assert AllEntries(front) + [] == AllEntries(front);
      } else {
        WithoutJumpsExact(d.entries, name);
        assert (front + [d])[..|front|] == front;
      }
    }
  }

  lemma {:induction false} JumpsVanish(rules: seq<Rule>, name: string)
    requires forall r :: r in rules ==> r.target == Jump(name)
    ensures WithoutJumps(rules, name) == []
  {
    if rules != [] {
      assert rules[0] in rules && forall q :: q in rules[1..] ==> q in rules;
      JumpsVanish(rules[1..], name);
    }
  }

  // ---- One step ----

  lemma UpStep(t0: Table, all: set<ChainPlan>, plans: seq<ChainPlan>, t: Table, c: ChainPlan)
    requires Ready(t0, all) && c in all && (forall d :: d in plans ==> d in all)
    requires Holding(t0, plans, t)
    ensures SetupSpec(t, c).1 && Holding(t0, plans + [c], SetupSpec(t, c).0)
  {
    hide Merge;
    hide AllEntries;
    hide AllRules;
    hide AddAll;
    hide Referenced;
    hide AllIn;
    var top := TOP_LEVEL_DNAT_CHAIN;
    var held := Merge(false, [], AllRules(plans, c.name));
    var t1: Table := Ensured(t, c.name);
    NothingMerged();
    if c.name !in t {
      NoneNamed(plans, c.name);
    }
    assert t1[c.name] == held;
    AddAllExact(t1, c.name, false, c.rules);
    var t2: Table := AddAll(t1, c.name, false, c.rules).0;
    MergeConcat([], AllRules(plans, c.name), c.rules);
    assert t2 == t1[c.name := Merge(false, held, c.rules)];
    AddAllExact(t2, top, false, c.entries);
    var t3: Table := AddAll(t2, top, false, c.entries).0;
    assert t3 == t2[top := Merge(false, t[top], c.entries)];
    OneEntryChain(t2, top, c.entries);
    assert SetupSpec(t, c) == (t3, true);
    NotInBase(t0, all, c);
    MergeApart(t0[top], Merge(false, [], AllEntries(plans)), c.entries);
    MergeConcat([], AllEntries(plans), c.entries);
    OneMore(plans, c);
  }

  lemma NothingMerged()
    ensures Merge(false, [], []) == []
  {
  }

  lemma OneEntryChain(t: Table, top: string, entries: seq<Rule>)
    ensures AddAll(t, top, false, entries).1 ==> AddEntries(t, [top], false, entries) == AddAll(t, top, false, entries)
  {
    hide AddAll;
    var t1 := AddAll(t, top, false, entries).0;
    assert [top][1..] == [];
    assert AddEntries(t1, [], false, entries) == (t1, true);
  }

  /** A container's entries are not among the rules that were there before. */
  lemma NotInBase(t0: Table, all: set<ChainPlan>, c: ChainPlan)
    requires Ready(t0, all) && c in all
    ensures forall r :: r in c.entries ==> r !in t0[TOP_LEVEL_DNAT_CHAIN]
  {
    var top := TOP_LEVEL_DNAT_CHAIN;
    NoJumps(t0, top, c.name);
    WithoutJumpsExact(t0[top], c.name);
    forall r | r in c.entries ensures r !in t0[top] {
      assert r.target == Jump(c.name);
    }
  }

  lemma DownStep(t0: Table, all: set<ChainPlan>, plans: seq<ChainPlan>, t: Table, c: ChainPlan)
    requires Ready(t0, all) && c in all && (forall d :: d in plans ==> d in all)
    requires Holding(t0, plans, t)
    ensures TeardownSpec(t, c.name, c.entryChains).1
    ensures Holding(t0, Others(plans, c.name), TeardownSpec(t, c.name, c.entryChains).0)
  {
    hide Merge;
    hide AllEntries;
    hide AllRules;
    hide TeardownSpec;
    hide WithoutJumps;
    hide Others;
    var top := TOP_LEVEL_DNAT_CHAIN;
    forall n, i | n in t && n != c.name && n != top && 0 <= i < |t[n]| ensures t[n][i].target != Jump(c.name) {
      NoJumpElsewhere(t0, all, plans, t, c, n, i);
    }
    TeardownExact(t, c.name, c.entryChains);
    var t' := TeardownSpec(t, c.name, c.entryChains).0;
    OthersExact(plans, c.name);
    forall d | d in plans && d.name != c.name
      ensures AllRules(Others(plans, c.name), d.name) == AllRules(plans, d.name)
    {
      OthersRules(plans, c.name, d.name);
    }
    EntriesWithout(plans, c.name);
    MergeWithout([], AllEntries(plans), c.name);
    NothingLeft(c.name);
    NoJumps(t0, top, c.name);
    WithoutJumpsConcat(t0[top], Merge(false, [], AllEntries(plans)), c.name);
    assert t'[top] == t0[top] + Merge(false, [], AllEntries(Others(plans, c.name)));
  }

  lemma NothingLeft(name: string)
    ensures WithoutJumps([], name) == []
  {
  }

  lemma NoJumpElsewhere(t0: Table, all: set<ChainPlan>, plans: seq<ChainPlan>, t: Table, c: ChainPlan, n: string,
                        i: nat)
    requires Ready(t0, all) && c in all && (forall d :: d in plans ==> d in all) && Holding(t0, plans, t)
    requires n in t && n != c.name && n != TOP_LEVEL_DNAT_CHAIN && i < |t[n]|
    ensures t[n][i].target != Jump(c.name)
  {
    hide Merge;
    hide AllEntries;
    hide AllRules;
    if n in t0 {
      assert t[n] == t0[n];
    } else {
      var d :| d in plans && d.name == n;
      MergeSameRules([], AllRules(plans, n));
      assert t[n][i] in AllRules(plans, n);
      var e := RuleOfPlan(plans, n, t[n][i]);
    }
  }

  lemma {:induction false} RuleOfPlan(plans: seq<ChainPlan>, name: string, r: Rule) returns (d: ChainPlan)
    requires r in AllRules(plans, name)
    ensures d in plans && r in d.rules
  {
    var n := |plans| - 1;
    if plans[n].name == name && r in plans[n].rules {
      d := plans[n];
    } else {
      d := RuleOfPlan(plans[..n], name, r);
    }
  }

  // ---- All runs ----

  /**
   * After any run of setups and teardowns, of containers with distinct chain names, but possibly
   * set up again with other mappings, the table holds exactly the standing setups. No step fails.
   */
  lemma {:induction false} RunHolds(t0: Table, all: set<ChainPlan>, events: seq<Event>)
    requires Ready(t0, all)
    requires forall i :: 0 <= i < |events| ==> events[i].c in all
    ensures Holding(t0, Standing(events), Run(t0, events))
    ensures forall d :: d in Standing(events) ==> d in all
    ensures events != [] ==> After(Run(t0, events[..|events| - 1]), events[|events| - 1]).1
  {
    hide Ready;
    hide Holding;
    hide SetupSpec;
    hide TeardownSpec;
    if events == [] {
      HoldingNone(t0, all);
    } else {
      var n := |events| - 1;
      RunHolds(t0, all, events[..n]);
      var plans, t, c := Standing(events[..n]), Run(t0, events[..n]), events[n].c;
      OthersExact(plans, c.name);
      match events[n] {
        case Up(_) =>
          UpStep(t0, all, plans, t, c);
        case Down(_) =>
          DownStep(t0, all, plans, t, c);
      }
    }
  }

  lemma HoldingNone(t0: Table, all: set<ChainPlan>)
    requires Ready(t0, all)
    ensures Holding(t0, [], t0)
  {
  }
}
