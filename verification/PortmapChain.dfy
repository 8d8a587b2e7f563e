/** Installing and removing a chain with its entry rules: chain.go. */
module PortmapChain {
  import opened Wrappers
  import opened IPTables

  /** A chain to install: its rules, and the rules that lead to it from the entry chains. */
  class Chain {
    const name: string
    const entryChains: seq<string>
    const prependEntry: bool
    var entryRules: seq<seq<Match>>
    var rules: seq<Rule>

    constructor (name: string, entryChains: seq<string>, entryRules: seq<seq<Match>>, rules: seq<Rule>,
                 prependEntry: bool)
      ensures this.name == name && this.entryChains == entryChains && this.prependEntry == prependEntry
      ensures this.entryRules == entryRules && this.rules == rules
    {
      this.name, this.entryChains, this.prependEntry := name, entryChains, prependEntry;
      this.entryRules, this.rules := entryRules, rules;
    }

    function Plan(): ChainPlan
      reads this
    {
      ChainPlan(name, entryChains, JumpRules(entryRules, name), rules, prependEntry)
    }

    method Setup(ipt: NatTable) returns (ok: bool)
      requires ipt as object != this
      modifies ipt
      ensures (ipt.chains, ok) == SetupSpec(old(ipt.chains), Plan())
    {
      ghost var plan := Plan();
      ipt.EnsureChain(name);
      ghost var t := ipt.chains;
      for i := 0 to |rules|
        invariant AddAll(t, name, false, rules) == AddAll(ipt.chains, name, false, rules[i..])
      {
        ok := InsertUnique(ipt, name, false, rules[i]);
        if !ok {
          return;
        }
      }
      ghost var t1 := ipt.chains;
      for i := 0 to |entryChains|
        invariant AddEntries(t1, entryChains, prependEntry, plan.entries)
             == AddEntries(ipt.chains, entryChains[i..], prependEntry, plan.entries)
      {
        ghost var t2 := ipt.chains;
        for j := 0 to |entryRules|
          invariant AddAll(t2, entryChains[i], prependEntry, plan.entries)
                 == AddAll(ipt.chains, entryChains[i], prependEntry, plan.entries[j..])
        {
          ok := InsertUnique(ipt, entryChains[i], prependEntry, Rule(entryRules[j], Jump(name)));
          if !ok {
            return;
          }
        }
      }
      ok := true;
    }

    method Teardown(ipt: NatTable) returns (ok: bool)
      requires ipt as object != this
      modifies ipt
      ensures (ipt.chains, ok) == TeardownSpec(old(ipt.chains), name, entryChains)
    {
      ipt.ClearChain(name);
      ghost var t := ipt.chains;
      for i := 0 to |entryChains|
        invariant RemoveEntries(t, name, entryChains) == RemoveEntries(ipt.chains, name, entryChains[i..])
      {
        if ipt.ChainExists(entryChains[i]) {
          DeleteJumps(ipt, entryChains[i]);
        }
      }
      ok := ipt.DeleteChain(name);
    }

    /** Deletes the listed rules that jump to this chain one by one. */
    method DeleteJumps(ipt: NatTable, entryChain: string)
      requires ipt as object != this && entryChain in ipt.chains
      modifies ipt
      ensures ipt.chains == old(ipt.chains)[entryChain := WithoutJumps(old(ipt.chains)[entryChain], name)]
    {
      ghost var t := ipt.chains;
      var listed := ipt.chains[entryChain];
      assert listed[..0] == [] && listed[0..] == listed && WithoutJumps([], name) == [];
      for i := 0 to |listed|
        invariant entryChain in ipt.chains && ipt.chains == t[entryChain := ipt.chains[entryChain]]
        invariant ipt.chains[entryChain] == WithoutJumps(listed[..i], name) + listed[i..]
      {
        DeleteStep(listed, i, name);
        if listed[i].target == Jump(name) {
          ipt.DeleteRule(entryChain, listed[i]);
        }
      }
      assert listed[..|listed|] == listed && listed[|listed|..] == [];
      assert ipt.chains[entryChain] == WithoutJumps(listed, name);
    }

    method Check(ipt: NatTable) returns (ok: bool)
      ensures ok <==> Installed(ipt.chains, Plan())
    {
      if !ipt.ChainExists(name) {
        return false;
      }
      for i := |rules| downto 0
        invariant forall j :: i <= j < |rules| ==> rules[j] in ipt.chains[name]
      {
        if !ipt.HasRule(name, rules[i]) {
          return false;
        }
      }
      for i := 0 to |entryChains|
        invariant forall k :: 0 <= k < i ==> AllIn(ipt.chains, entryChains[k], Plan().entries)
      {
        var found := CheckEntries(ipt, entryChains[i]);
        if !found {
          return false;
        }
      }
      return true;
    }

    method CheckEntries(ipt: NatTable, entryChain: string) returns (ok: bool)
      ensures ok <==> AllIn(ipt.chains, entryChain, Plan().entries)
    {
      ghost var entries := Plan().entries;
      assert entries[|entryRules|..] == [];
      for j := |entryRules| downto 0
        invariant AllIn(ipt.chains, entryChain, entries[j..])
      {
        assert entries[j..] == [entries[j]] + entries[j + 1..];
        if !ipt.HasRule(entryChain, Rule(entryRules[j], Jump(name))) {
          assert entries[j] == Rule(entryRules[j], Jump(name));
          return false;
        }
      }
      assert entries[0..] == entries;
      return true;
    }
  }

  method InsertUnique(ipt: NatTable, chain: string, prepend: bool, rule: Rule) returns (ok: bool)
    modifies ipt
    ensures (ipt.chains, ok) == Add(old(ipt.chains), chain, prepend, rule)
  {
    if ipt.HasRule(chain, rule) {
      return true;
    }
    var err: Option<IptError>;
    if prepend {
      err := ipt.Insert(chain, rule);
    } else {
      err := ipt.Append(chain, rule);
    }
    return err.None?;
  }

  // ---- Specification on table values ----

  datatype ChainPlan =
    ChainPlan(name: string, entryChains: seq<string>, entries: seq<Rule>, rules: seq<Rule>, prepend: bool)

  function JumpRules(entryRules: seq<seq<Match>>, name: string): (r: seq<Rule>)
    ensures |r| == |entryRules| && forall i :: 0 <= i < |r| ==> r[i] == Rule(entryRules[i], Jump(name))
  {
    seq(|entryRules|, i requires 0 <= i < |entryRules| => Rule(entryRules[i], Jump(name)))
  }

  function Add(t: Table, chain: string, prepend: bool, rule: Rule): (Table, bool) {
    if chain in t && rule in t[chain] then (t, true)
    else if !CanAdd(t, chain, rule) then (t, false)
    else (t[chain := if prepend then [rule] + t[chain] else t[chain] + [rule]], true)
  }

  function AddAll(t: Table, chain: string, prepend: bool, rules: seq<Rule>): (Table, bool)
    decreases rules
  {
    if rules == [] then (t, true)
    else
      var (t1, ok) := Add(t, chain, prepend, rules[0]);
      if ok then AddAll(t1, chain, prepend, rules[1..]) else (t1, false)
  }

  function AddEntries(t: Table, entryChains: seq<string>, prepend: bool, entries: seq<Rule>): (Table, bool)
    decreases entryChains
  {
    if entryChains == [] then (t, true)
    else
      var (t1, ok) := AddAll(t, entryChains[0], prepend, entries);
      if ok then AddEntries(t1, entryChains[1..], prepend, entries) else (t1, false)
  }

  function Ensured(t: Table, name: string): Table {
    if name in t then t else t[name := []]
  }

  function SetupSpec(t: Table, c: ChainPlan): (Table, bool) {
    var (t1, ok) := AddAll(Ensured(t, c.name), c.name, false, c.rules);
    if ok then AddEntries(t1, c.entryChains, c.prepend, c.entries) else (t1, false)
  }

  function WithoutJumps(rules: seq<Rule>, name: string): seq<Rule> {
    if rules == [] then []
    else (if rules[0].target == Jump(name) then [] else [rules[0]]) + WithoutJumps(rules[1..], name)
  }

  function RemoveEntries(t: Table, name: string, entryChains: seq<string>): Table
    decreases entryChains
  {
    if entryChains == [] then t
    else
      var c := entryChains[0];
      RemoveEntries(if c in t then t[c := WithoutJumps(t[c], name)] else t, name, entryChains[1..])
  }

  ghost function TeardownSpec(t: Table, name: string, entryChains: seq<string>): (Table, bool) {
    var t1 := RemoveEntries(t[name := []], name, entryChains);
    if name !in t1 || (t1[name] == [] && !Referenced(t1, name)) then (t1 - {name}, true) else (t1, false)
  }

  ghost predicate AllIn(t: Table, chain: string, rules: seq<Rule>) {
    forall j :: 0 <= j < |rules| ==> chain in t && rules[j] in t[chain]
  }

  /** What check looks for. */
  ghost predicate Installed(t: Table, c: ChainPlan) {
    && c.name in t
    && AllIn(t, c.name, c.rules)
    && forall k :: 0 <= k < |c.entryChains| ==> AllIn(t, c.entryChains[k], c.entries)
  }

  // ---- Deleting jumps ----

  lemma {:induction false} WithoutJumpsConcat(a: seq<Rule>, b: seq<Rule>, name: string)
    ensures WithoutJumps(a + b, name) == WithoutJumps(a, name) + WithoutJumps(b, name)
  {
    if a == [] {
      assert a + b == b;
    } else {
      assert (a + b)[1..] == a[1..] + b;
      WithoutJumpsConcat(a[1..], b, name);
    }
  }

  lemma {:induction false} WithoutJumpsExact(rules: seq<Rule>, name: string)
    ensures forall r :: r in WithoutJumps(rules, name) <==> r in rules && r.target != Jump(name)
    ensures (forall r :: r in rules ==> r.target != Jump(name)) ==> WithoutJumps(rules, name) == rules
  {
    if rules != [] {
      WithoutJumpsExact(rules[1..], name);
      assert rules == [rules[0]] + rules[1..];
    }
  }

  /** The first occurrence of a rule that is not in the front part starts the back part. */
  lemma {:induction false} RemoveFirstAfter(a: seq<Rule>, b: seq<Rule>, rule: Rule)
    requires rule !in a && b != [] && b[0] == rule
    ensures RemoveFirst(a + b, rule) == a + b[1..]
  {
    if a == [] {
      assert a + b == b;
    } else {
      assert (a + b)[1..] == a[1..] + b;
      RemoveFirstAfter(a[1..], b, rule);
    }
  }

  /** What deleting the i-th listed rule does to a chain whose earlier jumps are gone. */
  lemma DeleteStep(listed: seq<Rule>, i: nat, name: string)
    requires i < |listed|
    ensures var now := WithoutJumps(listed[..i], name) + listed[i..];
      var next := WithoutJumps(listed[..i + 1], name) + listed[i + 1..];
      if listed[i].target == Jump(name) then listed[i] in now && RemoveFirst(now, listed[i]) == next else now == next
  {
    hide WithoutJumps;
    hide RemoveFirst;
    var front, r := WithoutJumps(listed[..i], name), listed[i];
    assert listed[..i + 1] == listed[..i] + [r];
    WithoutJumpsConcat(listed[..i], [r], name);
    OneRule(r, name);
    assert listed[i..] == [r] + listed[i + 1..];
    if r.target == Jump(name) {
      WithoutJumpsExact(listed[..i], name);
      RemoveFirstAfter(front, listed[i..], r);
      assert listed[i..][1..] == listed[i + 1..];
    } else {
      assert front + ([r] + listed[i + 1..]) == front + [r] + listed[i + 1..];
    }
  }

  lemma OneRule(r: Rule, name: string)
    ensures WithoutJumps([r], name) == if r.target == Jump(name) then [] else [r]
  {
  }
}
