/** Laws of setup and teardown on table values. */
module PortmapChainLaws {
  import opened IPTables
  import opened PortmapChain

  // ---- What adding rules does ----

  /** A rule list after adding rules one by one, skipping those already there. */
  function Merge(prepend: bool, prior: seq<Rule>, rules: seq<Rule>): seq<Rule>
    decreases rules
  {
    if rules == [] then prior
    else
      var r := rules[0];
      Merge(prepend, if r in prior then prior else if prepend then [r] + prior else prior + [r], rules[1..])
  }

  lemma {:induction false} MergeSameRules(prior: seq<Rule>, rules: seq<Rule>)
    ensures forall r :: r in Merge(false, prior, rules) <==> r in prior || r in rules
    decreases rules
  {
    if rules != [] {
      MergeSameRules(if rules[0] in prior then prior else prior + [rules[0]], rules[1..]);
      assert rules == [rules[0]] + rules[1..];
    }
  }

  lemma {:induction false} MergeConcat(prior: seq<Rule>, a: seq<Rule>, b: seq<Rule>)
    ensures Merge(false, prior, a + b) == Merge(false, Merge(false, prior, a), b)
    decreases a
  {
    if a == [] {
      assert a + b == b;
    } else {
      assert (a + b)[1..] == a[1..] + b && (a + b)[0] == a[0];
      MergeConcat(if a[0] in prior then prior else prior + [a[0]], a[1..], b);
    }
  }

  lemma {:induction false} MergeExtends(prior: seq<Rule>, rules: seq<Rule>)
    ensures prior <= Merge(false, prior, rules)
    ensures (forall r :: r in rules ==> r in prior) ==> Merge(false, prior, rules) == prior
    decreases rules
  {
    if rules != [] {
      MergeExtends(if rules[0] in prior then prior else prior + [rules[0]], rules[1..]);
      assert rules == [rules[0]] + rules[1..];
    }
  }

  lemma MergeOne(prior: seq<Rule>, r: Rule)
    ensures Merge(false, prior, [r]) == if r in prior then prior else prior + [r]
  {
    var next := if r in prior then prior else prior + [r];
    assert [r][1..] == [];
    assert Merge(false, next, []) == next;
  }

  /** What a prefix of the merged list lacks of it is filled in. */
  lemma {:induction false} MergeFillsIn(prior: seq<Rule>, rules: seq<Rule>)
    requires prior <= Merge(false, [], rules)
    ensures Merge(false, prior, rules) == Merge(false, [], rules)
    decreases |rules|
  {
    hide Merge;
    if rules == [] {
      MergeExtends([], []);
      MergeExtends(prior, []);
    } else {
      var n := |rules| - 1;
      var front, r := rules[..n], rules[n];
      var merged := Merge(false, [], front);
      assert rules == front + [r];
      MergeConcat([], front, [r]);
      MergeConcat(prior, front, [r]);
      MergeOne(merged, r);
      if prior <= merged {
        MergeFillsIn(prior, front);
      } else {
        assert prior == merged + [r];
        MergeSameRules([], front);
        MergeExtends(prior, front);
        MergeOne(prior, r);
      }
    }
  }

  /**
   * Adding rules to a chain that holds something already gives what adding them to an empty chain
   * gives exactly when the chain holds a beginning of it.
   */
  lemma MergeIsFreshExactly(prior: seq<Rule>, rules: seq<Rule>)
    ensures Merge(false, prior, rules) == Merge(false, [], rules) <==> prior <= Merge(false, [], rules)
  {
    hide Merge;
    MergeExtends(prior, rules);
    if prior <= Merge(false, [], rules) {
      MergeFillsIn(prior, rules);
    }
  }

  /** Chains stay and keep their rules. */
  ghost predicate Grows(t: Table, t1: Table) {
    && t.Keys == t1.Keys
    && forall c, r :: c in t && r in t[c] ==> r in t1[c]
  }

  lemma AddExact(t: Table, chain: string, prepend: bool, rule: Rule)
    ensures Grows(t, Add(t, chain, prepend, rule).0)
    ensures Add(t, chain, prepend, rule).1 ==>
      && chain in t && Add(t, chain, prepend, rule).0 == t[chain := Merge(prepend, t[chain], [rule])]
      && rule in Add(t, chain, prepend, rule).0[chain]
    ensures chain in t && (rule.target.Jump? ==> rule.target.chain in t) ==> Add(t, chain, prepend, rule).1
    ensures chain in t && rule in t[chain] ==> Add(t, chain, prepend, rule) == (t, true)
    ensures forall c :: c in t && c != chain ==> Add(t, chain, prepend, rule).0[c] == t[c]
  {
    assert chain in t ==> t[chain := t[chain]] == t;
  }

  lemma MergeFront(prepend: bool, prior: seq<Rule>, rules: seq<Rule>)
    requires rules != []
    ensures Merge(prepend, prior, rules) == Merge(prepend, Merge(prepend, prior, [rules[0]]), rules[1..])
  {
  }

  lemma {:induction false} AddAllGrows(t: Table, chain: string, prepend: bool, rules: seq<Rule>)
    ensures Grows(t, AddAll(t, chain, prepend, rules).0)
    ensures forall c :: c in t && c != chain ==> AddAll(t, chain, prepend, rules).0[c] == t[c]
    decreases rules
  {
    if rules != [] {
      hide Add;
      AddExact(t, chain, prepend, rules[0]);
      AddAllGrows(Add(t, chain, prepend, rules[0]).0, chain, prepend, rules[1..]);
    }
  }

  lemma {:induction false} AddAllMerges(t: Table, chain: string, prepend: bool, rules: seq<Rule>)
    requires AddAll(t, chain, prepend, rules).1
    ensures rules != [] ==> chain in t
    ensures AddAll(t, chain, prepend, rules).0 == if chain in t then t[chain := Merge(prepend, t[chain], rules)] else t
    decreases rules
  {
    if rules == [] {
      assert chain in t ==> t[chain := t[chain]] == t;
    } else {
      hide Add;
      hide Merge;
      AddExact(t, chain, prepend, rules[0]);
      AddAllMerges(Add(t, chain, prepend, rules[0]).0, chain, prepend, rules[1..]);
      MergeFront(prepend, t[chain], rules);
    }
  }

  lemma {:induction false} AddAllSucceeds(t: Table, chain: string, prepend: bool, rules: seq<Rule>)
    requires chain in t && forall i :: 0 <= i < |rules| && rules[i].target.Jump? ==> rules[i].target.chain in t
    ensures AddAll(t, chain, prepend, rules).1
    decreases rules
  {
    if rules != [] {
      hide Add;
      AddExact(t, chain, prepend, rules[0]);
      AddAllSucceeds(Add(t, chain, prepend, rules[0]).0, chain, prepend, rules[1..]);
    }
  }

  lemma {:induction false} AddAllThere(t: Table, chain: string, prepend: bool, rules: seq<Rule>)
    requires AllIn(t, chain, rules)
    ensures AddAll(t, chain, prepend, rules) == (t, true)
    decreases rules
  {
    if rules != [] {
      hide Add;
      AddExact(t, chain, prepend, rules[0]);
      AddAllThere(t, chain, prepend, rules[1..]);
    }
  }

  lemma {:induction false} MergeHasAll(prepend: bool, prior: seq<Rule>, rules: seq<Rule>)
    ensures forall r :: r in prior || r in rules ==> r in Merge(prepend, prior, rules)
    decreases rules
  {
    if rules != [] {
      var r := rules[0];
      MergeHasAll(prepend, if r in prior then prior else if prepend then [r] + prior else prior + [r], rules[1..]);
      assert rules == [rules[0]] + rules[1..];
    }
  }

  lemma AddAllExact(t: Table, chain: string, prepend: bool, rules: seq<Rule>)
    ensures Grows(t, AddAll(t, chain, prepend, rules).0)
    ensures AddAll(t, chain, prepend, rules).1 ==>
      && (rules != [] ==> chain in t)
      && AddAll(t, chain, prepend, rules).0 == (if chain in t then t[chain := Merge(prepend, t[chain], rules)] else t)
      && AllIn(AddAll(t, chain, prepend, rules).0, chain, rules)
    ensures chain in t && (forall i :: 0 <= i < |rules| && rules[i].target.Jump? ==> rules[i].target.chain in t) ==>
      AddAll(t, chain, prepend, rules).1
    ensures AllIn(t, chain, rules) ==> AddAll(t, chain, prepend, rules) == (t, true)
    ensures forall c :: c in t && c != chain ==> AddAll(t, chain, prepend, rules).0[c] == t[c]
  {
    hide AddAll;
    hide Merge;
    AddAllGrows(t, chain, prepend, rules);
    if AddAll(t, chain, prepend, rules).1 {
      AddAllMerges(t, chain, prepend, rules);
      if chain in t {
        MergeHasAll(prepend, t[chain], rules);
      }
    }
    if chain in t && forall i :: 0 <= i < |rules| && rules[i].target.Jump? ==> rules[i].target.chain in t {
      AddAllSucceeds(t, chain, prepend, rules);
    }
    if AllIn(t, chain, rules) {
      AddAllThere(t, chain, prepend, rules);
    }
  }

  lemma {:induction false} AddEntriesGrows(t: Table, entryChains: seq<string>, prepend: bool, entries: seq<Rule>)
    ensures Grows(t, AddEntries(t, entryChains, prepend, entries).0)
    ensures AddEntries(t, entryChains, prepend, entries).1 ==>
      forall k :: 0 <= k < |entryChains| ==>
        AllIn(AddEntries(t, entryChains, prepend, entries).0, entryChains[k], entries)
    ensures (forall k :: 0 <= k < |entryChains| ==> AllIn(t, entryChains[k], entries)) ==>
      AddEntries(t, entryChains, prepend, entries) == (t, true)
    ensures forall c :: c in t && c !in entryChains ==> AddEntries(t, entryChains, prepend, entries).0[c] == t[c]
    decreases entryChains
  {
    if entryChains != [] {
      var (t1, ok) := AddAll(t, entryChains[0], prepend, entries);
      AddAllExact(t, entryChains[0], prepend, entries);
      if ok {
        AddEntriesGrows(t1, entryChains[1..], prepend, entries);
        var t2 := AddEntries(t1, entryChains[1..], prepend, entries).0;
        forall k | 0 <= k < |entryChains| && AddEntries(t, entryChains, prepend, entries).1
          ensures AllIn(t2, entryChains[k], entries)
        {
          if k > 0 {
            assert entryChains[k] == entryChains[1..][k - 1];
          }
        }
      }
      if forall k :: 0 <= k < |entryChains| ==> AllIn(t, entryChains[k], entries) {
        assert AllIn(t, entryChains[0], entries);
        forall k | 0 <= k < |entryChains| - 1 ensures AllIn(t, entryChains[1..][k], entries) {
          assert entryChains[1..][k] == entryChains[k + 1];
        }
      }
    }
  }

  /** A successful setup leaves the chain installed, so check succeeds. */
  lemma SetupInstalls(t: Table, c: ChainPlan)
    requires SetupSpec(t, c).1
    ensures Installed(SetupSpec(t, c).0, c)
  {
    var t0 := Ensured(t, c.name);
    var t1 := AddAll(t0, c.name, false, c.rules).0;
    AddAllExact(t0, c.name, false, c.rules);
    AddEntriesGrows(t1, c.entryChains, c.prepend, c.entries);
  }

  /** Setting up an installed chain changes nothing. */
  lemma SetupOfInstalled(t: Table, c: ChainPlan)
    requires Installed(t, c)
    ensures SetupSpec(t, c) == (t, true)
  {
    AddAllExact(t, c.name, false, c.rules);
    AddEntriesGrows(t, c.entryChains, c.prepend, c.entries);
  }

  /** setup is idempotent. */
  lemma SetupIdempotent(t: Table, c: ChainPlan)
    requires SetupSpec(t, c).1
    ensures SetupSpec(SetupSpec(t, c).0, c) == SetupSpec(t, c)
  {
    hide SetupSpec;
    SetupInstalls(t, c);
    SetupOfInstalled(SetupSpec(t, c).0, c);
  }

  /**
   * setup does not tear its chain down first, whatever forwardPorts says about that: rules that are
   * in the chain already stay in front. The chain is as after a setup on a clean table exactly when
   * it held a beginning of that, such as what a setup that broke off had left.
   */
  lemma SetupOverStale(t: Table, c: ChainPlan)
    requires c.name in t && c.name !in c.entryChains && SetupSpec(t, c).1
    ensures c.name in SetupSpec(t, c).0
    ensures SetupSpec(t, c).0[c.name] == Merge(false, t[c.name], c.rules)
    ensures SetupSpec(t, c).0[c.name] == Merge(false, [], c.rules) <==> t[c.name] <= Merge(false, [], c.rules)
  {
    hide Merge;
    hide AddAll;
    hide AddEntries;
    AddAllExact(t, c.name, false, c.rules);
    AddEntriesGrows(AddAll(t, c.name, false, c.rules).0, c.entryChains, c.prepend, c.entries);
    MergeIsFreshExactly(t[c.name], c.rules);
  }

  /** With a teardown first nothing stale is left. */
  lemma TeardownFirstIsFresh(t: Table, c: ChainPlan)
    requires c.name !in c.entryChains && TeardownSpec(t, c.name, c.entryChains).1
    requires SetupSpec(TeardownSpec(t, c.name, c.entryChains).0, c).1
    ensures var t' := SetupSpec(TeardownSpec(t, c.name, c.entryChains).0, c).0;
      c.name in t' && t'[c.name] == Merge(false, [], c.rules)
  {
    hide Merge;
    hide AddAll;
    hide AddEntries;
    hide TeardownSpec;
    TeardownExact(t, c.name, c.entryChains);
    var t1: Table := Ensured(TeardownSpec(t, c.name, c.entryChains).0, c.name);
    AddAllExact(t1, c.name, false, c.rules);
    AddEntriesGrows(AddAll(t1, c.name, false, c.rules).0, c.entryChains, c.prepend, c.entries);
  }

  /** setup touches its own chain and the entry chains only, even when it fails. */
  lemma SetupFrame(t: Table, c: ChainPlan, other: string)
    requires other != c.name && other !in c.entryChains
    ensures other in SetupSpec(t, c).0 <==> other in t
    ensures other in t ==> SetupSpec(t, c).0[other] == t[other]
  {
    var t0 := Ensured(t, c.name);
    AddAllExact(t0, c.name, false, c.rules);
    AddEntriesGrows(AddAll(t0, c.name, false, c.rules).0, c.entryChains, c.prepend, c.entries);
  }

  // ---- What removing entries does ----

  lemma {:induction false} RemoveEntriesExact(t: Table, name: string, entryChains: seq<string>)
    ensures RemoveEntries(t, name, entryChains).Keys == t.Keys
    ensures forall c :: c in t ==>
      RemoveEntries(t, name, entryChains)[c] == if c in entryChains then WithoutJumps(t[c], name) else t[c]
    decreases entryChains
  {
    if entryChains != [] {
      var c := entryChains[0];
      RemoveEntriesExact(if c in t then t[c := WithoutJumps(t[c], name)] else t, name, entryChains[1..]);
      if c in t {
        WithoutJumpsExact(t[c], name);
        WithoutJumpsExact(WithoutJumps(t[c], name), name);
      }
    }
  }

  /** Some chain outside the entry chains jumps to the chain. */
  ghost predicate ReferencedElsewhere(t: Table, name: string, entryChains: seq<string>) {
    exists c, i :: c in t && c != name && c !in entryChains && 0 <= i < |t[c]| && t[c][i].target == Jump(name)
  }

  /**
   * teardown succeeds exactly when only the entry chains lead to the chain. It then removes the
   * chain and the jumps to it, and nothing else.
   */
  lemma TeardownExact(t: Table, name: string, entryChains: seq<string>)
    requires name !in entryChains
    ensures TeardownSpec(t, name, entryChains).1 <==> !ReferencedElsewhere(t, name, entryChains)
    ensures TeardownSpec(t, name, entryChains).1 ==>
      var t' := TeardownSpec(t, name, entryChains).0;
      && t'.Keys == t.Keys - {name}
      && !Referenced(t', name)
      && forall c :: c in t' ==> t'[c] == if c in entryChains then WithoutJumps(t[c], name) else t[c]
  {
    var t0: Table := t[name := []];
    var t1: Table := RemoveEntries(t0, name, entryChains);
    RemoveEntriesExact(t0, name, entryChains);
    forall c, i | c in t1 && 0 <= i < |t1[c]| && t1[c][i].target == Jump(name)
      ensures ReferencedElsewhere(t, name, entryChains)
    {
      assert t1[c][i] in t1[c];
      WithoutJumpsExact(t0[c], name);
      assert c !in entryChains ==> c != name && t1[c] == t[c];
    }
    if c, i :| c in t && c != name && c !in entryChains && 0 <= i < |t[c]| && t[c][i].target == Jump(name) {
      assert t1[c][i].target == Jump(name);
    }
  }

  lemma TeardownIdempotent(t: Table, name: string, entryChains: seq<string>)
    requires name !in entryChains && TeardownSpec(t, name, entryChains).1
    ensures TeardownSpec(TeardownSpec(t, name, entryChains).0, name, entryChains) == TeardownSpec(t, name, entryChains)
  {
    hide TeardownSpec;
    TeardownExact(t, name, entryChains);
    TeardownOfAbsent(TeardownSpec(t, name, entryChains).0, name, entryChains);
  }

  /** Tearing down a chain that is absent and unreferenced succeeds and changes nothing. */
  lemma TeardownOfAbsent(t: Table, name: string, entryChains: seq<string>)
    requires name !in entryChains && name !in t && !Referenced(t, name)
    ensures TeardownSpec(t, name, entryChains) == (t, true)
  {
    hide TeardownSpec;
    TeardownExact(t, name, entryChains);
    var t' := TeardownSpec(t, name, entryChains).0;
    forall c | c in t ensures t'[c] == t[c] {
      NoJumps(t, c, name);
    }
    assert t' == t;
  }

  lemma NoJumps(t: Table, c: string, name: string)
    requires c in t && !Referenced(t, name)
    ensures WithoutJumps(t[c], name) == t[c]
  {
    WithoutJumpsExact(t[c], name);
    forall r | r in t[c] ensures r.target != Jump(name) {
      var i :| 0 <= i < |t[c]| && t[c][i] == r;
    }
  }

  /** Merging jumps into a list without such jumps, and taking them out again. */
  lemma {:induction false} MergeJumpsAway(prepend: bool, prior: seq<Rule>, rules: seq<Rule>, name: string)
    requires forall i :: 0 <= i < |rules| ==> rules[i].target == Jump(name)
    ensures WithoutJumps(Merge(prepend, prior, rules), name) == WithoutJumps(prior, name)
    decreases rules
  {
    if rules != [] {
      var next := if rules[0] in prior then prior else if prepend then [rules[0]] + prior else prior + [rules[0]];
      MergeJumpsAway(prepend, next, rules[1..], name);
      OneRule(rules[0], name);
      WithoutJumpsConcat([rules[0]], prior, name);
      WithoutJumpsConcat(prior, [rules[0]], name);
    }
  }

  /** The entry chains after a successful setup, each either untouched or merged with the entries. */
  lemma {:induction false} AddEntriesMerges(t: Table, entryChains: seq<string>, prepend: bool, entries: seq<Rule>,
                                            name: string)
    requires AddEntries(t, entryChains, prepend, entries).1
    requires forall i :: 0 <= i < |entries| ==> entries[i].target == Jump(name)
    ensures AddEntries(t, entryChains, prepend, entries).0.Keys == t.Keys
    ensures forall c :: c in t ==>
      WithoutJumps(AddEntries(t, entryChains, prepend, entries).0[c], name) == WithoutJumps(t[c], name)
    decreases entryChains
  {
    AddEntriesGrows(t, entryChains, prepend, entries);
    if entryChains != [] {
      var e := entryChains[0];
      AddAllExact(t, e, prepend, entries);
      var t1 := AddAll(t, e, prepend, entries).0;
      AddEntriesMerges(t1, entryChains[1..], prepend, entries, name);
      if e in t {
        MergeJumpsAway(prepend, t[e], entries, name);
      }
    }
  }

  /** teardown undoes setup when the chain was absent and unreferenced. */
  lemma TeardownUndoesSetup(t: Table, c: ChainPlan)
    requires c.name !in c.entryChains && c.name !in t && !Referenced(t, c.name)
    requires forall i :: 0 <= i < |c.entries| ==> c.entries[i].target == Jump(c.name)
    requires SetupSpec(t, c).1
    ensures TeardownSpec(SetupSpec(t, c).0, c.name, c.entryChains) == (t, true)
  {
    hide TeardownSpec;
    hide SetupSpec;
    hide WithoutJumps;
    var t2 := SetupSpec(t, c).0;
    SetupEffect(t, c);
    TeardownExact(t2, c.name, c.entryChains);
    forall d | d in t ensures WithoutJumps(t2[d], c.name) == t[d] {
      NoJumps(t, d, c.name);
    }
    assert !ReferencedElsewhere(t2, c.name, c.entryChains);
    assert TeardownSpec(t2, c.name, c.entryChains).0 == t;
  }

  /** Outside its own chain, a successful setup changes entry chains only, and there adds jumps only. */
  lemma SetupEffect(t: Table, c: ChainPlan)
    requires c.name !in c.entryChains && c.name !in t
    requires forall i :: 0 <= i < |c.entries| ==> c.entries[i].target == Jump(c.name)
    requires SetupSpec(t, c).1
    ensures SetupSpec(t, c).0.Keys == t.Keys + {c.name}
    ensures forall d :: d in t && d !in c.entryChains ==> SetupSpec(t, c).0[d] == t[d]
    ensures forall d :: d in t ==> WithoutJumps(SetupSpec(t, c).0[d], c.name) == WithoutJumps(t[d], c.name)
  {
    hide WithoutJumps;
    hide AddAll;
    hide AddEntries;
    var t0 := Ensured(t, c.name);
    AddAllExact(t0, c.name, false, c.rules);
    var t1 := AddAll(t0, c.name, false, c.rules).0;
    AddEntriesGrows(t1, c.entryChains, c.prepend, c.entries);
    AddEntriesMerges(t1, c.entryChains, c.prepend, c.entries, c.name);
    assert forall d :: d in t ==> d != c.name && t1[d] == t[d];
  }

  // ---- When setup succeeds ----

  /** A rule that is there already, or whose target exists. */
  predicate Addable(t: Table, chain: string, rule: Rule) {
    chain in t && (rule in t[chain] || (rule.target.Jump? ==> rule.target.chain in t))
  }

  lemma {:induction false} AddAllExactly(t: Table, chain: string, prepend: bool, rules: seq<Rule>)
    ensures AddAll(t, chain, prepend, rules).1 <==> forall r :: r in rules ==> Addable(t, chain, r)
    decreases |rules|
  {
    hide Add;
    if rules != [] {
      var r := rules[0];
      AddExact(t, chain, prepend, r);
      AddFails(t, chain, prepend, r);
      assert r in rules && rules == [r] + rules[1..];
      if Add(t, chain, prepend, r).1 {
        var t1 := Add(t, chain, prepend, r).0;
        AddAllExactly(t1, chain, prepend, rules[1..]);
        forall q | q in rules[1..] ensures Addable(t1, chain, q) <==> Addable(t, chain, q) || q == r {
          OneAdded(t, chain, prepend, r, q);
        }
      }
    }
  }

  lemma AddFails(t: Table, chain: string, prepend: bool, r: Rule)
    ensures Add(t, chain, prepend, r).1 <==> Addable(t, chain, r)
  {
  }

  lemma OneAdded(t: Table, chain: string, prepend: bool, r: Rule, q: Rule)
    requires Add(t, chain, prepend, r).1
    ensures Addable(Add(t, chain, prepend, r).0, chain, q) <==> Addable(t, chain, q) || q == r
  {
  }

  lemma {:induction false} AddEntriesExactly(t: Table, entryChains: seq<string>, prepend: bool, entries: seq<Rule>)
    requires forall e :: e in entries ==> e.target.Jump? && e.target.chain in t
    ensures AddEntries(t, entryChains, prepend, entries).1 <==> entries == [] || forall c :: c in entryChains ==> c in t
    decreases |entryChains|
  {
    hide AddAll;
    if entryChains != [] {
      var c := entryChains[0];
      AddAllExactly(t, c, prepend, entries);
      AddAllGrows(t, c, prepend, entries);
      assert c in entryChains && entryChains == [c] + entryChains[1..];
      assert entries != [] ==> entries[0] in entries;
      AddEntriesExactly(AddAll(t, c, prepend, entries).0, entryChains[1..], prepend, entries);
    }
  }

  /**
   * Setting up a chain succeeds exactly if each of its rules is there already or has an existing
   * target, and its entry chains exist, unless no rule is to lead there.
   */
  lemma SetupSucceedsExactly(t: Table, c: ChainPlan)
    requires forall e :: e in c.entries ==> e.target == Jump(c.name)
    ensures SetupSpec(t, c).1 <==>
      && (forall r :: r in c.rules ==>
            || (c.name in t && r in t[c.name])
            || (r.target.Jump? ==> r.target.chain in t || r.target.chain == c.name))
      && (c.entries == [] || forall d :: d in c.entryChains ==> d in t || d == c.name)
  {
    hide AddAll;
    hide AddEntries;
    var t0: Table := if c.name in t then t else t[c.name := []];
    AddAllExactly(t0, c.name, false, c.rules);
    AddAllGrows(t0, c.name, false, c.rules);
    if AddAll(t0, c.name, false, c.rules).1 {
      AddEntriesExactly(AddAll(t0, c.name, false, c.rules).0, c.entryChains, c.prepend, c.entries);
    }
  }
}
