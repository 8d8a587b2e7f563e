/**
 * The nat table as a map from chain names to rule lists: the iptables operations the
 * plugins use, and the idempotent wrappers of pkg/utils/iptables.go.
 */
module IPTables {
  import opened Wrappers
  import opened Bytes
  import opened Cidr

  datatype Match =
    | Comment(text: string)
    | Proto(proto: string)
    | DPort(port: int)
    | DPorts(ports: seq<int>)
    | Dst(ip: IP)
    | SrcNet(net: IP, mask: seq<Byte>)
    | Src(ip: IP)
    | DstLocal
    | MarkIs(bit: nat)
    | Conditions(args: seq<string>)

  datatype Target =
    | Jump(chain: string)
    | Dnat(ip: IP, port: int)
    | SetMark(bit: nat)
    | Masquerade

  datatype Rule = Rule(matches: seq<Match>, target: Target)

  type Table = map<string, seq<Rule>>

  datatype IptError = NoSuchChain | NoSuchRule | ChainExistsAlready | ChainBusy

  /** Some rule of the table jumps to the chain. */
  ghost predicate Referenced(t: Table, chain: string) {
    exists c, i :: c in t && 0 <= i < |t[c]| && t[c][i].target == Jump(chain)
  }

  /** A rule can be added to a chain when both the chain and the rule's target exist. */
  predicate CanAdd(t: Table, chain: string, rule: Rule) {
    chain in t && (rule.target.Jump? ==> rule.target.chain in t)
  }

  /** The list without the first occurrence of a rule. */
  function RemoveFirst(rules: seq<Rule>, rule: Rule): seq<Rule> {
    if rules == [] then []
    else if rules[0] == rule then rules[1..]
    else [rules[0]] + RemoveFirst(rules[1..], rule)
  }

  class NatTable {
    var chains: Table

    method NewChain(chain: string) returns (err: Option<IptError>)
      modifies this
      ensures err.None? <==> chain !in old(chains)
      ensures chains == if chain in old(chains) then old(chains) else old(chains)[chain := []]
    {
      if chain in chains {
        return Some(ChainExistsAlready);
      }
      chains := chains[chain := []];
      return None;
    }

    predicate HasRule(chain: string, rule: Rule)
      reads this
    {
      chain in chains && rule in chains[chain]
    }

    method Append(chain: string, rule: Rule) returns (err: Option<IptError>)
      modifies this
      ensures err.None? <==> CanAdd(old(chains), chain, rule)
      ensures chains == if err.None? then old(chains)[chain := old(chains)[chain] + [rule]] else old(chains)
    {
      if !CanAdd(chains, chain, rule) {
        return Some(NoSuchChain);
      }
      chains := chains[chain := chains[chain] + [rule]];
      return None;
    }

    /** Insert at position 1, the head of the chain. */
    method Insert(chain: string, rule: Rule) returns (err: Option<IptError>)
      modifies this
      ensures err.None? <==> CanAdd(old(chains), chain, rule)
      ensures chains == if err.None? then old(chains)[chain := [rule] + old(chains)[chain]] else old(chains)
    {
      if !CanAdd(chains, chain, rule) {
        return Some(NoSuchChain);
      }
      chains := chains[chain := [rule] + chains[chain]];
      return None;
    }

    method Delete(chain: string, rule: Rule) returns (err: Option<IptError>)
      modifies this
      ensures err.None? <==> chain in old(chains) && rule in old(chains)[chain]
      ensures chains == if err.None? then old(chains)[chain := RemoveFirst(old(chains)[chain], rule)] else old(chains)
    {
      if chain !in chains || rule !in chains[chain] {
        return Some(NoSuchRule);
      }
      chains := chains[chain := RemoveFirst(chains[chain], rule)];
      return None;
    }

    method Flush(chain: string) returns (err: Option<IptError>)
      modifies this
      ensures err.None? <==> chain in old(chains)
      ensures chains == if err.None? then old(chains)[chain := []] else old(chains)
    {
      if chain !in chains {
        return Some(NoSuchChain);
      }
      chains := chains[chain := []];
      return None;
    }

    /** A chain can be deleted when it is empty and no rule jumps to it. */
    method Remove(chain: string) returns (err: Option<IptError>)
      modifies this
      ensures err == if chain !in old(chains) then Some(NoSuchChain)
                     else if old(chains)[chain] != [] || Referenced(old(chains), chain) then Some(ChainBusy)
                     else None
      ensures chains == if err.None? then old(chains) - {chain} else old(chains)
    {
      if chain !in chains {
        return Some(NoSuchChain);
      }
      var referenced := IsReferenced(chain);
      if chains[chain] != [] || referenced {
        return Some(ChainBusy);
      }
      chains := chains - {chain};
      return None;
    }

    method IsReferenced(chain: string) returns (b: bool)
      ensures b <==> Referenced(chains, chain)
    {
      var todo := chains.Keys;
      while todo != {}
        invariant todo <= chains.Keys
        invariant forall c, i :: c in chains && c !in todo && 0 <= i < |chains[c]| ==>
          chains[c][i].target != Jump(chain)
        decreases |todo|
      {
        var c :| c in todo;
        for i := 0 to |chains[c]|
          invariant forall j :: 0 <= j < i ==> chains[c][j].target != Jump(chain)
        {
          if chains[c][i].target == Jump(chain) {
            return true;
          }
        }
        todo := todo - {c};
      }
      return false;
    }

    // ---- pkg/utils/iptables.go ----

    predicate ChainExists(chain: string)
      reads this
    {
      chain in chains
    }

    method EnsureChain(chain: string)
      modifies this
      ensures chains == if chain in old(chains) then old(chains) else old(chains)[chain := []]
    {
      if !ChainExists(chain) {
        var err := NewChain(chain);
      }
    }

    /** ipt.ClearChain creates a missing chain by itself. */
    method ClearChain(chain: string)
      modifies this
      ensures chains == old(chains)[chain := []]
    {
      var err := Flush(chain);
      if err.Some? {
        EnsureChain(chain);
      }
    }

    /** A missing rule or chain is no error. */
    method DeleteRule(chain: string, rule: Rule)
      modifies this
      ensures chains == if chain in old(chains) && rule in old(chains)[chain]
                        then old(chains)[chain := RemoveFirst(old(chains)[chain], rule)] else old(chains)
    {
      var err := Delete(chain, rule);
    }

    /** A missing chain is no error, a busy one is. */
    method DeleteChain(chain: string) returns (ok: bool)
      modifies this
      ensures ok <==> chain !in old(chains) || (old(chains)[chain] == [] && !Referenced(old(chains), chain))
      ensures chains == if ok then old(chains) - {chain} else old(chains)
    {
      var err := Remove(chain);
      ok := err.None? || err.value == NoSuchChain;
      assert chain !in old(chains) ==> old(chains) - {chain} == old(chains);
    }
  }
}
