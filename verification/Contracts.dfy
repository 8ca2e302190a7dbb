/**
  Legacy contract deployments: the executor resolver and the boot scan, and their agreement.
 */
module Contracts {
  import opened Strings

  datatype Kind = PolicyModule | Executor

  datatype Legacy = Legacy(chainId: nat, contract: Kind, address: string)

  type EnvSource = map<string, string>

  const LEGACY_CONTRACT_ADDRESSES: seq<Legacy> := [
    Legacy(8453, PolicyModule, "0x03afE9c56331EE6A795C873a5e7E23308F6f6A6d"),
    Legacy(8453, Executor, "0x54415F0Bc61436193D2a8dD00e356eD9EBfd24b3"),
    Legacy(84532, PolicyModule, "0x771444Ff5483ef3A62b492a816Cb439e4f017203"),
    Legacy(84532, Executor, "0x1fE2A4e79899A9cB03bED301f978d2Ce2F91Fc5d")]

  /** The keys of the contract table, in the order JavaScript lists integer keys. */
  const CHAINS: seq<nat> := [1, 137, 8453, 42161, 84532]

  predicate IsLegacyContractAddress(chainId: nat, address: string) {
    exists k :: 0 <= k < |LEGACY_CONTRACT_ADDRESSES| && LEGACY_CONTRACT_ADDRESSES[k].chainId == chainId
      && Lower(LEGACY_CONTRACT_ADDRESSES[k].address) == Lower(address)
  }

  function ContractEnvVar(chainId: nat, contract: Kind): string {
    (if contract.Executor? then "EXECUTOR_ADDRESS_" else "POLICY_MODULE_ADDRESS_") + Decimal(chainId)
  }

  /** An environment value; a blank one counts as unset. */
  function Configured(source: EnvSource, chainId: nat, contract: Kind): Option<string> {
    var name := ContractEnvVar(chainId, contract);
    if name in source && source[name] != "" then Some(source[name]) else None
  }

  function ResolveExecutorAddress(chainId: nat, source: EnvSource): (Option<string>, Option<Legacy>) {
    match Configured(source, chainId, Executor)
    case None => (None, None)
    case Some(address) =>
      if IsLegacyContractAddress(chainId, address) then (None, Some(Legacy(chainId, Executor, address)))
      else (Some(address), None)
  }

  /** What the boot scan has to report. */
  ghost predicate IsLegacyConfig(source: EnvSource, hit: Legacy) {
    && hit.chainId in CHAINS
    && Configured(source, hit.chainId, hit.contract) == Some(hit.address)
    && IsLegacyContractAddress(hit.chainId, hit.address)
  }

  /** By chain id, and within a chain the policy module first. */
  predicate Before(a: Legacy, b: Legacy) {
    a.chainId < b.chainId || (a.chainId == b.chainId && a.contract.PolicyModule? && b.contract.Executor?)
  }

  predicate InOrder(hits: seq<Legacy>) {
    forall i, j :: 0 <= i < j < |hits| ==> Before(hits[i], hits[j])
  }

  /** The pairs the nested loops have visited: all of the first `n` chains, and `m` kinds of the next. */
  ghost predicate Visited(n: nat, m: nat, hit: Legacy)
    requires n <= |CHAINS|
  {
    || hit.chainId in CHAINS[..n]
    || (n < |CHAINS| && hit.chainId == CHAINS[n] && (if hit.contract.PolicyModule? then 0 else 1) < m)
  }

  ghost predicate Found(source: EnvSource, n: nat, m: nat, hits: seq<Legacy>)
    requires n <= |CHAINS|
  {
    InOrder(hits) && forall h :: h in hits <==> IsLegacyConfig(source, h) && Visited(n, m, h)
  }

  /** `findLegacyContractConfig` */
  method FindLegacyContractConfig(source: EnvSource) returns (hits: seq<Legacy>)
    ensures InOrder(hits)
    ensures forall h :: h in hits <==> IsLegacyConfig(source, h)
  {
    hits := [];
    var kinds := [PolicyModule, Executor];
    for n := 0 to |CHAINS|
      invariant Found(source, n, 0, hits)
    {
      var chainId := CHAINS[n];
      for m := 0 to |kinds|
        invariant Found(source, n, m, hits)
      {
        var address := Configured(source, chainId, kinds[m]);
        if address.Some? && IsLegacyContractAddress(chainId, address.value) {
          NextComesLast(source, n, m, hits, Legacy(chainId, kinds[m], address.value));
          hits := hits + [Legacy(chainId, kinds[m], address.value)];
        }
        NextVisit(source, n, m, kinds[m]);
      }
      NextChain(source, n);
    }
    assert CHAINS[..|CHAINS|] == CHAINS;
  }

  lemma NextComesLast(source: EnvSource, n: nat, m: nat, hits: seq<Legacy>, hit: Legacy)
    requires n < |CHAINS| && Found(source, n, m, hits)
    requires hit.chainId == CHAINS[n] && m == if hit.contract.PolicyModule? then 0 else 1
    ensures InOrder(hits + [hit])
  {
    forall h | h in hits ensures Before(h, hit) {
      if h.chainId in CHAINS[..n] {
        assert CHAINS[0] < CHAINS[1] < CHAINS[2] < CHAINS[3] < CHAINS[4];
      }
    }
    assert forall i :: 0 <= i < |hits| ==> hits[i] in hits;
  }

  lemma NextVisit(source: EnvSource, n: nat, m: nat, kind: Kind)
    requires n < |CHAINS| && m == if kind.PolicyModule? then 0 else 1
    ensures forall h ::
              IsLegacyConfig(source, h) && Visited(n, m + 1, h) <==>
              (IsLegacyConfig(source, h) && Visited(n, m, h)) ||
              (h.chainId == CHAINS[n] && h.contract == kind && h.chainId !in CHAINS[..n] && IsLegacyConfig(source, h))
  {
  }

  lemma NextChain(source: EnvSource, n: nat)
    requires n < |CHAINS|
    ensures forall h :: Visited(n, 2, h) <==> Visited(n + 1, 0, h)
  {
    assert CHAINS[..n + 1] == CHAINS[..n] + [CHAINS[n]];
  }

  // ---------------------------------------------------------------- agreement

  /** The resolver never hands out a listed address of the chain, in any spelling of its letters. */
  lemma ResolverNeverLegacy(chainId: nat, source: EnvSource, k: nat)
    requires k < |LEGACY_CONTRACT_ADDRESSES| && LEGACY_CONTRACT_ADDRESSES[k].chainId == chainId
    ensures var (address, legacy) := ResolveExecutorAddress(chainId, source);
            && (address.Some? ==> Lower(address.value) != Lower(LEGACY_CONTRACT_ADDRESSES[k].address))
            && (address.Some? || legacy.Some? <==> Configured(source, chainId, Executor).Some?)
            && !(address.Some? && legacy.Some?)
  {
  }

  /** On a supported chain the resolver hides the configured executor iff the boot scan lists it. */
  lemma ResolverAgreesWithScan(chainId: nat, source: EnvSource, hits: seq<Legacy>)
    requires chainId in CHAINS
    requires forall h :: h in hits <==> IsLegacyConfig(source, h)
    ensures ResolveExecutorAddress(chainId, source).1.Some? <==>
            exists h :: h in hits && h.chainId == chainId && h.contract.Executor?
    ensures ResolveExecutorAddress(chainId, source).1.Some? ==>
              ResolveExecutorAddress(chainId, source).1.value in hits
  {
    var (address, legacy) := ResolveExecutorAddress(chainId, source);
    if legacy.Some? {
      assert IsLegacyConfig(source, legacy.value);
      assert legacy.value in hits;
    }
    if h :| h in hits && h.chainId == chainId && h.contract.Executor? {
      assert IsLegacyConfig(source, h);
    }
  }

  /** The same text, case aside. */
  predicate SameSpelling(a: string, b: string) {
    |a| == |b| && forall i :: 0 <= i < |a| ==> LowerChar(a[i]) == LowerChar(b[i])
  }

  /** Some listed deployment on the chain has this address, case aside. */
  predicate IsListed(chainId: nat, address: string) {
    exists k :: 0 <= k < |LEGACY_CONTRACT_ADDRESSES| && LEGACY_CONTRACT_ADDRESSES[k].chainId == chainId
      && SameSpelling(LEGACY_CONTRACT_ADDRESSES[k].address, address)
  }

  lemma ListedIff(chainId: nat, address: string)
    ensures IsLegacyContractAddress(chainId, address) <==> IsListed(chainId, address)
  {
    forall k | 0 <= k < |LEGACY_CONTRACT_ADDRESSES|
      ensures var a := LEGACY_CONTRACT_ADDRESSES[k].address;
              Lower(a) == Lower(address) <==> SameSpelling(a, address)
    {
      SameSpellingIff(LEGACY_CONTRACT_ADDRESSES[k].address, address);
    }
  }

  lemma SameSpellingIff(a: string, b: string)
    ensures Lower(a) == Lower(b) <==> SameSpelling(a, b)
  {
    if Lower(a) == Lower(b) {
      assert |a| == |b|;
      forall i | 0 <= i < |a| ensures LowerChar(a[i]) == LowerChar(b[i]) { assert Lower(a)[i] == Lower(b)[i]; }
    }
  }

  /**
    The resolver reads the chain's executor variable: unset or blank gives nothing, a listed
    address is withheld and named, and any other is handed out as it is.
   */
  lemma ResolverDecides(chainId: nat, source: EnvSource)
    ensures var name := "EXECUTOR_ADDRESS_" + Decimal(chainId);
            ResolveExecutorAddress(chainId, source) ==
              if name !in source || source[name] == "" then (None, None)
              else if IsListed(chainId, source[name]) then (None, Some(Legacy(chainId, Executor, source[name])))
              else (Some(source[name]), None)
  {
    var name := "EXECUTOR_ADDRESS_" + Decimal(chainId);
    if name in source { ListedIff(chainId, source[name]); }
  }

  /** The scan reports a pair iff the chain is supported and its variable holds a listed address. */
  lemma ScanDecides(source: EnvSource, hit: Legacy)
    ensures var name := (if hit.contract.Executor? then "EXECUTOR_ADDRESS_" else "POLICY_MODULE_ADDRESS_")
                        + Decimal(hit.chainId);
            IsLegacyConfig(source, hit) <==>
            && (hit.chainId == 1 || hit.chainId == 137 || hit.chainId == 8453 || hit.chainId == 42161
                || hit.chainId == 84532)
            && name in source && source[name] == hit.address && hit.address != ""
            && IsListed(hit.chainId, hit.address)
  {
    ListedIff(hit.chainId, hit.address);
  }

  lemma EnvVarInjective(c: nat, k: Kind, d: nat, l: Kind)
    ensures ContractEnvVar(c, k) == ContractEnvVar(d, l) <==> c == d && k == l
  {
    var x, y := ContractEnvVar(c, k), ContractEnvVar(d, l);
    if x == y {
      assert x[0] == if k.Executor? then 'E' else 'P';
      assert y[0] == if l.Executor? then 'E' else 'P';
      var n := if k.Executor? then |"EXECUTOR_ADDRESS_"| else |"POLICY_MODULE_ADDRESS_"|;
      assert x[n..] == Decimal(c) && y[n..] == Decimal(d);
      DecimalInjective(c, d);
    }
  }

  /** Changing one variable changes no other chain-and-contract pair, in the resolver or in the scan. */
  lemma VariablesAreIndependent(source: EnvSource, c: nat, k: Kind, value: string, hit: Legacy)
    requires hit.chainId != c || hit.contract != k
    ensures var changed := source[ContractEnvVar(c, k) := value];
            && (IsLegacyConfig(changed, hit) <==> IsLegacyConfig(source, hit))
            && (hit.contract.Executor? ==>
                  ResolveExecutorAddress(hit.chainId, changed) == ResolveExecutorAddress(hit.chainId, source))
  {
    EnvVarInjective(c, k, hit.chainId, hit.contract);
  }
}
