/**
 allocateVMIP and releaseVMIP of the machine controller: trying the configured pools in
 order, and giving the recorded address back.

 The API server is an object holding the pools; whether the Get or the Update of a pass
 fails is a parameter of the call (a version conflict is one reason for an Update to fail).
 */
module VmIp {
  import opened Wrappers
  import opened Ranges
  import opened PoolStore
  import opened PoolProtocol

  /** A pool object: its ranges, the network it is assigned to ("" for any) and its status. */
  datatype PoolObject = PoolObject(ranges: seq<RangeSpec>, network: string, status: Status)

  datatype VMNetworkConfig = VMNetworkConfig(ipPoolRefs: seq<PoolRef>, ipPoolRef: PoolRef)

  datatype VmIpError = NoConfig | NoPoolRefs | GetFailed(pool: PoolRef) | AllocationFailed(pool: PoolRef)
                     | UpdateFailed(pool: PoolRef) | NoMatchingNetwork

  class Harvester {
    var pools: map<PoolRef, PoolObject>
  }

  class MachineStatus {
    var allocatedIP: Option<Addr>
    var allocatedPoolRef: PoolRef
  }

  function GetIPPoolRefs(cfg: VMNetworkConfig): seq<PoolRef> {
    if |cfg.ipPoolRefs| > 0 then cfg.ipPoolRefs else if cfg.ipPoolRef != "" then [cfg.ipPoolRef] else []
  }

  /** effectiveVMNetworkConfig: the machine's own configuration, else its cluster's. */
  function EffectiveConfig(machine: Option<VMNetworkConfig>, cluster: Option<VMNetworkConfig>): Option<VMNetworkConfig> {
    if machine.Some? then machine else cluster
  }

  /** The configuration names the pool: in its list if it has one, else as its single reference. */
  predicate NamesPool(cfg: VMNetworkConfig, pool: PoolRef) {
    if cfg.ipPoolRefs != [] then pool in cfg.ipPoolRefs else pool == cfg.ipPoolRef != ""
  }

  predicate NamesFirst(cfg: VMNetworkConfig, pool: PoolRef) {
    if cfg.ipPoolRefs != [] then pool == cfg.ipPoolRefs[0] else pool == cfg.ipPoolRef != ""
  }

  /**
   The machine's own configuration decides alone, whatever the cluster's says, and its list
   decides over its single reference, in list order.
   */
  lemma RefsTried(machine: Option<VMNetworkConfig>, cluster: Option<VMNetworkConfig>)
    ensures EffectiveConfig(machine, cluster).None? <==> machine.None? && cluster.None?
    ensures EffectiveConfig(machine, cluster).Some? ==>
      var refs, cfg := GetIPPoolRefs(EffectiveConfig(machine, cluster).value), if machine.Some? then machine.value else cluster.value;
      && (cfg.ipPoolRefs != [] ==> refs == cfg.ipPoolRefs)
      && (cfg.ipPoolRefs == [] && cfg.ipPoolRef != "" ==> refs == [cfg.ipPoolRef])
      && (cfg.ipPoolRefs == [] && cfg.ipPoolRef == "" ==> refs == [])
      && forall p :: p in refs <==> NamesPool(cfg, p)
  {}

  // ---------------------------------------------------------------- network references

  /** splitNetworkRef: everything before the last slash, and everything after it. */
  function SplitRef(ref: string): (string, string) {
    if ref == "" then ("", "")
    else if ref[|ref| - 1] == '/' then (ref[..|ref| - 1], "")
    else (SplitRef(ref[..|ref| - 1]).0, SplitRef(ref[..|ref| - 1]).1 + [ref[|ref| - 1]])
  }

  /** The parts rebuild the reference, and the name has no slash. */
  lemma {:induction false} SplitRefParts(ref: string)
    ensures '/' !in SplitRef(ref).1
    ensures if '/' in ref then ref == SplitRef(ref).0 + "/" + SplitRef(ref).1 else SplitRef(ref) == ("", ref)
  {
    if ref != "" {
      var init := ref[..|ref| - 1];
      SplitRefParts(init);
      assert ref == init + [ref[|ref| - 1]];
    }
  }

  function NetworkRefsEqual(a: string, b: string): bool {
    if a == b then true
    else if SplitRef(a).0 == "" || SplitRef(b).0 == "" then SplitRef(a).1 == SplitRef(b).1
    else false
  }

  /** Two references designate the same network: same name, and no two different namespaces. */
  predicate SameNetwork(a: string, b: string) {
    && SplitRef(a).1 == SplitRef(b).1
    && (SplitRef(a).0 == SplitRef(b).0 || SplitRef(a).0 == "" || SplitRef(b).0 == "")
  }

  lemma RefsEqualExactly(a: string, b: string)
    ensures NetworkRefsEqual(a, b) <==> SameNetwork(a, b)
    ensures NetworkRefsEqual(a, b) == NetworkRefsEqual(b, a)
  {
    QualifiedDetermined(a, b);
  }

  lemma QualifiedDetermined(a: string, b: string)
    ensures SplitRef(a) == SplitRef(b) && SplitRef(a).0 != "" ==> a == b
  {
    SplitRefParts(a);
    SplitRefParts(b);
  }

  /** PoolMatchesNetworks, as the set of references that make a pool eligible. */
  ghost predicate Matches(selector: string, networks: seq<string>) {
    selector == "" || exists n :: n in networks && NetworkRefsEqual(selector, n)
  }

  method PoolMatchesNetworks(pool: PoolObject, machineNetworks: seq<string>) returns (ok: bool)
    ensures ok <==> Matches(pool.network, machineNetworks)
    // an unassigned pool serves every machine; an assigned one serves those on a network of its name
    ensures pool.network == "" ==> ok
    ensures pool.network != "" ==> (ok <==> exists n :: n in machineNetworks && SameNetwork(pool.network, n))
  {
    forall n ensures SameNetwork(pool.network, n) <==> NetworkRefsEqual(pool.network, n) {
      RefsEqualExactly(pool.network, n);
    }
    if pool.network == "" {
      return true;
    }
    for i := 0 to |machineNetworks|
      invariant forall j :: 0 <= j < i ==> !NetworkRefsEqual(pool.network, machineNetworks[j])
    {
      if NetworkRefsEqual(pool.network, machineNetworks[i]) {
        return true;
      }
    }
    return false;
  }

  /** A machine's pool id: its namespace and name, which it determines uniquely. */
  function MachineId(namespace: string, name: string): Id {
    namespace + "/" + name
  }

  lemma MachineIdInjective(ns1: string, n1: string, ns2: string, n2: string)
    requires '/' !in ns1 && '/' !in ns2 && MachineId(ns1, n1) == MachineId(ns2, n2)
    ensures ns1 == ns2 && n1 == n2 && MachineId(ns1, n1) != ""
  {
    var s := MachineId(ns1, n1);
    assert s[|ns1|] == '/' && s[|ns2|] == '/';
    assert ns1 == s[..|ns1|] && ns2 == s[..|ns2|];
    assert n1 == s[|ns1| + 1..] && n2 == s[|ns2| + 1..];
  }

  // ---------------------------------------------------------------- what one pass can do

  /** The pool lists the machine already. */
  predicate Listed(p: PoolObject, id: Id) {
    Owned(Held(p.status), id) != {}
  }

  ghost predicate CanAllocate(p: PoolObject, id: Id) {
    AllParse(p.ranges) && exists a :: AllocAllowed(RangesOf(p.ranges), p.status, id, a)
  }

  /** Pass `k` ends the search: its pool was fetched and lists the machine, or matches and can allocate. */
  ghost predicate Usable(pools: map<PoolRef, PoolObject>, refs: seq<PoolRef>, networks: seq<string>, id: Id, getFails: set<nat>, k: nat)
    requires k < |refs|
  {
    && k !in getFails && refs[k] in pools
    && (Listed(pools[refs[k]], id) || (Matches(pools[refs[k]].network, networks) && CanAllocate(pools[refs[k]], id)))
  }

  /** Pass `k` may fail: its pool cannot be fetched, or matches and its allocation may fail. */
  ghost predicate MayFail(pools: map<PoolRef, PoolObject>, refs: seq<PoolRef>, networks: seq<string>, id: Id, getFails: set<nat>, k: nat)
    requires k < |refs|
  {
    || k in getFails || refs[k] !in pools
    || (var p := pools[refs[k]];
        !Listed(p, id) && Matches(p.network, networks) && (!AllParse(p.ranges) || AllocMayFail(RangesOf(p.ranges), p.status, id)))
  }

  /** Pass `k` may leave the search to the next pool. */
  ghost predicate PassedOver(pools: map<PoolRef, PoolObject>, refs: seq<PoolRef>, networks: seq<string>, id: Id, getFails: set<nat>, k: nat)
    requires k < |refs|
  {
    MayFail(pools, refs, networks, id, getFails, k) || SkipsNetwork(pools, refs, networks, id, getFails, k)
  }

  /** The pass that ends the search: it can, and every pass before it may be passed over. */
  ghost predicate FirstUsable(pools: map<PoolRef, PoolObject>, refs: seq<PoolRef>, networks: seq<string>, id: Id, getFails: set<nat>, k: nat) {
    && k < |refs| && Usable(pools, refs, networks, id, getFails, k)
    && forall j: nat :: j < k ==> PassedOver(pools, refs, networks, id, getFails, j)
  }

  /** Pass `k` skips a pool that is assigned to another network. */
  ghost predicate SkipsNetwork(pools: map<PoolRef, PoolObject>, refs: seq<PoolRef>, networks: seq<string>, id: Id, getFails: set<nat>, k: nat)
    requires k < |refs|
  {
    && k !in getFails && refs[k] in pools
    && !Listed(pools[refs[k]], id) && !Matches(pools[refs[k]].network, networks)
  }

  /** Every pool remembers at most one past address of the machine; see PoolRuns.HistoryInvariant. */
  predicate Tidy(pools: map<PoolRef, PoolObject>, id: Id) {
    forall p :: p in pools ==> AtMostOne(Owned(Past(pools[p].status), id))
  }

  /** A pool that lists the machine and can be fetched ends the search, whatever its network. */
  lemma ListedEndsSearch(pools: map<PoolRef, PoolObject>, refs: seq<PoolRef>, networks: seq<string>, id: Id, getFails: set<nat>, k: nat, ip: Addr)
    requires k < |refs| && k !in getFails && refs[k] in pools
    requires ip in Held(pools[refs[k]].status) && Held(pools[refs[k]].status)[ip] == id
    ensures Usable(pools, refs, networks, id, getFails, k) && !PassedOver(pools, refs, networks, id, getFails, k)
  {
    assert ip in Owned(Held(pools[refs[k]].status), id);
  }

  /** A pool assigned to another network serves no machine it does not list. */
  lemma OtherNetworkSkipped(pools: map<PoolRef, PoolObject>, refs: seq<PoolRef>, networks: seq<string>, id: Id, getFails: set<nat>, k: nat)
    requires k < |refs| && k !in getFails && refs[k] in pools && pools[refs[k]].network != ""
    requires forall n :: n in networks ==> !SameNetwork(pools[refs[k]].network, n)
    requires forall ip :: ip in Held(pools[refs[k]].status) ==> Held(pools[refs[k]].status)[ip] != id
    ensures SkipsNetwork(pools, refs, networks, id, getFails, k) && !Usable(pools, refs, networks, id, getFails, k)
  {
    forall n | n in networks ensures !NetworkRefsEqual(pools[refs[k]].network, n) {
      RefsEqualExactly(pools[refs[k]].network, n);
    }
  }

  /** First fit: with tidy pools exactly the passes that cannot end the search are passed over. */
  lemma TidyFirstFit(pools: map<PoolRef, PoolObject>, refs: seq<PoolRef>, networks: seq<string>, id: Id, getFails: set<nat>, k: nat)
    requires Tidy(pools, id) && k < |refs|
    ensures PassedOver(pools, refs, networks, id, getFails, k) <==> !Usable(pools, refs, networks, id, getFails, k)
  {
    if k !in getFails && refs[k] in pools && AllParse(pools[refs[k]].ranges) {
      var p := pools[refs[k]];
      MayFailExactly(RangesOf(p.ranges), p.status, id);
    }
  }

  /** The search succeeded at pass `k` with `ip`: adopted from the pool, or allocated and written back. */
  predicate Served(before: map<PoolRef, PoolObject>, after: map<PoolRef, PoolObject>, ref: PoolRef, networks: seq<string>, id: Id, ip: Addr) {
    && ref in before
    && if Listed(before[ref], id)
       then ip in Owned(Held(before[ref].status), id) && after == before
       else
         && AllParse(before[ref].ranges)
         && AllocAllowed(RangesOf(before[ref].ranges), before[ref].status, id, ip)
         && after == before[ref := before[ref].(status := Reserved(before[ref].status, id, ip))]
  }

  // ---------------------------------------------------------------- the source's procedures

  method FindListed(p: PoolObject, id: Id) returns (ip: Option<Addr>)
    ensures ip.Some? <==> Listed(p, id)
    ensures ip.Some? ==> ip.value in Owned(Held(p.status), id)
  {
    if p.status.allocations.Some? {
      var m := p.status.allocations.value;
      var rest := m.Keys;
      while rest != {}
        invariant rest <= m.Keys && Owned(m, id) <= rest
        decreases rest
      {
        var k :| k in rest;
        if m[k] == id {
          assert k in Owned(m, id);
          return Some(k);
        }
        rest := rest - {k};
      }
    }
    return None;
  }

  /** errors.Wrap: wrapping a nil error gives a nil error. */
  function Wrap(e: Option<VmIpError>): Option<VmIpError> {
    e
  }

  /** How one pass over a pool ends. */
  datatype PassResult = Recorded | WriteFailed | Failed(e: VmIpError) | Skipped

  /** One pass of the loop in allocateVMIP. */
  method TryPool(hv: Harvester, status: MachineStatus, refs: seq<PoolRef>, k: nat, networks: seq<string>, id: Id,
                 getFails: set<nat>, updateFails: set<nat>)
    returns (r: PassResult)
    requires k < |refs|
    modifies hv, status
    ensures !r.Recorded? ==> hv.pools == old(hv.pools)
    ensures !r.Recorded? ==> status.allocatedIP == old(status.allocatedIP) && status.allocatedPoolRef == old(status.allocatedPoolRef)
    ensures r.Recorded? || r.WriteFailed? ==> Usable(old(hv.pools), refs, networks, id, getFails, k)
    ensures r.Recorded? ==> status.allocatedIP.Some? && status.allocatedPoolRef == refs[k]
    ensures r.Recorded? ==> Served(old(hv.pools), hv.pools, refs[k], networks, id, status.allocatedIP.value)
    ensures r.WriteFailed? ==> k in updateFails && !Listed(old(hv.pools)[refs[k]], id)
    ensures r.Failed? ==> MayFail(old(hv.pools), refs, networks, id, getFails, k)
    ensures r.Skipped? <==> SkipsNetwork(old(hv.pools), refs, networks, id, getFails, k)
    ensures r.Failed? ==> ErrorOf(old(hv.pools), refs, networks, id, getFails, k, r.e)
  {
    var ref := refs[k];
    if k in getFails || ref !in hv.pools {
      return Failed(GetFailed(ref));
    }
    var pool := hv.pools[ref];
    var listed := FindListed(pool, id);
    if listed.Some? {
      status.allocatedIP := listed;
      status.allocatedPoolRef := ref;
      return Recorded;
    }
    var matches := PoolMatchesNetworks(pool, networks);
    if !matches {
      return Skipped;
    }
    var store := new Store(pool.status);
    var got := AllocateVMIPFromPool(store, pool.ranges, id);
    if got.Err? {
      return Failed(AllocationFailed(ref));
    }
    if k in updateFails {
      return WriteFailed;
    }
    hv.pools := hv.pools[ref := pool.(status := store.State())];
    status.allocatedIP := Some(got.value);
    status.allocatedPoolRef := ref;
    return Recorded;
  }

  /** `e` is the error of pass `k`: its pool could not be fetched, or could and had nothing for the machine. */
  ghost predicate ErrorOf(pools: map<PoolRef, PoolObject>, refs: seq<PoolRef>, networks: seq<string>, id: Id, getFails: set<nat>, k: nat, e: VmIpError)
    requires k < |refs|
  {
    && MayFail(pools, refs, networks, id, getFails, k)
    && e == if k in getFails || refs[k] !in pools then GetFailed(refs[k]) else AllocationFailed(refs[k])
  }

  /** `e` is the error of the last of the first `n` passes that failed. */
  ghost predicate LastError(pools: map<PoolRef, PoolObject>, refs: seq<PoolRef>, networks: seq<string>, id: Id, getFails: set<nat>, n: nat, e: VmIpError)
    requires n <= |refs|
  {
    exists k: nat :: k < n && ErrorOf(pools, refs, networks, id, getFails, k, e)
      && forall j: nat :: k < j < n ==> SkipsNetwork(pools, refs, networks, id, getFails, j)
  }

  /** The loop over the configured pools, and the error it ends with. */
  method SearchPools(hv: Harvester, status: MachineStatus, refs: seq<PoolRef>, networks: seq<string>, id: Id,
                     getFails: set<nat>, updateFails: set<nat>)
    returns (err: Option<VmIpError>)
    requires refs != []
    modifies hv, status
    ensures err.Some? ==> hv.pools == old(hv.pools)
    ensures err.Some? ==> status.allocatedIP == old(status.allocatedIP) && status.allocatedPoolRef == old(status.allocatedPoolRef)
    ensures err.None? ==> status.allocatedIP.Some? && exists k: nat ::
      && FirstUsable(old(hv.pools), refs, networks, id, getFails, k)
      && status.allocatedPoolRef == refs[k]
      && Served(old(hv.pools), hv.pools, refs[k], networks, id, status.allocatedIP.value)
    ensures err.Some? && err.value.UpdateFailed? ==> exists k: nat ::
      && FirstUsable(old(hv.pools), refs, networks, id, getFails, k)
      && k in updateFails && !Listed(old(hv.pools)[refs[k]], id) && err.value.pool == refs[k]
    ensures err.Some? && !err.value.UpdateFailed? ==>
      forall j: nat :: j < |refs| ==> PassedOver(old(hv.pools), refs, networks, id, getFails, j)
    ensures err == Some(NoMatchingNetwork) <==>
      forall j: nat :: j < |refs| ==> SkipsNetwork(old(hv.pools), refs, networks, id, getFails, j)
    ensures err.Some? && !err.value.UpdateFailed? && !err.value.NoMatchingNetwork? ==>
      LastError(old(hv.pools), refs, networks, id, getFails, |refs|, err.value)
    ensures err.Some? ==> !err.value.NoConfig? && !err.value.NoPoolRefs?
  {
    ghost var pools := hv.pools;
    var lastErr: Option<VmIpError> := None;
    var skippedNetwork: nat := 0;
    for k := 0 to |refs|
      invariant hv.pools == pools
      invariant status.allocatedIP == old(status.allocatedIP) && status.allocatedPoolRef == old(status.allocatedPoolRef)
      invariant forall j: nat :: j < k ==> PassedOver(pools, refs, networks, id, getFails, j)
      invariant lastErr.None? <==> forall j: nat :: j < k ==> SkipsNetwork(pools, refs, networks, id, getFails, j)
      invariant lastErr.None? ==> skippedNetwork == k
      invariant lastErr.Some? ==> LastError(pools, refs, networks, id, getFails, k, lastErr.value)
    {
      var pass := TryPool(hv, status, refs, k, networks, id, getFails, updateFails);
      match pass
      case Recorded =>
        assert FirstUsable(pools, refs, networks, id, getFails, k);
        return None;
      case WriteFailed =>
        assert FirstUsable(pools, refs, networks, id, getFails, k);
        return Some(UpdateFailed(refs[k]));
      case Failed(e) =>
        assert !SkipsNetwork(pools, refs, networks, id, getFails, k);
        lastErr := Some(e);
        assert ErrorOf(pools, refs, networks, id, getFails, k, e);
      case Skipped =>
        skippedNetwork := skippedNetwork + 1;
    }
    if lastErr.None? && skippedNetwork > 0 {
      return Some(NoMatchingNetwork);
    }
    return Wrap(lastErr);
  }

  method AllocateVMIP(hv: Harvester, status: MachineStatus, machineCfg: Option<VMNetworkConfig>, clusterCfg: Option<VMNetworkConfig>,
                      networks: seq<string>, id: Id, getFails: set<nat>, updateFails: set<nat>)
    returns (err: Option<VmIpError>)
    modifies hv, status
    // a nil error always means that an address is recorded
    ensures err.None? ==> status.allocatedIP.Some?
    // an error leaves every pool and the machine's record as they were
    ensures err.Some? ==> hv.pools == old(hv.pools)
    ensures err.Some? || old(status.allocatedIP).Some? ==>
              status.allocatedIP == old(status.allocatedIP) && status.allocatedPoolRef == old(status.allocatedPoolRef)
    // the pool is one the machine's own configuration names, or without one the cluster's
    ensures err.None? && old(status.allocatedIP).None? && machineCfg.Some? ==>
              NamesPool(machineCfg.value, status.allocatedPoolRef)
    ensures err.None? && old(status.allocatedIP).None? && machineCfg.None? ==>
              clusterCfg.Some? && NamesPool(clusterCfg.value, status.allocatedPoolRef)
    // a recorded address ends the call
    ensures old(status.allocatedIP).Some? ==> err.None? && hv.pools == old(hv.pools)
    // missing configuration
    ensures old(status.allocatedIP).None? ==> (err == Some(NoConfig) <==> EffectiveConfig(machineCfg, clusterCfg).None?)
    ensures old(status.allocatedIP).None? && EffectiveConfig(machineCfg, clusterCfg).Some? ==>
      var refs := GetIPPoolRefs(EffectiveConfig(machineCfg, clusterCfg).value);
      && (err == Some(NoPoolRefs) <==> refs == [])
      // first fit
      && (err.None? ==> exists k: nat ::
            && FirstUsable(old(hv.pools), refs, networks, id, getFails, k)
            && status.allocatedPoolRef == refs[k]
            && Served(old(hv.pools), hv.pools, refs[k], networks, id, status.allocatedIP.value))
      // the first usable pool could not be written
      && (err.Some? && err.value.UpdateFailed? ==> exists k: nat ::
            && FirstUsable(old(hv.pools), refs, networks, id, getFails, k)
            && k in updateFails && !Listed(old(hv.pools)[refs[k]], id) && err.value.pool == refs[k])
      // otherwise the error of the last pool that failed, and every pool was passed over
      && (err.Some? && (err.value.GetFailed? || err.value.AllocationFailed?) ==>
            LastError(old(hv.pools), refs, networks, id, getFails, |refs|, err.value))
      && (err.Some? && !err.value.UpdateFailed? ==>
            forall j: nat :: j < |refs| ==> PassedOver(old(hv.pools), refs, networks, id, getFails, j))
      && (err == Some(NoMatchingNetwork) <==>
            refs != [] && forall j: nat :: j < |refs| ==> SkipsNetwork(old(hv.pools), refs, networks, id, getFails, j))
  {
    if status.allocatedIP.Some? {
      return None;
    }
    RefsTried(machineCfg, clusterCfg);
    var cfg := EffectiveConfig(machineCfg, clusterCfg);
    if cfg.None? {
      return Some(NoConfig);
    }
    var refs := GetIPPoolRefs(cfg.value);
    if |refs| == 0 {
      return Some(NoPoolRefs);
    }
    err := SearchPools(hv, status, refs, networks, id, getFails, updateFails);
  }

  /** The pools after the address went back to the pool `ref`. */
  function GivenBack(pools: map<PoolRef, PoolObject>, ref: PoolRef, ip: Addr): map<PoolRef, PoolObject>
    requires ref in pools
  {
    pools[ref := pools[ref].(status := Released(pools[ref].status, ip))]
  }

  /** The pool a record is released into: the one it names, else the first the machine's or the cluster's configuration names. */
  predicate ReleasedInto(recorded: PoolRef, machine: Option<VMNetworkConfig>, cluster: Option<VMNetworkConfig>, pool: PoolRef) {
    if recorded != "" then pool == recorded
    else if machine.Some? then NamesFirst(machine.value, pool) && pool != ""
    else cluster.Some? && NamesFirst(cluster.value, pool) && pool != ""
  }

  lemma ReleaseRefExactly(recorded: PoolRef, machine: Option<VMNetworkConfig>, cluster: Option<VMNetworkConfig>, pool: PoolRef)
    ensures ReleasedInto(recorded, machine, cluster, pool)
       <==> pool == ReleaseRef(recorded, EffectiveConfig(machine, cluster)) != ""
  {}

  /** releaseVMIP: failures are only logged, and the machine's record is never cleared. */
  method ReleaseVMIP(hv: Harvester, status: MachineStatus, machineCfg: Option<VMNetworkConfig>, clusterCfg: Option<VMNetworkConfig>,
                     getFails: bool, updateFails: bool)
    modifies hv
    ensures status.allocatedIP == old(status.allocatedIP) && status.allocatedPoolRef == old(status.allocatedPoolRef)
    ensures var ref := ReleaseRef(status.allocatedPoolRef, EffectiveConfig(machineCfg, clusterCfg));
      hv.pools ==
        if status.allocatedIP.None? || ref !in old(hv.pools) || ref == "" || getFails || updateFails then old(hv.pools)
        else GivenBack(old(hv.pools), ref, status.allocatedIP.value)
    ensures forall p :: p in old(hv.pools) && p in hv.pools && hv.pools[p] != old(hv.pools)[p] ==>
              ReleasedInto(status.allocatedPoolRef, machineCfg, clusterCfg, p)
    ensures forall p :: p in old(hv.pools) && ReleasedInto(status.allocatedPoolRef, machineCfg, clusterCfg, p)
                        && status.allocatedIP.Some? && !getFails && !updateFails ==>
              hv.pools == GivenBack(old(hv.pools), p, status.allocatedIP.value)
  {
    forall p ensures ReleasedInto(status.allocatedPoolRef, machineCfg, clusterCfg, p)
                <==> p == ReleaseRef(status.allocatedPoolRef, EffectiveConfig(machineCfg, clusterCfg)) != "" {
      ReleaseRefExactly(status.allocatedPoolRef, machineCfg, clusterCfg, p);
    }
    if status.allocatedIP.None? {
      return;
    }
    var cfg := EffectiveConfig(machineCfg, clusterCfg);
    var ref := status.allocatedPoolRef;
    if ref == "" && cfg.Some? {
      var refs := GetIPPoolRefs(cfg.value);
      if |refs| > 0 {
        ref := refs[0];
      }
    }
    if ref == "" {
      return;
    }
    if getFails || ref !in hv.pools {
      return;
    }
    var pool := hv.pools[ref];
    var store := new Store(pool.status);
    store.Release(status.allocatedIP.value);
    if updateFails {
      return;
    }
    hv.pools := hv.pools[ref := pool.(status := store.State())];
  }

  /** The pool an address goes back to: the recorded one, else the first configured one. */
  function ReleaseRef(recorded: PoolRef, cfg: Option<VMNetworkConfig>): PoolRef {
    if recorded != "" then recorded
    else if cfg.Some? && |GetIPPoolRefs(cfg.value)| > 0 then GetIPPoolRefs(cfg.value)[0]
    else ""
  }
}
