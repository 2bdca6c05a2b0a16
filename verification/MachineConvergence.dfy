/**
 Convergence of ReconcileNormal: with a cooperative environment every machine reaches its
 goal within five passes and then stays as it is, whatever state it starts from.
 */
module MachineConvergence {
  import opened MachineReconcile

  /** The part of the environment that stays fixed while the machine converges. */
  datatype Setting = Setting(failureDomain: string, wantsPoolIP: bool, addresses: seq<string>)

  /**
   A cooperative pass: infrastructure and bootstrap data are ready, API calls succeed, the
   VMI reports the machine's addresses, and the node lookup fails or gives a non-empty id.
   */
  predicate Good(c: Setting, env: Env) {
    && env.infraProvisioned && env.bootstrapData && env.vmGetOk && env.create.Succeeds?
    && env.failureDomain == c.failureDomain && env.wantsPoolIP == c.wantsPoolIP
    && (env.wantsPoolIP ==> env.allocationOk)
    && env.vmi == VMIAddresses(c.addresses)
    && (env.lookup.NodeProviderID? ==> env.lookup.id != "")
  }

  predicate AllGood(c: Setting, envs: seq<Env>) {
    c.addresses != [] && forall i :: 0 <= i < |envs| ==> Good(c, envs[i])
  }

  /** A VM that exists is one that should be running. */
  predicate VMUsable(h: Harvester) {
    h.vm.VM? ==> h.vm.running
  }

  predicate Goal(m: Machine, h: Harvester) {
    h.vm.VM? && m.ready && m.created == True && m.providerID != ""
  }

  /** The goal, with every reported field up to date. */
  predicate Settled(c: Setting, m: Machine, h: Harvester) {
    && Goal(m, h) && VMUsable(h) && m.finalizers.current
    && m.addresses == c.addresses && m.failureDomain == c.failureDomain
    && m.infraReady == True && m.vmProvisioning == True
    && (c.wantsPoolIP ==> m.hasIP && m.vmIPAllocated == True)
  }

  function Fold<S, E>(step: (S, E) -> S, s: S, es: seq<E>): S {
    if es == [] then s else Fold(step, step(s, es[0]), es[1..])
  }

  lemma {:induction false} FoldConcat<S, E>(step: (S, E) -> S, s: S, a: seq<E>, b: seq<E>)
    ensures Fold(step, s, a + b) == Fold(step, Fold(step, s, a), b)
    decreases |a|
  {
    if a == [] {
      assert a + b == b;
    } else {
      assert (a + b)[1..] == a[1..] + b;
      FoldConcat(step, step(s, a[0]), a[1..], b);
    }
  }

  lemma FoldTwo<S, E>(step: (S, E) -> S, s: S, e: E, f: E)
    ensures Fold(step, s, [e, f]) == step(step(s, e), f)
  {
    assert [e, f][1..] == [f] && [f][1..] == [];
    assert Fold(step, step(s, e), [f]) == step(step(s, e), f);
  }

  const PASS := (s: (Machine, Harvester), env: Env) => NormalStep(s.0, s.1, env)

  /** One pass of ReconcileNormal for each environment. */
  function Iterate(m: Machine, h: Harvester, envs: seq<Env>): (Machine, Harvester) {
    Fold(PASS, (m, h), envs)
  }

  /** How many good passes a machine is away from settling, at most. */
  function Distance(c: Setting, m: Machine, h: Harvester): nat {
    if Settled(c, m, h) then 0
    else if !m.finalizers.current then 5
    else if h.vm.NoVM? then (if m.created == True then 3 else 2)
    else if m.providerID != "" then (if m.ready then 1 else 2)
    else if m.created == True then (if m.ready then 1 else 2)
    else (if m.ready then 3 else 4)
  }

  lemma ProvisionCloser(c: Setting, m: Machine, h: Harvester, env: Env)
    requires Good(c, env) && c.addresses != [] && VMUsable(h) && !m.deleting && m.finalizers.current
    requires m.failureDomain == c.failureDomain && m.infraReady == True
    requires c.wantsPoolIP ==> m.hasIP && m.vmIPAllocated == True
    ensures var (m', h') := Provision(m, h, env);
      && VMUsable(h') && !m'.deleting
      && (Distance(c, m', h') < Distance(c, m, h) || Distance(c, m', h') == 0)
  {}

  lemma StepCloser(c: Setting, m: Machine, h: Harvester, env: Env)
    requires Good(c, env) && c.addresses != [] && VMUsable(h) && !m.deleting
    ensures var (m', h') := NormalStep(m, h, env);
      && VMUsable(h') && !m'.deleting
      && (Distance(c, m', h') < Distance(c, m, h) || Distance(c, m', h') == 0)
  {
    if m.finalizers.current {
      var q := Behind(m, env);
      ProvisionCloser(c, q, h, env);
      assert Distance(c, q, h) <= Distance(c, m, h) || Distance(c, m, h) == 0;
    }
  }

  /** A settled machine is a fixed point of every good pass. */
  lemma SettledStays(c: Setting, m: Machine, h: Harvester, env: Env)
    requires Settled(c, m, h) && Good(c, env) && c.addresses != [] && !m.deleting
    ensures NormalStep(m, h, env) == (m, h)
  {}

  lemma {:induction false} DistanceShrinks(c: Setting, m: Machine, h: Harvester, envs: seq<Env>)
    requires AllGood(c, envs) && VMUsable(h) && !m.deleting
    ensures var (m', h') := Iterate(m, h, envs);
      Settled(c, m', h') || Distance(c, m', h') + |envs| <= Distance(c, m, h)
    decreases |envs|
  {
    if envs != [] {
      StepCloser(c, m, h, envs[0]);
      var (m', h') := NormalStep(m, h, envs[0]);
      DistanceShrinks(c, m', h', envs[1..]);
      if Settled(c, m', h') {
        SettledForever(c, m', h', envs[1..]);
      }
    }
  }

  lemma {:induction false} SettledForever(c: Setting, m: Machine, h: Harvester, envs: seq<Env>)
    requires AllGood(c, envs) && Settled(c, m, h) && !m.deleting
    ensures Iterate(m, h, envs) == (m, h)
    decreases |envs|
  {
    if envs != [] {
      SettledStays(c, m, h, envs[0]);
      SettledForever(c, m, h, envs[1..]);
    }
  }

  lemma IterateConcat(m: Machine, h: Harvester, a: seq<Env>, b: seq<Env>)
    ensures var (m', h') := Iterate(m, h, a); Iterate(m, h, a + b) == Iterate(m', h', b)
  {
    FoldConcat(PASS, (m, h), a, b);
  }

  /**
   Five good passes bring any machine that is not being deleted to its goal, and no further
   good pass changes anything.
   */
  lemma Convergence(c: Setting, m: Machine, h: Harvester, envs: seq<Env>, more: seq<Env>)
    requires AllGood(c, envs) && AllGood(c, more) && VMUsable(h) && !m.deleting && |envs| >= 5
    ensures var (m', h') := Iterate(m, h, envs);
      Goal(m', h') && Settled(c, m', h') && Iterate(m, h, envs + more) == (m', h')
  {
    DistanceShrinks(c, m, h, envs);
    var (m', h') := Iterate(m, h, envs);
    KeepsNotDeleting(c, m, h, envs);
    SettledForever(c, m', h', more);
    IterateConcat(m, h, envs, more);
  }

  lemma {:induction false} KeepsNotDeleting(c: Setting, m: Machine, h: Harvester, envs: seq<Env>)
    requires !m.deleting
    ensures !Iterate(m, h, envs).0.deleting
    decreases |envs|
  {
    if envs != [] {
      NormalCreatesGuarded(m, h, envs[0]);
      var (m', h') := NormalStep(m, h, envs[0]);
      KeepsNotDeleting(c, m', h', envs[1..]);
    }
  }

  // ---------------------------------------------------------------- the provider id

  /** The id is the answer of one of the passes, about the VM `uid`. */
  ghost predicate AnsweredBy(id: string, envs: seq<Env>, uid: string) {
    exists i :: 0 <= i < |envs| && GivenBy(id, envs[i], uid)
  }

  lemma ProvisionProviderID(m: Machine, h: Harvester, env: Env)
    ensures var (m', h') := Provision(m, h, env);
      && (m.providerID != "" ==> m'.providerID == m.providerID)
      && (m'.providerID != m.providerID ==> h.vm.VM? && GivenBy(m'.providerID, env, h.vm.uid))
      && (h.vm.VM? ==> h'.vm == h.vm)
  {
    if h.vm.VM? {
      SeeVMProviderID(m, h.vm, env);
    }
  }

  lemma StepProviderID(m: Machine, h: Harvester, env: Env)
    ensures var (m', h') := NormalStep(m, h, env);
      && (m.providerID != "" ==> m'.providerID == m.providerID)
      && (m'.providerID != m.providerID ==> h.vm.VM? && GivenBy(m'.providerID, env, h.vm.uid))
      && (h.vm.VM? ==> h'.vm == h.vm)
  {
    if GatesOpen(m, env) {
      ProvisionProviderID(Behind(m, env), h, env);
    } else {
      GatesReport(m, h, env);
    }
  }

  /**
   Through any passes, good or not, a provider id is never replaced, and a new one is the
   node's own as one of the passes was answered, or made from the VM that stays.
   */
  lemma {:induction false} ProviderIDSource(m: Machine, h: Harvester, envs: seq<Env>)
    ensures var (m', h') := Iterate(m, h, envs);
      && (m.providerID != "" ==> m'.providerID == m.providerID)
      && (m'.providerID != m.providerID ==> h'.vm.VM? && AnsweredBy(m'.providerID, envs, h'.vm.uid))
      && (h.vm.VM? ==> h'.vm == h.vm)
    decreases |envs|
  {
    if envs != [] {
      StepProviderID(m, h, envs[0]);
      var (m1, h1) := NormalStep(m, h, envs[0]);
      ProviderIDSource(m1, h1, envs[1..]);
      var (m', h') := Iterate(m1, h1, envs[1..]);
      if m1.providerID != m.providerID {
        assert GivenBy(m'.providerID, envs[0], h'.vm.uid) || m1.providerID == "";
      }
      if m'.providerID != m1.providerID {
        var i :| 0 <= i < |envs[1..]| && GivenBy(m'.providerID, envs[1..][i], h'.vm.uid);
        assert envs[i + 1] == envs[1..][i];
      }
    }
  }

  /** The provider id a machine settles with: the one it had, else the answer of one of its passes. */
  lemma SettledProviderID(c: Setting, m: Machine, h: Harvester, envs: seq<Env>)
    requires AllGood(c, envs) && VMUsable(h) && !m.deleting && |envs| >= 5
    ensures var (m', h') := Iterate(m, h, envs);
      && m'.providerID != "" && h'.vm.VM?
      && if m.providerID != "" then m'.providerID == m.providerID else AnsweredBy(m'.providerID, envs, h'.vm.uid)
  {
    Convergence(c, m, h, envs, []);
    ProviderIDSource(m, h, envs);
  }

  // ---------------------------------------------------------------- status.initialization.provisioned

  /**
   When the converged machine also reports initialization.provisioned: it already did when
   its finalizer was set, or a pass will still assign its provider id, or one will see its
   VM while it is not ready.
   */
  predicate WillBeProvisioned(m: Machine, h: Harvester) {
    var reset := !m.finalizers.current && !m.finalizers.legacy;
    || (m.provisioned && !reset)
    || m.providerID == ""
    || (h.vm.VM? && (!m.ready || reset))
  }

  lemma StepKeepsProvisioning(c: Setting, m: Machine, h: Harvester, env: Env)
    requires Good(c, env) && c.addresses != [] && VMUsable(h) && !m.deleting
    ensures var (m', h') := NormalStep(m, h, env);
      WillBeProvisioned(m', h') == WillBeProvisioned(m, h)
  {
    if m.finalizers.current {
      var p := Behind(m, env);
      ProvisionKeepsProvisioning(c, p, h, env);
    }
  }

  /** The machine as it gets to its VM, once it passed the gates and has its address. */
  function Behind(m: Machine, env: Env): Machine {
    var p := m.(infraReady := True, failureDomain := env.failureDomain);
    if env.wantsPoolIP then p.(hasIP := true, vmIPAllocated := True) else p
  }

  lemma ProvisionKeepsProvisioning(c: Setting, m: Machine, h: Harvester, env: Env)
    requires Good(c, env) && c.addresses != [] && VMUsable(h) && m.finalizers.current
    ensures var (m', h') := Provision(m, h, env);
      WillBeProvisioned(m', h') == WillBeProvisioned(m, h)
  {}

  lemma {:induction false} IterateKeepsProvisioning(c: Setting, m: Machine, h: Harvester, envs: seq<Env>)
    requires AllGood(c, envs) && VMUsable(h) && !m.deleting
    ensures var (m', h') := Iterate(m, h, envs); WillBeProvisioned(m', h') == WillBeProvisioned(m, h)
    decreases |envs|
  {
    if envs != [] {
      StepKeepsProvisioning(c, m, h, envs[0]);
      StepCloser(c, m, h, envs[0]);
      var (m', h') := NormalStep(m, h, envs[0]);
      IterateKeepsProvisioning(c, m', h', envs[1..]);
    }
  }

  /** Ready does not imply provisioned: the exact condition, for every starting state. */
  lemma ProvisionedExactly(c: Setting, m: Machine, h: Harvester, envs: seq<Env>)
    requires AllGood(c, envs) && VMUsable(h) && !m.deleting && |envs| >= 5
    ensures Iterate(m, h, envs).0.ready
    ensures Iterate(m, h, envs).0.provisioned <==> WillBeProvisioned(m, h)
  {
    Convergence(c, m, h, envs, []);
    IterateKeepsProvisioning(c, m, h, envs);
  }

  /** A pass that ends at a gate which resets the initialization status, or at a failing Get of the VM. */
  predicate Resets(m: Machine, env: Env) {
    || !env.infraProvisioned
    || !env.bootstrapData
    || (!env.vmGetOk && (env.wantsPoolIP && !m.hasIP ==> env.allocationOk))
  }

  /**
   A machine that settled, lost its VM, and then saw one pass with the infrastructure down
   or the Get of the VM failing ends up ready but not provisioned.
   */
  lemma ReadyNotProvisioned(c: Setting, m: Machine, h: Harvester, good: Env, down: Env, envs: seq<Env>)
    requires Settled(c, m, h) && !m.deleting && Good(c, good) && Resets(m, down)
    requires AllGood(c, envs) && |envs| >= 5
    ensures var (m', h') := Iterate(m, h.(vm := NoVM), [good, down] + envs);
      Goal(m', h') && !m'.provisioned
  {
    var lost := h.(vm := NoVM);
    var (m1, h1) := NormalStep(m, lost, good);
    assert h1 == lost && !m1.ready && m1.providerID != "" && m1.finalizers.current && !m1.deleting && Resets(m1, down);
    ResetStep(m1, h1, down);
    var (m2, h2) := NormalStep(m1, h1, down);
    FoldTwo(PASS, (m, lost), good, down);
    IterateConcat(m, lost, [good, down], envs);
    Convergence(c, m2, h2, envs, []);
    ProvisionedExactly(c, m2, h2, envs);
  }

  lemma ResetStep(m: Machine, h: Harvester, env: Env)
    requires Resets(m, env) && m.finalizers.current
    ensures var (m', h') := NormalStep(m, h, env);
      && h' == h && !m'.ready && !m'.provisioned
      && m'.providerID == m.providerID && m'.finalizers == m.finalizers && m'.deleting == m.deleting
  {}

  // ---------------------------------------------------------------- a VM without addresses

  /** A pass in which everything is answered, but the VMI of the running VM reports no address. */
  predicate NoAddress(m: Machine, env: Env) {
    && env.infraProvisioned && env.bootstrapData && env.vmGetOk && env.vmi == VMIAddresses([])
    && (env.wantsPoolIP && !m.hasIP ==> env.allocationOk)
  }

  lemma FlipStep(m: Machine, h: Harvester, env: Env)
    requires NoAddress(m, env) && m.finalizers.current && m.providerID != "" && h.vm.VM? && h.vm.running
    ensures var (m', h') := NormalStep(m, h, env);
      && m'.ready == !m.ready && m'.addresses == [] && h' == h
      && m'.finalizers == m.finalizers && m'.providerID == m.providerID && (m.hasIP ==> m'.hasIP)
  {
    var p := Behind(m, env);
    FlipProvision(p, h, env);
  }

  lemma FlipProvision(m: Machine, h: Harvester, env: Env)
    requires env.vmGetOk && env.vmi == VMIAddresses([]) && m.providerID != "" && h.vm.VM? && h.vm.running
    ensures var (m', h') := Provision(m, h, env);
      && m'.ready == !m.ready && m'.addresses == [] && h' == h
      && m'.finalizers == m.finalizers && m'.providerID == m.providerID && m'.hasIP == m.hasIP
  {}

  /**
   Readiness without an address: as long as a running VM with a provider id reports no
   address, the machine is ready after every other pass, for any number of passes.
   */
  lemma {:induction false} ReadyFlips(m: Machine, h: Harvester, envs: seq<Env>)
    requires forall i :: 0 <= i < |envs| ==> NoAddress(m, envs[i])
    requires m.finalizers.current && m.providerID != "" && h.vm.VM? && h.vm.running
    ensures var (m', h') := Iterate(m, h, envs);
      h' == h && (m'.ready <==> (m.ready <==> |envs| % 2 == 0)) && (envs != [] ==> m'.addresses == [])
    decreases |envs|
  {
    if envs != [] {
      FlipStep(m, h, envs[0]);
      var (m', h') := NormalStep(m, h, envs[0]);
      ReadyFlips(m', h', envs[1..]);
    }
  }

  // ---------------------------------------------------------------- a VM without its secret

  /**
   The missing secret is never made up for: a machine whose VM was created while the Get of
   the secret failed converges like any other, and its VM stays without the secret.
   */
  lemma SecretMissingForever(c: Setting, m: Machine, h: Harvester, first: Env, envs: seq<Env>)
    requires m.finalizers.current && !m.deleting && m.created != True && h == Harvester(NoVM, false)
    requires Good(c, first) && !first.secretGetOk && AllGood(c, envs) && |envs| >= 5
    ensures var (m', h') := Iterate(m, h, [first] + envs);
      Goal(m', h') && !h'.secret
  {
    VMWithoutSecret(m, h, first);
    NormalCreatesGuarded(m, h, first);
    var (m1, h1) := NormalStep(m, h, first);
    assert ([first] + envs)[1..] == envs;
    Convergence(c, m1, h1, envs, []);
    StaysWithoutSecret(c, m1, h1, envs);
  }

  lemma NoSecretStep(c: Setting, m: Machine, h: Harvester, env: Env)
    requires Good(c, env) && c.addresses != [] && m.finalizers.current && m.created == True && !m.deleting
    requires h.vm.VM? && h.vm.running
    ensures var (m', h') := NormalStep(m, h, env);
      h' == h && m'.finalizers.current && m'.created == True && !m'.deleting
  {}

  lemma {:induction false} StaysWithoutSecret(c: Setting, m: Machine, h: Harvester, envs: seq<Env>)
    requires AllGood(c, envs) && m.finalizers.current && m.created == True && !m.deleting && h.vm.VM? && h.vm.running
    ensures Iterate(m, h, envs).1 == h
    decreases |envs|
  {
    if envs != [] {
      NoSecretStep(c, m, h, envs[0]);
      var (m', h') := NormalStep(m, h, envs[0]);
      StaysWithoutSecret(c, m', h', envs[1..]);
    }
  }
}
