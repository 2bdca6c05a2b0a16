/**
 ReconcileNormal and ReconcileDelete of the machine controller, as steps on the machine
 object and on what exists for it in Harvester.

 Every answer of an API server or of the workload cluster is a parameter (`Env`). Requeue
 delays, logging and metrics carry no state and are not modelled; the IP pools behind
 allocateVMIP and releaseVMIP are module VmIp.
 */
module MachineReconcile {

  datatype Finalizers = Finalizers(current: bool, legacy: bool)

  datatype Cond = Unset | False | True

  /** The HarvesterMachine fields the controller reads and writes. */
  datatype Machine = Machine(
    finalizers: Finalizers,
    deleting: bool,
    ready: bool,
    provisioned: bool,
    providerID: string,
    addresses: seq<string>,
    failureDomain: string,
    hasIP: bool,
    infraReady: Cond,
    vmIPAllocated: Cond,
    vmProvisioning: Cond,
    created: Cond)

  datatype VM = NoVM | VM(uid: string, running: bool, terminating: bool)

  /** What exists in Harvester under the machine's name. */
  datatype Harvester = Harvester(vm: VM, secret: bool)

  /**
   How createVMFromHarvesterMachine ends, apart from AlreadyExists: it fails before or while
   writing the cloud-init secret, it fails after that, or the VM is created.
   */
  datatype CreateAnswer = FailsEarly | FailsAfterSecret | Succeeds(uid: string)

  datatype VMIAnswer = VMIError | VMIAddresses(addresses: seq<string>)

  datatype NodeLookup = LookupError | NodeProviderID(id: string)

  datatype Env = Env(
    infraProvisioned: bool,
    bootstrapData: bool,
    failureDomain: string,
    wantsPoolIP: bool,
    allocationOk: bool,
    vmGetOk: bool,
    vmi: VMIAnswer,
    lookup: NodeLookup,
    secretGetOk: bool,  // the Get of the cloud-init secret answers found or NotFound
    create: CreateAnswer,
    secretDeleteOk: bool,
    vmDeleteOk: bool)

  predicate HasFinalizer(m: Machine) {
    m.finalizers.current || m.finalizers.legacy
  }

  // ---------------------------------------------------------------- specification

  function NotReady(m: Machine): Machine {
    m.(ready := false, provisioned := false)
  }

  /** The provider id given to a machine without one: the node's, else one made from the VM. */
  function NewProviderID(env: Env, uid: string): string {
    if env.lookup.NodeProviderID? then env.lookup.id else "harvester://" + uid
  }

  /** What a step learns from a VM that exists; `stop` ends the reconcile. */
  datatype Seen = Seen(m: Machine, stop: bool)

  function SeeVM(m: Machine, vm: VM, env: Env): Seen
    requires vm.VM?
  {
    var m := m.(vmProvisioning := True);
    if !vm.running then Seen(m.(ready := false), true)
    else if env.vmi.VMIError? then Seen(NotReady(m), true)
    else
      var m := m.(addresses := env.vmi.addresses);
      if m.addresses == [] && m.ready then Seen(NotReady(m), true)
      else if m.addresses != [] && !m.ready then Seen(m.(ready := true, provisioned := true), true)
      else if m.providerID != "" then Seen(m.(created := True, ready := true), false)
      else if NewProviderID(env, vm.uid) == "" then Seen(m, true)
      else Seen(m.(providerID := NewProviderID(env, vm.uid), ready := true, provisioned := true), false)
  }

  /** The secret after the creation step got past it: a Get that fails otherwise is only logged. */
  function SecretWritten(h: Harvester, env: Env): Harvester {
    h.(secret := h.secret || env.secretGetOk)
  }

  /** The creation step: a VM is created unless one already exists under the name. */
  function CreateVM(m: Machine, h: Harvester, env: Env): (Machine, Harvester) {
    var failed := m.(ready := false, vmProvisioning := False);
    match env.create
    case FailsEarly => (failed, h)
    case FailsAfterSecret => (failed, SecretWritten(h, env))
    case Succeeds(uid) =>
      if h.vm.VM? then (failed, SecretWritten(h, env))
      else (m.(ready := true, vmProvisioning := False, created := True), SecretWritten(h, env).(vm := VM(uid, true, false)))
  }

  /** Look at the VM, then create it or check that it is there. */
  function Provision(m: Machine, h: Harvester, env: Env): (Machine, Harvester) {
    if !env.vmGetOk then (NotReady(m), h)
    else
      var seen := if h.vm.VM? then SeeVM(m, h.vm, env) else Seen(m, false);
      if seen.stop then (seen.m, h)
      else if seen.m.created != True then CreateVM(seen.m, h, env)
      else if h.vm.NoVM? then (seen.m.(ready := false, created := False), h)
      else (seen.m.(ready := true), h)
  }

  function NormalStep(m: Machine, h: Harvester, env: Env): (Machine, Harvester) {
    if !m.finalizers.current && !m.deleting then
      if m.finalizers.legacy then (m.(finalizers := Finalizers(true, false)), h)
      else (NotReady(m.(finalizers := Finalizers(true, false))), h)
    else if !env.infraProvisioned then (NotReady(m.(infraReady := False)), h)
    else if !env.bootstrapData then (NotReady(m.(infraReady := True)), h)
    else PrepareVM(m.(infraReady := True, failureDomain := env.failureDomain), h, env)
  }

  /** Everything after the gates: the address, then the VM. */
  function PrepareVM(m: Machine, h: Harvester, env: Env): (Machine, Harvester) {
    if env.wantsPoolIP && !m.hasIP && !env.allocationOk then (m.(vmIPAllocated := False), h)
    else if env.wantsPoolIP then Provision(m.(hasIP := true, vmIPAllocated := True), h, env)
    else Provision(m, h, env)
  }

  function DeleteStep(m: Machine, h: Harvester, env: Env): (Machine, Harvester) {
    if !env.secretDeleteOk then (m, h)
    else
      var h := h.(secret := false);
      if !env.vmGetOk then (m, h)
      else if h.vm.VM? then (m, if env.vmDeleteOk then h.(vm := h.vm.(terminating := true)) else h)
      else (m.(finalizers := Finalizers(false, false)), h)
  }

  function ReconcileStep(m: Machine, h: Harvester, env: Env): (Machine, Harvester) {
    if m.deleting then DeleteStep(m, h, env) else NormalStep(m, h, env)
  }

  /**
   ReconcileNormal keeps or adds the finalizer and creates a VM only behind it. A VM it
   creates has its cloud-init secret exactly when the secret was there before or its Get
   was answered.
   */
  lemma NormalCreatesGuarded(m: Machine, h: Harvester, env: Env)
    ensures var (m', h') := NormalStep(m, h, env);
      && (h'.vm != h.vm ==> h.vm.NoVM? && (m.finalizers.current || m.deleting))
      && (h'.vm != h.vm ==> (h'.secret <==> h.secret || env.secretGetOk))
      && (m'.finalizers.current || m.deleting)
      && (m.finalizers.current ==> m'.finalizers == m.finalizers)
      && m'.deleting == m.deleting
  {
    if (m.finalizers.current || m.deleting) && env.infraProvisioned && env.bootstrapData {
      var p := m.(infraReady := True, failureDomain := env.failureDomain);
      ProvisionGuarded(p, h, env);
      ProvisionGuarded(p.(hasIP := true, vmIPAllocated := True), h, env);
    }
  }

  /** A machine that is ready for its VM gets one without a secret when the secret's Get fails. */
  lemma VMWithoutSecret(m: Machine, h: Harvester, env: Env)
    requires m.finalizers.current && m.created != True && h == Harvester(NoVM, false)
    requires env.infraProvisioned && env.bootstrapData && env.vmGetOk && (env.wantsPoolIP && !m.hasIP ==> env.allocationOk)
    requires env.create.Succeeds? && !env.secretGetOk
    ensures var (m', h') := NormalStep(m, h, env);
      m'.ready && m'.created == True && h' == Harvester(VM(env.create.uid, true, false), false)
  {}

  lemma ProvisionGuarded(m: Machine, h: Harvester, env: Env)
    ensures var (m', h') := Provision(m, h, env);
      && (h'.vm != h.vm ==> h.vm.NoVM? && (h'.secret <==> h.secret || env.secretGetOk))
      && m'.finalizers == m.finalizers && m'.deleting == m.deleting
  {
    if h.vm.VM? {
      SeeVMKeeps(m, h.vm, env);
    }
  }

  lemma SeeVMKeeps(m: Machine, vm: VM, env: Env)
    requires vm.VM?
    ensures SeeVM(m, vm, env).m.finalizers == m.finalizers && SeeVM(m, vm, env).m.deleting == m.deleting
  {}

  // ---------------------------------------------------------------- what a pass reports

  /** The node has no provider id yet, and none can be made up. */
  predicate NoProviderID(m: Machine, vm: VM, env: Env)
    requires vm.VM?
  {
    m.providerID == "" && NewProviderID(env, vm.uid) == ""
  }

  /** The VMI of a running VM was read. */
  predicate VMIRead(vm: VM, env: Env)
    requires vm.VM?
  {
    vm.running && env.vmi.VMIAddresses?
  }

  /**
   When a pass that got to the VM leaves the machine ready. A VM with addresses makes it
   ready unless the machine was ready and a second VM is tried for it; a VM without any
   address makes it ready if it was not.
   */
  predicate ReadyAfter(m: Machine, h: Harvester, env: Env) {
    && env.vmGetOk
    && if h.vm.NoVM? then m.created != True && env.create.Succeeds?
       else
         var bound := m.providerID != "" || m.created == True;
         && VMIRead(h.vm, env)
         && if env.vmi.addresses != [] then m.ready ==> NoProviderID(m, h.vm, env) || bound
            else !m.ready && !NoProviderID(m, h.vm, env) && bound
  }

  /** The pass sees the machine lose its VMI, or a ready machine lose its last address. */
  predicate LosesAddresses(m: Machine, vm: VM, env: Env)
    requires vm.VM?
  {
    vm.running && (env.vmi.VMIError? || (env.vmi.addresses == [] && m.ready))
  }

  /** The pass sees the first addresses of a machine, or gives it its provider id. */
  predicate GainsAddresses(m: Machine, vm: VM, env: Env)
    requires vm.VM?
  {
    VMIRead(vm, env) && !LosesAddresses(m, vm, env)
    && ((env.vmi.addresses != [] && !m.ready) || (m.providerID == "" && NewProviderID(env, vm.uid) != ""))
  }

  lemma SeeVMOutcome(m: Machine, vm: VM, env: Env)
    requires vm.VM?
    ensures var seen := SeeVM(m, vm, env);
      && (!seen.stop <==> VMIRead(vm, env) && (m.ready <==> env.vmi.addresses != []) && !NoProviderID(m, vm, env))
      && (!seen.stop ==> seen.m.ready && seen.m.providerID != "" && seen.m.addresses == env.vmi.addresses)
      && (m.providerID != "" ==> seen.m.providerID == m.providerID)
      && (seen.m.provisioned <==>
            !LosesAddresses(m, vm, env) && (m.provisioned || GainsAddresses(m, vm, env)))
  {}

  lemma SeeVMReady(m: Machine, vm: VM, env: Env)
    requires vm.VM?
    ensures var seen := SeeVM(m, vm, env);
      && (seen.stop ==> (seen.m.ready <==>
            VMIRead(vm, env) && env.vmi.addresses != [] && (m.ready ==> NoProviderID(m, vm, env))))
      && (!seen.stop ==> (seen.m.created == True <==> m.providerID != "" || m.created == True))
  {}

  lemma ProvisionReady(m: Machine, h: Harvester, env: Env)
    requires env.vmGetOk
    ensures var seen := if h.vm.VM? then SeeVM(m, h.vm, env) else Seen(m, false);
      Provision(m, h, env).0.ready <==>
        if seen.stop then seen.m.ready
        else if seen.m.created != True then env.create.Succeeds? && h.vm.NoVM?
        else h.vm.VM?
  {}

  /** The provider id is the workload node's own where the lookup answered, else made from the VM's uid. */
  predicate GivenBy(id: string, env: Env, uid: string) {
    match env.lookup
    case NodeProviderID(node) => id == node
    case LookupError => id == "harvester://" + uid
  }

  /**
   Which provider id a machine gets: it keeps the one it has; without one, a pass that goes
   on assigns the node's own id or, if the lookup failed, one made from the VM; and a ready
   machine with addresses waits exactly for a node that answers an empty id.
   */
  lemma SeeVMProviderID(m: Machine, vm: VM, env: Env)
    requires vm.VM?
    ensures var seen := SeeVM(m, vm, env);
      && (seen.stop || m.providerID != "" ==> seen.m.providerID == m.providerID)
      && (!seen.stop && m.providerID == "" ==> GivenBy(seen.m.providerID, env, vm.uid) && seen.m.providerID != "")
      && (m.ready && m.providerID == "" && VMIRead(vm, env) && env.vmi.addresses != [] ==>
            (seen.stop <==> env.lookup == NodeProviderID("")))
  {}

  // ---------------------------------------------------------------- the conditions

  /** The pass goes on from an existing VM: readiness reflects the addresses and a provider id can be had. */
  predicate GoesOn(m: Machine, vm: VM, env: Env)
    requires vm.VM?
  {
    && VMIRead(vm, env) && (m.ready <==> env.vmi.addresses != [])
    && (m.providerID == "" ==> env.lookup != NodeProviderID(""))
  }

  /** The pass tries to create a VM: none is on record, and none exists or its provider id was just assigned. */
  predicate TriesToCreate(m: Machine, h: Harvester, env: Env) {
    && env.vmGetOk && m.created != True
    && (h.vm.VM? ==> m.providerID == "" && GoesOn(m, h.vm, env))
  }

  lemma SeenConditions(m: Machine, vm: VM, env: Env)
    requires vm.VM?
    ensures var seen := SeeVM(m, vm, env);
      && seen.m.vmProvisioning == True && (!seen.stop <==> GoesOn(m, vm, env))
      && seen.m.created == (if GoesOn(m, vm, env) && m.providerID != "" then True else m.created)
      && seen.m.infraReady == m.infraReady && seen.m.vmIPAllocated == m.vmIPAllocated
      && seen.m.failureDomain == m.failureDomain && seen.m.hasIP == m.hasIP
  {}

  /**
   What a pass that got to the VM reports of it. A VM that exists counts as provisioned,
   unless the pass tries to create another; the creation is on record exactly if it was and
   the VM is still there, or a VM was created, or the VM of a machine with a provider id
   was seen through.
   */
  lemma ProvisionConditions(m: Machine, h: Harvester, env: Env)
    ensures var m' := Provision(m, h, env).0;
      && m'.vmProvisioning == (if TriesToCreate(m, h, env) then False
                               else if env.vmGetOk && h.vm.VM? then True
                               else m.vmProvisioning)
      && m'.created == (if !env.vmGetOk then m.created
                        else if h.vm.VM? then (if GoesOn(m, h.vm, env) && m.providerID != "" then True else m.created)
                        else if m.created == True then False
                        else if env.create.Succeeds? then True
                        else m.created)
      && m'.infraReady == m.infraReady && m'.vmIPAllocated == m.vmIPAllocated
      && m'.failureDomain == m.failureDomain && m'.hasIP == m.hasIP
  {
    if env.vmGetOk && h.vm.VM? {
      SeenConditions(m, h.vm, env);
    }
  }

  /** The pass gets past the finalizer and the two gates. */
  predicate GatesOpen(m: Machine, env: Env) {
    !AddsFinalizer(m) && env.infraProvisioned && env.bootstrapData
  }

  /**
   What a whole pass reports before it gets to the VM, in every case: which gate it stopped
   at, the failure domain, and the address from the pools. A pass stopped by the finalizer
   or a gate leaves everything else as it was; a fresh finalizer and a closed gate reset
   readiness, the swap of the legacy finalizer and the wait for an address do not.
   */
  lemma GatesReport(m: Machine, h: Harvester, env: Env)
    ensures var (m', h') := NormalStep(m, h, env);
      && m'.infraReady == (if AddsFinalizer(m) then m.infraReady else if env.infraProvisioned then True else False)
      && m'.failureDomain == (if GatesOpen(m, env) then env.failureDomain else m.failureDomain)
      && (m'.hasIP <==> m.hasIP || (GatesOpen(m, env) && env.wantsPoolIP && env.allocationOk))
      && m'.vmIPAllocated == (if !GatesOpen(m, env) || !env.wantsPoolIP then m.vmIPAllocated
                              else if m.hasIP || env.allocationOk then True
                              else False)
      && (!GatesOpen(m, env) || AwaitsPoolIP(m, env) ==>
            && h' == h && m'.vmProvisioning == m.vmProvisioning && m'.created == m.created
            && m'.providerID == m.providerID && m'.addresses == m.addresses)
      && ((AddsFinalizer(m) && m.finalizers.legacy) || (!AddsFinalizer(m) && AwaitsPoolIP(m, env)) ==>
            m'.ready == m.ready && m'.provisioned == m.provisioned)
      && (!GatesOpen(m, env) && !(AddsFinalizer(m) && m.finalizers.legacy) ==> !m'.ready && !m'.provisioned)
      && (AddsFinalizer(m) ==> m'.finalizers == Finalizers(true, false))
  {
    if GatesOpen(m, env) {
      var p := m.(infraReady := True, failureDomain := env.failureDomain);
      ProvisionConditions(p, h, env);
      ProvisionConditions(p.(hasIP := true, vmIPAllocated := True), h, env);
    }
  }

  /** When a pass that got to the VM leaves the machine ready, exactly. */
  lemma ReadyExactly(m: Machine, h: Harvester, env: Env)
    ensures Provision(m, h, env).0.ready <==> ReadyAfter(m, h, env)
  {
    if env.vmGetOk {
      ProvisionReady(m, h, env);
      if h.vm.VM? {
        ReadyWithVM(m, h, env);
      }
    }
  }

  lemma ReadyWithVM(m: Machine, h: Harvester, env: Env)
    requires env.vmGetOk && h.vm.VM?
    ensures Provision(m, h, env).0.ready <==> ReadyAfter(m, h, env)
  {
    ProvisionReady(m, h, env);
    SeeVMReady(m, h.vm, env);
    SeeVMOutcome(m, h.vm, env);
  }

  // ---------------------------------------------------------------- ready without an address

  /**
   A pass that got to the VM leaves the machine ready without an address: it created the VM,
   or the VMI of a machine that was not ready reports none.
   */
  predicate ReadyUnaddressed(m: Machine, h: Harvester, env: Env) {
    && env.vmGetOk
    && if h.vm.NoVM? then m.created != True && env.create.Succeeds? && m.addresses == []
       else
         && VMIRead(h.vm, env) && env.vmi.addresses == [] && !m.ready
         && !NoProviderID(m, h.vm, env) && (m.providerID != "" || m.created == True)
  }

  lemma ProvisionAddresses(m: Machine, h: Harvester, env: Env)
    ensures Provision(m, h, env).0.addresses
         == if env.vmGetOk && h.vm.VM? && VMIRead(h.vm, env) then env.vmi.addresses else m.addresses
  {
    if env.vmGetOk && h.vm.VM? {
      SeenAddresses(m, h.vm, env);
    }
  }

  lemma SeenAddresses(m: Machine, vm: VM, env: Env)
    requires vm.VM?
    ensures SeeVM(m, vm, env).m.addresses == if VMIRead(vm, env) then env.vmi.addresses else m.addresses
  {}

  lemma ProvisionUnaddressedExactly(m: Machine, h: Harvester, env: Env)
    ensures var m' := Provision(m, h, env).0;
      m'.ready && m'.addresses == [] <==> ReadyUnaddressed(m, h, env)
  {
    ReadyExactly(m, h, env);
    ProvisionAddresses(m, h, env);
  }

  /** The pass ends once it has swapped or added the finalizer. */
  predicate AddsFinalizer(m: Machine) {
    !m.finalizers.current && !m.deleting
  }

  /** The pass stops for want of an address from the pools. */
  predicate AwaitsPoolIP(m: Machine, env: Env) {
    env.infraProvisioned && env.bootstrapData && env.wantsPoolIP && !m.hasIP && !env.allocationOk
  }

  /**
   Exactly when a pass of ReconcileNormal leaves a machine ready without an address, for
   every machine and all answers: it was so and the pass stopped at the finalizer migration
   or for want of an address, or the pass got to the VM and ReadyUnaddressed holds.
   */
  lemma ReadyUnaddressedExactly(m: Machine, h: Harvester, env: Env)
    ensures var m' := NormalStep(m, h, env).0;
      m'.ready && m'.addresses == [] <==>
        if AddsFinalizer(m) then m.finalizers.legacy && m.ready && m.addresses == []
        else if AwaitsPoolIP(m, env) then m.ready && m.addresses == []
        else env.infraProvisioned && env.bootstrapData && ReadyUnaddressed(m, h, env)
  {
    if !AddsFinalizer(m) && env.infraProvisioned && env.bootstrapData {
      var p := m.(infraReady := True, failureDomain := env.failureDomain);
      ProvisionUnaddressedExactly(p, h, env);
      ProvisionUnaddressedExactly(p.(hasIP := true, vmIPAllocated := True), h, env);
    }
  }

  /** In particular every machine that gets its first VM is ready at once, before any address is known. */
  lemma ReadyAtCreation(m: Machine, h: Harvester, env: Env)
    requires m.finalizers.current && m.created != True && m.addresses == [] && h.vm.NoVM?
    requires env.infraProvisioned && env.bootstrapData && env.vmGetOk && !AwaitsPoolIP(m, env) && env.create.Succeeds?
    ensures var (m', h') := NormalStep(m, h, env);
      m'.ready && m'.addresses == [] && h'.vm == VM(env.create.uid, true, false)
  {
    ReadyUnaddressedExactly(m, h, env);
  }

  // ---------------------------------------------------------------- the source's procedures

  class Scope {
    var m: Machine
    var h: Harvester

    /** A VM appears only if the machine carries the finalizer, is not deleted, and had no VM. */
    method ReconcileNormal(env: Env)
      modifies this
      ensures (m, h) == NormalStep(old(m), old(h), env)
      ensures h.vm != old(h).vm ==> old(h).vm.NoVM? && (old(m).finalizers.current || old(m).deleting)
      ensures h.vm != old(h).vm ==> (h.secret <==> old(h).secret || env.secretGetOk)
      ensures m.finalizers.current || old(m).deleting
    {
      NormalCreatesGuarded(m, h, env);
      if m.finalizers.legacy && !m.finalizers.current && !m.deleting {
        m := m.(finalizers := m.finalizers.(current := true));
        m := m.(finalizers := m.finalizers.(legacy := false));
        return;
      }
      if !m.finalizers.current && !m.deleting {
        m := m.(finalizers := m.finalizers.(current := true));
        m := m.(ready := false);
        m := m.(provisioned := false);
        return;
      }
      if !env.infraProvisioned {
        m := m.(ready := false);
        m := m.(provisioned := false);
        m := m.(infraReady := False);
        return;
      }
      m := m.(infraReady := True);
      if !env.bootstrapData {
        m := m.(ready := false);
        m := m.(provisioned := false);
        return;
      }
      m := m.(failureDomain := env.failureDomain);
      Prepare(env);
    }

    /** The part of ReconcileNormal behind its gates. */
    method Prepare(env: Env)
      modifies this
      ensures (m, h) == PrepareVM(old(m), old(h), env)
    {
      if env.wantsPoolIP {
        if !m.hasIP && !env.allocationOk {
          m := m.(vmIPAllocated := False);
          return;
        }
        m := m.(hasIP := true);
        m := m.(vmIPAllocated := True);
      }
      ProvisionVM(env);
    }

    /** The rest of ReconcileNormal, once the machine may have a VM. */
    method ProvisionVM(env: Env)
      modifies this
      ensures (m, h) == Provision(old(m), old(h), env)
      ensures m.ready <==> ReadyAfter(old(m), old(h), env)
      // a VM is created exactly when none exists, none was recorded, and the calls succeed
      ensures h.vm != old(h).vm <==> env.vmGetOk && old(h).vm.NoVM? && old(m).created != True && env.create.Succeeds?
    {
      ReadyExactly(m, h, env);
      var vmExists := false;
      if !env.vmGetOk {
        m := m.(ready := false);
        m := m.(provisioned := false);
        return;
      }
      if h.vm.VM? {
        vmExists := true;
        var stop := Observe(env);
        if stop {
          return;
        }
      }
      if m.created != True {
        m := m.(ready := false);
        m := m.(vmProvisioning := False);
        var ok := CreateVMFromHarvesterMachine(env);
        if !ok {
          m := m.(vmProvisioning := False);
          return;
        }
        m := m.(created := True);
        m := m.(ready := false);
      } else if !vmExists {
        m := m.(ready := false);
        m := m.(created := False);
        return;
      }
      m := m.(ready := true);
    }

    /** The part of ReconcileNormal that runs when the VM exists. */
    method Observe(env: Env) returns (stop: bool)
      requires h.vm.VM?
      modifies this`m
      ensures Seen(m, stop) == SeeVM(old(m), h.vm, env)
      // it goes on exactly when readiness already reflects the addresses and a provider id can be had
      ensures !stop <==> VMIRead(h.vm, env) && (old(m).ready <==> env.vmi.addresses != []) && !NoProviderID(old(m), h.vm, env)
      ensures !stop ==> m.ready && m.providerID != "" && m.addresses == env.vmi.addresses
      // the provider id is kept, or assigned from the node or the VM; an empty answer of the node is waited out
      ensures stop || old(m).providerID != "" ==> m.providerID == old(m).providerID
      ensures !stop && old(m).providerID == "" ==>
        m.providerID == if env.lookup.NodeProviderID? then env.lookup.id else "harvester://" + h.vm.uid
      ensures old(m).ready && old(m).providerID == "" && h.vm.running && env.vmi.VMIAddresses? && env.vmi.addresses != [] ==>
        (stop <==> env.lookup == NodeProviderID(""))
      ensures m.provisioned <==>
        !LosesAddresses(old(m), h.vm, env) && (old(m).provisioned || GainsAddresses(old(m), h.vm, env))
    {
      SeeVMOutcome(m, h.vm, env);
      SeeVMProviderID(m, h.vm, env);
      m := m.(vmProvisioning := True);
      if !h.vm.running {
        m := m.(ready := false);
        return true;
      }
      if env.vmi.VMIError? {
        m := m.(ready := false);
        m := m.(provisioned := false);
        return true;
      }
      m := m.(addresses := env.vmi.addresses);
      if |m.addresses| == 0 && m.ready {
        m := m.(ready := false);
        m := m.(provisioned := false);
        return true;
      }
      if |m.addresses| > 0 && !m.ready {
        m := m.(ready := true);
        m := m.(provisioned := true);
        m := m.(vmProvisioning := True);
        return true;
      }
      if m.providerID == "" {
        var providerID := if env.lookup.NodeProviderID? then env.lookup.id else "harvester://" + h.vm.uid;
        if providerID == "" {
          return true;
        }
        m := m.(providerID := providerID);
        m := m.(ready := true);
        m := m.(provisioned := true);
      } else {
        m := m.(created := True);
        m := m.(ready := true);
      }
      return false;
    }

    /**
     The cloud-init secret is written before the VM, unless its Get fails with anything but
     NotFound: that is only logged, and the VM is created all the same.
     */
    method CreateVMFromHarvesterMachine(env: Env) returns (ok: bool)
      modifies this`h
      ensures ok <==> env.create.Succeeds? && old(h).vm.NoVM?
      ensures h.vm == if ok then VM(env.create.uid, true, false) else old(h).vm
      ensures h.secret <==> old(h).secret || (env.secretGetOk && !env.create.FailsEarly?)
    {
      if env.create.FailsEarly? {
        return false;
      }
      if env.secretGetOk {
        h := h.(secret := true);
      }
      if env.create.FailsAfterSecret? || h.vm.VM? {
        return false;
      }
      h := h.(vm := VM(env.create.uid, true, false));
      return true;
    }

    method ReconcileDelete(env: Env)
      modifies this
      ensures (m, h) == DeleteStep(old(m), old(h), env)
      // never creates a VM, and drops finalizers only with secret and VM gone
      ensures h.vm.VM? ==> old(h).vm.VM?
      ensures m != old(m) ==> h == Harvester(NoVM, false) && !HasFinalizer(m)
      // the secret goes first; only then is the VM asked to go, or the finalizers dropped
      ensures h.secret <==> old(h).secret && !env.secretDeleteOk
      ensures h.vm == if old(h).vm.VM? && env.secretDeleteOk && env.vmGetOk && env.vmDeleteOk
                      then old(h).vm.(terminating := true) else old(h).vm
      ensures m == if env.secretDeleteOk && env.vmGetOk && old(h).vm.NoVM?
                   then old(m).(finalizers := Finalizers(false, false)) else old(m)
    {
      if !env.secretDeleteOk {
        return;
      }
      h := h.(secret := false);
      if !env.vmGetOk {
        return;
      }
      if h.vm.VM? {
        if env.vmDeleteOk {
          h := h.(vm := h.vm.(terminating := true));
        }
        return;
      }
      m := m.(finalizers := m.finalizers.(legacy := false));
      m := m.(finalizers := m.finalizers.(current := false));
    }
  }
}
