/**
 Whole runs of one machine: the API object, the reconcile in progress, and Harvester, with
 everything that may happen in between. A reconcile fetches the object, acts on its copy
 and on Harvester, and ends with a merge patch whose three parts (metadata and spec, status,
 conditions) are sent one by one and may each be lost. Users may delete the object, VMs may
 be deleted behind the controller's back, and a deleted VM disappears some time later.
 */
module MachineLifecycle {
  import opened Wrappers
  import opened MachineReconcile

  /** The reconcile in progress: none, working on a copy, or about to patch. */
  datatype Work = Resting | Fetched(m: Machine) | Acted(before: Machine, after: Machine)

  datatype World = World(obj: Option<Machine>, h: Harvester, work: Work)

  datatype Event =
    | CreateObject(m: Machine)
    | UserDelete
    | Fetch
    | Act(env: Env)
    | GiveUp
    | Patch(spec: bool, status: bool, conditions: bool)
    | VMDeletedOutside
    | VMGone

  function Patched(o: Machine, b: Machine, a: Machine, e: Event): Machine
    requires e.Patch?
  {
    Machine(
      Merge(e.spec, o.finalizers, b.finalizers, a.finalizers),
      o.deleting,
      Merge(e.status, o.ready, b.ready, a.ready),
      Merge(e.status, o.provisioned, b.provisioned, a.provisioned),
      Merge(e.spec, o.providerID, b.providerID, a.providerID),
      Merge(e.status, o.addresses, b.addresses, a.addresses),
      Merge(e.status, o.failureDomain, b.failureDomain, a.failureDomain),
      Merge(e.status, o.hasIP, b.hasIP, a.hasIP),
      Merge(e.conditions, o.infraReady, b.infraReady, a.infraReady),
      Merge(e.conditions, o.vmIPAllocated, b.vmIPAllocated, a.vmIPAllocated),
      Merge(e.conditions, o.vmProvisioning, b.vmProvisioning, a.vmProvisioning),
      Merge(e.conditions, o.created, b.created, a.created))
  }

  /**
   What a patch writes: of each part that arrives the fields the pass changed, of a lost
   part nothing; the deletion mark is always the server's.
   */
  lemma PatchedParts(o: Machine, b: Machine, a: Machine, e: Event)
    requires e.Patch?
    ensures var t := Patched(o, b, a, e);
      && t.deleting == o.deleting
      && (!e.spec ==> t.finalizers == o.finalizers && t.providerID == o.providerID)
      && (!e.status ==>
            && t.ready == o.ready && t.provisioned == o.provisioned && t.addresses == o.addresses
            && t.failureDomain == o.failureDomain && t.hasIP == o.hasIP)
      && (!e.conditions ==>
            && t.infraReady == o.infraReady && t.vmIPAllocated == o.vmIPAllocated
            && t.vmProvisioning == o.vmProvisioning && t.created == o.created)
      && (a == b ==> t == o)
      && (o == b && e.spec ==> t.finalizers == a.finalizers && t.providerID == a.providerID)
      && (o == b && e.status ==>
            && t.ready == a.ready && t.provisioned == a.provisioned && t.addresses == a.addresses
            && t.failureDomain == a.failureDomain && t.hasIP == a.hasIP)
      && (o == b && e.conditions ==>
            && t.infraReady == a.infraReady && t.vmIPAllocated == a.vmIPAllocated
            && t.vmProvisioning == a.vmProvisioning && t.created == a.created)
  {}

  /** The API server removes an object under deletion once its last finalizer is gone. */
  function Stored(o: Machine): Option<Machine> {
    if o.deleting && !HasFinalizer(o) then None else Some(o)
  }

  predicate Possible(w: World, e: Event) {
    match e
    case CreateObject(m) => w.obj.None? && !m.deleting
    case UserDelete => w.obj.Some?
    case Fetch => w.work.Resting? && w.obj.Some?
    case Act(_) => w.work.Fetched?
    case GiveUp => w.work.Fetched?
    case Patch(_, _, _) => w.work.Acted?
    case VMDeletedOutside => w.h.vm.VM?
    case VMGone => w.h.vm.VM? && w.h.vm.terminating
  }

  function Step(w: World, e: Event): World {
    match e
    case CreateObject(m) => w.(obj := Some(m))
    case UserDelete => if w.obj.Some? then w.(obj := Stored(w.obj.value.(deleting := true))) else w
    case Fetch => if w.obj.Some? then w.(work := Fetched(w.obj.value)) else w
    case Act(env) =>
      if w.work.Fetched?
      then var (m', h') := ReconcileStep(w.work.m, w.h, env); World(w.obj, h', Acted(w.work.m, m'))
      else w
    case GiveUp => w.(work := Resting)
    case Patch(_, _, _) =>
      if w.work.Acted? && w.obj.Some?
      then World(Stored(Patched(w.obj.value, w.work.before, w.work.after, e)), w.h, Resting)
      else w.(work := Resting)
    case VMDeletedOutside => if w.h.vm.VM? then w.(h := w.h.(vm := w.h.vm.(terminating := true))) else w
    case VMGone => w.(h := w.h.(vm := NoVM))
  }

  function After(w: World, events: seq<Event>): World {
    if events == [] then w else Step(After(w, events[..|events| - 1]), events[|events| - 1])
  }

  predicate Trace(w: World, events: seq<Event>) {
    events == [] || (Trace(w, events[..|events| - 1]) && Possible(After(w, events[..|events| - 1]), events[|events| - 1]))
  }

  /** A VM exists only while the object does, under a finalizer. */
  predicate VMGuarded(w: World) {
    w.h.vm.VM? ==> w.obj.Some? && HasFinalizer(w.obj.value)
  }

  /** Any state between passes: no object yet, or one in use, also one that carries the legacy finalizer. */
  predicate Initial(w: World) {
    w.work.Resting? && VMGuarded(w)
  }

  // ---------------------------------------------------------------- the invariant

  /** A copy taken under a finalizer still matches the object; a copy without one means no VM. */
  predicate CopyGuarded(w: World, copy: Machine) {
    if HasFinalizer(copy)
    then w.obj.Some? && w.obj.value.finalizers == copy.finalizers && (copy.deleting ==> w.obj.value.deleting)
    else w.h.vm.NoVM?
  }

  predicate WorkGuarded(w: World) {
    match w.work
    case Resting => true
    case Fetched(m) => CopyGuarded(w, m)
    case Acted(before, after) =>
      && CopyGuarded(w, before)
      && (!before.deleting ==> after.finalizers.current)
      && (HasFinalizer(before) && !HasFinalizer(after) ==> before.deleting && w.h == Harvester(NoVM, false))
      && (before.finalizers.current && !before.deleting ==> after.finalizers == before.finalizers)
  }

  predicate Inv(w: World) {
    VMGuarded(w) && WorkGuarded(w)
  }

  lemma ActKeeps(w: World, env: Env)
    requires Inv(w) && w.work.Fetched?
    ensures Inv(Step(w, Act(env)))
  {
    var m := w.work.m;
    NormalCreatesGuarded(m, w.h, env);
  }

  lemma StepKeeps(w: World, e: Event)
    requires Inv(w) && Possible(w, e)
    ensures Inv(Step(w, e))
  {
    if e.Act? {
      ActKeeps(w, e.env);
    }
  }

  lemma {:induction false} InvHolds(w: World, events: seq<Event>)
    requires Initial(w) && Trace(w, events)
    ensures Inv(After(w, events))
  {
    if events != [] {
      InvHolds(w, events[..|events| - 1]);
      StepKeeps(After(w, events[..|events| - 1]), events[|events| - 1]);
    }
  }

  predicate Finalized(w: World) {
    w.obj.Some? && HasFinalizer(w.obj.value)
  }

  /**
   In every run, and at every step of it: an existing VM implies an existing object with a
   finalizer; the last finalizer goes only in the patch of a delete pass that left neither
   secret nor VM; and a pass working on a copy under deletion creates no VM.
   */
  lemma LifecycleSafety(w: World, events: seq<Event>, e: Event)
    requires Initial(w) && Trace(w, events) && Possible(After(w, events), e)
    ensures var u := After(w, events); var t := Step(u, e);
      && (t.h.vm.VM? ==> Finalized(t))
      && (Finalized(u) && !Finalized(t) ==>
            e.Patch? && e.spec && u.work.Acted? && u.work.before.deleting && u.h == Harvester(NoVM, false))
      && (u.h.vm.NoVM? && t.h.vm.VM? ==> e.Act? && u.work.Fetched? && !u.work.m.deleting && u.work.m.finalizers.current)
  {
    InvHolds(w, events);
    var u := After(w, events);
    StepKeeps(u, e);
    if e.Act? {
      NormalCreatesGuarded(u.work.m, u.h, e.env);
    }
  }

  // ---------------------------------------------------------------- migration

  /** The object carries the old finalizer and not the new one. */
  predicate LegacyOnly(m: Machine) {
    !m.finalizers.current && m.finalizers.legacy
  }

  /**
   An object under the legacy finalizer is never without one on the way to the new one: a
   step takes its last legacy finalizer either by a migrating patch, which leaves the
   current one, or by the patch of a delete pass that left neither secret nor VM.
   */
  lemma MigrationKeepsFinalizer(w: World, events: seq<Event>, e: Event)
    requires Initial(w) && Trace(w, events) && Possible(After(w, events), e)
    requires After(w, events).obj.Some? && LegacyOnly(After(w, events).obj.value)
    ensures var u := After(w, events); var t := Step(u, e);
      && (Finalized(t) && !LegacyOnly(t.obj.value) ==>
            e.Patch? && e.spec && t.obj.value.finalizers == Finalizers(true, false) && !u.work.before.deleting)
      && (!Finalized(t) ==> e.Patch? && e.spec && u.work.before.deleting && t.obj.None? && t.h == Harvester(NoVM, false))
  {
    InvHolds(w, events);
    LifecycleSafety(w, events, e);
    var u := After(w, events);
    if e.Patch? {
      MigratedCopies(w, events);
    }
  }

  /** What a pass in progress made of a copy without the current finalizer. */
  predicate MigrationCopy(w: World) {
    w.work.Acted? && !w.work.before.finalizers.current ==>
      if w.work.before.deleting
      then w.work.after.finalizers == w.work.before.finalizers || !HasFinalizer(w.work.after)
      else w.work.after.finalizers == Finalizers(true, false)
  }

  lemma {:induction false} MigratedCopies(w: World, events: seq<Event>)
    requires Initial(w) && Trace(w, events)
    ensures MigrationCopy(After(w, events))
  {
    if events != [] {
      MigratedCopies(w, events[..|events| - 1]);
    }
  }

  // ---------------------------------------------------------------- deletion completes

  lemma {:induction false} TraceConcat(w: World, a: seq<Event>, b: seq<Event>)
    ensures After(w, a + b) == After(After(w, a), b)
    ensures Trace(w, a + b) <==> Trace(w, a) && Trace(After(w, a), b)
    decreases |b|
  {
    if b == [] {
      assert a + b == a;
    } else {
      TraceConcat(w, a, b[..|b| - 1]);
      assert (a + b)[..|a + b| - 1] == a + b[..|b| - 1];
    }
  }

  /** Deletion is under way: whoever works on the object sees it, and nothing is made again. */
  predicate Deleting(w: World) {
    && (w.obj.Some? ==> w.obj.value.deleting && HasFinalizer(w.obj.value))
    && (w.obj.None? ==> w.h == Harvester(NoVM, false))
    && match w.work
       case Resting => true
       case Fetched(m) => m.deleting && HasFinalizer(m) && (w.obj.Some? ==> w.obj.value.finalizers == m.finalizers)
       case Acted(before, after) =>
         && before.deleting && HasFinalizer(before)
         && (w.obj.Some? ==> w.obj.value.finalizers == before.finalizers)
         && (after.finalizers == before.finalizers || (!HasFinalizer(after) && w.h == Harvester(NoVM, false)))
  }

  predicate NobodyCreates(events: seq<Event>) {
    forall i :: 0 <= i < |events| ==> !events[i].CreateObject?
  }

  /** How far a deletion got, which no event takes back: the VM is asked to go, it is gone, all is gone. */
  predicate VMLeaving(w: World) {
    w.h.vm.VM? ==> w.h.vm.terminating
  }

  predicate AllGone(w: World) {
    w.obj.None? && w.h == Harvester(NoVM, false)
  }

  lemma DeletingStep(w: World, e: Event)
    requires Deleting(w) && Possible(w, e) && !e.CreateObject?
    ensures var t := Step(w, e);
      && Deleting(t)
      && (VMLeaving(w) ==> VMLeaving(t))
      && (w.h.vm.NoVM? ==> t.h.vm.NoVM?)
      && (AllGone(w) ==> AllGone(t))
  {}

  lemma {:induction false} DeletingRun(w: World, events: seq<Event>)
    requires Deleting(w) && Trace(w, events) && NobodyCreates(events)
    ensures var t := After(w, events);
      && Deleting(t)
      && (VMLeaving(w) ==> VMLeaving(t))
      && (w.h.vm.NoVM? ==> t.h.vm.NoVM?)
      && (AllGone(w) ==> AllGone(t))
  {
    if events != [] {
      var init := events[..|events| - 1];
      DeletingRun(w, init);
      DeletingStep(After(w, init), events[|events| - 1]);
    }
  }

  /** A delete pass in which every call is answered. */
  predicate GoodDelete(env: Env) {
    env.secretDeleteOk && env.vmGetOk && env.vmDeleteOk
  }

  lemma TwoEvents(w: World, e: Event, f: Event)
    ensures After(w, [e, f]) == Step(Step(w, e), f)
    ensures Trace(w, [e, f]) <==> Possible(w, e) && Possible(Step(w, e), f)
  {
    assert [e, f][..1] == [e] && [e][..0] == [];
    assert After(w, [e]) == Step(w, e);
    assert Trace(w, [e]) <==> Possible(w, e);
  }

  /** One answered delete pass: the VM is asked to go, or is gone and the object goes. */
  lemma GoodDeleteStep(u: World, env: Env)
    requires Deleting(u) && u.work.Fetched? && GoodDelete(env)
    ensures var t := Step(u, Act(env));
      && Possible(u, Act(env)) && VMLeaving(t) && !t.h.secret
      && (u.h.vm.NoVM? ==> forall e: Event :: e.Patch? && e.spec ==> AllGone(Step(t, e)))
  {}

  /**
   Deletion completes, whatever else happens: in any run of an object under deletion that
   nobody creates anew, with any number of failed, abandoned or lost passes, once one pass
   is answered the VM is gone or about to go; and if it is gone when a later pass is
   answered and its spec patch arrives, object, VM and secret are gone for good.
   */
  lemma DeletionCompletes(w: World, first: seq<Event>, env1: Env, middle: seq<Event>, env2: Env, patch: Event, rest: seq<Event>)
    requires Deleting(w) && GoodDelete(env1) && GoodDelete(env2) && patch.Patch? && patch.spec
    requires var events := first + [Act(env1)] + middle; NobodyCreates(events + [Act(env2), patch] + rest)
    requires var events := first + [Act(env1)] + middle; Trace(w, events + [Act(env2), patch] + rest)
    ensures var u := After(w, first + [Act(env1)] + middle);
      && (u.h.vm.NoVM? || Possible(u, VMGone))
      && (u.h.vm.NoVM? ==> AllGone(After(w, first + [Act(env1)] + middle + [Act(env2), patch] + rest)))
  {
    var events := first + [Act(env1)] + middle;
    TraceConcat(w, events + [Act(env2), patch], rest);
    TraceConcat(w, events, [Act(env2), patch]);
    TraceConcat(w, first + [Act(env1)], middle);
    TraceConcat(w, first, [Act(env1)]);
    CreatesApart(events + [Act(env2), patch], rest);
    CreatesApart(events, [Act(env2), patch]);
    CreatesApart(first + [Act(env1)], middle);
    CreatesApart(first, [Act(env1)]);
    DeletingRun(w, first);
    FirstAnswered(After(w, first), env1, middle);
    var u := After(w, events);
    if u.h.vm.NoVM? {
      SecondAnswered(u, env2, patch, rest);
    }
  }

  /** The API server holds no object under deletion without a finalizer. */
  predicate NoneLingers(w: World) {
    && (w.obj.Some? && w.obj.value.deleting ==> HasFinalizer(w.obj.value))
    && (w.work.Fetched? && w.work.m.deleting ==> HasFinalizer(w.work.m))
    && (w.work.Acted? && w.work.before.deleting ==>
          && HasFinalizer(w.work.before)
          && (w.work.after.finalizers == w.work.before.finalizers || !HasFinalizer(w.work.after)))
  }

  lemma {:induction false} NoneEverLingers(w: World, events: seq<Event>)
    requires Initial(w) && NoneLingers(w) && Trace(w, events)
    ensures NoneLingers(After(w, events))
  {
    if events != [] {
      var init, e := events[..|events| - 1], events[|events| - 1];
      NoneEverLingers(w, init);
      InvHolds(w, init);
    }
  }

  /** The pass in progress, if any, works on a copy fetched after the deletion was requested. */
  predicate SeesDeletion(w: World) {
    && (w.work.Fetched? ==> w.work.m.deleting)
    && (w.work.Acted? ==> w.work.before.deleting)
  }

  /**
   In every run, once the object is under deletion and the pass that worked on an older copy
   has ended (it may still have created a VM), deletion is under way and stays so.
   */
  lemma DeletionUnderWay(w: World, events: seq<Event>)
    requires Initial(w) && NoneLingers(w) && Trace(w, events)
    requires var u := After(w, events); u.obj.Some? && u.obj.value.deleting && SeesDeletion(u)
    ensures Deleting(After(w, events))
  {
    InvHolds(w, events);
    NoneEverLingers(w, events);
  }

  /** So DeletionCompletes holds of the rest of every run, whenever the deletion was requested. */
  lemma DeletionCompletesInRuns(w: World, before: seq<Event>, first: seq<Event>, env1: Env, middle: seq<Event>, env2: Env,
                                patch: Event, rest: seq<Event>)
    requires Initial(w) && NoneLingers(w) && Trace(w, before)
    requires var u := After(w, before); u.obj.Some? && u.obj.value.deleting && SeesDeletion(u)
    requires GoodDelete(env1) && GoodDelete(env2) && patch.Patch? && patch.spec
    requires NobodyCreates(first + [Act(env1)] + middle + [Act(env2), patch] + rest)
    requires Trace(After(w, before), first + [Act(env1)] + middle + [Act(env2), patch] + rest)
    ensures After(After(w, before), first + [Act(env1)] + middle).h.vm.NoVM? ==>
      AllGone(After(w, before + (first + [Act(env1)] + middle + [Act(env2), patch] + rest)))
  {
    DeletionUnderWay(w, before);
    DeletionCompletes(After(w, before), first, env1, middle, env2, patch, rest);
    TraceConcat(w, before, first + [Act(env1)] + middle + [Act(env2), patch] + rest);
  }

  lemma CreatesApart(a: seq<Event>, b: seq<Event>)
    requires NobodyCreates(a + b)
    ensures NobodyCreates(a) && NobodyCreates(b)
  {
    forall i | 0 <= i < |a| ensures !a[i].CreateObject? {
      assert (a + b)[i] == a[i];
    }
    forall i | 0 <= i < |b| ensures !b[i].CreateObject? {
      assert (a + b)[|a| + i] == b[i];
    }
  }

  lemma FirstAnswered(w: World, env: Env, middle: seq<Event>)
    requires Deleting(w) && GoodDelete(env) && Trace(w, [Act(env)]) && NobodyCreates(middle)
    requires Trace(After(w, [Act(env)]), middle)
    ensures var u := After(After(w, [Act(env)]), middle); Deleting(u) && VMLeaving(u)
  {
    assert [Act(env)][..0] == [];
    var t := Step(w, Act(env));
    assert After(w, [Act(env)]) == t;
    GoodDeleteStep(w, env);
    DeletingStep(w, Act(env));
    DeletingRun(t, middle);
  }

  lemma SecondAnswered(u: World, env: Env, patch: Event, rest: seq<Event>)
    requires Deleting(u) && u.h.vm.NoVM? && GoodDelete(env) && patch.Patch? && patch.spec && NobodyCreates(rest)
    requires Trace(u, [Act(env), patch]) && Trace(After(u, [Act(env), patch]), rest)
    ensures AllGone(After(After(u, [Act(env), patch]), rest))
  {
    TwoEvents(u, Act(env), patch);
    GoodDeleteStep(u, env);
    DeletingStep(u, Act(env));
    DeletingStep(Step(u, Act(env)), patch);
    DeletingRun(After(u, [Act(env), patch]), rest);
  }
}
