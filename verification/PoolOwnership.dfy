/**
 Who owns an address. Machines allocate through allocateVMIP, record the address in their
 own status, and release it through releaseVMIP while being deleted. The record is never
 cleared and releaseVMIP runs on every delete pass, so a later pass can release an address
 that meanwhile belongs to another machine.

 A record names its pool. One that does not (pool "") was left by an earlier version, and
 its address is given back to the first pool configured at that time, whichever that is.

 One reconcile of a machine runs at a time; everything else interleaves freely. A lost
 status patch is a Crash before Record. Other users of the pools (load balancers) act
 through whole operations on addresses that are not held by machines.
 */
module PoolOwnership {
  import opened Wrappers
  import opened Ranges
  import opened PoolStore
  import Runs = PoolRuns
  import opened PoolProtocol

  datatype Lease = Lease(pool: PoolRef, ip: Addr)

  /** The reconcile in progress for a machine. */
  datatype Work =
    | Resting
    | Looking(pool: PoolRef, version: nat, base: Status)
    | Allocating(pool: PoolRef, version: nat, base: Status, ip: Addr)
    | Allocated(lease: Lease)
    | Releasing(lease: Lease, version: nat, base: Status)

  datatype Machine = Machine(recorded: Option<Lease>, released: bool, deleting: bool, work: Work)

  datatype World = World(server: map<PoolRef, Versioned>, machines: map<Id, Machine>)

  datatype Action =
    | Look(m: Id, pool: PoolRef)
    | Adopt(m: Id, ip: Addr)
    | Plan(m: Id, ip: Addr)
    | Commit(m: Id)
    | Record(m: Id)
    | Delete(m: Id)
    | LookForRelease(m: Id, pool: PoolRef)
    | CommitRelease(m: Id)
    | Crash(m: Id)
    | Recreate(m: Id)
    | Other(pool: PoolRef, op: Runs.Op)

  const NEW_MACHINE := Machine(None, false, false, Resting)

  predicate Lists(status: Status, ip: Addr, id: Id) {
    ip in Held(status) && Held(status)[ip] == id
  }

  /** The pool a recorded address goes back to: its own, or any if the record names none. */
  predicate ReleasesTo(record: Lease, pool: PoolRef) {
    record.pool == pool || record.pool == ""
  }

  /** The machine may take `action`; `guarded` adds the check the source lacks on a release. */
  predicate MachineMay(ranges: map<PoolRef, seq<Range>>, w: World, action: Action, m: Machine, guarded: bool) {
    match action
    case Look(_, pool) => m.work.Resting? && !m.deleting && m.recorded.None? && pool in w.server
    case Adopt(id, ip) => m.work.Looking? && Lists(m.work.base, ip, id)
    case Plan(id, ip) =>
      m.work.Looking? && m.work.pool in ranges && AllocAllowed(ranges[m.work.pool], m.work.base, id, ip)
    case Commit(_) => m.work.Allocating?
    case Record(_) => m.work.Allocated?
    case Delete(_) => true
    case LookForRelease(_, pool) =>
      m.work.Resting? && m.deleting && m.recorded.Some? && ReleasesTo(m.recorded.value, pool) && pool in w.server
    case CommitRelease(id) => m.work.Releasing? && (guarded ==> Lists(m.work.base, m.work.lease.ip, id))
    case Crash(_) => true
    case Recreate(_) => m.deleting && m.work.Resting?
    case Other(_, _) => false
  }

  /** Other users leave the machines' addresses alone. */
  predicate OtherMay(ranges: map<PoolRef, seq<Range>>, w: World, pool: PoolRef, op: Runs.Op) {
    && pool in w.server && pool in ranges
    && Runs.Enabled(ranges[pool], w.server[pool].status, op)
    && match op
       case Allocate(id, _) => id !in w.machines
       case Reclaim(id, _) => id !in w.machines
       case Release(ip) => ip in Held(w.server[pool].status) ==> Held(w.server[pool].status)[ip] !in w.machines
       case ReleaseById(id) => id !in w.machines
  }

  predicate May(ranges: map<PoolRef, seq<Range>>, w: World, action: Action, guarded: bool) {
    if action.Other? then OtherMay(ranges, w, action.pool, action.op)
    else action.m in w.machines && MachineMay(ranges, w, action, w.machines[action.m], guarded)
  }

  predicate Current(w: World, pool: PoolRef, version: nat) {
    pool in w.server && w.server[pool].version == version
  }

  /** The version-checked write of a new status for `pool`. */
  function Put(w: World, pool: PoolRef, version: nat, status: Status): World {
    if Current(w, pool, version) then w.(server := w.server[pool := Versioned(version + 1, status)]) else w
  }

  function With(w: World, id: Id, m: Machine): World {
    w.(machines := w.machines[id := m])
  }

  function MachineStep(w: World, action: Action, m: Machine): World
    requires !action.Other?
  {
    var id := action.m;
    match action
    case Look(_, pool) =>
      if pool in w.server
      then With(w, id, m.(work := Looking(pool, w.server[pool].version, w.server[pool].status)))
      else w
    case Adopt(_, ip) =>
      if m.work.Looking? then With(w, id, m.(recorded := Some(Lease(m.work.pool, ip)), work := Resting)) else w
    case Plan(_, ip) =>
      if m.work.Looking? then With(w, id, m.(work := Allocating(m.work.pool, m.work.version, m.work.base, ip))) else w
    case Commit(_) =>
      if m.work.Allocating?
      then With(Put(w, m.work.pool, m.work.version, Reserved(m.work.base, id, m.work.ip)), id,
                m.(work := if Current(w, m.work.pool, m.work.version) then Allocated(Lease(m.work.pool, m.work.ip)) else Resting))
      else w
    case Record(_) =>
      if m.work.Allocated? then With(w, id, m.(recorded := Some(m.work.lease), work := Resting)) else w
    case Delete(_) => With(w, id, m.(deleting := true))
    case LookForRelease(_, pool) =>
      if m.recorded.Some? && pool in w.server
      then var v := w.server[pool];
           With(w, id, m.(work := Releasing(Lease(pool, m.recorded.value.ip), v.version, v.status)))
      else w
    case CommitRelease(_) =>
      if m.work.Releasing?
      then With(Put(w, m.work.lease.pool, m.work.version, Released(m.work.base, m.work.lease.ip)), id,
                m.(work := Resting, released := m.released || Current(w, m.work.lease.pool, m.work.version)))
      else w
    case Crash(_) => With(w, id, m.(work := Resting))
    case Recreate(_) => With(w, id, NEW_MACHINE)
  }

  function Do(w: World, action: Action): World {
    if action.Other? then
      if action.pool in w.server
      then var v := w.server[action.pool];
           w.(server := w.server[action.pool := Versioned(v.version + 1, Runs.Apply(v.status, action.op))])
      else w
    else if action.m in w.machines then MachineStep(w, action, w.machines[action.m])
    else w
  }

  // ---------------------------------------------------------------- agreement

  predicate LeaseListed(w: World, lease: Lease, id: Id) {
    lease.pool in w.server && Lists(w.server[lease.pool].status, lease.ip, id)
  }

  /** The machine records an address with its pool and has not released it. */
  predicate Owns(w: World, id: Id) {
    && id in w.machines && w.machines[id].recorded.Some? && !w.machines[id].released
    && w.machines[id].recorded.value.pool != ""
  }

  /** A machine that has not released and records an address is that address's owner in the pool. */
  predicate Agreement(w: World) {
    forall id :: id in w.machines && Owns(w, id) ==>
      LeaseListed(w, w.machines[id].recorded.value, id)
  }

  /** The machine records the address, or a reconcile of it is about to. */
  predicate Relies(w: World, id: Id, lease: Lease) {
    && id in w.machines
    && var m := w.machines[id];
       || (m.recorded == Some(lease) && !m.released)
       || m.work == Allocated(lease)
       || (m.work.Looking? && m.work.pool == lease.pool && Lists(m.work.base, lease.ip, id))
  }

  /** The action is not an accepted release of an address that another machine relies on. */
  predicate Harmless(w: World, action: Action) {
    action.CommitRelease? && action.m in w.machines && w.machines[action.m].work.Releasing? ==>
      var work := w.machines[action.m].work;
      Current(w, work.lease.pool, work.version) ==>
        var held := Held(w.server[work.lease.pool].status);
        !(work.lease.ip in held && held[work.lease.ip] != action.m && Relies(w, held[work.lease.ip], work.lease))
  }

  predicate CopyOk(w: World, pool: PoolRef, version: nat, base: Status) {
    && pool in w.server && version <= w.server[pool].version
    && (version == w.server[pool].version ==> base == w.server[pool].status)
  }

  /** What a reconcile in progress may rely on. */
  predicate WorkOk(ranges: map<PoolRef, seq<Range>>, w: World, id: Id, m: Machine) {
    && (m.released ==> m.deleting)
    && match m.work
    case Resting => true
    case Looking(pool, version, base) =>
      && !m.released && CopyOk(w, pool, version, base)
      && forall ip :: ip in Held(base) && Held(base)[ip] == id ==> LeaseListed(w, Lease(pool, ip), id)
    case Allocating(pool, version, base, ip) => !m.released && CopyOk(w, pool, version, base) && ip !in Held(base)
    case Allocated(lease) => !m.released && LeaseListed(w, lease, id)
    case Releasing(lease, version, base) =>
      && m.deleting && CopyOk(w, lease.pool, version, base)
      && m.recorded.Some? && m.recorded.value.ip == lease.ip && ReleasesTo(m.recorded.value, lease.pool)
  }

  predicate Inv(ranges: map<PoolRef, seq<Range>>, w: World) {
    && "" !in w.server && Agreement(w)
    && forall id :: id in w.machines ==> WorkOk(ranges, w, id, w.machines[id])
  }

  /** Nothing any other machine relies on is lost from `w` to `t`. */
  ghost predicate Keeps(w: World, t: World, except: Id) {
    && w.server.Keys == t.server.Keys
    && (forall pool :: pool in w.server ==>
          t.server[pool].version > w.server[pool].version || t.server[pool] == w.server[pool])
    && (forall pool, ip, id :: id != except && Relies(w, id, Lease(pool, ip)) && LeaseListed(w, Lease(pool, ip), id) ==>
          LeaseListed(t, Lease(pool, ip), id))
  }

  lemma OthersKept(ranges: map<PoolRef, seq<Range>>, w: World, t: World, except: Id, id: Id)
    requires Keeps(w, t, except) && id in w.machines && id != except && WorkOk(ranges, w, id, w.machines[id])
    ensures WorkOk(ranges, t, id, w.machines[id])
  {
    var work := w.machines[id].work;
    if work.Looking? {
      forall ip | ip in Held(work.base) && Held(work.base)[ip] == id ensures LeaseListed(t, Lease(work.pool, ip), id) {
        assert Relies(w, id, Lease(work.pool, ip));
      }
    } else if work.Allocated? {
      assert Relies(w, id, Lease(work.lease.pool, work.lease.ip));
    }
  }

  lemma OthersAgree(w: World, t: World, except: Id, id: Id)
    requires Keeps(w, t, except) && Agreement(w) && id != except && Owns(w, id)
    ensures LeaseListed(t, w.machines[id].recorded.value, id)
  {
    var lease := w.machines[id].recorded.value;
    assert Relies(w, id, Lease(lease.pool, lease.ip));
  }

  /** Steps that change one machine and no pool keep the invariant if they keep it for that machine. */
  lemma LocalStep(ranges: map<PoolRef, seq<Range>>, w: World, id: Id, m: Machine)
    requires Inv(ranges, w) && id in w.machines
    requires WorkOk(ranges, w, id, m)
    requires m.recorded.Some? && m.recorded.value.pool != "" && !m.released ==> LeaseListed(w, m.recorded.value, id)
    ensures Inv(ranges, With(w, id, m))
  {
    var t := With(w, id, m);
    forall other | other in t.machines ensures WorkOk(ranges, t, other, t.machines[other]) {
      if other == id {
        assert WorkOk(ranges, t, id, m) <==> WorkOk(ranges, w, id, m);
      } else {
        OthersKept(ranges, w, t, id, other);
      }
    }
  }

  lemma CommitKeeps(ranges: map<PoolRef, seq<Range>>, w: World, id: Id)
    requires Inv(ranges, w) && id in w.machines && w.machines[id].work.Allocating?
    ensures Inv(ranges, Do(w, Commit(id)))
  {
    var m := w.machines[id];
    var t := Do(w, Commit(id));
    var l := m.work;
    assert WorkOk(ranges, w, id, m);
    if Current(w, l.pool, l.version) {
      assert l.base == w.server[l.pool].status;
      forall pool, ip, other | LeaseListed(w, Lease(pool, ip), other) ensures LeaseListed(t, Lease(pool, ip), other) {}
      assert Keeps(w, t, id);
      forall other | other in t.machines ensures WorkOk(ranges, t, other, t.machines[other]) {
        if other != id {
          OthersKept(ranges, w, t, id, other);
        }
      }
    } else {
      LocalStep(ranges, w, id, m.(work := Resting));
    }
  }

  lemma ReleaseKeeps(ranges: map<PoolRef, seq<Range>>, w: World, id: Id)
    requires Inv(ranges, w) && id in w.machines && w.machines[id].work.Releasing? && Harmless(w, CommitRelease(id))
    ensures Inv(ranges, Do(w, CommitRelease(id)))
  {
    var m := w.machines[id];
    var t := Do(w, CommitRelease(id));
    var l := m.work;
    assert WorkOk(ranges, w, id, m);
    if Current(w, l.lease.pool, l.version) {
      assert l.base == w.server[l.lease.pool].status;
      forall pool, ip, other | other != id && Relies(w, other, Lease(pool, ip)) && LeaseListed(w, Lease(pool, ip), other)
        ensures LeaseListed(t, Lease(pool, ip), other)
      {}
      assert Keeps(w, t, id);
      forall other | other in t.machines ensures WorkOk(ranges, t, other, t.machines[other]) {
        if other != id {
          OthersKept(ranges, w, t, id, other);
        }
      }
      forall other | Owns(t, other) ensures LeaseListed(t, t.machines[other].recorded.value, other) {
        OthersAgree(w, t, id, other);
      }
    } else {
      LocalStep(ranges, w, id, m.(work := Resting));
      assert t == With(w, id, m.(work := Resting));
    }
  }

  lemma OtherKeeps(ranges: map<PoolRef, seq<Range>>, w: World, pool: PoolRef, op: Runs.Op)
    requires Inv(ranges, w) && OtherMay(ranges, w, pool, op)
    ensures Inv(ranges, Do(w, Other(pool, op)))
  {
    var t := Do(w, Other(pool, op));
    forall p, ip, id | id in w.machines && LeaseListed(w, Lease(p, ip), id) ensures LeaseListed(t, Lease(p, ip), id) {}
    forall id | id in t.machines ensures WorkOk(ranges, t, id, t.machines[id]) {
      var except := id + "'";
      assert |except| != |id|;
      assert Keeps(w, t, except);
      OthersKept(ranges, w, t, except, id);
    }
  }

  /** Every action but a harmful release keeps the invariant. */
  lemma StepKeeps(ranges: map<PoolRef, seq<Range>>, w: World, action: Action)
    requires Inv(ranges, w) && May(ranges, w, action, false) && Harmless(w, action)
    ensures Inv(ranges, Do(w, action))
  {
    if action.Other? {
      OtherKeeps(ranges, w, action.pool, action.op);
    } else if action.Commit? {
      CommitKeeps(ranges, w, action.m);
    } else if action.CommitRelease? {
      ReleaseKeeps(ranges, w, action.m);
    } else {
      var m := w.machines[action.m];
      assert WorkOk(ranges, w, action.m, m);
      LocalStep(ranges, w, action.m, Do(w, action).machines[action.m]);
    }
  }

  // ---------------------------------------------------------------- whole runs

  function After(w: World, actions: seq<Action>): World {
    if actions == [] then w else Do(After(w, actions[..|actions| - 1]), actions[|actions| - 1])
  }

  predicate Trace(ranges: map<PoolRef, seq<Range>>, w: World, actions: seq<Action>, guarded: bool) {
    actions == [] || (Trace(ranges, w, actions[..|actions| - 1], guarded)
                      && May(ranges, After(w, actions[..|actions| - 1]), actions[|actions| - 1], guarded))
  }

  /** Any state between passes, with records of earlier versions or without. */
  predicate Initial(w: World) {
    && "" !in w.server && Agreement(w)
    && forall id :: id in w.machines ==> w.machines[id].work.Resting? && !w.machines[id].released
  }

  /** No action of the run is a harmful release. */
  predicate AllHarmless(w: World, actions: seq<Action>) {
    forall k :: 0 <= k < |actions| ==> Harmless(After(w, actions[..k]), actions[k])
  }

  lemma HarmlessInit(w: World, actions: seq<Action>)
    requires actions != []
    ensures var init := actions[..|actions| - 1];
      AllHarmless(w, actions) <==> AllHarmless(w, init) && Harmless(After(w, init), actions[|actions| - 1])
  {
    var init := actions[..|actions| - 1];
    forall k | 0 <= k < |init| ensures init[..k] == actions[..k] && init[k] == actions[k] {}
  }

  lemma {:induction false} InvHolds(ranges: map<PoolRef, seq<Range>>, w: World, actions: seq<Action>)
    requires Initial(w) && Trace(ranges, w, actions, false) && AllHarmless(w, actions)
    ensures Inv(ranges, After(w, actions))
  {
    if actions != [] {
      HarmlessInit(w, actions);
      InvHolds(ranges, w, actions[..|actions| - 1]);
      StepKeeps(ranges, After(w, actions[..|actions| - 1]), actions[|actions| - 1]);
    }
  }

  /** A release that fires only while the fetched pool lists the machine as owner is harmless. */
  lemma {:induction false} GuardedHarmless(ranges: map<PoolRef, seq<Range>>, w: World, actions: seq<Action>)
    requires Initial(w) && Trace(ranges, w, actions, true)
    ensures Trace(ranges, w, actions, false) && AllHarmless(w, actions)
  {
    if actions != [] {
      var init, last := actions[..|actions| - 1], actions[|actions| - 1];
      GuardedHarmless(ranges, w, init);
      InvHolds(ranges, w, init);
      var u := After(w, init);
      if last.CommitRelease? {
        assert WorkOk(ranges, u, last.m, u.machines[last.m]);
      }
      HarmlessInit(w, actions);
    }
  }

  /**
   In every run whose releases fire only while the pool still lists the machine as owner,
   a machine that records an address and has not released owns it in the pool; hence no two
   such machines record the same address of the same pool.
   */
  lemma OwnershipAgreement(ranges: map<PoolRef, seq<Range>>, w: World, actions: seq<Action>, a: Id, b: Id)
    requires Initial(w) && Trace(ranges, w, actions, true)
    ensures var t := After(w, actions);
      && Agreement(t)
      && (a != b && Owns(t, a) && Owns(t, b) ==> t.machines[a].recorded != t.machines[b].recorded)
  {
    GuardedHarmless(ranges, w, actions);
    InvHolds(ranges, w, actions);
  }

  // ---------------------------------------------------------------- the exact condition

  /** Agreement now, and after any machine records what its reconcile holds. */
  ghost predicate Robust(ranges: map<PoolRef, seq<Range>>, w: World) {
    && Agreement(w)
    && forall action: Action :: (action.Record? || action.Adopt?) && May(ranges, w, action, false) ==> Agreement(Do(w, action))
  }

  lemma InvRobust(ranges: map<PoolRef, seq<Range>>, w: World)
    requires Inv(ranges, w)
    ensures Robust(ranges, w)
  {
    forall action: Action | (action.Record? || action.Adopt?) && May(ranges, w, action, false) ensures Agreement(Do(w, action)) {
      StepKeeps(ranges, w, action);
    }
  }

  /** Recording an address the pool does not list for the machine breaks the agreement. */
  lemma RecordBreaks(ranges: map<PoolRef, seq<Range>>, t: World, id: Id, lease: Lease)
    requires Relies(t, id, lease) && lease.pool != "" && !t.machines[id].released && !LeaseListed(t, lease, id)
    ensures !Robust(ranges, t)
  {
    var m := t.machines[id];
    if m.recorded == Some(lease) {
      assert Owns(t, id);
    } else {
      var action := if m.work.Allocated? then Record(id) else Adopt(id, lease.ip);
      assert May(ranges, t, action, false);
      var u := Do(t, action);
      assert u.server == t.server && u.machines[id].recorded == Some(lease) && Owns(u, id);
      assert !LeaseListed(u, lease, id);
      assert !Agreement(u);
    }
  }

  lemma HarmfulBreaks(ranges: map<PoolRef, seq<Range>>, w: World, id: Id)
    requires Inv(ranges, w) && id in w.machines && w.machines[id].work.Releasing? && !Harmless(w, CommitRelease(id))
    ensures !Robust(ranges, Do(w, CommitRelease(id)))
  {
    var t, lease := Do(w, CommitRelease(id)), w.machines[id].work.lease;
    assert WorkOk(ranges, w, id, w.machines[id]);
    var other := Held(w.server[lease.pool].status)[lease.ip];
    assert WorkOk(ranges, w, other, w.machines[other]);
    assert t.machines[other] == w.machines[other] && !LeaseListed(t, lease, other);
    RecordBreaks(ranges, t, other, lease);
  }

  /**
   The exact condition on one release: it keeps the invariant, and agreement in every
   possible next record, if and only if the pool does not list another machine that relies
   on the very address released.
   */
  lemma ReleaseSafeExactly(ranges: map<PoolRef, seq<Range>>, w: World, id: Id)
    requires Inv(ranges, w) && id in w.machines && w.machines[id].work.Releasing?
    ensures Inv(ranges, Do(w, CommitRelease(id))) <==> Harmless(w, CommitRelease(id))
    ensures Robust(ranges, Do(w, CommitRelease(id))) <==> Harmless(w, CommitRelease(id))
  {
    if Harmless(w, CommitRelease(id)) {
      ReleaseKeeps(ranges, w, id);
      InvRobust(ranges, Do(w, CommitRelease(id)));
    } else {
      HarmfulBreaks(ranges, w, id);
      if Inv(ranges, Do(w, CommitRelease(id))) {
        InvRobust(ranges, Do(w, CommitRelease(id)));
      }
    }
  }

  /** Robust after the run and after every prefix of it. */
  ghost predicate AlwaysRobust(ranges: map<PoolRef, seq<Range>>, w: World, actions: seq<Action>) {
    Robust(ranges, After(w, actions)) && (actions != [] ==> AlwaysRobust(ranges, w, actions[..|actions| - 1]))
  }

  /**
   The exact condition on whole runs of the code as written: record and pool agree all the
   way, every possible next record included, if and only if no release was harmful.
   */
  lemma {:induction false} AgreementExactly(ranges: map<PoolRef, seq<Range>>, w: World, actions: seq<Action>)
    requires Initial(w) && Trace(ranges, w, actions, false)
    ensures AlwaysRobust(ranges, w, actions) <==> AllHarmless(w, actions)
  {
    if actions == [] {
      InvHolds(ranges, w, []);
      InvRobust(ranges, w);
    } else {
      var init, last := actions[..|actions| - 1], actions[|actions| - 1];
      AgreementExactly(ranges, w, init);
      HarmlessInit(w, actions);
      if AllHarmless(w, init) {
        InvHolds(ranges, w, init);
        LastExactly(ranges, After(w, init), last);
      }
    }
  }

  lemma LastExactly(ranges: map<PoolRef, seq<Range>>, u: World, action: Action)
    requires Inv(ranges, u) && May(ranges, u, action, false)
    ensures Robust(ranges, Do(u, action)) <==> Harmless(u, action)
  {
    if action.CommitRelease? {
      ReleaseSafeExactly(ranges, u, action.m);
    } else {
      StepKeeps(ranges, u, action);
      InvRobust(ranges, Do(u, action));
    }
  }

  /**
   A record without its pool releases into whatever pool is configured first. If that pool
   lists the same address for another machine, the release takes it from that machine.
   */
  lemma LegacyReleaseBreaks(ranges: map<PoolRef, seq<Range>>, w: World, a: Id, b: Id, lease: Lease)
    requires Inv(ranges, w) && a in w.machines && a != b && Owns(w, b) && w.machines[b].recorded == Some(lease)
    requires var m := w.machines[a]; m.work.Resting? && m.deleting && m.recorded == Some(Lease("", lease.ip))
    ensures May(ranges, w, LookForRelease(a, lease.pool), false)
    ensures var u := Do(w, LookForRelease(a, lease.pool));
      May(ranges, u, CommitRelease(a), false) && !Agreement(Do(u, CommitRelease(a)))
  {
    var m, v := w.machines[a], w.server[lease.pool];
    var u := With(w, a, m.(work := Releasing(lease, v.version, v.status)));
    assert Do(w, LookForRelease(a, lease.pool)) == u;
    var t := Do(u, CommitRelease(a));
    assert t.machines[b] == w.machines[b] && !LeaseListed(t, lease, b);
  }

  // ---------------------------------------------------------------- what every run keeps, harmful or not

  /** The copies are current, and a released address is not listed for the machine that released it. */
  predicate BasicOk(w: World, id: Id, m: Machine) {
    && (m.work.Looking? || m.work.Allocating? ==> !m.released && CopyOk(w, m.work.pool, m.work.version, m.work.base))
    && (m.work.Allocated? ==> !m.released)
    && (m.work.Releasing? ==>
          && m.deleting && CopyOk(w, m.work.lease.pool, m.work.version, m.work.base)
          && m.recorded.Some? && m.recorded.value.ip == m.work.lease.ip && ReleasesTo(m.recorded.value, m.work.lease.pool))
    && (m.released ==>
          m.deleting && m.recorded.Some? && (m.recorded.value.pool != "" ==> !LeaseListed(w, m.recorded.value, id)))
  }

  predicate Basic(w: World) {
    forall id :: id in w.machines ==> BasicOk(w, id, w.machines[id])
  }

  /** The pool's listing for `id` may grow only by an accepted Commit of `id`. */
  predicate Adds(w: World, action: Action, id: Id) {
    && action == Commit(id) && id in w.machines && w.machines[id].work.Allocating?
    && Current(w, w.machines[id].work.pool, w.machines[id].work.version)
  }

  /** Pools only move forward, and `id` is newly listed at most where its own Commit says. */
  ghost predicate Forward(w: World, t: World, action: Action) {
    && w.server.Keys == t.server.Keys
    && (forall pool :: pool in w.server ==>
          t.server[pool].version > w.server[pool].version || t.server[pool] == w.server[pool])
    && (forall id, lease :: id in w.machines && LeaseListed(t, lease, id) && !LeaseListed(w, lease, id) ==>
          Adds(w, action, id) && lease.pool == w.machines[id].work.pool)
  }

  lemma StepForward(ranges: map<PoolRef, seq<Range>>, w: World, action: Action)
    requires Basic(w) && May(ranges, w, action, false)
    ensures Forward(w, Do(w, action), action)
  {
    if !action.Other? {
      assert BasicOk(w, action.m, w.machines[action.m]);
    }
  }

  lemma StepBasic(ranges: map<PoolRef, seq<Range>>, w: World, action: Action)
    requires Basic(w) && May(ranges, w, action, false)
    ensures Basic(Do(w, action))
  {
    var t := Do(w, action);
    StepForward(ranges, w, action);
    forall id | id in t.machines ensures BasicOk(t, id, t.machines[id]) {
      if !action.Other? && id == action.m {
        OwnBasic(ranges, w, action);
      } else {
        OtherBasic(w, t, action, id);
      }
    }
  }

  lemma OtherBasic(w: World, t: World, action: Action, id: Id)
    requires Forward(w, t, action) && id in w.machines && BasicOk(w, id, w.machines[id]) && !Adds(w, action, id)
    ensures BasicOk(t, id, w.machines[id])
  {}

  lemma OwnBasic(ranges: map<PoolRef, seq<Range>>, w: World, action: Action)
    requires Basic(w) && May(ranges, w, action, false) && !action.Other?
    ensures BasicOk(Do(w, action), action.m, Do(w, action).machines[action.m])
  {
    assert BasicOk(w, action.m, w.machines[action.m]);
    StepForward(ranges, w, action);
  }

  lemma {:induction false} BasicHolds(ranges: map<PoolRef, seq<Range>>, w: World, actions: seq<Action>)
    requires Initial(w) && Trace(ranges, w, actions, false)
    ensures Basic(After(w, actions))
  {
    if actions != [] {
      BasicHolds(ranges, w, actions[..|actions| - 1]);
      StepBasic(ranges, After(w, actions[..|actions| - 1]), actions[|actions| - 1]);
    }
  }

  /**
   When a recorded address is really back: in every run a machine whose release was accepted
   is no longer listed for it; and if no release was harmful, the pool lists the machine for
   its recorded address exactly until then, whether or not the object is gone by that time.
   */
  lemma AddressBackExactly(ranges: map<PoolRef, seq<Range>>, w: World, actions: seq<Action>, id: Id)
    requires Initial(w) && Trace(ranges, w, actions, false) && id in After(w, actions).machines
    ensures var t := After(w, actions); var m := t.machines[id];
      m.recorded.Some? && m.recorded.value.pool != "" ==>
        && (m.released ==> !LeaseListed(t, m.recorded.value, id))
        && (AllHarmless(w, actions) ==> (LeaseListed(t, m.recorded.value, id) <==> !m.released))
  {
    BasicHolds(ranges, w, actions);
    var t := After(w, actions);
    assert BasicOk(t, id, t.machines[id]);
    if AllHarmless(w, actions) {
      InvHolds(ranges, w, actions);
    }
  }

  /** Only a machine without a record is on its way to one. */
  predicate Unrecorded(w: World) {
    forall id :: id in w.machines && (w.machines[id].work.Looking? || w.machines[id].work.Allocating? || w.machines[id].work.Allocated?)
      ==> w.machines[id].recorded.None?
  }

  lemma {:induction false} UnrecordedHolds(ranges: map<PoolRef, seq<Range>>, w: World, actions: seq<Action>)
    requires Initial(w) && Trace(ranges, w, actions, false)
    ensures Unrecorded(After(w, actions))
  {
    if actions != [] {
      UnrecordedHolds(ranges, w, actions[..|actions| - 1]);
    }
  }

  /** A record is never changed or cleared, by a release as little as by anything else, while the machine lives. */
  lemma RecordStays(ranges: map<PoolRef, seq<Range>>, w: World, actions: seq<Action>, action: Action, id: Id)
    requires Initial(w) && Trace(ranges, w, actions, false) && May(ranges, After(w, actions), action, false)
    requires var u := After(w, actions); id in u.machines && u.machines[id].recorded.Some? && action != Recreate(id)
    ensures id in Do(After(w, actions), action).machines
    ensures Do(After(w, actions), action).machines[id].recorded == After(w, actions).machines[id].recorded
  {
    UnrecordedHolds(ranges, w, actions);
  }

  // ---------------------------------------------------------------- one machine, one pool

  predicate ListedIn(w: World, id: Id, pool: PoolRef) {
    pool in w.server && Owned(Held(w.server[pool].status), id) != {}
  }

  /** At most one pool lists the machine. */
  ghost predicate OnePool(w: World, id: Id) {
    forall p, q :: ListedIn(w, id, p) && ListedIn(w, id, q) ==> p == q
  }

  /** The action commits an address for the machine while another pool lists it. */
  ghost predicate SecondCommit(w: World, action: Action, id: Id) {
    Adds(w, action, id) && exists q :: q != w.machines[id].work.pool && ListedIn(w, id, q)
  }

  lemma ListedBefore(w: World, t: World, action: Action, id: Id, pool: PoolRef)
    requires Forward(w, t, action) && id in w.machines && ListedIn(t, id, pool)
    ensures ListedIn(w, id, pool) || (Adds(w, action, id) && pool == w.machines[id].work.pool)
  {
    var ip :| ip in Owned(Held(t.server[pool].status), id);
    assert LeaseListed(t, Lease(pool, ip), id);
    if LeaseListed(w, Lease(pool, ip), id) {
      assert ip in Owned(Held(w.server[pool].status), id);
    }
  }

  lemma CommitLists(w: World, id: Id, pool: PoolRef)
    requires Adds(w, Commit(id), id) && (pool == w.machines[id].work.pool || ListedIn(w, id, pool))
    ensures ListedIn(Do(w, Commit(id)), id, pool)
  {
    var t, work := Do(w, Commit(id)), w.machines[id].work;
    if pool == work.pool {
      assert work.ip in Owned(Held(t.server[pool].status), id);
    }
  }

  lemma OnePoolStep(ranges: map<PoolRef, seq<Range>>, w: World, action: Action, id: Id)
    requires Basic(w) && May(ranges, w, action, false) && id in w.machines && OnePool(w, id)
    ensures OnePool(Do(w, action), id) <==> !SecondCommit(w, action, id)
  {
    var t := Do(w, action);
    StepForward(ranges, w, action);
    if SecondCommit(w, action, id) {
      var q :| q != w.machines[id].work.pool && ListedIn(w, id, q);
      CommitLists(w, id, q);
      CommitLists(w, id, w.machines[id].work.pool);
    } else {
      forall p, q | ListedIn(t, id, p) && ListedIn(t, id, q) ensures p == q {
        ListedBefore(w, t, action, id, p);
        ListedBefore(w, t, action, id, q);
      }
    }
  }

  /** At most one pool lists the machine after the run and after every prefix of it. */
  ghost predicate AlwaysOnePool(w: World, actions: seq<Action>, id: Id) {
    OnePool(After(w, actions), id) && (actions != [] ==> AlwaysOnePool(w, actions[..|actions| - 1], id))
  }

  ghost predicate NoSecondCommit(w: World, actions: seq<Action>, id: Id) {
    actions == [] || (NoSecondCommit(w, actions[..|actions| - 1], id)
                      && !SecondCommit(After(w, actions[..|actions| - 1]), actions[|actions| - 1], id))
  }

  lemma SameMachines(w: World, action: Action)
    ensures Do(w, action).machines.Keys == w.machines.Keys
  {}

  /**
   A machine that one pool at most lists stays so exactly in the runs in which it never
   commits an address while another pool lists it; the source checks only the pool at hand.
   */
  lemma {:induction false} OnePoolExactly(ranges: map<PoolRef, seq<Range>>, w: World, actions: seq<Action>, id: Id)
    requires Initial(w) && Trace(ranges, w, actions, false) && id in w.machines && OnePool(w, id)
    ensures AlwaysOnePool(w, actions, id) <==> NoSecondCommit(w, actions, id)
    ensures id in After(w, actions).machines
  {
    if actions != [] {
      var init, last := actions[..|actions| - 1], actions[|actions| - 1];
      OnePoolExactly(ranges, w, init, id);
      BasicHolds(ranges, w, init);
      SameMachines(After(w, init), last);
      if AlwaysOnePool(w, init, id) {
        OnePoolStep(ranges, After(w, init), last, id);
      }
    }
  }

  // ---------------------------------------------------------------- without the guard

  /** Some unguarded run leads from `w` to `t`. */
  ghost predicate Reaches(ranges: map<PoolRef, seq<Range>>, w: World, t: World) {
    exists actions :: Trace(ranges, w, actions, false) && After(w, actions) == t
  }

  /** A set of worlds that no unguarded action leaves. */
  ghost predicate Closed(ranges: map<PoolRef, seq<Range>>, worlds: iset<World>) {
    forall t, action :: t in worlds && May(ranges, t, action, false) ==> Do(t, action) in worlds
  }

  lemma ReachStep(ranges: map<PoolRef, seq<Range>>, w: World, t: World, action: Action)
    requires Reaches(ranges, w, t) && May(ranges, t, action, false)
    ensures Reaches(ranges, w, Do(t, action))
  {
    var actions :| Trace(ranges, w, actions, false) && After(w, actions) == t;
    var longer := actions + [action];
    assert longer[..|longer| - 1] == actions;
    assert Trace(ranges, w, longer, false) && After(w, longer) == Do(t, action);
  }

  lemma ReachableClosed(ranges: map<PoolRef, seq<Range>>, w: World)
    ensures var worlds := iset t | Reaches(ranges, w, t);
      w in worlds && Closed(ranges, worlds)
  {
    assert Trace(ranges, w, [], false) && After(w, []) == w;
    forall t, action | Reaches(ranges, w, t) && May(ranges, t, action, false) ensures Reaches(ranges, w, Do(t, action)) {
      ReachStep(ranges, w, t, action);
    }
  }

  /** The world after a new machine looked and planned. */
  function PlannedWorld(t: World, id: Id, lease: Lease): World
    requires lease.pool in t.server
  {
    With(t, id, NEW_MACHINE.(work := Allocating(lease.pool, t.server[lease.pool].version, t.server[lease.pool].status, lease.ip)))
  }

  /** The world after it also wrote the pool and recorded the address. */
  function AllocatedWorld(t: World, id: Id, lease: Lease): World
    requires lease.pool in t.server
  {
    var v := t.server[lease.pool];
    With(World(t.server[lease.pool := Versioned(v.version + 1, Reserved(v.status, id, lease.ip))], t.machines),
         id, NEW_MACHINE.(recorded := Some(lease)))
  }

  lemma PlanPass(ranges: map<PoolRef, seq<Range>>, worlds: iset<World>, t: World, id: Id, lease: Lease)
    requires Closed(ranges, worlds) && t in worlds && id in t.machines && t.machines[id] == NEW_MACHINE
    requires lease.pool in t.server && lease.pool in ranges
    requires AllocAllowed(ranges[lease.pool], t.server[lease.pool].status, id, lease.ip)
    ensures PlannedWorld(t, id, lease) in worlds
  {
    var v := t.server[lease.pool];
    var looked := With(t, id, NEW_MACHINE.(work := Looking(lease.pool, v.version, v.status)));
    assert Do(t, Look(id, lease.pool)) == looked;
    assert Do(looked, Plan(id, lease.ip)) == PlannedWorld(t, id, lease);
  }

  lemma AllocatePass(ranges: map<PoolRef, seq<Range>>, worlds: iset<World>, t: World, id: Id, lease: Lease)
    requires Closed(ranges, worlds) && t in worlds && id in t.machines && t.machines[id] == NEW_MACHINE
    requires lease.pool in t.server && lease.pool in ranges
    requires AllocAllowed(ranges[lease.pool], t.server[lease.pool].status, id, lease.ip)
    ensures AllocatedWorld(t, id, lease) in worlds
  {
    PlanPass(ranges, worlds, t, id, lease);
    var planned := PlannedWorld(t, id, lease);
    var v := t.server[lease.pool];
    var committed := With(World(t.server[lease.pool := Versioned(v.version + 1, Reserved(v.status, id, lease.ip))], t.machines),
                          id, NEW_MACHINE.(work := Allocated(lease)));
    assert Do(planned, Commit(id)) == committed;
    assert Do(committed, Record(id)) == AllocatedWorld(t, id, lease);
  }

  /** The world after a delete pass of a machine that records an address. */
  function ReleasedWorld(t: World, id: Id, lease: Lease): World
    requires lease.pool in t.server && id in t.machines
  {
    var v := t.server[lease.pool];
    With(World(t.server[lease.pool := Versioned(v.version + 1, Released(v.status, lease.ip))], t.machines),
         id, t.machines[id].(released := true))
  }

  lemma ReleasePass(ranges: map<PoolRef, seq<Range>>, worlds: iset<World>, t: World, id: Id, lease: Lease)
    requires Closed(ranges, worlds) && t in worlds && id in t.machines
    requires t.machines[id].deleting && t.machines[id].work.Resting?
    requires t.machines[id].recorded == Some(lease) && lease.pool in t.server
    ensures ReleasedWorld(t, id, lease) in worlds
  {
    var m, v := t.machines[id], t.server[lease.pool];
    var looked := With(t, id, m.(work := Releasing(lease, v.version, v.status)));
    assert Do(t, LookForRelease(id, lease.pool)) == looked;
    assert Do(looked, CommitRelease(id)) == ReleasedWorld(t, id, lease);
  }

  /** A pool of one address and three machines. */
  datatype Story = Story(pool: PoolRef, ip: Addr, a: Id, b: Id, c: Id) {
    predicate Ok() {
      a != b && b != c && a != c && pool != ""
    }

    function OnlyRange(): Range {
      Range(ip, ip, ip, 32, None)
    }

    function PoolRanges(): map<PoolRef, seq<Range>> {
      map[pool := [OnlyRange()]]
    }

    function TheLease(): Lease {
      Lease(pool, ip)
    }

    function Holder(): Machine {
      NEW_MACHINE.(recorded := Some(TheLease()))
    }

    function Gone(): Machine {
      Machine(Some(TheLease()), true, true, Resting)
    }

    function At(version: nat, status: Status, x: Machine, y: Machine, z: Machine): World {
      World(map[pool := Versioned(version, status)], map[a := x, b := y, c := z])
    }

    /** The address is held by `id`, or free, and was last released by the owner in `past`. */
    function Taken(id: Id, past: Option<map<Addr, Id>>): Status {
      Status(Some(map[ip := id]), past, 0, Some(ip))
    }

    function Free(past: Id): Status {
      Status(Some(map[]), Some(map[ip := past]), 1, Some(ip))
    }

    function Start(): World {
      At(0, Status(None, None, 1, None), NEW_MACHINE, NEW_MACHINE, NEW_MACHINE)
    }
  }

  lemma FreshAllowed(s: Story, status: Status, id: Id)
    requires Held(status) == map[] && Owned(Past(status), id) == {}
    ensures AllocAllowed([s.OnlyRange()], status, id, s.ip)
  {
    assert s.ip in Candidates(s.OnlyRange());
  }

  /** The first machine allocates and is deleted. */
  lemma FirstAllocates(s: Story, worlds: iset<World>)
    requires s.Ok() && Closed(s.PoolRanges(), worlds) && s.Start() in worlds
    ensures s.At(1, s.Taken(s.a, None), s.Holder().(deleting := true), NEW_MACHINE, NEW_MACHINE) in worlds
  {
    var t := s.Start();
    FreshAllowed(s, t.server[s.pool].status, s.a);
    AllocatePass(s.PoolRanges(), worlds, t, s.a, s.TheLease());
    var u := s.At(1, s.Taken(s.a, None), s.Holder(), NEW_MACHINE, NEW_MACHINE);
    assert AllocatedWorld(t, s.a, s.TheLease()) == u;
    assert Do(u, Delete(s.a)).machines == map[s.a := s.Holder().(deleting := true), s.b := NEW_MACHINE, s.c := NEW_MACHINE];
    assert May(s.PoolRanges(), u, Delete(s.a), false);
  }

  /** Its first delete pass releases the address. */
  lemma FirstReleases(s: Story, worlds: iset<World>)
    requires s.Ok() && Closed(s.PoolRanges(), worlds) && s.Start() in worlds
    ensures s.At(2, s.Free(s.a), s.Gone(), NEW_MACHINE, NEW_MACHINE) in worlds
  {
    FirstAllocates(s, worlds);
    var t := s.At(1, s.Taken(s.a, None), s.Holder().(deleting := true), NEW_MACHINE, NEW_MACHINE);
    ReleasePass(s.PoolRanges(), worlds, t, s.a, s.TheLease());
    assert map[s.ip := s.a] - {s.ip} == map[];
    assert ReleasedWorld(t, s.a, s.TheLease()) == s.At(2, s.Free(s.a), s.Gone(), NEW_MACHINE, NEW_MACHINE);
  }

  /** The second machine is given the address. */
  lemma SecondAllocates(s: Story, worlds: iset<World>)
    requires s.Ok() && Closed(s.PoolRanges(), worlds) && s.Start() in worlds
    ensures s.At(3, s.Taken(s.b, Some(map[s.ip := s.a])), s.Gone(), s.Holder(), NEW_MACHINE) in worlds
  {
    FirstReleases(s, worlds);
    var t := s.At(2, s.Free(s.a), s.Gone(), NEW_MACHINE, NEW_MACHINE);
    FreshAllowed(s, t.server[s.pool].status, s.b);
    AllocatePass(s.PoolRanges(), worlds, t, s.b, s.TheLease());
    assert AllocatedWorld(t, s.b, s.TheLease()) == s.At(3, s.Taken(s.b, Some(map[s.ip := s.a])), s.Gone(), s.Holder(), NEW_MACHINE);
  }

  /** The first machine's next delete pass releases it. */
  lemma FirstReleasesAgain(s: Story, worlds: iset<World>)
    requires s.Ok() && Closed(s.PoolRanges(), worlds) && s.Start() in worlds
    ensures s.At(4, s.Free(s.b), s.Gone(), s.Holder(), NEW_MACHINE) in worlds
  {
    SecondAllocates(s, worlds);
    var t := s.At(3, s.Taken(s.b, Some(map[s.ip := s.a])), s.Gone(), s.Holder(), NEW_MACHINE);
    ReleasePass(s.PoolRanges(), worlds, t, s.a, s.TheLease());
    assert map[s.ip := s.b] - {s.ip} == map[] && map[s.ip := s.a][s.ip := s.b] == map[s.ip := s.b];
    assert Released(s.Taken(s.b, Some(map[s.ip := s.a])), s.ip) == s.Free(s.b);
    assert ReleasedWorld(t, s.a, s.TheLease()) == s.At(4, s.Free(s.b), s.Gone(), s.Holder(), NEW_MACHINE);
  }

  /** The third machine is given the address the second still records. */
  lemma ThirdAllocates(s: Story, worlds: iset<World>)
    requires s.Ok() && Closed(s.PoolRanges(), worlds) && s.Start() in worlds
    ensures s.At(5, s.Taken(s.c, Some(map[s.ip := s.b])), s.Gone(), s.Holder(), s.Holder()) in worlds
  {
    FirstReleasesAgain(s, worlds);
    var t := s.At(4, s.Free(s.b), s.Gone(), s.Holder(), NEW_MACHINE);
    FreshAllowed(s, t.server[s.pool].status, s.c);
    AllocatePass(s.PoolRanges(), worlds, t, s.c, s.TheLease());
    assert AllocatedWorld(t, s.c, s.TheLease()) == s.At(5, s.Taken(s.c, Some(map[s.ip := s.b])), s.Gone(), s.Holder(), s.Holder());
  }

  /**
   As written, the property fails, for any three machines and any pool of one address: a
   machine under deletion releases its address twice, the second time after another machine
   got it, and the third machine is then given the address the second still records.
   */
  lemma SecondReleaseSharesAddress(s: Story)
    requires s.Ok()
    ensures Initial(s.Start())
    ensures exists t ::
      && Reaches(s.PoolRanges(), s.Start(), t) && Owns(t, s.b) && Owns(t, s.c)
      && t.machines[s.b].recorded == t.machines[s.c].recorded
  {
    var worlds := iset t | Reaches(s.PoolRanges(), s.Start(), t);
    ReachableClosed(s.PoolRanges(), s.Start());
    ThirdAllocates(s, worlds);
    var t := s.At(5, s.Taken(s.c, Some(map[s.ip := s.b])), s.Gone(), s.Holder(), s.Holder());
    assert Owns(t, s.b) && Owns(t, s.c);
  }
}
