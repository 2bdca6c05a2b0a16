/**
 How the procedures of module VmIp fit the two state machines of the pools: a call of
 allocateVMIP or releaseVMIP is a run of PoolOwnership's actions with the same outcome, and
 the pools of every run of PoolProtocol are tidy, so that allocateVMIP is first fit.
 */
module PoolPasses {
  import opened Wrappers
  import opened Ranges
  import opened PoolStore
  import opened VmIp
  import Runs = PoolRuns
  import Protocol = PoolProtocol
  import opened PoolOwnership

  type PoolRef = Protocol.PoolRef

  /** The world's server holds the statuses of `pools`, over their ranges. */
  predicate Shows(ranges: map<PoolRef, seq<Range>>, w: World, pools: map<PoolRef, PoolObject>) {
    && pools.Keys == w.server.Keys
    && forall p :: p in pools ==> ShowsPool(ranges, w, p, pools[p])
  }

  predicate ShowsPool(ranges: map<PoolRef, seq<Range>>, w: World, p: PoolRef, pool: PoolObject) {
    && p in w.server && w.server[p].status == pool.status
    && (AllParse(pool.ranges) ==> p in ranges && ranges[p] == RangesOf(pool.ranges))
  }

  lemma Extend(ranges: map<PoolRef, seq<Range>>, w: World, actions: seq<Action>, action: Action)
    requires Trace(ranges, w, actions, false) && May(ranges, After(w, actions), action, false)
    ensures Trace(ranges, w, actions + [action], false) && After(w, actions + [action]) == Do(After(w, actions), action)
  {
    assert (actions + [action])[..|actions|] == actions;
  }

  lemma Two(ranges: map<PoolRef, seq<Range>>, w: World, a: Action, b: Action)
    requires May(ranges, w, a, false) && May(ranges, Do(w, a), b, false)
    ensures Trace(ranges, w, [a, b], false) && After(w, [a, b]) == Do(Do(w, a), b)
  {
    Extend(ranges, w, [], a);
    assert [] + [a] == [a];
    Extend(ranges, w, [a], b);
    assert [a] + [b] == [a, b];
  }

  lemma Four(ranges: map<PoolRef, seq<Range>>, w: World, a: Action, b: Action, c: Action, d: Action)
    requires May(ranges, w, a, false) && May(ranges, Do(w, a), b, false)
    requires May(ranges, Do(Do(w, a), b), c, false) && May(ranges, Do(Do(Do(w, a), b), c), d, false)
    ensures Trace(ranges, w, [a, b, c, d], false) && After(w, [a, b, c, d]) == Do(Do(Do(Do(w, a), b), c), d)
  {
    Two(ranges, w, a, b);
    Extend(ranges, w, [a, b], c);
    assert [a, b] + [c] == [a, b, c];
    Extend(ranges, w, [a, b, c], d);
    assert [a, b, c] + [d] == [a, b, c, d];
  }

  // ---------------------------------------------------------------- allocateVMIP

  /** The machine starts a pass: it records no address and is not being deleted. */
  predicate Starts(w: World, id: Id) {
    id in w.machines && w.machines[id].work.Resting? && !w.machines[id].deleting && w.machines[id].recorded.None?
  }

  lemma AdoptRun(ranges: map<PoolRef, seq<Range>>, w: World, id: Id, lease: Lease)
    requires Starts(w, id) && lease.pool in w.server && Lists(w.server[lease.pool].status, lease.ip, id)
    ensures var actions := [Look(id, lease.pool), Adopt(id, lease.ip)];
      && Trace(ranges, w, actions, false)
      && After(w, actions) == With(w, id, w.machines[id].(recorded := Some(lease)))
  {
    var m, v := w.machines[id], w.server[lease.pool];
    var looked := With(w, id, m.(work := Looking(lease.pool, v.version, v.status)));
    assert Do(w, Look(id, lease.pool)) == looked;
    assert Do(looked, Adopt(id, lease.ip)) == With(w, id, m.(recorded := Some(lease)));
    Two(ranges, w, Look(id, lease.pool), Adopt(id, lease.ip));
  }

  lemma PlanSteps(ranges: map<PoolRef, seq<Range>>, w: World, id: Id, lease: Lease)
    requires Starts(w, id) && lease.pool in w.server && lease.pool in ranges
    requires AllocAllowed(ranges[lease.pool], w.server[lease.pool].status, id, lease.ip)
    ensures May(ranges, w, Look(id, lease.pool), false)
    ensures May(ranges, Do(w, Look(id, lease.pool)), Plan(id, lease.ip), false)
    ensures var v := w.server[lease.pool];
      Do(Do(w, Look(id, lease.pool)), Plan(id, lease.ip))
      == With(w, id, w.machines[id].(work := Allocating(lease.pool, v.version, v.status, lease.ip)))
  {
    var m, v := w.machines[id], w.server[lease.pool];
    assert Do(w, Look(id, lease.pool)) == With(w, id, m.(work := Looking(lease.pool, v.version, v.status)));
  }

  /** The server after an accepted write of the pool. */
  function Written(w: World, pool: PoolRef, status: Status): World
    requires pool in w.server
  {
    World(w.server[pool := Protocol.Versioned(w.server[pool].version + 1, status)], w.machines)
  }

  lemma CommitSteps(ranges: map<PoolRef, seq<Range>>, w: World, id: Id, lease: Lease)
    requires Starts(w, id) && lease.pool in w.server
    ensures var m, v := w.machines[id], w.server[lease.pool];
            var planned := With(w, id, m.(work := Allocating(lease.pool, v.version, v.status, lease.ip)));
      && May(ranges, planned, Commit(id), false)
      && May(ranges, Do(planned, Commit(id)), Record(id), false)
      && Do(Do(planned, Commit(id)), Record(id))
         == With(Written(w, lease.pool, Reserved(v.status, id, lease.ip)), id, m.(recorded := Some(lease)))
  {
    var m, v := w.machines[id], w.server[lease.pool];
    var planned := With(w, id, m.(work := Allocating(lease.pool, v.version, v.status, lease.ip)));
    assert Do(planned, Commit(id))
        == With(Written(w, lease.pool, Reserved(v.status, id, lease.ip)), id, m.(work := Allocated(lease)));
  }

  lemma AllocateRun(ranges: map<PoolRef, seq<Range>>, w: World, id: Id, lease: Lease)
    requires Starts(w, id) && lease.pool in w.server && lease.pool in ranges
    requires AllocAllowed(ranges[lease.pool], w.server[lease.pool].status, id, lease.ip)
    ensures var actions := [Look(id, lease.pool), Plan(id, lease.ip), Commit(id), Record(id)];
      && Trace(ranges, w, actions, false)
      && After(w, actions) == With(Written(w, lease.pool, Reserved(w.server[lease.pool].status, id, lease.ip)),
                                   id, w.machines[id].(recorded := Some(lease)))
  {
    PlanSteps(ranges, w, id, lease);
    CommitSteps(ranges, w, id, lease);
    Four(ranges, w, Look(id, lease.pool), Plan(id, lease.ip), Commit(id), Record(id));
  }

  /** The actions of the pass that served the machine. */
  function PassActions(p: PoolObject, id: Id, lease: Lease): seq<Action> {
    if Listed(p, id) then [Look(id, lease.pool), Adopt(id, lease.ip)]
    else [Look(id, lease.pool), Plan(id, lease.ip), Commit(id), Record(id)]
  }

  /**
   A successful allocateVMIP is a run of the ownership state machine: from a world that
   shows the pools before the call to one that shows them after it, the machine recording
   the address and nobody else changed.
   */
  lemma AllocatePassIsRun(ranges: map<PoolRef, seq<Range>>, w: World, before: map<PoolRef, PoolObject>,
                          after: map<PoolRef, PoolObject>, ref: PoolRef, networks: seq<string>, id: Id, ip: Addr)
    requires Shows(ranges, w, before) && Starts(w, id) && Served(before, after, ref, networks, id, ip)
    ensures var lease := Lease(ref, ip); var actions := PassActions(before[ref], id, lease); var t := After(w, actions);
      && Trace(ranges, w, actions, false)
      && Shows(ranges, t, after)
      && t.machines == w.machines[id := w.machines[id].(recorded := Some(lease))]
  {
    var lease := Lease(ref, ip);
    assert ShowsPool(ranges, w, ref, before[ref]);
    if Listed(before[ref], id) {
      AdoptRun(ranges, w, id, lease);
    } else {
      AllocateRun(ranges, w, id, lease);
    }
    var t := After(w, PassActions(before[ref], id, lease));
    forall p | p in after ensures ShowsPool(ranges, t, p, after[p]) {
      assert ShowsPool(ranges, w, p, before[p]);
    }
  }

  // ---------------------------------------------------------------- two pools

  lemma {:induction false} RunConcat(ranges: map<PoolRef, seq<Range>>, w: World, a: seq<Action>, b: seq<Action>)
    requires Trace(ranges, w, a, false) && Trace(ranges, After(w, a), b, false)
    ensures Trace(ranges, w, a + b, false) && After(w, a + b) == After(After(w, a), b)
    decreases |b|
  {
    if b == [] {
      assert a + b == a;
    } else {
      var init, last := b[..|b| - 1], b[|b| - 1];
      LastAction(ranges, After(w, a), b);
      RunConcat(ranges, w, a, init);
      Extend(ranges, w, a + init, last);
      assert a + b == a + init + [last];
    }
  }

  lemma LastAction(ranges: map<PoolRef, seq<Range>>, w: World, b: seq<Action>)
    requires b != [] && Trace(ranges, w, b, false)
    ensures var init := b[..|b| - 1];
      && Trace(ranges, w, init, false) && May(ranges, After(w, init), b[|b| - 1], false)
      && After(w, b) == Do(After(w, init), b[|b| - 1])
  {}

  /** A pass that writes the pool and ends before the machine's record is written. */
  lemma CrashRun(ranges: map<PoolRef, seq<Range>>, w: World, id: Id, lease: Lease)
    requires Starts(w, id) && lease.pool in w.server && lease.pool in ranges
    requires AllocAllowed(ranges[lease.pool], w.server[lease.pool].status, id, lease.ip)
    ensures var actions := [Look(id, lease.pool), Plan(id, lease.ip), Commit(id), Crash(id)];
      && Trace(ranges, w, actions, false)
      && After(w, actions) == Written(w, lease.pool, Reserved(w.server[lease.pool].status, id, lease.ip))
  {
    PlanSteps(ranges, w, id, lease);
    CommitSteps(ranges, w, id, lease);
    var m, v := w.machines[id], w.server[lease.pool];
    var planned := With(w, id, m.(work := Allocating(lease.pool, v.version, v.status, lease.ip)));
    var committed := With(Written(w, lease.pool, Reserved(v.status, id, lease.ip)), id, m.(work := Allocated(lease)));
    assert Do(planned, Commit(id)) == committed;
    assert Do(committed, Crash(id)) == Written(w, lease.pool, Reserved(v.status, id, lease.ip));
    Four(ranges, w, Look(id, lease.pool), Plan(id, lease.ip), Commit(id), Crash(id));
  }

  /**
   A machine can hold addresses in two pools, whenever both have one for it: a pass commits
   in the first and ends before the record, and the next pass finds the second usable (the
   first being full, unreachable or reordered by then) and records that one only.
   */
  lemma TwoPoolsListed(ranges: map<PoolRef, seq<Range>>, w: World, id: Id, lost: Lease, kept: Lease)
    requires Starts(w, id) && lost.pool != kept.pool
    requires lost.pool in w.server && lost.pool in ranges && kept.pool in w.server && kept.pool in ranges
    requires AllocAllowed(ranges[lost.pool], w.server[lost.pool].status, id, lost.ip)
    requires AllocAllowed(ranges[kept.pool], w.server[kept.pool].status, id, kept.ip)
    ensures var actions := [Look(id, lost.pool), Plan(id, lost.ip), Commit(id), Crash(id)]
                         + [Look(id, kept.pool), Plan(id, kept.ip), Commit(id), Record(id)];
            var t := After(w, actions);
      && Trace(ranges, w, actions, false)
      && LeaseListed(t, lost, id) && LeaseListed(t, kept, id) && id in t.machines && t.machines[id].recorded == Some(kept)
  {
    CrashRun(ranges, w, id, lost);
    var u := Written(w, lost.pool, Reserved(w.server[lost.pool].status, id, lost.ip));
    AllocateRun(ranges, u, id, kept);
    RunConcat(ranges, w, [Look(id, lost.pool), Plan(id, lost.ip), Commit(id), Crash(id)],
              [Look(id, kept.pool), Plan(id, kept.ip), Commit(id), Record(id)]);
  }

  // ---------------------------------------------------------------- releaseVMIP

  lemma ReleaseRun(ranges: map<PoolRef, seq<Range>>, w: World, id: Id, lease: Lease)
    requires id in w.machines && w.machines[id].work.Resting? && w.machines[id].deleting
    requires w.machines[id].recorded.Some? && w.machines[id].recorded.value.ip == lease.ip
    requires ReleasesTo(w.machines[id].recorded.value, lease.pool) && lease.pool in w.server
    ensures var actions := [LookForRelease(id, lease.pool), CommitRelease(id)];
      && Trace(ranges, w, actions, false)
      && After(w, actions) == With(Written(w, lease.pool, Released(w.server[lease.pool].status, lease.ip)),
                                   id, w.machines[id].(released := true))
  {
    var m, v := w.machines[id], w.server[lease.pool];
    var looked := With(w, id, m.(work := Releasing(lease, v.version, v.status)));
    assert Do(w, LookForRelease(id, lease.pool)) == looked;
    assert Do(looked, CommitRelease(id))
        == With(Written(w, lease.pool, Released(v.status, lease.ip)), id, m.(released := true));
    Two(ranges, w, LookForRelease(id, lease.pool), CommitRelease(id));
  }

  /** The machine's record, as its status holds it: the address and the pool, "" if none was recorded. */
  predicate Records(w: World, id: Id, ip: Addr, pool: PoolRef) {
    id in w.machines && w.machines[id].recorded == Some(Lease(pool, ip))
  }

  /**
   A releaseVMIP whose calls succeed is a run of the ownership state machine that gives the
   address back to the pool releaseVMIP chooses, the first configured one if the record
   names none, and leaves the record.
   */
  lemma ReleasePassIsRun(ranges: map<PoolRef, seq<Range>>, w: World, before: map<PoolRef, PoolObject>, id: Id, ip: Addr,
                         recorded: PoolRef, cfg: Option<VMNetworkConfig>)
    requires Shows(ranges, w, before) && Records(w, id, ip, recorded)
    requires w.machines[id].work.Resting? && w.machines[id].deleting && ReleaseRef(recorded, cfg) in before
    ensures var ref := ReleaseRef(recorded, cfg);
            var actions := [LookForRelease(id, ref), CommitRelease(id)]; var t := After(w, actions);
      && Trace(ranges, w, actions, false)
      && Shows(ranges, t, GivenBack(before, ref, ip))
      && t.machines == w.machines[id := w.machines[id].(released := true)]
  {
    var lease := Lease(ReleaseRef(recorded, cfg), ip);
    assert ShowsPool(ranges, w, lease.pool, before[lease.pool]);
    ReleaseRun(ranges, w, id, lease);
    var after := GivenBack(before, lease.pool, lease.ip);
    var t := After(w, [LookForRelease(id, lease.pool), CommitRelease(id)]);
    forall p | p in after ensures ShowsPool(ranges, t, p, after[p]) {
      assert ShowsPool(ranges, w, p, before[p]);
    }
  }

  /** That pass is harmless exactly when the pool does not list another machine that relies on the address. */
  lemma ReleasePassHarmless(w: World, id: Id, lease: Lease)
    requires id in w.machines && w.machines[id].recorded.Some? && w.machines[id].recorded.value.ip == lease.ip
    requires lease.pool in w.server
    ensures var held := Held(w.server[lease.pool].status);
      Harmless(Do(w, LookForRelease(id, lease.pool)), CommitRelease(id))
      <==> !(lease.ip in held && held[lease.ip] != id && Relies(w, held[lease.ip], lease))
  {
    var m, v := w.machines[id], w.server[lease.pool];
    var looked := With(w, id, m.(work := Releasing(lease, v.version, v.status)));
    assert Do(w, LookForRelease(id, lease.pool)) == looked;
    forall other | other != id ensures Relies(looked, other, lease) <==> Relies(w, other, lease) {}
  }

  // ---------------------------------------------------------------- tidy pools

  /** The pools are what the server shows after a concurrent run that began with them empty. */
  ghost predicate ShownAfter(ranges: map<PoolRef, seq<Range>>, s: Protocol.Sys, events: seq<Protocol.Event>,
                             pools: map<PoolRef, PoolObject>)
  {
    && Protocol.Initial(ranges, s) && Protocol.Trace(ranges, s, events)
    && forall p :: p in pools ==>
         && AllParse(pools[p].ranges) && p in s.server && ranges[p] == RangesOf(pools[p].ranges)
         && Runs.Empty(s.server[p].status)
         && p in Protocol.After(s, events).server && Protocol.After(s, events).server[p].status == pools[p].status
  }

  /** Whatever the reconcilers did, no pool remembers two past addresses of a machine. */
  lemma TidyInRuns(ranges: map<PoolRef, seq<Range>>, s: Protocol.Sys, events: seq<Protocol.Event>,
                   pools: map<PoolRef, PoolObject>, namespace: string, name: string)
    requires ShownAfter(ranges, s, events, pools)
    ensures Tidy(pools, MachineId(namespace, name))
  {
    var id := MachineId(namespace, name);
    assert id[|namespace|] == '/';
    forall p | p in pools ensures AtMostOne(Owned(Past(pools[p].status), id)) {
      Runs.ParsedWellFormed(pools[p].ranges);
      Protocol.ConcurrentHistory(ranges, s, events, p);
      assert Runs.OneAddress(pools[p].status, id);
    }
  }

  /**
   So in every concurrent run allocateVMIP is first fit: exactly the configured pools that
   can neither serve the machine nor list it are passed over.
   */
  lemma FirstFitInRuns(ranges: map<PoolRef, seq<Range>>, s: Protocol.Sys, events: seq<Protocol.Event>,
                       pools: map<PoolRef, PoolObject>, namespace: string, name: string,
                       refs: seq<PoolRef>, networks: seq<string>, getFails: set<nat>, k: nat)
    requires ShownAfter(ranges, s, events, pools) && k < |refs|
    ensures PassedOver(pools, refs, networks, MachineId(namespace, name), getFails, k)
       <==> !Usable(pools, refs, networks, MachineId(namespace, name), getFails, k)
  {
    TidyInRuns(ranges, s, events, pools, namespace, name);
    TidyFirstFit(pools, refs, networks, MachineId(namespace, name), getFails, k);
  }
}
