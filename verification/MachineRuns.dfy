/**
 Convergence as it happens: whole passes (fetch, act, patch) of one machine in a run of
 module MachineLifecycle, after any history of failed passes and lost patches.
 */
module MachineRuns {
  import opened Wrappers
  import opened MachineReconcile
  import opened MachineLifecycle
  import Convergence = MachineConvergence

  /** One pass whose patch arrives as a whole. */
  function PassEvents(env: Env): seq<Event> {
    [Fetch, Act(env), Patch(true, true, true)]
  }

  function Passes(envs: seq<Env>): seq<Event> {
    if envs == [] then [] else PassEvents(envs[0]) + Passes(envs[1..])
  }

  lemma ThreeEvents(w: World, e: Event, f: Event, g: Event)
    ensures After(w, [e, f, g]) == Step(Step(Step(w, e), f), g)
    ensures Trace(w, [e, f, g]) <==>
      Possible(w, e) && Possible(Step(w, e), f) && Possible(Step(Step(w, e), f), g)
  {
    TwoEvents(w, e, f);
    assert [e, f, g][..2] == [e, f];
  }

  /** A machine at rest, in use. */
  predicate InUse(w: World, m: Machine) {
    w.work.Resting? && w.obj == Some(m) && !m.deleting
  }

  /** A whole pass is one step of ReconcileNormal on the stored object. */
  lemma PassIsStep(w: World, m: Machine, env: Env)
    requires InUse(w, m)
    ensures var (m', h') := NormalStep(m, w.h, env);
      && Trace(w, PassEvents(env)) && !m'.deleting
      && After(w, PassEvents(env)) == World(Some(m'), h', Resting)
  {
    NormalCreatesGuarded(m, w.h, env);
    ThreeEvents(w, Fetch, Act(env), Patch(true, true, true));
    var (m', h') := NormalStep(m, w.h, env);
    PatchedWhole(m, m');
  }

  lemma PatchedWhole(before: Machine, after: Machine)
    requires before.deleting == after.deleting
    ensures Patched(before, before, after, Patch(true, true, true)) == after
  {}

  lemma {:induction false} PassesAreIterates(w: World, m: Machine, envs: seq<Env>)
    requires InUse(w, m)
    ensures var (m', h') := Convergence.Iterate(m, w.h, envs);
      Trace(w, Passes(envs)) && After(w, Passes(envs)) == World(Some(m'), h', Resting)
    decreases |envs|
  {
    if envs != [] {
      PassIsStep(w, m, envs[0]);
      var next := After(w, PassEvents(envs[0]));
      PassesAreIterates(next, next.obj.value, envs[1..]);
      TraceConcat(w, PassEvents(envs[0]), Passes(envs[1..]));
    }
  }

  /** No event halts a VM. */
  lemma {:induction false} VMsStayUsable(w: World, events: seq<Event>)
    requires Convergence.VMUsable(w.h) && Trace(w, events)
    ensures Convergence.VMUsable(After(w, events).h)
  {
    if events != [] {
      VMsStayUsable(w, events[..|events| - 1]);
    }
  }

  /**
   Convergence in runs: after any history, five good passes whose patches arrive bring the
   stored object of a machine in use to its goal, and further ones leave the world as it is.
   */
  lemma ConvergesInRuns(c: Convergence.Setting, w: World, history: seq<Event>, envs: seq<Env>, more: seq<Env>)
    requires Initial(w) && Convergence.VMUsable(w.h) && Trace(w, history)
    requires var u := After(w, history); u.work.Resting? && u.obj.Some? && !u.obj.value.deleting
    requires Convergence.AllGood(c, envs) && Convergence.AllGood(c, more) && |envs| >= 5
    ensures var t := After(w, history + Passes(envs));
      && Trace(w, history + Passes(envs)) && t.work.Resting? && t.obj.Some?
      && Convergence.Goal(t.obj.value, t.h) && Convergence.Settled(c, t.obj.value, t.h) && Finalized(t)
      && After(t, Passes(more)) == t
  {
    var u := After(w, history);
    VMsStayUsable(w, history);
    PassesAreIterates(u, u.obj.value, envs);
    TraceConcat(w, history, Passes(envs));
    Convergence.Convergence(c, u.obj.value, u.h, envs, more);
    Convergence.KeepsNotDeleting(c, u.obj.value, u.h, envs);
    var t := After(u, Passes(envs));
    PassesAreIterates(t, t.obj.value, more);
    Convergence.SettledForever(c, t.obj.value, t.h, more);
  }
}
