/**
 Concurrent use of the pools. Reconcilers fetch a pool, change their copy and write it back
 with the version they fetched; the server accepts a write only if nobody wrote in between.
 Store.Lock does nothing, so this version check is all the synchronisation there is.

 The model has any number of pools and reconcilers and every interleaving of their steps.
 */
module PoolProtocol {
  import opened Wrappers
  import opened Ranges
  import opened PoolStore
  import opened PoolRuns

  type PoolRef = string

  type Reconciler = nat

  datatype Versioned = Versioned(version: nat, status: Status)

  /** What a reconciler holds: nothing, a fetched copy, or a copy changed by one operation. */
  datatype Local =
    | Idle
    | Fetched(pool: PoolRef, version: nat, base: Status)
    | Changed(pool: PoolRef, version: nat, base: Status, op: Op)

  datatype Sys = Sys(server: map<PoolRef, Versioned>, locals: map<Reconciler, Local>)

  datatype Event =
    | Fetch(r: Reconciler, pool: PoolRef)
    | Change(r: Reconciler, op: Op)
    | Write(r: Reconciler)
    | Drop(r: Reconciler)

  function LocalOf(s: Sys, r: Reconciler): Local {
    if r in s.locals then s.locals[r] else Idle
  }

  /** When an event can happen; a reconciler may stop at any time. */
  predicate Possible(ranges: map<PoolRef, seq<Range>>, s: Sys, e: Event) {
    match e
    case Fetch(r, pool) => LocalOf(s, r).Idle? && pool in s.server
    case Change(r, op) =>
      var l := LocalOf(s, r);
      l.Fetched? && l.pool in ranges && Enabled(ranges[l.pool], l.base, op)
    case Write(r) => LocalOf(s, r).Changed?
    case Drop(r) => true
  }

  function Step(s: Sys, e: Event): Sys {
    match e
    case Fetch(r, pool) =>
      if pool in s.server
      then s.(locals := s.locals[r := Fetched(pool, s.server[pool].version, s.server[pool].status)])
      else s
    case Change(r, op) =>
      var l := LocalOf(s, r);
      if l.Fetched? then s.(locals := s.locals[r := Changed(l.pool, l.version, l.base, op)]) else s
    case Write(r) =>
      var l := LocalOf(s, r);
      var idle := s.(locals := s.locals[r := Idle]);
      if l.Changed? && l.pool in s.server && s.server[l.pool].version == l.version
      then idle.(server := s.server[l.pool := Versioned(l.version + 1, Apply(l.base, l.op))])
      else idle
    case Drop(r) => s.(locals := s.locals[r := Idle])
  }

  predicate Trace(ranges: map<PoolRef, seq<Range>>, s: Sys, events: seq<Event>) {
    events == [] || (Trace(ranges, s, events[..|events| - 1])
                     && Possible(ranges, After(s, events[..|events| - 1]), events[|events| - 1]))
  }

  function After(s: Sys, events: seq<Event>): Sys {
    if events == [] then s else Step(After(s, events[..|events| - 1]), events[|events| - 1])
  }

  predicate Initial(ranges: map<PoolRef, seq<Range>>, s: Sys) {
    ranges.Keys == s.server.Keys && forall r :: r in s.locals ==> s.locals[r].Idle?
  }

  /** The operations written to `pool`, in the order the server accepted them. */
  function Accepted(s: Sys, events: seq<Event>, pool: PoolRef): seq<Op> {
    if events == [] then []
    else
      var before := After(s, events[..|events| - 1]);
      var log := Accepted(s, events[..|events| - 1], pool);
      var e := events[|events| - 1];
      if e.Write? && LocalOf(before, e.r).Changed? && LocalOf(before, e.r).pool == pool
         && pool in before.server && before.server[pool].version == LocalOf(before, e.r).version
      then log + [LocalOf(before, e.r).op]
      else log
  }

  /** A copy at the server's current version is the server's current status. */
  predicate CopyCurrent(ranges: map<PoolRef, seq<Range>>, server: map<PoolRef, Versioned>, l: Local) {
    !l.Idle? ==>
      && l.pool in server && l.pool in ranges
      && l.version <= server[l.pool].version
      && (l.version == server[l.pool].version ==> l.base == server[l.pool].status)
      && (l.Changed? ==> Enabled(ranges[l.pool], l.base, l.op))
  }

  predicate CopiesCurrent(ranges: map<PoolRef, seq<Range>>, s: Sys) {
    && ranges.Keys == s.server.Keys
    && forall r :: r in s.locals ==> CopyCurrent(ranges, s.server, s.locals[r])
  }

  lemma StepKeepsCopies(ranges: map<PoolRef, seq<Range>>, s: Sys, e: Event)
    requires CopiesCurrent(ranges, s) && Possible(ranges, s, e)
    ensures CopiesCurrent(ranges, Step(s, e))
  {
    var t := Step(s, e);
    forall r | r in t.locals ensures CopyCurrent(ranges, t.server, t.locals[r]) {
      if r in s.locals {
        assert CopyCurrent(ranges, s.server, s.locals[r]);
      }
    }
  }

  lemma {:induction false} CopiesStayCurrent(ranges: map<PoolRef, seq<Range>>, s: Sys, events: seq<Event>)
    requires Initial(ranges, s) && Trace(ranges, s, events)
    ensures CopiesCurrent(ranges, After(s, events))
  {
    if events != [] {
      CopiesStayCurrent(ranges, s, events[..|events| - 1]);
      StepKeepsCopies(ranges, After(s, events[..|events| - 1]), events[|events| - 1]);
    }
  }

  /**
   Serializability: whatever the interleaving, the status of every pool is the result of a
   legal sequential run of the accepted operations, each accepted write exactly once and in
   acceptance order; the version counts them.
   */
  lemma {:induction false} Serializable(ranges: map<PoolRef, seq<Range>>, s: Sys, events: seq<Event>, pool: PoolRef)
    requires Initial(ranges, s) && Trace(ranges, s, events) && pool in s.server
    ensures var t, log := After(s, events), Accepted(s, events, pool);
      && pool in t.server
      && Legal(ranges[pool], s.server[pool].status, log)
      && t.server[pool].status == Run(s.server[pool].status, log)
      && t.server[pool].version == s.server[pool].version + |log|
  {
    if events == [] {
    } else {
      var prefix, e := events[..|events| - 1], events[|events| - 1];
      var before, log := After(s, prefix), Accepted(s, prefix, pool);
      Serializable(ranges, s, prefix, pool);
      CopiesStayCurrent(ranges, s, prefix);
      if e.Write? && LocalOf(before, e.r).Changed? && LocalOf(before, e.r).pool == pool
         && before.server[pool].version == LocalOf(before, e.r).version {
        var l := LocalOf(before, e.r);
        assert CopyCurrent(ranges, before.server, l);
        Extend(ranges[pool], s.server[pool].status, log, l.op);
      }
    }
  }

  /** So the sequential invariants hold of every pool the concurrent system ever shows. */
  lemma ConcurrentHistory(ranges: map<PoolRef, seq<Range>>, s: Sys, events: seq<Event>, pool: PoolRef)
    requires Initial(ranges, s) && Trace(ranges, s, events) && pool in s.server
    requires AllWellFormed(ranges[pool]) && Empty(s.server[pool].status)
    ensures pool in After(s, events).server && HistoryInv(ranges[pool], After(s, events).server[pool].status)
  {
    Serializable(ranges, s, events, pool);
    HistoryInvariant(ranges[pool], s.server[pool].status, Accepted(s, events, pool));
  }

  /** Under any concurrency the cached count is the number of free addresses plus the stray releases accepted. */
  lemma ConcurrentCount(ranges: map<PoolRef, seq<Range>>, s: Sys, events: seq<Event>, pool: PoolRef)
    requires Initial(ranges, s) && Trace(ranges, s, events) && pool in s.server
    requires AllWellFormed(ranges[pool]) && Disjoint(ranges[pool])
    requires Held(s.server[pool].status) == map[] && s.server[pool].status.available == TotalCount(ranges[pool])
    ensures pool in After(s, events).server
    ensures CountInv(Offered(ranges[pool]), After(s, events).server[pool].status,
                     Strays(s.server[pool].status, Accepted(s, events, pool)))
  {
    Serializable(ranges, s, events, pool);
    CachedCount(ranges[pool], s.server[pool].status, Accepted(s, events, pool));
  }

  /** Under any concurrency a zero count is right exactly when no stray release was accepted or an address is free. */
  lemma ConcurrentExhaustion(ranges: map<PoolRef, seq<Range>>, s: Sys, events: seq<Event>, pool: PoolRef, id: Id)
    requires Initial(ranges, s) && Trace(ranges, s, events) && pool in s.server
    requires AllWellFormed(ranges[pool]) && Disjoint(ranges[pool])
    requires Held(s.server[pool].status) == map[] && s.server[pool].status.available == TotalCount(ranges[pool])
    ensures pool in After(s, events).server
    ensures var t, strays := After(s, events).server[pool].status, Strays(s.server[pool].status, Accepted(s, events, pool));
            var free := Free(Offered(ranges[pool]), t);
      && ((t.available == 0 <==> free == {}) <==> strays == 0 || free != {})
      && (t.available == 0 ==> forall a :: !AllocAllowed(ranges[pool], t, id, a))
  {
    Serializable(ranges, s, events, pool);
    ExhaustionDetected(ranges[pool], s.server[pool].status, Accepted(s, events, pool), id);
  }

  // ---------------------------------------------------------------- progress

  /** The events leave the copy of `r` alone, apart from changing it locally. */
  predicate CopyUntouched(r: Reconciler, events: seq<Event>) {
    forall i :: 0 <= i < |events| ==> events[i].Change? || events[i].r != r
  }

  lemma {:induction false} CopyHeld(ranges: map<PoolRef, seq<Range>>, s: Sys, a: seq<Event>, r: Reconciler, pool: PoolRef, b: seq<Event>)
    requires Trace(ranges, s, a + [Fetch(r, pool)] + b) && CopyUntouched(r, b)
    ensures var u, l := After(s, a), LocalOf(After(s, a + [Fetch(r, pool)] + b), r);
      && pool in u.server && !l.Idle? && l.pool == pool
      && l.version == u.server[pool].version && l.base == u.server[pool].status
    decreases |b|
  {
    var fetched := a + [Fetch(r, pool)];
    if b == [] {
      assert fetched + b == fetched && fetched[..|fetched| - 1] == a;
    } else {
      var events, init := fetched + b, b[..|b| - 1];
      assert events[..|events| - 1] == fetched + init;
      CopyHeld(ranges, s, a, r, pool, init);
    }
  }

  lemma {:induction false} TracePrefix(ranges: map<PoolRef, seq<Range>>, s: Sys, a: seq<Event>, b: seq<Event>)
    requires Trace(ranges, s, a + b)
    ensures Trace(ranges, s, a)
    decreases |b|
  {
    if b == [] {
      assert a + b == a;
    } else {
      assert (a + b)[..|a + b| - 1] == a + b[..|b| - 1];
      TracePrefix(ranges, s, a, b[..|b| - 1]);
    }
  }

  /**
   Progress: a write is refused exactly when the server accepted another write to the same
   pool between the fetch and now. So whenever one reconciler has to start over another one
   got through.
   */
  lemma RefusedMeansProgress(ranges: map<PoolRef, seq<Range>>, s: Sys, a: seq<Event>, r: Reconciler, pool: PoolRef, b: seq<Event>)
    requires Initial(ranges, s) && Trace(ranges, s, a + [Fetch(r, pool)] + b) && CopyUntouched(r, b)
    requires LocalOf(After(s, a + [Fetch(r, pool)] + b), r).Changed?
    ensures var events := a + [Fetch(r, pool)] + b; var t := After(s, events);
      Step(t, Write(r)).server == t.server <==> |Accepted(s, events, pool)| > |Accepted(s, a, pool)|
  {
    var events := a + [Fetch(r, pool)] + b;
    VersionsCount(ranges, s, a, r, pool, b);
    var t := After(s, events);
    var l := LocalOf(t, r);
    if t.server[pool].version == l.version {
      assert Step(t, Write(r)).server[pool].version == l.version + 1;
    }
  }

  /** The copy's version counts the writes accepted before the fetch, the server's those accepted so far. */
  lemma VersionsCount(ranges: map<PoolRef, seq<Range>>, s: Sys, a: seq<Event>, r: Reconciler, pool: PoolRef, b: seq<Event>)
    requires Initial(ranges, s) && Trace(ranges, s, a + [Fetch(r, pool)] + b) && CopyUntouched(r, b)
    ensures var events := a + [Fetch(r, pool)] + b; var t := After(s, events); var l := LocalOf(t, r);
      && pool in After(s, a).server && pool in t.server && pool in s.server
      && !l.Idle? && l.pool == pool && l.base == After(s, a).server[pool].status && l.version <= t.server[pool].version
      && l.version == s.server[pool].version + |Accepted(s, a, pool)|
      && t.server[pool].version == s.server[pool].version + |Accepted(s, events, pool)|
  {
    var events := a + [Fetch(r, pool)] + b;
    CopyHeld(ranges, s, a, r, pool, b);
    assert events == a + ([Fetch(r, pool)] + b);
    TracePrefix(ranges, s, a, [Fetch(r, pool)] + b);
    CopiesStayCurrent(ranges, s, a);
    CopiesStayCurrent(ranges, s, events);
    Serializable(ranges, s, a, pool);
    Serializable(ranges, s, events, pool);
    assert CopyCurrent(ranges, After(s, events).server, LocalOf(After(s, events), r));
  }

  /**
   A pass is accepted, and has its whole effect on the status it fetched, if no write to
   its pool was accepted in between, whatever else happened.
   */
  lemma UninterruptedPassAccepted(ranges: map<PoolRef, seq<Range>>, s: Sys, a: seq<Event>, r: Reconciler, pool: PoolRef, b: seq<Event>)
    requires Initial(ranges, s) && Trace(ranges, s, a + [Fetch(r, pool)] + b) && CopyUntouched(r, b)
    requires var t := After(s, a + [Fetch(r, pool)] + b);
      LocalOf(t, r).Changed? && |Accepted(s, a + [Fetch(r, pool)] + b, pool)| == |Accepted(s, a, pool)|
    ensures var u, t := After(s, a), After(s, a + [Fetch(r, pool)] + b);
      && pool in u.server
      && Step(t, Write(r)).server
         == t.server[pool := Versioned(u.server[pool].version + 1, Apply(u.server[pool].status, LocalOf(t, r).op))]
  {
    VersionsCount(ranges, s, a, r, pool, b);
    CopyHeld(ranges, s, a, r, pool, b);
  }
}
