/**
 The VM IP pool of a cluster: reconcileVMIPPool creates a pool under a generated name when
 the user gave a pool definition and no pool reference, and ReconcileDelete removes the
 referenced pool only if the cluster carries the created-by-controller condition. Before
 that, ReconcileDelete removes the pool of the load balancer's generated name unasked.

 A pass fetches the cluster object, works on its copy, and ends with a patch whose spec and
 status parts may each be lost. Users do not edit the VM network configuration. Other
 parties create and delete pools at any time, this cluster's own pool included.
 */
module VmPool {
  import opened Wrappers
  import VmIp
  import Names

  type PoolRef = string

  /** The user's VM network configuration and the names generated for the cluster's VM and load balancer pools. */
  datatype Config = Config(refs: seq<PoolRef>, userRef: PoolRef, hasIPPool: bool, generated: PoolRef, lbPool: PoolRef)

  /** The fields of the cluster object the pool code reads and writes. */
  datatype Cluster = Cluster(ipPoolRef: PoolRef, createdByController: bool, finalizer: bool, deleting: bool)

  /** Who made a pool: a create step of this cluster, or anybody else. */
  datatype Maker = Ours | Theirs

  datatype Work =
    | Resting
    | Fetched(c: Cluster)
    | Missing(c: Cluster)
    | Acted(before: Cluster, after: Cluster)

  /** `made`: our create step has made the pool; `retaken`: somebody else made one of that name since. */
  datatype World = World(cluster: Option<Cluster>, pools: map<PoolRef, Maker>, work: Work, made: bool, retaken: bool)

  datatype Event =
    | UserDelete
    | Fetch
    | GiveUp
    | Look
    | Create(answered: bool)
    | UnguardedDelete
    | GuardedDelete(ok: bool)
    | Patch(spec: bool, status: bool)
    | OthersCreate(pool: PoolRef)
    | OthersDelete(pool: PoolRef)

  function Refs(cfg: Config, c: Cluster): seq<PoolRef> {
    VmIp.GetIPPoolRefs(VmIp.VMNetworkConfig(cfg.refs, c.ipPoolRef))
  }

  predicate Possible(cfg: Config, w: World, e: Event) {
    match e
    case UserDelete => w.cluster.Some?
    case Fetch => w.work.Resting? && w.cluster.Some?
    case GiveUp => !w.work.Resting?
    case Look => w.work.Fetched? && !w.work.c.deleting && w.work.c.finalizer
    case Create(_) => w.work.Missing?
    case UnguardedDelete => w.work.Fetched? && w.work.c.deleting
    case GuardedDelete(_) => w.work.Fetched? && w.work.c.deleting
    case Patch(_, _) => w.work.Acted?
    case OthersCreate(pool) => pool != "" && pool !in w.pools
    case OthersDelete(pool) => pool in w.pools
  }

  /** The pool a guarded delete removes, if any. */
  function Target(w: World, e: Event): Option<PoolRef> {
    if e.GuardedDelete? && e.ok && w.work.Fetched? && w.work.c.createdByController && w.work.c.ipPoolRef in w.pools
    then Some(w.work.c.ipPoolRef)
    else None
  }

  /** The cluster after its pass found a pool of the generated name. */
  function Adopted(cfg: Config, c: Cluster): Cluster {
    c.(ipPoolRef := cfg.generated)
  }

  /** The cluster after its pass made the pool. */
  function OwnPool(cfg: Config, c: Cluster): Cluster {
    c.(ipPoolRef := cfg.generated, createdByController := true)
  }

  function Stored(c: Cluster): Option<Cluster> {
    if c.deleting && !c.finalizer then None else Some(c)
  }

  function Step(cfg: Config, w: World, e: Event): World {
    match e
    case UserDelete => if w.cluster.Some? then w.(cluster := Stored(w.cluster.value.(deleting := true))) else w
    case Fetch => if w.cluster.Some? then w.(work := Fetched(w.cluster.value)) else w
    case GiveUp => w.(work := Resting)
    case Look =>
      if !w.work.Fetched? then w
      else
        var c := w.work.c;
        // pools are referenced, or none is defined: nothing to create
        if Refs(cfg, c) != [] || !cfg.hasIPPool then w.(work := Acted(c, c))
        // found by Get: reference it
        else if cfg.generated in w.pools then w.(work := Acted(c, Adopted(cfg, c)))
        else w.(work := Missing(c))
    case Create(answered) =>
      if !w.work.Missing? then w
      else
        var c := w.work.c;
        // met as AlreadyExists: reference it
        if cfg.generated in w.pools then w.(work := Acted(c, Adopted(cfg, c)))
        else
          w.(pools := w.pools[cfg.generated := Ours], made := true, retaken := false,
             work := Acted(c, if answered then OwnPool(cfg, c) else c))
    case UnguardedDelete => w.(pools := w.pools - {cfg.lbPool})
    case GuardedDelete(ok) =>
      if !w.work.Fetched? then w
      else
        var c := w.work.c;
        if !c.createdByController then w.(work := Acted(c, c.(finalizer := false)))
        else if !ok then w.(work := Acted(c, c))
        else w.(pools := w.pools - {c.ipPoolRef}, work := Acted(c, c.(createdByController := false, finalizer := false)))
    case Patch(spec, status) =>
      if !w.work.Acted? || w.cluster.None? then w.(work := Resting)
      else
        var (s, b, a) := (w.cluster.value, w.work.before, w.work.after);
        var merged := Cluster(Merge(spec, s.ipPoolRef, b.ipPoolRef, a.ipPoolRef),
                              Merge(status, s.createdByController, b.createdByController, a.createdByController),
                              Merge(spec, s.finalizer, b.finalizer, a.finalizer),
                              s.deleting);
        w.(cluster := Stored(merged), work := Resting)
    case OthersCreate(pool) =>
      w.(pools := w.pools[pool := Theirs], retaken := w.retaken || (w.made && pool == cfg.generated))
    case OthersDelete(pool) => w.(pools := w.pools - {pool})
  }

  function After(cfg: Config, w: World, events: seq<Event>): World {
    if events == [] then w else Step(cfg, After(cfg, w, events[..|events| - 1]), events[|events| - 1])
  }

  predicate Trace(cfg: Config, w: World, events: seq<Event>) {
    events == [] || (Trace(cfg, w, events[..|events| - 1])
                     && Possible(cfg, After(cfg, w, events[..|events| - 1]), events[|events| - 1]))
  }

  predicate Initial(cfg: Config, w: World) {
    && cfg.generated != "" && "" !in w.pools
    && w.cluster == Some(Cluster(cfg.userRef, false, true, false))
    && w.work.Resting? && !w.made && !w.retaken
    && forall p :: p in w.pools ==> w.pools[p].Theirs?
  }

  // ---------------------------------------------------------------- the invariant

  /** The user referenced pools, so that this cluster never creates one. */
  predicate Referenced(cfg: Config) {
    cfg.refs != [] || cfg.userRef != "" || !cfg.hasIPPool
  }

  predicate CopyOk(cfg: Config, w: World, c: Cluster) {
    && (c.createdByController ==> w.made)
    && (Referenced(cfg) ==> c.ipPoolRef == cfg.userRef && !c.createdByController)
    && (!Referenced(cfg) ==> c.ipPoolRef == "" || c.ipPoolRef == cfg.generated)
  }

  predicate Inv(cfg: Config, w: World) {
    && (w.cluster.Some? ==> CopyOk(cfg, w, w.cluster.value))
    && (match w.work
        case Resting => true
        case Fetched(c) => CopyOk(cfg, w, c)
        case Missing(c) => CopyOk(cfg, w, c) && !Referenced(cfg)
        case Acted(before, after) => CopyOk(cfg, w, before) && CopyOk(cfg, w, after))
    && (w.made ==> !Referenced(cfg))
    && (forall p :: p in w.pools && w.pools[p].Ours? ==> p == cfg.generated && w.made)
    && (w.made && cfg.generated in w.pools ==> (w.pools[cfg.generated].Ours? <==> !w.retaken))
    && "" !in w.pools
  }

  lemma StepKeeps(cfg: Config, w: World, e: Event)
    requires cfg.generated != "" && Inv(cfg, w) && Possible(cfg, w, e)
    ensures Inv(cfg, Step(cfg, w, e))
  {
    match e
    case UserDelete =>
    case Fetch =>
    case GiveUp =>
    case Look => LookKeeps(cfg, w);
    case Create(answered) => CreateKeeps(cfg, w, answered);
    case UnguardedDelete => OthersKeep(cfg, w, e);
    case GuardedDelete(ok) => DeleteKeeps(cfg, w, ok);
    case Patch(spec, status) =>
    case OthersCreate(pool) => OthersKeep(cfg, w, e);
    case OthersDelete(pool) => OthersKeep(cfg, w, e);
  }

  lemma LookKeeps(cfg: Config, w: World)
    requires cfg.generated != "" && Inv(cfg, w) && Possible(cfg, w, Look)
    ensures Inv(cfg, Step(cfg, w, Look))
  {}

  lemma CreateKeeps(cfg: Config, w: World, answered: bool)
    requires cfg.generated != "" && Inv(cfg, w) && Possible(cfg, w, Create(answered))
    ensures Inv(cfg, Step(cfg, w, Create(answered)))
  {}

  lemma DeleteKeeps(cfg: Config, w: World, ok: bool)
    requires cfg.generated != "" && Inv(cfg, w) && Possible(cfg, w, GuardedDelete(ok))
    ensures Inv(cfg, Step(cfg, w, GuardedDelete(ok)))
  {}

  lemma OthersKeep(cfg: Config, w: World, e: Event)
    requires cfg.generated != "" && Inv(cfg, w) && Possible(cfg, w, e) && (e.OthersCreate? || e.OthersDelete? || e.UnguardedDelete?)
    ensures Inv(cfg, Step(cfg, w, e))
  {}

  lemma {:induction false} InvHolds(cfg: Config, w: World, events: seq<Event>)
    requires Initial(cfg, w) && Trace(cfg, w, events)
    ensures Inv(cfg, After(cfg, w, events))
  {
    if events != [] {
      InvHolds(cfg, w, events[..|events| - 1]);
      StepKeeps(cfg, After(cfg, w, events[..|events| - 1]), events[|events| - 1]);
    }
  }

  predicate NeverRetaken(cfg: Config, w: World, events: seq<Event>) {
    forall i :: 0 <= i < |events| && events[i] == OthersCreate(cfg.generated) ==> !After(cfg, w, events[..i]).made
  }

  /**
   In every run, lost patches included, the pool a guarded delete removes has the generated
   name, was never referenced by the user, and is the one our own create step made exactly
   when nobody else has made a pool of that name since.
   */
  lemma GuardedDeleteSafety(cfg: Config, w: World, events: seq<Event>, e: Event)
    requires Initial(cfg, w) && Trace(cfg, w, events)
    requires Possible(cfg, After(cfg, w, events), e)
    ensures var u := After(cfg, w, events);
      Target(u, e).Some? ==>
        && Target(u, e).value == cfg.generated && !Referenced(cfg) && u.made
        && (u.pools[Target(u, e).value].Ours? <==> !u.retaken)
  {
    InvHolds(cfg, w, events);
  }

  lemma {:induction false} RetakenOnlyByOthers(cfg: Config, w: World, events: seq<Event>)
    requires Initial(cfg, w) && NeverRetaken(cfg, w, events)
    ensures !After(cfg, w, events).retaken
  {
    if events != [] {
      var init := events[..|events| - 1];
      forall i | 0 <= i < |init| ensures init[..i] == events[..i] {}
      assert NeverRetaken(cfg, w, init);
      RetakenOnlyByOthers(cfg, w, init);
      assert events[|events| - 1] == OthersCreate(cfg.generated) ==> !After(cfg, w, init).made;
    }
  }

  /** So a run in which nobody retakes the name only ever deletes pools this cluster made. */
  lemma OnlyOwnPoolsDeleted(cfg: Config, w: World, events: seq<Event>, e: Event)
    requires Initial(cfg, w) && Trace(cfg, w, events) && NeverRetaken(cfg, w, events)
    requires Possible(cfg, After(cfg, w, events), e)
    ensures var u := After(cfg, w, events);
      Target(u, e).Some? ==> u.pools[Target(u, e).value].Ours?
  {
    GuardedDeleteSafety(cfg, w, events, e);
    RetakenOnlyByOthers(cfg, w, events);
  }

  // ---------------------------------------------------------------- a retaken name

  /** Some run leads from `w` to `t`. */
  ghost predicate Reaches(cfg: Config, w: World, t: World) {
    exists events :: Trace(cfg, w, events) && After(cfg, w, events) == t
  }

  /** A set of worlds that no event leaves. */
  ghost predicate Closed(cfg: Config, worlds: iset<World>) {
    forall t, e :: t in worlds && Possible(cfg, t, e) ==> Step(cfg, t, e) in worlds
  }

  lemma ReachStep(cfg: Config, w: World, t: World, e: Event)
    requires Reaches(cfg, w, t) && Possible(cfg, t, e)
    ensures Reaches(cfg, w, Step(cfg, t, e))
  {
    var events :| Trace(cfg, w, events) && After(cfg, w, events) == t;
    var longer := events + [e];
    assert longer[..|longer| - 1] == events;
    assert Trace(cfg, w, longer) && After(cfg, w, longer) == Step(cfg, t, e);
  }

  lemma ReachableClosed(cfg: Config, w: World)
    ensures var worlds := iset t | Reaches(cfg, w, t);
      w in worlds && Closed(cfg, worlds)
  {
    assert Trace(cfg, w, []) && After(cfg, w, []) == w;
    forall t, e | Reaches(cfg, w, t) && Possible(cfg, t, e) ensures Reaches(cfg, w, Step(cfg, t, e)) {
      ReachStep(cfg, w, t, e);
    }
  }

  /** A cluster that makes its own pool, under the generated name. */
  function Story(g: PoolRef): Config {
    Config([], "", true, g, "")
  }

  const BEFORE := World(Some(Cluster("", false, true, false)), map[], Resting, false, false)

  /** The cluster makes its pool; the parts of the patch that says so may be lost. */
  lemma PoolMade(g: PoolRef, worlds: iset<World>, spec: bool, status: bool)
    requires g != "" && Closed(Story(g), worlds) && BEFORE in worlds
    ensures World(Some(Cluster(if spec then g else "", status, true, false)), map[g := Ours], Resting, true, false) in worlds
  {
    var c := BEFORE.cluster.value;
    var fetched := BEFORE.(work := Fetched(c));
    assert Step(Story(g), BEFORE, Fetch) == fetched;
    var missing := BEFORE.(work := Missing(c));
    assert Step(Story(g), fetched, Look) == missing;
    var created := World(Some(c), map[g := Ours], Acted(c, Cluster(g, true, true, false)), true, false);
    assert Step(Story(g), missing, Create(true)) == created;
    assert Step(Story(g), created, Patch(spec, status)) in worlds;
  }

  /** It is deleted, deletes the pool, and loses the patch that says so. */
  lemma DeletedButPatchLost(g: PoolRef, worlds: iset<World>)
    requires g != "" && Closed(Story(g), worlds) && BEFORE in worlds
    ensures World(Some(Cluster(g, true, true, true)), map[], Resting, true, false) in worlds
  {
    PoolMade(g, worlds, true, true);
    var made := World(Some(Cluster(g, true, true, false)), map[g := Ours], Resting, true, false);
    var c := Cluster(g, true, true, true);
    assert Step(Story(g), made, UserDelete) == made.(cluster := Some(c));
    var fetched := made.(cluster := Some(c), work := Fetched(c));
    assert Step(Story(g), made.(cluster := Some(c)), Fetch) == fetched;
    assert map[g := Ours] - {g} == map[];
    var gone := World(Some(c), map[], Acted(c, Cluster(g, false, false, true)), true, false);
    assert Step(Story(g), fetched, GuardedDelete(true)) == gone;
    assert Step(Story(g), gone, Patch(false, false)) in worlds;
  }

  /** Then somebody else takes the name, and the repeated delete removes their pool. */
  lemma RetakenPoolDeleted(g: PoolRef)
    requires g != ""
    ensures Initial(Story(g), BEFORE)
    ensures exists t, e ::
      && Reaches(Story(g), BEFORE, t) && Possible(Story(g), t, e)
      && Target(t, e).Some? && t.pools[Target(t, e).value].Theirs?
  {
    var worlds := iset t | Reaches(Story(g), BEFORE, t);
    ReachableClosed(Story(g), BEFORE);
    DeletedButPatchLost(g, worlds);
    TakenAndFetched(g, worlds);
    var c := Cluster(g, true, true, true);
    var t := World(Some(c), map[g := Theirs], Fetched(c), true, true);
    assert Possible(Story(g), t, GuardedDelete(true)) && Target(t, GuardedDelete(true)) == Some(g);
  }

  lemma TakenAndFetched(g: PoolRef, worlds: iset<World>)
    requires g != "" && Closed(Story(g), worlds)
    requires World(Some(Cluster(g, true, true, true)), map[], Resting, true, false) in worlds
    ensures var c := Cluster(g, true, true, true);
      World(Some(c), map[g := Theirs], Fetched(c), true, true) in worlds
  {
    var c := Cluster(g, true, true, true);
    var lost := World(Some(c), map[], Resting, true, false);
    var taken := World(Some(c), map[g := Theirs], Resting, true, true);
    assert Step(Story(g), lost, OthersCreate(g)) == taken;
    assert Step(Story(g), taken, Fetch) == taken.(work := Fetched(c));
  }

  // ---------------------------------------------------------------- a pool left behind

  /** A whole delete pass whose calls are answered and whose patch of the finalizer arrives. */
  function DeletePass(cfg: Config, u: World, status: bool): World {
    Step(cfg, Step(cfg, Step(cfg, Step(cfg, u, Fetch), UnguardedDelete), GuardedDelete(true)), Patch(true, status))
  }

  predicate DeletePassPossible(cfg: Config, u: World, status: bool) {
    var fetched := Step(cfg, u, Fetch);
    var cleared := Step(cfg, fetched, UnguardedDelete);
    && Possible(cfg, u, Fetch) && Possible(cfg, fetched, UnguardedDelete) && Possible(cfg, cleared, GuardedDelete(true))
    && Possible(cfg, Step(cfg, cleared, GuardedDelete(true)), Patch(true, status))
  }

  /** The cluster object knows its own pool: the mark and the reference are both on it. */
  predicate KnowsPool(cfg: Config, c: Cluster) {
    c.createdByController && c.ipPoolRef == cfg.generated
  }

  /**
   Exactly when the cluster's own pool survives it, in every run: the pass that lets the
   cluster go leaves the pool behind if and only if mark or reference is missing on the
   cluster object, and the load balancer's pool has another name.
   */
  lemma OwnPoolSurvivesExactly(cfg: Config, w: World, events: seq<Event>, status: bool)
    requires Initial(cfg, w) && Trace(cfg, w, events)
    requires var u := After(cfg, w, events);
      && u.work.Resting? && u.cluster.Some? && u.cluster.value.deleting
      && cfg.generated in u.pools && u.pools[cfg.generated].Ours?
    ensures var u := After(cfg, w, events); var t := DeletePass(cfg, u, status);
      && DeletePassPossible(cfg, u, status) && t.cluster.None?
      && (cfg.generated in t.pools <==> cfg.lbPool != cfg.generated && !KnowsPool(cfg, u.cluster.value))
  {
    InvHolds(cfg, w, events);
    var u := After(cfg, w, events);
    var c := u.cluster.value;
    var cleared := u.(work := Fetched(c), pools := u.pools - {cfg.lbPool});
    assert Step(cfg, Step(cfg, u, Fetch), UnguardedDelete) == cleared;
    GuardedPart(cfg, cleared, status);
  }

  lemma GuardedPart(cfg: Config, w: World, status: bool)
    requires w.cluster.Some? && w.work == Fetched(w.cluster.value) && w.cluster.value.deleting
    ensures var t := Step(cfg, Step(cfg, w, GuardedDelete(true)), Patch(true, status)); var c := w.cluster.value;
      && Step(cfg, w, GuardedDelete(true)).work.Acted?
      && t.cluster.None? && t.pools == if c.createdByController then w.pools - {c.ipPoolRef} else w.pools
  {}

  /**
   If any part of the patch after the creation is lost and the cluster is then deleted, its
   pool is left behind, under every generated name.
   */
  lemma LostPatchLeavesPool(g: PoolRef, spec: bool, status: bool)
    requires g != "" && !(spec && status)
    ensures exists t :: Reaches(Story(g), BEFORE, t) && t.cluster.None? && t.pools == map[g := Ours]
  {
    var cfg := Story(g);
    var worlds := iset t | Reaches(cfg, BEFORE, t);
    ReachableClosed(cfg, BEFORE);
    PoolMade(g, worlds, spec, status);
    PassLeavesPool(g, worlds, Cluster(if spec then g else "", status, true, false));
  }

  lemma PassLeavesPool(g: PoolRef, worlds: iset<World>, c: Cluster)
    requires g != "" && Closed(Story(g), worlds) && c.finalizer && !c.deleting && !KnowsPool(Story(g), c)
    requires c.ipPoolRef == "" || c.ipPoolRef == g
    requires World(Some(c), map[g := Ours], Resting, true, false) in worlds
    ensures World(None, map[g := Ours], Resting, true, false) in worlds
  {
    var cfg := Story(g);
    var made := World(Some(c), map[g := Ours], Resting, true, false);
    var d := c.(deleting := true);
    assert Step(cfg, made, UserDelete) == made.(cluster := Some(d));
    var fetched := made.(cluster := Some(d), work := Fetched(d));
    assert Step(cfg, made.(cluster := Some(d)), Fetch) == fetched;
    var acted := Step(cfg, fetched, GuardedDelete(true));
    assert acted in worlds;
    GuardedPart(cfg, fetched, true);
    var gone := Step(cfg, acted, Patch(true, true));
    assert gone in worlds;
    assert gone.pools == map[g := Ours];
    assert gone == World(None, map[g := Ours], Resting, true, false);
  }

  // ---------------------------------------------------------------- the unguarded delete

  /** The configuration of a cluster that defines a VM pool and references none. */
  function ConfigOf(namespace: string, name: string): Config {
    Config([], "", true, Names.GenerateName([namespace, name, Names.VM_POOL]), Names.GenerateName([namespace, name, Names.LB_POOL]))
  }

  /**
   The delete of the load balancer's pool removes the pool of the VM pool's generated name,
   whoever made it, exactly when the text before the two suffixes has 63 characters or more.
   */
  lemma UnguardedDeleteExactly(namespace: string, name: string, w: World)
    requires ConfigOf(namespace, name).generated in w.pools
    ensures var cfg := ConfigOf(namespace, name);
      cfg.generated !in Step(cfg, w, UnguardedDelete).pools <==> |Names.NamePrefix(namespace, name)| >= Names.MAX_LABEL
  {
    Names.PoolNamesDifferExactly(namespace, name);
  }

  /** A cluster that finds another party's pool under the generated name. */
  function FindsPool(g: PoolRef): World {
    BEFORE.(pools := map[g := Theirs])
  }

  lemma PoolAdopted(cfg: Config, worlds: iset<World>)
    requires cfg.refs == [] && cfg.hasIPPool && cfg.generated != ""
    requires Closed(cfg, worlds) && FindsPool(cfg.generated) in worlds
    ensures World(Some(Cluster(cfg.generated, false, true, false)), map[cfg.generated := Theirs], Resting, false, false) in worlds
  {
    var w := FindsPool(cfg.generated);
    var c := w.cluster.value;
    assert Step(cfg, w, Fetch) == w.(work := Fetched(c));
    var looked := w.(work := Acted(c, Adopted(cfg, c)));
    assert Step(cfg, w.(work := Fetched(c)), Look) == looked;
    assert Step(cfg, looked, Patch(true, true)) in worlds;
  }

  lemma AdoptedDeleted(cfg: Config, worlds: iset<World>)
    requires cfg.generated != "" && Closed(cfg, worlds)
    requires World(Some(Cluster(cfg.generated, false, true, false)), map[cfg.generated := Theirs], Resting, false, false) in worlds
    ensures var c := Cluster(cfg.generated, false, true, true);
      World(Some(c), map[cfg.generated := Theirs], Fetched(c), false, false) in worlds
  {
    var c := Cluster(cfg.generated, false, true, true);
    var w := World(Some(Cluster(cfg.generated, false, true, false)), map[cfg.generated := Theirs], Resting, false, false);
    assert Step(cfg, w, UserDelete) == w.(cluster := Some(c));
    assert Step(cfg, w.(cluster := Some(c)), Fetch) == w.(cluster := Some(c), work := Fetched(c));
  }

  /** Some run of a cluster that finds another party's pool ends with its deletion removing that pool unasked. */
  ghost predicate FoundPoolLost(cfg: Config) {
    && Initial(cfg, FindsPool(cfg.generated))
    && exists t ::
         && Reaches(cfg, FindsPool(cfg.generated), t) && Possible(cfg, t, UnguardedDelete) && !t.made
         && cfg.generated in t.pools && cfg.generated !in Step(cfg, t, UnguardedDelete).pools
  }

  lemma FoundPoolLostExactly(cfg: Config)
    requires cfg.refs == [] && cfg.userRef == "" && cfg.hasIPPool && cfg.generated != ""
    ensures FoundPoolLost(cfg) <==> cfg.lbPool == cfg.generated
  {
    if cfg.lbPool == cfg.generated {
      var worlds := iset t | Reaches(cfg, FindsPool(cfg.generated), t);
      ReachableClosed(cfg, FindsPool(cfg.generated));
      PoolAdopted(cfg, worlds);
      AdoptedDeleted(cfg, worlds);
      var c := Cluster(cfg.generated, false, true, true);
      var t := World(Some(c), map[cfg.generated := Theirs], Fetched(c), false, false);
      assert t in worlds;
      LostAt(cfg, t);
    }
  }

  lemma LostAt(cfg: Config, t: World)
    requires cfg.userRef == "" && cfg.generated != "" && cfg.lbPool == cfg.generated
    requires Reaches(cfg, FindsPool(cfg.generated), t) && Possible(cfg, t, UnguardedDelete) && !t.made && cfg.generated in t.pools
    ensures FoundPoolLost(cfg)
  {
    assert cfg.generated !in Step(cfg, t, UnguardedDelete).pools;
  }

  /**
   So the deletion of a cluster can remove a pool that it only found, past the guard that
   was to protect such pools, exactly when the text before the suffixes has 63 characters
   or more.
   */
  lemma FoundPoolDeletedExactly(namespace: string, name: string)
    ensures FoundPoolLost(ConfigOf(namespace, name)) <==> |Names.NamePrefix(namespace, name)| >= Names.MAX_LABEL
  {
    Names.PoolNameNotEmpty(namespace, name);
    Names.PoolNamesDifferExactly(namespace, name);
    FoundPoolLostExactly(ConfigOf(namespace, name));
  }

  // ---------------------------------------------------------------- the source's procedures

  /** Answers of the API server during one pass; `race` is a pool made by others between Get and Create. */
  datatype Answers = Answers(getFails: set<PoolRef>, race: bool, createFails: bool, regetFails: bool, deleteFails: bool)

  /** The events of the state machine that one pass of reconcileVMIPPool goes through. */
  function PassEvents(cfg: Config, c: Cluster, pools: map<PoolRef, Maker>, api: Answers): seq<Event> {
    if Refs(cfg, c) != [] || !cfg.hasIPPool then [Look]
    else if cfg.generated in api.getFails then [GiveUp]
    else if cfg.generated in pools then [Look]
    else if api.race then [Look, OthersCreate(cfg.generated), if api.regetFails then GiveUp else Create(true)]
    else if api.createFails then [Look, GiveUp]
    else [Look, Create(true)]
  }

  /** What a pass leaves: the cluster as it will be patched, and the pools. */
  function PassResult(cfg: Config, c: Cluster, pools: map<PoolRef, Maker>, api: Answers): (Cluster, map<PoolRef, Maker>) {
    if Refs(cfg, c) != [] || !cfg.hasIPPool || cfg.generated in api.getFails then (c, pools)
    else if cfg.generated in pools then (Adopted(cfg, c), pools)
    else if api.race then (if api.regetFails then c else Adopted(cfg, c), pools[cfg.generated := Theirs])
    else if api.createFails then (c, pools)
    else (OwnPool(cfg, c), pools[cfg.generated := Ours])
  }

  predicate Leaves(t: World, c: Cluster, result: (Cluster, map<PoolRef, Maker>)) {
    t.pools == result.1 && (t.work == Acted(c, result.0) || (t.work.Resting? && result.0 == c))
  }

  lemma OneEvent(cfg: Config, w: World, e: Event)
    ensures After(cfg, w, [e]) == Step(cfg, w, e)
    ensures Trace(cfg, w, [e]) <==> Possible(cfg, w, e)
  {
    assert [e][..0] == [];
  }

  lemma TwoEvents(cfg: Config, w: World, e: Event, f: Event)
    ensures After(cfg, w, [e, f]) == Step(cfg, Step(cfg, w, e), f)
    ensures Trace(cfg, w, [e, f]) <==> Possible(cfg, w, e) && Possible(cfg, Step(cfg, w, e), f)
  {
    OneEvent(cfg, w, e);
    assert [e, f][..1] == [e];
  }

  lemma ThreeEvents(cfg: Config, w: World, e: Event, f: Event, g: Event)
    ensures After(cfg, w, [e, f, g]) == Step(cfg, Step(cfg, Step(cfg, w, e), f), g)
    ensures Trace(cfg, w, [e, f, g]) <==>
      Possible(cfg, w, e) && Possible(cfg, Step(cfg, w, e), f) && Possible(cfg, Step(cfg, Step(cfg, w, e), f), g)
  {
    TwoEvents(cfg, w, e, f);
    assert [e, f, g][..2] == [e, f];
  }

  /** Every pass of reconcileVMIPPool is a possible run of the state machine with the same outcome. */
  lemma PassIsTrace(cfg: Config, w: World, api: Answers)
    requires cfg.generated != "" && Possible(cfg, w, Look)
    ensures var c := w.work.c; var events := PassEvents(cfg, c, w.pools, api);
      Trace(cfg, w, events) && Leaves(After(cfg, w, events), c, PassResult(cfg, c, w.pools, api))
  {
    var events := PassEvents(cfg, w.work.c, w.pools, api);
    if |events| == 1 {
      OneEvent(cfg, w, events[0]);
    } else if |events| == 2 {
      TwoEvents(cfg, w, events[0], events[1]);
    } else {
      ThreeEvents(cfg, w, events[0], events[1], events[2]);
    }
  }

  class Scope {
    var c: Cluster
    var pools: map<PoolRef, Maker>

    method ReconcileVMIPPool(cfg: Config, api: Answers) returns (failed: bool)
      modifies this
      ensures (c, pools) == PassResult(cfg, old(c), old(pools), api)
      // referenced pools are only checked
      ensures Refs(cfg, old(c)) != [] ==>
        (failed <==> exists r :: r in Refs(cfg, old(c)) && (r in api.getFails || r !in old(pools)))
      ensures Refs(cfg, old(c)) == [] && cfg.generated != "" ==> (!failed <==> c.ipPoolRef == cfg.generated && cfg.hasIPPool)
    {
      var poolRefs := VmIp.GetIPPoolRefs(VmIp.VMNetworkConfig(cfg.refs, c.ipPoolRef));
      if |poolRefs| > 0 {
        for i := 0 to |poolRefs|
          invariant forall j :: 0 <= j < i ==> poolRefs[j] !in api.getFails && poolRefs[j] in pools
        {
          if poolRefs[i] in api.getFails || poolRefs[i] !in pools {
            return true;
          }
        }
        return false;
      }
      if !cfg.hasIPPool {
        return true;
      }
      if cfg.generated in api.getFails {
        return true;
      }
      if cfg.generated in pools {
        c := c.(ipPoolRef := cfg.generated);
        return false;
      }
      if api.race {
        pools := pools[cfg.generated := Theirs];
        if api.regetFails {
          return true;
        }
        c := c.(ipPoolRef := cfg.generated);
        return false;
      }
      if api.createFails {
        return true;
      }
      pools := pools[cfg.generated := Ours];
      c := c.(ipPoolRef := cfg.generated);
      c := c.(createdByController := true);
      return false;
    }

    /** The unguarded delete of ReconcileDelete: a pool that is not there is no failure. */
    method DeleteLoadBalancerPool(cfg: Config, api: Answers) returns (failed: bool)
      modifies this`pools
      ensures failed == api.deleteFails
      ensures !failed ==> forall w: World :: w.pools == old(pools) ==> Step(cfg, w, UnguardedDelete).pools == pools
      ensures failed ==> pools == old(pools)
    {
      if api.deleteFails {
        return true;
      }
      pools := pools - {cfg.lbPool};
      return false;
    }

    /** The guarded part of ReconcileDelete, and the finalizer after it. */
    method DeleteVMIPPool(cfg: Config, api: Answers) returns (failed: bool)
      modifies this
      // it is the state machine's GuardedDelete
      ensures forall w: World :: w.work == Fetched(old(c)) && w.pools == old(pools) ==>
        Leaves(Step(cfg, w, GuardedDelete(!api.deleteFails)), old(c), (c, pools))
      ensures failed <==> old(c).createdByController && api.deleteFails
      ensures failed ==> c == old(c) && pools == old(pools)
      ensures !failed ==> c == old(c).(createdByController := false, finalizer := false)
      ensures !failed ==> pools == if old(c).createdByController then old(pools) - {old(c).ipPoolRef} else old(pools)
    {
      if c.createdByController {
        if api.deleteFails {
          return true;
        }
        pools := pools - {c.ipPoolRef};
        c := c.(createdByController := false);
      }
      c := c.(finalizer := false);
      return false;
    }
  }
}
