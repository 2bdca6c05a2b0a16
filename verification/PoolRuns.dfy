/**
 Sequential runs of whole pool operations, and what every run keeps: the history invariant
 that makes address reuse independent of map order, and the relation between the cached
 count of free addresses and the real free set.
 */
module PoolRuns {
  import opened Wrappers
  import opened Ranges
  import opened PoolStore

  /**
   A whole operation; an allocation names the address it was answered. Reclaim is what the
   loop without a break does for an id with past addresses.
   */
  datatype Op = Allocate(id: Id, ip: Addr) | Reclaim(id: Id, ip: Addr) | Release(ip: Addr) | ReleaseById(id: Id)

  predicate Enabled(ranges: seq<Range>, s: Status, op: Op) {
    && (op.Allocate? ==> AllocAllowed(ranges, s, op.id, op.ip))
    && (op.Reclaim? ==> ReclaimAllowed(ranges, s, op.id, op.ip))
  }

  /** Every successful outcome of the two allocation procedures is one operation. */
  lemma OutcomesAreOps(ranges: seq<Range>, s: Status, id: Id, a: Addr, t: Status)
    ensures AllocAllowed(ranges, s, id, a) && t == Reserved(s, id, a)
       <==> Enabled(ranges, s, Allocate(id, a)) && t == Apply(s, Allocate(id, a))
    ensures AllocAllAllowed(ranges, s, id, a, t) <==>
      var op := if Owned(Past(s), id) == {} then Allocate(id, a) else Reclaim(id, a);
      Enabled(ranges, s, op) && t == Apply(s, op)
  {}

  function Apply(s: Status, op: Op): Status {
    match op
    case Allocate(id, ip) => Reserved(s, id, ip)
    case Reclaim(id, ip) => Reclaimed(s, id, ip)
    case Release(ip) => Released(s, ip)
    case ReleaseById(id) => ReleasedById(s, id)
  }

  function Run(s: Status, ops: seq<Op>): Status {
    if ops == [] then s else Apply(Run(s, ops[..|ops| - 1]), ops[|ops| - 1])
  }

  /** Every operation of the run was possible when it was made. */
  predicate Legal(ranges: seq<Range>, s: Status, ops: seq<Op>) {
    ops == [] || (Legal(ranges, s, ops[..|ops| - 1]) && Enabled(ranges, Run(s, ops[..|ops| - 1]), ops[|ops| - 1]))
  }

  predicate Empty(s: Status) {
    Held(s) == map[] && Past(s) == map[]
  }

  predicate AllWellFormed(ranges: seq<Range>) {
    forall r :: r in ranges ==> WellFormed(r)
  }

  /** The ranges a pool is parsed into are well-formed. */
  lemma ParsedWellFormed(specs: seq<RangeSpec>)
    requires AllParse(specs)
    ensures AllWellFormed(RangesOf(specs))
  {
    forall i | 0 <= i < |specs| ensures WellFormed(RangesOf(specs)[i]) {
      RangeWellFormed(specs[i]);
    }
  }

  // ---------------------------------------------------------------- history

  /** What the id holds and what it held before, taken together, is at most one address. */
  predicate OneAddress(s: Status, id: Id) {
    AtMostOne(Owned(Held(s), id) + Owned(Past(s), id))
  }

  ghost predicate HistoryInv(ranges: seq<Range>, s: Status) {
    && (forall id :: id != "" ==> OneAddress(s, id))
    && (forall a :: a in Held(s) ==> InRanges(ranges, a))
  }

  lemma CandidateInRange(ranges: seq<Range>, a: Addr)
    requires AllWellFormed(ranges) && a in Offered(ranges)
    ensures InRanges(ranges, a)
  {
    var r :| r in ranges && a in Candidates(r);
    assert Contains(r, a);
  }

  lemma AllocateKeepsHistory(ranges: seq<Range>, s: Status, id: Id, ip: Addr)
    requires AllWellFormed(ranges) && HistoryInv(ranges, s) && AllocAllowed(ranges, s, id, ip)
    ensures HistoryInv(ranges, Reserved(s, id, ip))
  {
    var t := Reserved(s, id, ip);
    if Owned(Past(s), id) == {} {
      CandidateInRange(ranges, ip);
    }
    forall other | other != "" ensures OneAddress(t, other) {
      assert OneAddress(s, other);
      if other == id {
        assert Owned(Held(t), id) == Owned(Held(s), id) + {ip};
        if Owned(Past(s), id) == {} {
          assert Owned(Held(s), id) == {};
        }
      } else {
        assert Owned(Held(t), other) == Owned(Held(s), other);
      }
    }
  }

  lemma ServedInRange(ranges: seq<Range>, s: Status, id: Id, ip: Addr)
    requires ReclaimAllowed(ranges, s, id, ip)
    ensures forall k :: k in Owned(Past(s), id) ==> InRanges(ranges, k)
  {
    forall k | k in Owned(Past(s), id) ensures InRanges(ranges, k) {
      assert GetAllowed(ranges, s, id, Some(k), k);
    }
  }

  lemma ReclaimKeepsHistory(ranges: seq<Range>, s: Status, id: Id, ip: Addr)
    requires HistoryInv(ranges, s) && ReclaimAllowed(ranges, s, id, ip)
    ensures HistoryInv(ranges, Reclaimed(s, id, ip))
  {
    var t := Reclaimed(s, id, ip);
    ServedInRange(ranges, s, id, ip);
    forall other | other != "" ensures OneAddress(t, other) {
      assert OneAddress(s, other);
      assert Owned(Held(t), other) + Owned(Past(t), other) <= Owned(Held(s), other) + Owned(Past(s), other);
    }
  }

  lemma ReleaseKeepsHistory(ranges: seq<Range>, s: Status, ip: Addr)
    requires HistoryInv(ranges, s)
    ensures HistoryInv(ranges, Released(s, ip))
  {
    var t := Released(s, ip);
    forall id | id != "" ensures OneAddress(t, id) {
      assert OneAddress(s, id);
      assert Owned(Held(t), id) + Owned(Past(t), id) <= Owned(Held(s), id) + Owned(Past(s), id);
    }
  }

  lemma ReleaseByIdKeepsHistory(ranges: seq<Range>, s: Status, id: Id)
    requires HistoryInv(ranges, s)
    ensures HistoryInv(ranges, ReleasedById(s, id))
  {
    var t := ReleasedById(s, id);
    forall other | other != "" ensures OneAddress(t, other) {
      assert OneAddress(s, other);
      assert Owned(Held(t), other) + Owned(Past(t), other) <= Owned(Held(s), other) + Owned(Past(s), other);
    }
  }

  /**
   After any mix of allocations and releases on an empty pool, repeated releases included,
   a non-empty id holds at most one address, has at most one history entry, and the two are
   the same address when both exist.
   */
  lemma {:induction false} HistoryInvariant(ranges: seq<Range>, s: Status, ops: seq<Op>)
    requires AllWellFormed(ranges) && Empty(s) && Legal(ranges, s, ops)
    ensures HistoryInv(ranges, Run(s, ops))
  {
    if ops == [] {
    } else {
      var before := ops[..|ops| - 1];
      HistoryInvariant(ranges, s, before);
      match ops[|ops| - 1]
      case Allocate(id, ip) => AllocateKeepsHistory(ranges, Run(s, before), id, ip);
      case Reclaim(id, ip) => ReclaimKeepsHistory(ranges, Run(s, before), id, ip);
      case Release(ip) => ReleaseKeepsHistory(ranges, Run(s, before), ip);
      case ReleaseById(id) => ReleaseByIdKeepsHistory(ranges, Run(s, before), id);
    }
  }

  /**
   Hence reuse is forced: an id with a past address can be answered that address only, and
   only while nobody holds it. No iteration order of the history map can change that.
   */
  lemma ReuseIsForced(ranges: seq<Range>, s: Status, ops: seq<Op>, id: Id, past: Addr, a: Addr)
    requires AllWellFormed(ranges) && Empty(s) && Legal(ranges, s, ops)
    requires id != "" && past in Owned(Past(Run(s, ops)), id)
    ensures AtMostOne(Owned(Past(Run(s, ops)), id))
    ensures AllocAllowed(ranges, Run(s, ops), id, a) <==> a == past && Serves(ranges, past) && past !in Held(Run(s, ops))
  {
    HistoryInvariant(ranges, s, ops);
    assert OneAddress(Run(s, ops), id);
  }

  /** A pool that never allocated remembers nothing. */
  lemma {:induction false} NilRemembersNothing(s: Status, ops: seq<Op>)
    requires Empty(s)
    ensures Run(s, ops).allocations.None? ==> Past(Run(s, ops)) == map[]
  {
    if ops != [] {
      NilRemembersNothing(s, ops[..|ops| - 1]);
    }
  }

  /**
   The second of two releases forgets: after any legal run ending in two releases of an
   address in a row, nobody is remembered for it, so that its last owner is treated as new.
   */
  lemma ReleasedTwiceForgotten(ranges: seq<Range>, s: Status, ops: seq<Op>, ip: Addr, id: Id)
    requires AllWellFormed(ranges) && Empty(s) && Legal(ranges, s, ops + [Release(ip)] + [Release(ip)]) && id != ""
    ensures var u, t := Run(s, ops), Run(s, ops + [Release(ip)] + [Release(ip)]);
      && ip !in Owned(Past(t), id) && ip !in Held(t)
      && (ip in Owned(Held(u), id) ==>
            && Owned(Past(t), id) == {}
            && forall a :: AllocAllowed(ranges, t, id, a) <==> GetAllowed(ranges, t, id, None, a))
  {
    var u := Run(s, ops);
    RunOne(s, ops, Release(ip));
    RunOne(s, ops + [Release(ip)], Release(ip));
    LegalPrefix(ranges, s, ops + [Release(ip)], Release(ip));
    LegalPrefix(ranges, s, ops, Release(ip));
    NilRemembersNothing(s, ops);
    ReleaseWrites(u, ip);
    ReleaseWrites(Released(u, ip), ip);
    HistoryInvariant(ranges, s, ops);
    assert OneAddress(u, id);
    var t := Released(Released(u, ip), ip);
    forall a | a in Owned(Past(t), id) ensures a in Owned(Past(u), id) && a != ip {
      assert a in Past(Released(u, ip));
    }
  }

  /**
   One release remembers: after any legal run and the release of an address held by an id,
   the next allocation of the id can be answered that address, if it can still be served,
   and nothing else.
   */
  lemma ReleasedOnceRemembered(ranges: seq<Range>, s: Status, ops: seq<Op>, ip: Addr, id: Id, a: Addr)
    requires AllWellFormed(ranges) && Empty(s) && Legal(ranges, s, ops) && id != "" && ip in Owned(Held(Run(s, ops)), id)
    ensures var t := Run(s, ops + [Release(ip)]);
      AllocAllowed(ranges, t, id, a) <==> a == ip && Serves(ranges, ip)
  {
    Extend(ranges, s, ops, Release(ip));
    ReleaseWrites(Run(s, ops), ip);
    ReuseIsForced(ranges, s, ops + [Release(ip)], id, ip, a);
  }

  lemma RunOne(s: Status, ops: seq<Op>, op: Op)
    ensures Run(s, ops + [op]) == Apply(Run(s, ops), op)
  {
    assert (ops + [op])[..|ops|] == ops;
  }

  lemma LegalPrefix(ranges: seq<Range>, s: Status, ops: seq<Op>, op: Op)
    requires Legal(ranges, s, ops + [op])
    ensures Legal(ranges, s, ops)
  {
    assert (ops + [op])[..|ops|] == ops;
  }

  /** The address answered last, over a run. */
  function LastAnswer(s: Status, ops: seq<Op>): Option<Addr> {
    if ops == [] then s.last
    else if ops[|ops| - 1].Allocate? || ops[|ops| - 1].Reclaim? then Some(ops[|ops| - 1].ip)
    else LastAnswer(s, ops[..|ops| - 1])
  }

  /** The pool always names the address it answered last; releases do not change that. */
  lemma {:induction false} LastIsLatest(ranges: seq<Range>, s: Status, ops: seq<Op>)
    requires Legal(ranges, s, ops)
    ensures Run(s, ops).last == LastAnswer(s, ops)
  {
    if ops != [] {
      LastIsLatest(ranges, s, ops[..|ops| - 1]);
    }
  }

  /** And the break makes no difference: the two allocation loops agree for every id in every reachable status. */
  lemma LoopsAlwaysAgree(ranges: seq<Range>, s: Status, ops: seq<Op>, id: Id)
    requires AllWellFormed(ranges) && Empty(s) && Legal(ranges, s, ops) && id != ""
    ensures LoopsAgree(ranges, Run(s, ops), id)
  {
    HistoryInvariant(ranges, s, ops);
    assert OneAddress(Run(s, ops), id);
    LoopsAgreeExactly(ranges, Run(s, ops), id);
  }

  // ---------------------------------------------------------------- the cached count

  function TotalCount(ranges: seq<Range>): int {
    if ranges == [] then 0 else CountIP(ranges[0]) + TotalCount(ranges[1..])
  }

  predicate Disjoint(ranges: seq<Range>) {
    forall i, j :: 0 <= i < j < |ranges| ==> ranges[i].end < ranges[j].start || ranges[j].end < ranges[i].start
  }

  /** A release that finds nobody holding the address but still counts it. */
  predicate Stray(s: Status, op: Op) {
    op.Release? && s.allocations.Some? && op.ip !in Held(s)
  }

  function Strays(s: Status, ops: seq<Op>): nat {
    if ops == [] then 0
    else Strays(s, ops[..|ops| - 1]) + if Stray(Run(s, ops[..|ops| - 1]), ops[|ops| - 1]) then 1 else 0
  }

  function Free(offered: set<Addr>, s: Status): set<Addr> {
    offered - Held(s).Keys
  }

  lemma OfferedSplits(ranges: seq<Range>)
    requires ranges != []
    ensures Offered(ranges) == Candidates(ranges[0]) + Offered(ranges[1..])
  {
    forall r | r in ranges ensures r == ranges[0] || r in ranges[1..] {}
  }

  lemma FirstApart(ranges: seq<Range>)
    requires ranges != [] && Disjoint(ranges)
    ensures Candidates(ranges[0]) !! Offered(ranges[1..])
  {
    forall a | a in Candidates(ranges[0]) ensures a !in Offered(ranges[1..]) {
      forall r | r in ranges[1..] ensures a !in Candidates(r) {
        var j :| 1 <= j < |ranges| && ranges[j] == r;
      }
    }
  }

  lemma {:induction false} TotalIsOffered(ranges: seq<Range>)
    requires AllWellFormed(ranges) && Disjoint(ranges)
    ensures TotalCount(ranges) == |Offered(ranges)|
  {
    if ranges == [] {
      assert Offered(ranges) == {};
    } else {
      TotalIsOffered(ranges[1..]);
      CountIsSize(ranges[0]);
      OfferedSplits(ranges);
      FirstApart(ranges);
    }
  }

  lemma ServedIsOffered(ranges: seq<Range>, a: Addr)
    requires Serves(ranges, a)
    ensures a in Offered(ranges)
  {
    var r := RangeFor(ranges, a).value;
    assert a in Candidates(r);
  }

  lemma AllocatedIsOffered(ranges: seq<Range>, s: Status, id: Id, ip: Addr)
    requires AllocAllowed(ranges, s, id, ip)
    ensures ip in Offered(ranges) && ip !in Held(s)
  {
    if Owned(Past(s), id) != {} {
      ServedIsOffered(ranges, ip);
    }
  }

  predicate CountInv(offered: set<Addr>, s: Status, strays: nat) {
    && Held(s).Keys <= offered
    && s.available == |Free(offered, s)| + strays
  }

  lemma AllocateKeepsCount(offered: set<Addr>, s: Status, strays: nat, id: Id, ip: Addr)
    requires CountInv(offered, s, strays) && ip in offered && ip !in Held(s)
    ensures CountInv(offered, Reserved(s, id, ip), strays)
  {
    assert Free(offered, s) == Free(offered, Reserved(s, id, ip)) + {ip};
  }

  lemma TakeOut(offered: set<Addr>, held: set<Addr>, ips: set<Addr>)
    requires ips <= offered && ips !! held
    ensures |offered - (held + ips)| == |offered - held| - |ips|
  {
    assert offered - held == (offered - (held + ips)) + ips;
  }

  lemma ReserveManyKeepsCount(offered: set<Addr>, s: Status, strays: nat, id: Id, ips: set<Addr>, last: Option<Addr>)
    requires CountInv(offered, s, strays) && ips <= offered && ips !! Held(s).Keys
    ensures CountInv(offered, ReservedMany(s, id, ips, last), strays)
  {
    TakeOut(offered, Held(s).Keys, ips);
    ReservedKeys(s, id, ips, last);
  }

  lemma ReservedKeys(s: Status, id: Id, ips: set<Addr>, last: Option<Addr>)
    ensures Held(ReservedMany(s, id, ips, last)).Keys == Held(s).Keys + ips
    ensures ReservedMany(s, id, ips, last).available == s.available - |ips|
  {
    var taken := map ip | ip in ips :: id;
    assert taken.Keys == ips;
    assert (Held(s) + taken).Keys == Held(s).Keys + ips;
  }

  lemma ReclaimKeepsCount(ranges: seq<Range>, s: Status, strays: nat, id: Id, ip: Addr)
    requires CountInv(Offered(ranges), s, strays) && ReclaimAllowed(ranges, s, id, ip)
    ensures CountInv(Offered(ranges), Reclaimed(s, id, ip), strays)
  {
    var past := Owned(Past(s), id);
    forall k | k in past ensures k in Offered(ranges) && k !in Held(s) {
      assert GetAllowed(ranges, s, id, Some(k), k);
      ServedIsOffered(ranges, k);
    }
    ReserveManyKeepsCount(Offered(ranges), s, strays, id, past, Some(ip));
  }

  lemma ReleaseKeepsCount(offered: set<Addr>, s: Status, strays: nat, ip: Addr)
    requires CountInv(offered, s, strays)
    ensures CountInv(offered, Released(s, ip), strays + if Stray(s, Release(ip)) then 1 else 0)
  {
    var t := Released(s, ip);
    if ip in Held(s) {
      assert Free(offered, t) == Free(offered, s) + {ip};
    } else {
      assert Free(offered, t) == Free(offered, s);
    }
  }

  lemma GiveBack(offered: set<Addr>, held: set<Addr>, back: set<Addr>)
    requires back <= held && held <= offered
    ensures |offered - (held - back)| == |offered - held| + |back|
  {
    assert offered - (held - back) == (offered - held) + back;
  }

  lemma ReleaseByIdKeepsCount(offered: set<Addr>, s: Status, strays: nat, id: Id)
    requires CountInv(offered, s, strays)
    ensures CountInv(offered, ReleasedById(s, id), strays)
  {
    var owned := Owned(Held(s), id);
    GiveBack(offered, Held(s).Keys, owned);
    assert Held(ReleasedById(s, id)).Keys == Held(s).Keys - owned;
  }

  lemma StepKeepsCount(ranges: seq<Range>, s: Status, strays: nat, op: Op)
    requires CountInv(Offered(ranges), s, strays) && Enabled(ranges, s, op)
    ensures CountInv(Offered(ranges), Apply(s, op), strays + if Stray(s, op) then 1 else 0)
  {
    match op
    case Allocate(id, ip) =>
      AllocatedIsOffered(ranges, s, id, ip);
      AllocateKeepsCount(Offered(ranges), s, strays, id, ip);
    case Reclaim(id, ip) => ReclaimKeepsCount(ranges, s, strays, id, ip);
    case Release(ip) => ReleaseKeepsCount(Offered(ranges), s, strays, ip);
    case ReleaseById(id) => ReleaseByIdKeepsCount(Offered(ranges), s, strays, id);
  }

  /**
   Starting with nothing allocated and the count set to the sum of CountIP, every reachable
   status counts the really free addresses plus the stray releases made so far.
   */
  lemma {:induction false} CachedCount(ranges: seq<Range>, s: Status, ops: seq<Op>)
    requires AllWellFormed(ranges) && Disjoint(ranges)
    requires Held(s) == map[] && s.available == TotalCount(ranges) && Legal(ranges, s, ops)
    ensures CountInv(Offered(ranges), Run(s, ops), Strays(s, ops))
  {
    if ops == [] {
      TotalIsOffered(ranges);
      assert Free(Offered(ranges), s) == Offered(ranges);
    } else {
      CachedCount(ranges, s, ops[..|ops| - 1]);
      StepKeepsCount(ranges, Run(s, ops[..|ops| - 1]), Strays(s, ops[..|ops| - 1]), ops[|ops| - 1]);
    }
  }

  /**
   The test `Available == 0` is right about exhaustion exactly when no stray release was
   made or some address is still free. When it reads zero no id can be served; without
   stray releases a non-zero reading means a free address that any newcomer can get.
   */
  lemma ExhaustionDetected(ranges: seq<Range>, s: Status, ops: seq<Op>, id: Id)
    requires AllWellFormed(ranges) && Disjoint(ranges)
    requires Held(s) == map[] && s.available == TotalCount(ranges) && Legal(ranges, s, ops)
    ensures var t := Run(s, ops);
      && ((t.available == 0 <==> Free(Offered(ranges), t) == {}) <==> Strays(s, ops) == 0 || Free(Offered(ranges), t) != {})
      && (t.available == 0 ==> forall a :: !AllocAllowed(ranges, t, id, a))
      && (Strays(s, ops) == 0 && t.available != 0 && Owned(Held(t), id) + Owned(Past(t), id) == {} ==>
            exists a :: AllocAllowed(ranges, t, id, a))
  {
    var t := Run(s, ops);
    CachedCount(ranges, s, ops);
    if t.available == 0 {
      assert Free(Offered(ranges), t) == {};
      forall a ensures !AllocAllowed(ranges, t, id, a) {
        if Serves(ranges, a) {
          ServedIsOffered(ranges, a);
        }
      }
    } else if Strays(s, ops) == 0 && Owned(Held(t), id) + Owned(Past(t), id) == {} {
      var a :| a in Free(Offered(ranges), t);
      assert Owned(Held(t), id) == {} && Owned(Past(t), id) == {};
      assert AllocAllowed(ranges, t, id, a);
    }
  }

  lemma FourOps(ranges: seq<Range>, s: Status, a: Op, b: Op, c: Op, d: Op)
    requires Enabled(ranges, s, a) && Enabled(ranges, Apply(s, a), b)
    requires Enabled(ranges, Apply(Apply(s, a), b), c) && Enabled(ranges, Apply(Apply(Apply(s, a), b), c), d)
    ensures Legal(ranges, s, [a, b, c, d]) && Run(s, [a, b, c, d]) == Apply(Apply(Apply(Apply(s, a), b), c), d)
  {
    Extend(ranges, s, [], a);
    assert [] + [a] == [a];
    Extend(ranges, s, [a], b);
    assert [a] + [b] == [a, b];
    Extend(ranges, s, [a, b], c);
    assert [a, b] + [c] == [a, b, c];
    Extend(ranges, s, [a, b, c], d);
    assert [a, b, c] + [d] == [a, b, c, d];
  }

  /** The only address of a pool goes to an id without a past, or back to the id that had it. */
  lemma OnlyAddress(r: Range, s: Status, id: Id)
    requires r.start == r.end && r.gateway == None && WellFormed(r) && Held(s) == map[]
    requires Owned(Past(s), id) <= {r.start}
    ensures Candidates(r) == {r.start} && Offered([r]) == {r.start}
    ensures AllocAllowed([r], s, id, r.start)
  {
    assert r.start in Candidates(r);
    assert Contains(r, r.start) && r in [r];
    assert RangeFor([r], r.start) == Some(r);
    if Owned(Past(s), id) != {} {
      assert Owned(Past(s), id) == {r.start};
    }
  }

  /** The status after the address was allocated, released twice and allocated again. */
  lemma StrayRun(r: Range, s: Status, id: Id)
    requires r.start == r.end && r.gateway == None && WellFormed(r) && Empty(s)
    ensures var a := r.start; var ops := [Allocate(id, a), Release(a), Release(a), Allocate(id, a)];
      Legal([r], s, ops) && Held(Run(s, ops)) == map[a := id] && Run(s, ops).available == s.available
  {
    var a := r.start;
    OnlyAddress(r, s, id);
    var held := Reserved(s, id, a);
    var once := Released(held, a);
    var twice := Released(once, a);
    assert Held(twice) == map[];
    OnlyAddress(r, twice, id);
    FourOps([r], s, Allocate(id, a), Release(a), Release(a), Allocate(id, a));
  }

  /**
   For every pool of one address and every id: allocated, released twice and allocated
   again, the pool is full and yet counted as having one free.
   */
  lemma StrayReleaseHidesExhaustion(r: Range, s: Status, id: Id)
    requires r.start == r.end && r.gateway == None && WellFormed(r) && Empty(s) && s.available == TotalCount([r])
    ensures exists ops :: Legal([r], s, ops) && Free(Offered([r]), Run(s, ops)) == {} && Run(s, ops).available == 1
  {
    OnlyAddress(r, s, id);
    StrayRun(r, s, id);
    assert TotalCount([r]) == CountIP(r) + TotalCount([r][1..]) == 1;
    var ops := [Allocate(id, r.start), Release(r.start), Release(r.start), Allocate(id, r.start)];
    assert Free(Offered([r]), Run(s, ops)) == {};
  }

  lemma Extend(ranges: seq<Range>, s: Status, ops: seq<Op>, op: Op)
    requires Legal(ranges, s, ops) && Enabled(ranges, Run(s, ops), op)
    ensures Legal(ranges, s, ops + [op]) && Run(s, ops + [op]) == Apply(Run(s, ops), op)
  {
    assert (ops + [op])[..|ops|] == ops;
  }
}
