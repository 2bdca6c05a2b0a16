/**
 The IP pool store of util/ippool.go and the two allocation procedures built on it:
 AllocateVMIPFromPool for machines and allocateIPFromPool for load balancers.

 A pool address is an integer; its text form is a parameter of the system. The library
 call allocator.Get is modelled by its published behaviour: a requested address must lie
 in a range and not be that range's gateway; without a request an id that already holds an
 address in range is refused, and otherwise some free address of some range, never that
 range's own gateway, is reserved.
 */
module PoolStore {
  import opened Wrappers
  import opened Ranges

  type Id = string

  /** The part of an IPPool's status the allocator works on; a nil map is None. */
  datatype Status = Status(allocations: Option<map<Addr, Id>>, history: Option<map<Addr, Id>>, available: int, last: Option<Addr>)

  datatype AllocError = BadRange(index: nat) | NotInRange | IsGateway | Taken | Duplicate | Exhausted | NoneAvailable

  // ---------------------------------------------------------------- specification

  function Entries(m: Option<map<Addr, Id>>): map<Addr, Id> {
    if m.Some? then m.value else map[]
  }

  function Held(s: Status): map<Addr, Id> {
    Entries(s.allocations)
  }

  function Past(s: Status): map<Addr, Id> {
    Entries(s.history)
  }

  function Owned(m: map<Addr, Id>, id: Id): set<Addr> {
    set ip | ip in m && m[ip] == id
  }

  /** The status after a successful Reserve. */
  function Reserved(s: Status, id: Id, ip: Addr): Status {
    s.(allocations := Some(Held(s)[ip := id]), available := s.available - 1, last := Some(ip))
  }

  /** The status after Release: an address nobody holds is still counted and still recorded. */
  function Released(s: Status, ip: Addr): Status {
    if s.allocations.None? then s
    else s.(allocations := Some(Held(s) - {ip}),
            history := Some(Past(s)[ip := if ip in Held(s) then Held(s)[ip] else ""]),
            available := s.available + 1)
  }

  /** The status after the addresses `ips`, all held by `id`, have been released. */
  function ReleasedSet(s: Status, id: Id, ips: set<Addr>): Status {
    if ips == {} then s
    else s.(allocations := Some(Held(s) - ips),
            history := Some(Past(s) + map ip | ip in ips :: id),
            available := s.available + |ips|)
  }

  /** The status after ReleaseByID. */
  function ReleasedById(s: Status, id: Id): Status {
    ReleasedSet(s, id, Owned(Held(s), id))
  }

  /**
   What a release writes: on a pool that ever allocated, the address is free, its history
   names the owner it had, or nobody if nobody held it, and no other address is touched.
   */
  lemma ReleaseWrites(s: Status, ip: Addr)
    ensures s.allocations.None? ==> Released(s, ip) == s
    ensures var t := Released(s, ip);
      s.allocations.Some? ==>
        && ip !in Held(t) && t.allocations.Some? && t.available == s.available + 1 && t.last == s.last
        && ip in Past(t)
        && (ip in Held(s) ==> Past(t)[ip] == Held(s)[ip])
        && (ip !in Held(s) ==> Past(t)[ip] == "")
        && (forall a :: a != ip ==> (a in Held(t) <==> a in Held(s)) && (a in Past(t) <==> a in Past(s)))
        && (forall a :: a != ip && a in Held(s) ==> Held(t)[a] == Held(s)[a])
        && (forall a :: a != ip && a in Past(s) ==> Past(t)[a] == Past(s)[a])
  {}

  /** What ReleaseByID writes: all of the id's addresses are free and remembered for it, nothing else is touched. */
  lemma ReleaseByIdWrites(s: Status, id: Id)
    ensures var t := ReleasedById(s, id);
      && (forall a :: a in Held(s) && Held(s)[a] == id ==> a !in Held(t) && a in Past(t) && Past(t)[a] == id)
      && (forall a :: a in Held(s) && Held(s)[a] != id ==> a in Held(t) && Held(t)[a] == Held(s)[a])
      && (forall a :: a in Held(t) ==> a in Held(s))
      && (forall a :: a !in Held(s) || Held(s)[a] != id ==> (a in Past(t) <==> a in Past(s)))
      && (forall a :: a in Past(s) && (a !in Held(s) || Held(s)[a] != id) ==> Past(t)[a] == Past(s)[a])
      && t.available - s.available == |Held(s)| - |Held(t)| && t.last == s.last
  {
    var t, owned := ReleasedById(s, id), Owned(Held(s), id);
    forall a | a in Held(s) && Held(s)[a] == id ensures a in owned {}
    if owned != {} {
      assert Held(t).Keys == Held(s).Keys - owned;
      KeysCount(Held(s));
      KeysCount(Held(t));
    }
  }

  lemma KeysCount(m: map<Addr, Id>)
    ensures |m.Keys| == |m|
  {}

  /** One turn of ReleaseByID's loop, at any point of the walk over the map. */
  lemma ReleaseTurn(s: Status, id: Id, rest: set<Addr>, ip: Addr)
    requires s.allocations.Some? && ip in rest && rest <= Held(s).Keys
    ensures var t := ReleasedSet(s, id, Owned(Held(s), id) - rest);
      && ip in Held(t) && Held(t)[ip] == Held(s)[ip]
      && ReleasedSet(s, id, Owned(Held(s), id) - (rest - {ip})) == if Held(s)[ip] == id then Released(t, ip) else t
  {
    var done := Owned(Held(s), id) - rest;
    if Held(s)[ip] == id {
      assert Owned(Held(s), id) - (rest - {ip}) == done + {ip};
      ReleaseOneMore(s, id, done, ip);
    } else {
      assert Owned(Held(s), id) - (rest - {ip}) == done;
    }
  }

  lemma ReleaseOneMore(s: Status, id: Id, done: set<Addr>, ip: Addr)
    requires s.allocations.Some? && ip !in done && ip in Owned(Held(s), id)
    ensures ReleasedSet(s, id, done + {ip}) == Released(ReleasedSet(s, id, done), ip)
  {
    var t := ReleasedSet(s, id, done);
    assert Held(s) - (done + {ip}) == Held(t) - {ip};
    assert Past(s) + (map x | x in done + {ip} :: id) == Past(t)[ip := id];
  }

  /** RangeSet.RangeFor: the first range that contains the address. */
  function RangeFor(ranges: seq<Range>, a: Addr): (r: Option<Range>)
    ensures r.None? <==> !InRanges(ranges, a)
    ensures r.Some? ==> exists i :: 0 <= i < |ranges| && ranges[i] == r.value && Contains(r.value, a)
                                    && forall j :: 0 <= j < i ==> !Contains(ranges[j], a)
  {
    if ranges == [] then None
    else if Contains(ranges[0], a) then Some(ranges[0])
    else RangeFor(ranges[1..], a)
  }

  predicate InRanges(ranges: seq<Range>, a: Addr) {
    exists r :: r in ranges && Contains(r, a)
  }

  /** A requested address the allocator accepts: in range and not that range's gateway. */
  predicate Serves(ranges: seq<Range>, a: Addr) {
    RangeFor(ranges, a).Some? && RangeFor(ranges, a).value.gateway != Some(a)
  }

  /** Every address some range offers. */
  function Offered(ranges: seq<Range>): set<Addr> {
    set r, a | r in ranges && a in Candidates(r) :: a
  }

  /** allocator.Get may answer `a`. */
  predicate GetAllowed(ranges: seq<Range>, s: Status, id: Id, requested: Option<Addr>, a: Addr) {
    && a !in Held(s)
    && match requested
       case Some(q) => a == q && Serves(ranges, q)
       case None => a in Offered(ranges) && forall x :: x in Owned(Held(s), id) ==> !InRanges(ranges, x)
  }

  /** An allocation for `id` may answer `a`: a past address of the id if it has one, else a fresh one. */
  predicate AllocAllowed(ranges: seq<Range>, s: Status, id: Id, a: Addr) {
    if Owned(Past(s), id) != {}
    then a in Owned(Past(s), id) && GetAllowed(ranges, s, id, Some(a), a)
    else GetAllowed(ranges, s, id, None, a)
  }

  /** An allocation for `id` may fail: some past address cannot be reused, or it has none and no address is free. */
  ghost predicate AllocMayFail(ranges: seq<Range>, s: Status, id: Id) {
    if Owned(Past(s), id) != {}
    then exists k :: k in Owned(Past(s), id) && !GetAllowed(ranges, s, id, Some(k), k)
    else forall a :: !GetAllowed(ranges, s, id, None, a)
  }

  /** The status after the addresses `ips` have been reserved for `id`, ending with `last`. */
  function ReservedMany(s: Status, id: Id, ips: set<Addr>, last: Option<Addr>): Status {
    if ips == {} then s
    else s.(allocations := Some(Held(s) + map ip | ip in ips :: id), available := s.available - |ips|, last := last)
  }

  /** An id with past addresses may be given all of them back, ending with `a`. */
  predicate ReclaimAllowed(ranges: seq<Range>, s: Status, id: Id, a: Addr) {
    a in Owned(Past(s), id) && forall k :: k in Owned(Past(s), id) ==> GetAllowed(ranges, s, id, Some(k), k)
  }

  /** The status after all past addresses of `id` have been reserved again, ending with `a`. */
  function Reclaimed(s: Status, id: Id, a: Addr): Status {
    ReservedMany(s, id, Owned(Past(s), id), Some(a))
  }

  /** What the loop without a break may end in: every past address of the id is reserved again. */
  ghost predicate AllocAllAllowed(ranges: seq<Range>, s: Status, id: Id, a: Addr, t: Status) {
    if Owned(Past(s), id) == {} then GetAllowed(ranges, s, id, None, a) && t == Reserved(s, id, a)
    else ReclaimAllowed(ranges, s, id, a) && t == Reclaimed(s, id, a)
  }

  predicate AtMostOne(addrs: set<Addr>) {
    forall a, b :: a in addrs && b in addrs ==> a == b
  }

  // ---------------------------------------------------------------- the store object

  class Store {
    var allocations: Option<map<Addr, Id>>
    var history: Option<map<Addr, Id>>
    var available: int
    var last: Option<Addr>

    function State(): Status
      reads this
    {
      Status(allocations, history, available, last)
    }

    constructor (s: Status)
      ensures State() == s
    {
      allocations, history, available, last := s.allocations, s.history, s.available, s.last;
    }

    method Reserve(id: Id, ip: Addr) returns (ok: bool)
      modifies this
      ensures ok <==> ip !in Held(old(State()))
      ensures State() == if ok then Reserved(old(State()), id, ip) else old(State())
    {
      if allocations.Some? {
        if ip in allocations.value {
          return false;
        }
      }
      if allocations.None? {
        allocations := Some(map[]);
      }
      allocations := Some(allocations.value[ip := id]);
      last := Some(ip);
      available := available - 1;
      return true;
    }

    method Release(ip: Addr)
      modifies this
      ensures State() == Released(old(State()), ip)
    {
      if allocations.None? {
        return;
      }
      if history.None? {
        history := Some(map[]);
      }
      history := Some(history.value[ip := if ip in allocations.value then allocations.value[ip] else ""]);
      allocations := Some(allocations.value - {ip});
      available := available + 1;
    }

    method ReleaseByID(id: Id)
      modifies this
      ensures State() == ReleasedById(old(State()), id)
    {
      if allocations.None? {
        return;
      }
      ghost var s := State();
      var rest := allocations.value.Keys;
      assert Owned(Held(s), id) - rest == {};
      while rest != {}
        invariant rest <= Held(s).Keys
        invariant State() == ReleasedSet(s, id, Owned(Held(s), id) - rest) && allocations.Some?
        decreases rest
      {
        var ip :| ip in rest;
        ReleaseTurn(s, id, rest, ip);
        if allocations.value[ip] == id {
          Release(ip);  // the source repeats Release's body here
        }
        rest := rest - {ip};
      }
      assert Owned(Held(s), id) - {} == Owned(Held(s), id);
    }

    method GetByID(id: Id) returns (ips: seq<Addr>)
      ensures multiset(ips) == multiset(Owned(Held(State()), id))
    {
      ips := [];
      var m := Entries(allocations);
      var rest := m.Keys;
      ghost var done: set<Addr> := {};
      while rest != {}
        invariant rest <= m.Keys && rest !! done && done <= Owned(m, id) <= rest + done
        invariant multiset(ips) == multiset(done)
        decreases rest
      {
        var ip :| ip in rest;
        rest := rest - {ip};
        if m[ip] == id {
          ips := ips + [ip];
          done := done + {ip};
        }
      }
      assert done == Owned(m, id);
    }
  }

  // ---------------------------------------------------------------- allocator.Get

  /** The library's allocator over a store. */
  method Get(store: Store, ranges: seq<Range>, id: Id, requested: Option<Addr>) returns (r: Result<Addr, AllocError>)
    modifies store
    ensures r.Ok? ==> GetAllowed(ranges, old(store.State()), id, requested, r.value)
    ensures r.Ok? ==> store.State() == Reserved(old(store.State()), id, r.value)
    ensures r.Err? ==> store.State() == old(store.State())
    ensures r.Err? ==> forall a :: !GetAllowed(ranges, old(store.State()), id, requested, a)
  {
    ghost var s := store.State();
    if requested.Some? {
      var range := RangeFor(ranges, requested.value);
      if range.None? {
        return Err(NotInRange);
      }
      if range.value.gateway == requested {
        return Err(IsGateway);
      }
      var ok := store.Reserve(id, requested.value);
      if ok {
        return Ok(requested.value);
      }
      return Err(Taken);
    }
    var ips := store.GetByID(id);
    for i := 0 to |ips|
      invariant forall j :: 0 <= j < i ==> !InRanges(ranges, ips[j])
    {
      if InRanges(ranges, ips[i]) {
        assert ips[i] in multiset(ips);
        return Err(Duplicate);
      }
    }
    assert forall x :: x in Owned(Held(s), id) ==> x in multiset(ips);
    var rest := Offered(ranges);
    while rest != {}
      invariant rest <= Offered(ranges) <= rest + Held(s).Keys
      invariant store.State() == s
      decreases rest
    {
      var a :| a in rest;
      rest := rest - {a};
      var ok := store.Reserve(id, a);
      if ok {
        return Ok(a);
      }
    }
    return Err(Exhausted);
  }

  // ---------------------------------------------------------------- allocation from a pool

  predicate AllParse(specs: seq<RangeSpec>) {
    forall i :: 0 <= i < |specs| ==> RangeOf(specs[i]).Ok?
  }

  function RangesOf(specs: seq<RangeSpec>): seq<Range>
    requires AllParse(specs)
  {
    seq(|specs|, i requires 0 <= i < |specs| => RangeOf(specs[i]).value)
  }

  method ParseRanges(specs: seq<RangeSpec>) returns (r: Result<seq<Range>, AllocError>)
    ensures r.Ok? <==> AllParse(specs)
    ensures r.Ok? ==> r.value == RangesOf(specs)
    ensures r.Err? ==> r.error.BadRange? && r.error.index < |specs|
                       && RangeOf(specs[r.error.index]).Err? && AllParse(specs[..r.error.index])
  {
    var ranges := [];
    for i := 0 to |specs|
      invariant |ranges| == i
      invariant forall j :: 0 <= j < i ==> RangeOf(specs[j]).Ok? && ranges[j] == RangeOf(specs[j]).value
    {
      var element := MakeRange(specs[i]);
      if element.Err? {
        return Err(BadRange(i));
      }
      ranges := ranges + [element.value];
    }
    assert ranges == RangesOf(specs);
    return Ok(ranges);
  }

  /** AllocateVMIPFromPool: reuse the first past address found for the id, else take a fresh one. */
  method AllocateVMIPFromPool(store: Store, specs: seq<RangeSpec>, id: Id) returns (r: Result<Addr, AllocError>)
    modifies store
    ensures r.Ok? ==> AllParse(specs) && AllocAllowed(RangesOf(specs), old(store.State()), id, r.value)
    ensures r.Ok? ==> store.State() == Reserved(old(store.State()), id, r.value)
    ensures r.Err? ==> store.State() == old(store.State())
    ensures r.Err? && AllParse(specs) ==> AllocMayFail(RangesOf(specs), old(store.State()), id)
  {
    ghost var s := store.State();
    var parsed := ParseRanges(specs);
    if parsed.Err? {
      return Err(parsed.error);
    }
    var ipObj: Option<Addr> := None;
    if store.history.Some? {
      var past := store.history.value;
      var rest := past.Keys;
      while rest != {}
        invariant rest <= past.Keys && forall k :: k in past && k !in rest ==> past[k] != id
        decreases rest
      {
        var k :| k in rest;
        rest := rest - {k};
        if past[k] == id {
          assert k in Owned(Past(s), id);
          var got := Get(store, parsed.value, id, Some(k));
          if got.Err? {
            assert !GetAllowed(parsed.value, s, id, Some(k), k);
            return got;
          }
          ipObj := Some(got.value);
          break;
        }
      }
    }
    if ipObj.None? {
      assert Owned(Past(s), id) == {};
      var got := Get(store, parsed.value, id, None);
      return got;
    }
    return Ok(ipObj.value);
  }

  /**
   allocateIPFromPool: the same reuse, but its loop over the past addresses has no break, so
   it reserves all of them; on an error the changed copy is not written back.
   */
  method AllocateIPFromPool(store: Store, specs: seq<RangeSpec>, id: Id) returns (r: Result<Addr, AllocError>)
    modifies store
    ensures r.Ok? ==> AllParse(specs) && AllocAllAllowed(RangesOf(specs), old(store.State()), id, r.value, store.State())
    ensures r.Err? && AllParse(specs) ==> AllocMayFail(RangesOf(specs), old(store.State()), id)
    ensures r.Err? ==> SomeReserved(old(store.State()), id, store.State())
  {
    ghost var s := store.State();
    NoneReserved(s, id);
    var parsed := ParseRanges(specs);
    if parsed.Err? {
      return Err(parsed.error);
    }
    var reused := ReusePast(store, parsed.value, id);
    if reused.Err? {
      return Err(reused.error);
    }
    if reused.value.None? {
      var got := Get(store, parsed.value, id, None);
      return got;
    }
    return Ok(reused.value.value);
  }

  /** Some of the id's past addresses have been reserved. */
  ghost predicate SomeReserved(s: Status, id: Id, t: Status) {
    exists done :: done <= Owned(Past(s), id) && t == ReservedMany(s, id, done, t.last)
  }

  lemma NoneReserved(s: Status, id: Id)
    ensures SomeReserved(s, id, s)
  {
    assert s == ReservedMany(s, id, {}, s.last);
  }

  /** The loop's progress: `done` is reserved, `ipObj` being the last of it. */
  ghost predicate Reusing(ranges: seq<Range>, s: Status, id: Id, done: set<Addr>, ipObj: Option<Addr>, t: Status) {
    && t == ReservedMany(s, id, done, ipObj)
    && (if ipObj.None? then done == {} else ipObj.value in done)
    && forall k :: k in done ==> GetAllowed(ranges, s, id, Some(k), k)
  }

  /** The loop of allocateIPFromPool over the past addresses. */
  method ReusePast(store: Store, ranges: seq<Range>, id: Id) returns (r: Result<Option<Addr>, AllocError>)
    modifies store
    ensures r.Ok? ==> Reusing(ranges, old(store.State()), id, Owned(Past(old(store.State())), id), r.value, store.State())
    ensures r.Err? ==> SomeReserved(old(store.State()), id, store.State())
    ensures r.Err? ==> exists k :: k in Owned(Past(old(store.State())), id)
                                   && !GetAllowed(ranges, old(store.State()), id, Some(k), k)
  {
    ghost var s := store.State();
    ghost var mine := Owned(Past(s), id);
    var ipObj: Option<Addr> := None;
    if store.history.None? {
      assert mine == {};
      return Ok(None);
    }
    var past := store.history.value;
    var rest := past.Keys;
    assert mine - rest == {};
    while rest != {}
      invariant rest <= past.Keys
      invariant Reusing(ranges, s, id, mine - rest, ipObj, store.State())
      decreases rest
    {
      var k :| k in rest;
      ghost var done := mine - rest;
      rest := rest - {k};
      if past[k] == id {
        assert mine - rest == done + {k};
        var got := Get(store, ranges, id, Some(k));
        if got.Err? {
          Partly(s, id, done, ipObj);
          NotReusable(ranges, s, id, done, ipObj, k);
          assert k in mine;
          return Err(got.error);
        }
        OneMoreReused(ranges, s, id, done, ipObj, k);
        ipObj := Some(got.value);
      } else {
        assert mine - rest == done;
      }
    }
    assert mine - {} == mine;
    return Ok(ipObj);
  }

  lemma Partly(s: Status, id: Id, done: set<Addr>, last: Option<Addr>)
    requires done <= Owned(Past(s), id)
    ensures SomeReserved(s, id, ReservedMany(s, id, done, last))
  {
    var t := ReservedMany(s, id, done, last);
    assert t == ReservedMany(s, id, done, t.last);
  }

  lemma OneMoreReused(ranges: seq<Range>, s: Status, id: Id, done: set<Addr>, ipObj: Option<Addr>, k: Addr)
    requires Reusing(ranges, s, id, done, ipObj, ReservedMany(s, id, done, ipObj)) && k !in done
    requires GetAllowed(ranges, ReservedMany(s, id, done, ipObj), id, Some(k), k)
    ensures Reusing(ranges, s, id, done + {k}, Some(k), Reserved(ReservedMany(s, id, done, ipObj), id, k))
  {
    ReservedOneMore(s, id, done, ipObj, k);
  }

  lemma ReservedOneMore(s: Status, id: Id, done: set<Addr>, last: Option<Addr>, k: Addr)
    requires k !in done
    ensures Reserved(ReservedMany(s, id, done, last), id, k) == ReservedMany(s, id, done + {k}, Some(k))
  {
    var t := ReservedMany(s, id, done, last);
    assert Held(t)[k := id] == Held(s) + map ip | ip in done + {k} :: id;
  }

  /** A past address that cannot be reserved after some others cannot be reserved before them either. */
  lemma NotReusable(ranges: seq<Range>, s: Status, id: Id, done: set<Addr>, last: Option<Addr>, k: Addr)
    requires k !in done && forall a :: !GetAllowed(ranges, ReservedMany(s, id, done, last), id, Some(k), a)
    ensures !GetAllowed(ranges, s, id, Some(k), k)
  {
    assert !GetAllowed(ranges, ReservedMany(s, id, done, last), id, Some(k), k);
  }

  /** getIPFromIPPool, once the pool is at hand: a pool whose cached count is zero is refused outright. */
  method GetIPFromIPPool(store: Store, specs: seq<RangeSpec>, id: Id) returns (r: Result<Addr, AllocError>)
    modifies store
    ensures old(store.available) == 0 ==> r == Err(NoneAvailable) && store.State() == old(store.State())
    ensures r.Ok? ==> AllParse(specs) && AllocAllAllowed(RangesOf(specs), old(store.State()), id, r.value, store.State())
    ensures old(store.available) != 0 && r.Err? && AllParse(specs) ==> AllocMayFail(RangesOf(specs), old(store.State()), id)
  {
    if store.available == 0 {
      return Err(NoneAvailable);
    }
    r := AllocateIPFromPool(store, specs, id);
  }

  // ---------------------------------------------------------------- the two loops compared

  /** An id with at most one past address can fail exactly when it cannot succeed. */
  lemma MayFailExactly(ranges: seq<Range>, s: Status, id: Id)
    requires AtMostOne(Owned(Past(s), id))
    ensures AllocMayFail(ranges, s, id) <==> forall a :: !AllocAllowed(ranges, s, id, a)
  {
    forall a ensures AllocAllowed(ranges, s, id, a) ==> !AllocMayFail(ranges, s, id) {}
    if forall a :: !AllocAllowed(ranges, s, id, a) {
      if k :| k in Owned(Past(s), id) {
        assert !AllocAllowed(ranges, s, id, k);
      } else {
        forall a ensures !GetAllowed(ranges, s, id, None, a) {
          assert !AllocAllowed(ranges, s, id, a);
        }
      }
    }
  }

  /** The loops with and without the break have the same successful outcomes. */
  ghost predicate LoopsAgree(ranges: seq<Range>, s: Status, id: Id) {
    forall a, t :: AllocAllAllowed(ranges, s, id, a, t) <==> AllocAllowed(ranges, s, id, a) && t == Reserved(s, id, a)
  }

  /**
   The break makes no difference exactly when the id has at most one past address or none
   of them can be reused. PoolRuns.HistoryInvariant shows the former of every reachable pool.
   */
  lemma LoopsAgreeExactly(ranges: seq<Range>, s: Status, id: Id)
    ensures LoopsAgree(ranges, s, id) <==>
      AtMostOne(Owned(Past(s), id)) || forall k :: k in Owned(Past(s), id) ==> !GetAllowed(ranges, s, id, Some(k), k)
  {
    var past := Owned(Past(s), id);
    if AtMostOne(past) {
      if k :| k in past {
        assert past == {k};
        ReservedOneMore(s, id, {}, None, k);
        assert {} + {k} == past;
      }
    } else if k :| k in past && GetAllowed(ranges, s, id, Some(k), k) {
      var other :| other in past && other != k;
      var t := Reserved(s, id, k);
      assert AllocAllowed(ranges, s, id, k);
      assert other in Held(ReservedMany(s, id, past, Some(k)));
      assert !AllocAllAllowed(ranges, s, id, k, t);
      assert !LoopsAgree(ranges, s, id);
    } else {
      assert past != {};
    }
  }
}
