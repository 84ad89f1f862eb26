/**
 * The three-service asynchronous variant: candidates are ranked from a
 * snapshot of the shared cache, and each city is drawn on by the count it
 * was ranked with; the cache is decremented after each dispatch.
 */
module AioHttp {
  import opened Wrappers
  import opened PyDict
  import opened Records
  import opened SeqSum
  import opened Ranking
  import opened Greedy
  import opened Calls
  import opened Cache

  /** The services of the cache, in the order of its initialisation. */
  const Services: seq<string> := [Medical, Fire, Police]

  /**
   * The endpoint chosen by the `if`/`elif` chain of the walk; any other
   * service falls to the `else: continue` branch.
   */
  function DispatchEndpoint(service: string): (r: Option<string>)
    ensures r.Some? <==> service in Services
  {
    if service == Medical then Some("/medical/dispatch")
    else if service == Fire then Some("/fire/dispatch")
    else if service == Police then Some("/police/dispatch")
    else None
  }

  /** The module-level `availability_cache`: three services, each with an empty dict. */
  method NewCache() returns (cache: AvailabilityCache)
    ensures fresh(cache)
    ensures cache.Valid() && cache.services == Services
    ensures forall s :: s in Services ==> s in cache.tables && cache.tables[s] == Empty()
  {
    NoDupPairwise(Services);
    cache := new AvailabilityCache(Services);
  }

  /** The service names the cache holds are exactly the three services. */
  lemma CachedServices(cache: AvailabilityCache, service: string)
    requires cache.Valid() && cache.services == Services
    ensures service in cache.tables <==> service in Services
  {
    ElemsIn(Services);
  }

  /**
   * One round of `update_availability_cache`, given what each of the three
   * `get_available` calls returned or raised (`Parsers.GetAvailable`): only
   * when all three succeeded are the three dicts replaced.
   */
  method UpdateAvailabilityCache(cache: AvailabilityCache, med: Result<Dict<string, int>, ParseError>,
                                 fire: Result<Dict<string, int>, ParseError>, police: Result<Dict<string, int>, ParseError>)
    requires cache.Valid() && cache.services == Services
    modifies cache
    ensures cache.Valid()
    ensures med.Success? && fire.Success? && police.Success? ==>
      cache.tables == old(cache.tables)[Medical := med.value][Fire := fire.value][Police := police.value]
    ensures !(med.Success? && fire.Success? && police.Success?) ==> cache.tables == old(cache.tables)
  {
    if med.Failure? || fire.Failure? || police.Failure? {
      return;
    }
    ElemsIn(Services);
    assert Medical in cache.tables && Fire in cache.tables && Police in cache.tables;
    cache.Store(Medical, med.value);
    cache.Store(Fire, fire.value);
    cache.Store(Police, police.value);
  }

  /**
   * `availability_cache[service_type][city] -= dispatch_count`, in the state
   * the walk is in: the cache holds `after` for the service.
   */
  method DecrementHeld(cache: AvailabilityCache, service: string, city: string, amount: int,
                       ghost after: Dict<string, int>)
    returns (ghost next: Dict<string, int>)
    requires cache.Valid()
    requires service in cache.tables && cache.tables[service] == after
    requires after.Has(city)
    modifies cache
    ensures cache.Valid()
    ensures next == after.Put(city, after.Get(city) - amount)
    ensures cache.tables == old(cache.tables)[service := next]
  {
    cache.Decrement(service, city, amount);
    PutValid(after, city, after.Get(city) - amount);
    next := after.Put(city, after.Get(city) - amount);
  }

  /**
   * One visit of the walk, while something remains: `min(count, remaining)`
   * units are dispatched from the city, with the count it was ranked with,
   * and deducted from the cache.  The walk state moves from the
   * `i`-candidate prefix of the reference allocation to the `i + 1`-candidate
   * prefix.
   */
  method Visit(cache: AvailabilityCache, service: string, target: string, city: string, count: int, remaining: int,
               orders: seq<DispatchOrder>, ghost base: Tables, ghost avail: Dict<string, int>,
               ghost cities: seq<string>, ghost counts: seq<int>, ghost need: int, ghost i: nat,
               ghost after: Dict<string, int>)
    returns (left: int, sent: seq<DispatchOrder>, ghost next: Dict<string, int>)
    requires cache.Valid() && service in Services
    requires cache.tables == base[service := after]
    requires |cities| == |counts| && i < |cities| && Positive(counts) && Distinct(cities)
    requires forall m :: 0 <= m < |cities| ==> avail.Has(cities[m]) && avail.Get(cities[m]) == counts[m]
    requires after == Deduct(avail, cities[..i], Takes(counts, need)[..i])
    requires remaining == need - Sum(Takes(counts, need)[..i])
    requires orders == Orders(service, target, cities[..i], Takes(counts, need)[..i])
    requires remaining > 0 && city == cities[i] && count == counts[i]
    modifies cache
    ensures cache.Valid()
    ensures cache.tables == base[service := next]
    ensures next == Deduct(avail, cities[..i + 1], Takes(counts, need)[..i + 1])
    ensures left == need - Sum(Takes(counts, need)[..i + 1])
    ensures sent == Orders(service, target, cities[..i + 1], Takes(counts, need)[..i + 1])
  {
    UntouchedAhead(avail, cities, Takes(counts, need), i);
    var dispatchCount := Min(count, remaining);
    WalkStep(service, target, avail, cities, counts, need, i, after, remaining, orders, city, dispatchCount);
    var endpoint := DispatchEndpoint(service);
    assert endpoint.Some?;
    left, sent := remaining, orders;
    next := after;
    if endpoint.Some? {
      sent := orders + [DispatchOrder(service, city, target, dispatchCount)];
      next := DecrementHeld(cache, service, city, dispatchCount, after);
      RewriteTwice(base, service, after, next);
      left := remaining - dispatchCount;
    }
  }

  /**
   * The walk of one request over its ranked candidates, each drawn on by
   * the count it was ranked with.  The walk visits each city once and the
   * lock is held by nothing else, so the cache ends as the reference
   * allocation leaves it.
   */
  method WalkCached(cache: AvailabilityCache, service: string, target: string, cands: seq<Candidate>, need: int,
                    ghost avail: Dict<string, int>)
    returns (remaining: int, orders: seq<DispatchOrder>)
    requires cache.Valid()
    requires service in Services && service in cache.tables && cache.tables[service] == avail
    requires forall i :: 0 <= i < |cands| ==> avail.Has(cands[i].city) && avail.Get(cands[i].city) == cands[i].count > 0
    requires Distinct(Cities(cands))
    modifies cache
    ensures cache.Valid()
    ensures cache.tables == old(cache.tables)[service := Deduct(avail, Cities(cands), Takes(Counts(cands), need))]
    ensures remaining == need - Sum(Takes(Counts(cands), need))
    ensures orders == Orders(service, target, Cities(cands), Takes(Counts(cands), need))
  {
    ghost var cities := Cities(cands);
    ghost var counts := Counts(cands);
    assert Positive(counts);
    assert forall m :: 0 <= m < |cities| ==> avail.Has(cities[m]) && avail.Get(cities[m]) == counts[m];
    ghost var after: Dict<string, int> := avail;
    RewriteSame(cache.tables, service, avail);
    assert Deduct(avail, cities[..0], Takes(counts, need)[..0]) == avail;
    remaining := need;
    orders := [];
    var i := 0;
    while i < |cands|
      invariant 0 <= i <= |cands|
      invariant cache.Valid()
      invariant cache.tables == old(cache.tables)[service := after]
      invariant after == Deduct(avail, cities[..i], Takes(counts, need)[..i])
      invariant remaining == need - Sum(Takes(counts, need)[..i])
      invariant orders == Orders(service, target, cities[..i], Takes(counts, need)[..i])
    {
      if remaining <= 0 {
        break;
      }
      remaining, orders, after := Visit(cache, service, target, cands[i].city, cands[i].count, remaining, orders,
                                        old(cache.tables), avail, cities, counts, need, i, after);
      i := i + 1;
    }
    WalkDone(service, target, avail, cities, counts, need, i);
  }

  /**
   * One request of a cached service: the candidate loop collects the
   * eligible cities of the cached dict, they are sorted by distance, and
   * the walk draws on them; the allocation is the reference one of
   * `Greedy.Serve`.
   */
  method ServeRequest(cache: AvailabilityCache, index: Dict<string, Location>, target: string, service: string, need: int)
    returns (remaining: int, orders: seq<DispatchOrder>)
    requires cache.Valid() && cache.services == Services
    requires service in cache.tables
    requires index.Has(target)
    modifies cache
    ensures cache.Valid()
    ensures cache.tables == old(cache.tables)[service := Serve(service, target, old(cache.tables)[service], index, need).after]
    ensures remaining == Serve(service, target, old(cache.tables)[service], index, need).remaining
    ensures orders == Serve(service, target, old(cache.tables)[service], index, need).orders
  {
    CachedServices(cache, service);
    var avail := cache.tables[service];
    var found := CollectCandidates(avail.Items(), index, index.Get(target));
    var cands := SortByDistance(found);
    RankDistinct(avail, index, index.Get(target));
    forall i | 0 <= i < |cands|
      ensures avail.Has(cands[i].city) && avail.Get(cands[i].city) == cands[i].count > 0
    {
      RankSound(avail, index, index.Get(target), cands[i]);
    }
    remaining, orders := WalkCached(cache, service, target, cands, need, avail);
  }

  /**
   * `process_multi_service_emergency_shared`: a call that fails the guards
   * is refused and touches nothing; otherwise its requests are served in
   * order, exactly as `Calls.ServeRequests` does, and the call succeeds when
   * every request was met.
   */
  method ProcessMultiServiceEmergency(cache: AvailabilityCache, call: Call, index: Dict<string, Location>)
    returns (ok: bool, orders: seq<DispatchOrder>)
    requires cache.Valid() && cache.services == Services
    modifies cache
    ensures cache.Valid()
    ensures !Admitted(call, index) ==> !ok && orders == [] && cache.tables == old(cache.tables)
    ensures Admitted(call, index) ==>
      ok == ServeRequests(old(cache.tables), index, call.city.value, call.RequestList()).allMet &&
      orders == ServeRequests(old(cache.tables), index, call.city.value, call.RequestList()).orders &&
      cache.tables == ServeRequests(old(cache.tables), index, call.city.value, call.RequestList()).tables
  {
    ok := false;
    orders := [];
    if !TruthyText(call.city) || !index.Has(call.city.value) {
      return;
    }
    var target := call.city.value;
    var reqs := call.RequestList();
    if reqs == [] {
      return;
    }
    ok := true;
    var j := 0;
    while j < |reqs|
      invariant 0 <= j <= |reqs|
      invariant cache.Valid()
      invariant ServeRequests(old(cache.tables), index, target, reqs[..j]) == Progress(cache.tables, ok, orders)
    {
      ServeRequestsPrefix(old(cache.tables), index, target, reqs, j);
      var r := reqs[j];
      var need := r.Quantity();
      if need > 0 {
        var available := cache.Lookup(r.kind);
        if available.Some? {
          var remaining, sent := ServeRequest(cache, index, target, r.kind.value, need);
          orders := orders + sent;
          if remaining > 0 {
            ok := false;
          }
        }
      }
      j := j + 1;
    }
    assert reqs[..j] == reqs;
    ghost var p := ServeRequests(old(cache.tables), index, target, reqs);
    assert p.tables == cache.tables && p.allMet == ok && p.orders == orders;
  }
}
