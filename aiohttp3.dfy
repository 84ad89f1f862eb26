/**
 * The five-service asynchronous variant: candidates are ranked from a
 * snapshot of the shared cache, and every take re-reads the live count under
 * the lock before drawing on it.
 */
module AioHttp3 {
  import opened Wrappers
  import opened PyDict
  import opened Records
  import opened Parsers
  import opened SeqSum
  import opened Ranking
  import opened Greedy
  import opened Calls
  import opened Cache

  /** The services of the cache, in the order of its initialisation. */
  const Services: seq<string> := [Medical, Fire, Police, Rescue, Utility]

  /** The endpoint table consulted before each dispatch. */
  function DispatchEndpoint(service: string): (r: Option<string>)
    ensures r.Some? <==> service in Services
  {
    if service == Medical then Some("/medical/dispatch")
    else if service == Fire then Some("/fire/dispatch")
    else if service == Police then Some("/police/dispatch")
    else if service == Rescue then Some("/rescue/dispatch")
    else if service == Utility then Some("/utility/dispatch")
    else None
  }

  /** The module-level `availability_cache`: all five services, each with an empty dict. */
  method NewCache() returns (cache: AvailabilityCache)
    ensures fresh(cache)
    ensures cache.Valid() && cache.services == Services
    ensures forall s :: s in Services ==> s in cache.tables && cache.tables[s] == Empty()
  {
    NoDupPairwise(Services);
    cache := new AvailabilityCache(Services);
  }

  /** The service names the cache holds are exactly the five services. */
  lemma CachedServices(cache: AvailabilityCache, service: string)
    requires cache.Valid() && cache.services == Services
    ensures service in cache.tables <==> service in Services
  {
    ElemsIn(Services);
  }

  /**
   * One round of `update_availability_cache`, given what each of the five
   * `get_available` calls returned or raised (`Parsers.GetAvailable`): only
   * when all five succeeded are the five dicts replaced; a single failure
   * leaves the whole cache as it was.
   */
  method UpdateAvailabilityCache(cache: AvailabilityCache, med: Result<Dict<string, int>, ParseError>,
                                 fire: Result<Dict<string, int>, ParseError>, police: Result<Dict<string, int>, ParseError>,
                                 rescue: Result<Dict<string, int>, ParseError>, utility: Result<Dict<string, int>, ParseError>)
    requires cache.Valid() && cache.services == Services
    modifies cache
    ensures cache.Valid()
    ensures med.Success? && fire.Success? && police.Success? && rescue.Success? && utility.Success? ==>
      cache.tables == old(cache.tables)[Medical := med.value][Fire := fire.value][Police := police.value]
        [Rescue := rescue.value][Utility := utility.value]
    ensures !(med.Success? && fire.Success? && police.Success? && rescue.Success? && utility.Success?) ==>
      cache.tables == old(cache.tables)
  {
    if med.Failure? || fire.Failure? || police.Failure? || rescue.Failure? || utility.Failure? {
      return;
    }
    ElemsIn(Services);
    assert Medical in cache.tables && Fire in cache.tables && Police in cache.tables &&
      Rescue in cache.tables && Utility in cache.tables;
    cache.Store(Medical, med.value);
    cache.Store(Fire, fire.value);
    cache.Store(Police, police.value);
    cache.Store(Rescue, rescue.value);
    cache.Store(Utility, utility.value);
  }

  /**
   * The locked take step, in the state the walk is in: the cache holds
   * `after` for the service and the city's live count is positive; the
   * city is drawn on by `min(count, remaining)`.
   */
  method TakeLive(cache: AvailabilityCache, service: string, city: string, remaining: int,
                  ghost after: Dict<string, int>)
    returns (taken: int, ghost next: Dict<string, int>)
    requires cache.Valid()
    requires service in cache.tables && cache.tables[service] == after
    requires after.Has(city) && after.Get(city) > 0
    modifies cache
    ensures cache.Valid()
    ensures taken == Min(after.Get(city), remaining)
    ensures next == after.Put(city, after.Get(city) - taken)
    ensures cache.tables == old(cache.tables)[service := next]
  {
    taken := cache.TryTake(service, city, remaining);
    PutValid(after, city, after.Get(city) - taken);
    next := after.Put(city, after.Get(city) - taken);
  }

  /**
   * One visit of the walk, while something remains: the live take on the
   * next city and, when it gave something, the dispatch to the service's
   * endpoint.  The walk state moves from the `i`-candidate prefix of the
   * reference allocation to the `i + 1`-candidate prefix.
   */
  method Visit(cache: AvailabilityCache, service: string, target: string, city: string, remaining: int,
               orders: seq<DispatchOrder>, ghost base: Tables, ghost avail: Dict<string, int>,
               ghost cities: seq<string>, ghost counts: seq<int>, ghost need: int, ghost i: nat,
               ghost after: Dict<string, int>)
    returns (left: int, sent: seq<DispatchOrder>, ghost next: Dict<string, int>)
    requires cache.Valid() && service in Services
    requires cache.tables == base[service := after]
    requires |cities| == |counts| && i < |cities| && Positive(counts) && Distinct(cities)
    requires forall m :: 0 <= m < |cities| ==> avail.Has(cities[m]) && avail.Get(cities[m]) == counts[m]
    requires after == Deduct(avail, cities[..i], Takes(counts, need)[..i])
    requires remaining == need - Sum(Takes(counts, need)[..i])
    requires orders == Orders(service, target, cities[..i], Takes(counts, need)[..i])
    requires remaining > 0 && city == cities[i]
    modifies cache
    ensures cache.Valid()
    ensures cache.tables == base[service := next]
    ensures next == Deduct(avail, cities[..i + 1], Takes(counts, need)[..i + 1])
    ensures left == need - Sum(Takes(counts, need)[..i + 1])
    ensures sent == Orders(service, target, cities[..i + 1], Takes(counts, need)[..i + 1])
  {
    UntouchedAhead(avail, cities, Takes(counts, need), i);
    var taken;
    taken, next := TakeLive(cache, service, city, remaining, after);
    RewriteTwice(base, service, after, next);
    WalkStep(service, target, avail, cities, counts, need, i, after, remaining, orders, city, taken);
    left, sent := remaining, orders;
    assert taken > 0;
    if taken > 0 {
      var endpoint := DispatchEndpoint(service);
      assert endpoint.Some?;
      if endpoint.Some? {
        sent := orders + [DispatchOrder(service, city, target, taken)];
        left := remaining - taken;
      }
    }
  }

  /**
   * The walk of one request over its ranked candidates: each take re-reads
   * the live count under the lock, and a city's count is drawn on only while
   * it is positive.  The walk visits each city once, so every live count is
   * still the one the candidate was ranked with.
   */
  method WalkShared(cache: AvailabilityCache, service: string, target: string, cands: seq<Candidate>, need: int,
                    ghost avail: Dict<string, int>)
    returns (remaining: int, orders: seq<DispatchOrder>)
    requires cache.Valid()
    requires service in Services && service in cache.tables && cache.tables[service] == avail
    requires forall i :: 0 <= i < |cands| ==> avail.Has(cands[i].city) && avail.Get(cands[i].city) == cands[i].count > 0
    requires Distinct(Cities(cands))
    modifies cache
    ensures cache.Valid()
    ensures cache.tables == old(cache.tables)[service := Deduct(avail, Cities(cands), Takes(Counts(cands), need))]
    ensures remaining == need - Sum(Takes(Counts(cands), need))
    ensures orders == Orders(service, target, Cities(cands), Takes(Counts(cands), need))
  {
    ghost var cities := Cities(cands);
    ghost var counts := Counts(cands);
    assert Positive(counts);
    assert forall m :: 0 <= m < |cities| ==> avail.Has(cities[m]) && avail.Get(cities[m]) == counts[m];
    ghost var after: Dict<string, int> := avail;
    RewriteSame(cache.tables, service, avail);
    assert Deduct(avail, cities[..0], Takes(counts, need)[..0]) == avail;
    remaining := need;
    orders := [];
    var i := 0;
    while i < |cands|
      invariant 0 <= i <= |cands|
      invariant cache.Valid()
      invariant cache.tables == old(cache.tables)[service := after]
      invariant after == Deduct(avail, cities[..i], Takes(counts, need)[..i])
      invariant remaining == need - Sum(Takes(counts, need)[..i])
      invariant orders == Orders(service, target, cities[..i], Takes(counts, need)[..i])
    {
      if remaining <= 0 {
        break;
      }
      remaining, orders, after := Visit(cache, service, target, cands[i].city, remaining, orders,
                                        old(cache.tables), avail, cities, counts, need, i, after);
      i := i + 1;
    }
    WalkDone(service, target, avail, cities, counts, need, i);
  }

  /**
   * One request of a cached service: the candidates are ranked from the
   * cached dict, then walked; the allocation is the reference one of
   * `Greedy.Serve`.
   */
  method ServeRequest(cache: AvailabilityCache, index: Dict<string, Location>, target: string, service: string, need: int)
    returns (remaining: int, orders: seq<DispatchOrder>)
    requires cache.Valid() && cache.services == Services
    requires service in cache.tables
    requires index.Has(target)
    modifies cache
    ensures cache.Valid()
    ensures cache.tables == old(cache.tables)[service := Serve(service, target, old(cache.tables)[service], index, need).after]
    ensures remaining == Serve(service, target, old(cache.tables)[service], index, need).remaining
    ensures orders == Serve(service, target, old(cache.tables)[service], index, need).orders
  {
    CachedServices(cache, service);
    var avail := cache.tables[service];
    var cands := SortByDistance(Eligible(avail.Items(), index, index.Get(target)));
    RankDistinct(avail, index, index.Get(target));
    forall i | 0 <= i < |cands|
      ensures avail.Has(cands[i].city) && avail.Get(cands[i].city) == cands[i].count > 0
    {
      RankSound(avail, index, index.Get(target), cands[i]);
    }
    remaining, orders := WalkShared(cache, service, target, cands, need, avail);
  }

  /**
   * `process_multi_service_emergency_shared`: a call that fails the guards
   * is refused and touches nothing; otherwise its requests are served in
   * order, exactly as `Calls.ServeRequests` does, and the call succeeds when
   * every request was met.
   */
  method ProcessMultiServiceEmergency(cache: AvailabilityCache, call: Call, index: Dict<string, Location>)
    returns (ok: bool, orders: seq<DispatchOrder>)
    requires cache.Valid() && cache.services == Services
    modifies cache
    ensures cache.Valid()
    ensures !Admitted(call, index) ==> !ok && orders == [] && cache.tables == old(cache.tables)
    ensures Admitted(call, index) ==>
      ok == ServeRequests(old(cache.tables), index, call.city.value, call.RequestList()).allMet &&
      orders == ServeRequests(old(cache.tables), index, call.city.value, call.RequestList()).orders &&
      cache.tables == ServeRequests(old(cache.tables), index, call.city.value, call.RequestList()).tables
  {
    ok := false;
    orders := [];
    if !TruthyText(call.city) || !index.Has(call.city.value) {
      return;
    }
    var target := call.city.value;
    var reqs := call.RequestList();
    if reqs == [] {
      return;
    }
    ok := true;
    var j := 0;
    while j < |reqs|
      invariant 0 <= j <= |reqs|
      invariant cache.Valid()
      invariant ServeRequests(old(cache.tables), index, target, reqs[..j]) == Progress(cache.tables, ok, orders)
    {
      ServeRequestsPrefix(old(cache.tables), index, target, reqs, j);
      var r := reqs[j];
      var need := r.Quantity();
      if need > 0 {
        var available := cache.Lookup(r.kind);
        if available.Some? {
          var remaining, sent := ServeRequest(cache, index, target, r.kind.value, need);
          orders := orders + sent;
          if remaining > 0 {
            ok := false;
          }
        }
      }
      j := j + 1;
    }
    assert reqs[..j] == reqs;
    ghost var p := ServeRequests(old(cache.tables), index, target, reqs);
    assert p.tables == cache.tables && p.allMet == ok && p.orders == orders;
  }
}
