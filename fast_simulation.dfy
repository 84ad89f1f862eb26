/**
 * The thread-pool variant: the three availability dicts are fetched afresh
 * for each call, and the walk deducts from those local dicts, so a later
 * request for the same service sees what earlier ones took.
 */
module FastSimulation {
  import opened Wrappers
  import opened PyDict
  import opened Records
  import opened Parsers
  import opened SeqSum
  import opened Ranking
  import opened Greedy
  import opened Calls

  /** The services fetched for each call. */
  const Services: seq<string> := [Medical, Fire, Police]

  /**
   * The dispatch helper chosen by the `if`/`elif` chain of the walk; any
   * other service falls to the `else: continue` branch.
   */
  function Dispatcher(service: string): (r: Option<string>)
    ensures r.Some? <==> service in Services
  {
    if service == Medical then Some("dispatch_ambulances")
    else if service == Fire then Some("dispatch_firefighters")
    else if service == Police then Some("dispatch_police")
    else None
  }

  /** The guards of this variant: a truthy `city` and a non-empty `requests` list. */
  predicate Started(call: Call) {
    TruthyText(call.city) && call.RequestList() != []
  }

  /**
   * `available_resources`, built from the three fetches in the order their
   * `result()` is awaited; the first fetch that raised is the error the call
   * raises.
   */
  function FetchAll(med: Result<Dict<string, int>, ParseError>, fire: Result<Dict<string, int>, ParseError>,
                    police: Result<Dict<string, int>, ParseError>): (r: Result<Tables, ParseError>)
    ensures r.Success? <==> med.Success? && fire.Success? && police.Success?
    ensures med.Failure? ==> r == Failure(med.error)
    ensures med.Success? && fire.Failure? ==> r == Failure(fire.error)
    ensures med.Success? && fire.Success? && police.Failure? ==> r == Failure(police.error)
    ensures r.Success? ==> r.value.Keys == {Medical, Fire, Police}
    ensures r.Success? ==> r.value[Medical] == med.value && r.value[Fire] == fire.value && r.value[Police] == police.value
  {
    if med.Failure? then Failure(med.error)
    else if fire.Failure? then Failure(fire.error)
    else if police.Failure? then Failure(police.error)
    else Success(map[Medical := med.value, Fire := fire.value, Police := police.value])
  }

  /**
   * One request of a fetched service: the candidate loop collects the
   * eligible cities, they are sorted by distance, and the walk deducts from
   * the local dict; the allocation is the reference one of `Greedy.Serve`.
   * A fetched service always has a dispatch helper, so the `else: continue`
   * of the dispatch chain is never taken and every visited city is drawn on.
   */
  method ServeRequest(tables: Tables, index: Dict<string, Location>, target: string, service: string, need: int)
    returns (after: Dict<string, int>, remaining: int, orders: seq<DispatchOrder>)
    requires service in tables && service in Services && index.Has(target)
    ensures after == Serve(service, target, tables[service], index, need).after
    ensures remaining == Serve(service, target, tables[service], index, need).remaining
    ensures orders == Serve(service, target, tables[service], index, need).orders
  {
    var avail := tables[service];
    var found := CollectCandidates(avail.Items(), index, index.Get(target));
    var cands := SortByDistance(found);
    assert cands == Rank(avail, index, index.Get(target));
    RankInAvail(avail, index, index.Get(target));
    assert Dispatcher(service).Some?;
    after, remaining, orders := Walk(service, target, cands, avail, need);
  }

  /**
   * `process_multi_service_emergency`: a call without a truthy `city` or
   * without requests is refused; a failed fetch raises; a target city the
   * location index does not know passes over every request, so the call
   * succeeds with nothing sent; otherwise the requests are served in order,
   * exactly as `Calls.ServeRequests` does over the fetched dicts.
   */
  method ProcessMultiServiceEmergency(call: Call, index: Dict<string, Location>, med: Result<Dict<string, int>, ParseError>,
                                      fire: Result<Dict<string, int>, ParseError>, police: Result<Dict<string, int>, ParseError>)
    returns (r: Result<bool, ParseError>, orders: seq<DispatchOrder>)
    ensures !Started(call) ==> r == Success(false) && orders == []
    ensures Started(call) && FetchAll(med, fire, police).Failure? ==>
      r == Failure(FetchAll(med, fire, police).error) && orders == []
    ensures Started(call) && FetchAll(med, fire, police).Success? && !index.Has(call.city.value) ==>
      r == Success(true) && orders == []
    ensures Started(call) && FetchAll(med, fire, police).Success? && index.Has(call.city.value) ==>
      r == Success(ServeRequests(FetchAll(med, fire, police).value, index, call.city.value, call.RequestList()).allMet) &&
      orders == ServeRequests(FetchAll(med, fire, police).value, index, call.city.value, call.RequestList()).orders
  {
    orders := [];
    if !TruthyText(call.city) {
      return Success(false), [];
    }
    var target := call.city.value;
    var reqs := call.RequestList();
    if reqs == [] {
      return Success(false), [];
    }
    if med.Failure? {
      return Failure(med.error), [];
    }
    if fire.Failure? {
      return Failure(fire.error), [];
    }
    if police.Failure? {
      return Failure(police.error), [];
    }
    var tables: Tables := map[Medical := med.value, Fire := fire.value, Police := police.value];
    ghost var start := tables;
    var ok := true;
    var j := 0;
    while j < |reqs|
      invariant 0 <= j <= |reqs|
      invariant tables.Keys <= {Medical, Fire, Police}
      invariant index.Has(target) ==> ServeRequests(start, index, target, reqs[..j]) == Progress(tables, ok, orders)
      invariant !index.Has(target) ==> ok && orders == []
    {
      var rq := reqs[j];
      var need := rq.Quantity();
      if index.Has(target) {
        ServeRequestsPrefix(start, index, target, reqs, j);
      }
      if need > 0 && index.Has(target) && rq.kind.Some? && rq.kind.value in tables {
        var after, remaining, sent := ServeRequest(tables, index, target, rq.kind.value, need);
        tables := tables[rq.kind.value := after];
        orders := orders + sent;
        if remaining > 0 {
          ok := false;
        }
      }
      j := j + 1;
    }
    assert reqs[..j] == reqs;
    if index.Has(target) {
      ghost var p := ServeRequests(start, index, target, reqs);
      assert p.allMet == ok && p.orders == orders;
    }
    r := Success(ok);
  }
}
