/**
 * The comprehension variant: both fetches never raise (`data or []`), the
 * location index may hold a `None` key, and the walk deducts from the local
 * dicts fetched for the call.
 */
module VectorSimulation {
  import opened Wrappers
  import opened PyDict
  import opened Records
  import opened Parsers
  import opened SeqSum
  import opened Ranking
  import opened Greedy
  import opened Calls

  /** The string keys of a key list, in order; a `None` key is dropped. */
  function SomeKeys(keys: seq<Option<string>>): seq<string>
    decreases |keys|
  {
    if keys == [] then []
    else (if keys[0].Some? then [keys[0].value] else []) + SomeKeys(keys[1..])
  }

  lemma {:induction false} SomeKeysIn(keys: seq<Option<string>>)
    ensures forall k :: k in SomeKeys(keys) <==> Some(k) in keys
    decreases |keys|
  {
    if keys != [] {
      SomeKeysIn(keys[1..]);
      assert forall o :: o in keys <==> o == keys[0] || o in keys[1..];
    }
  }

  lemma {:induction false} SomeKeysNoDup(keys: seq<Option<string>>)
    requires NoDup(keys)
    ensures NoDup(SomeKeys(keys))
    decreases |keys|
  {
    if keys != [] {
      SomeKeysNoDup(keys[1..]);
      SomeKeysIn(keys[1..]);
      if keys[0].Some? {
        assert keys[0] == Some(keys[0].value);
        assert SomeKeys(keys)[1..] == SomeKeys(keys[1..]);
      } else {
        assert SomeKeys(keys) == SomeKeys(keys[1..]);
      }
    }
  }

  /**
   * The location index as the walk consults it: `city in location_details`
   * and `location_details[city]` with a string `city` never meet the `None`
   * key.
   */
  function StringKeyed(index: Dict<Option<string>, Location>): (r: Dict<string, Location>)
    ensures forall k :: r.Has(k) <==> index.Has(Some(k))
    ensures forall k :: r.Has(k) ==> r.Get(k) == index.Get(Some(k))
  {
    SomeKeysIn(index.order);
    SomeKeysNoDup(index.order);
    ElemsIn(index.order);
    ElemsIn(SomeKeys(index.order));
    Table(SomeKeys(index.order), map k | k in Elems(SomeKeys(index.order)) :: index.values[Some(k)])
  }

  /** `available_resources`: the three comprehension dicts under their capitalised service names. */
  function Resources(med: Option<seq<AvailabilityRecord>>, fire: Option<seq<AvailabilityRecord>>,
                     police: Option<seq<AvailabilityRecord>>): (r: Tables)
    ensures r.Keys == {Medical, Fire, Police}
    ensures r[Medical] == VectorAvailable(med) && r[Fire] == VectorAvailable(fire) && r[Police] == VectorAvailable(police)
  {
    map[Medical := VectorAvailable(med), Fire := VectorAvailable(fire), Police := VectorAvailable(police)]
  }

  /**
   * One request of a fetched service: the comprehension keeps the eligible
   * cities, they are sorted by distance, and the walk deducts from the local
   * dict; the allocation is the reference one of `Greedy.Serve`.
   */
  method ServeRequest(tables: Tables, index: Dict<string, Location>, target: string, service: string, need: int)
    returns (after: Dict<string, int>, remaining: int, orders: seq<DispatchOrder>)
    requires service in tables && index.Has(target)
    ensures after == Serve(service, target, tables[service], index, need).after
    ensures remaining == Serve(service, target, tables[service], index, need).remaining
    ensures orders == Serve(service, target, tables[service], index, need).orders
  {
    var avail := tables[service];
    var cands := SortByDistance(Eligible(avail.Items(), index, index.Get(target)));
    assert cands == Rank(avail, index, index.Get(target));
    RankInAvail(avail, index, index.Get(target));
    after, remaining, orders := Walk(service, target, cands, avail, need);
  }

  /**
   * `process_call`: a call without a truthy `city` the index knows, or
   * without requests, is refused; otherwise the requests are served in
   * order over the fetched dicts, exactly as `Calls.ServeRequests` does.
   * Nothing here raises.
   */
  method ProcessCall(call: Call, index: Dict<Option<string>, Location>, med: Option<seq<AvailabilityRecord>>,
                     fire: Option<seq<AvailabilityRecord>>, police: Option<seq<AvailabilityRecord>>)
    returns (ok: bool, orders: seq<DispatchOrder>)
    ensures !Admitted(call, StringKeyed(index)) ==> !ok && orders == []
    ensures Admitted(call, StringKeyed(index)) ==>
      ok == ServeRequests(Resources(med, fire, police), StringKeyed(index), call.city.value, call.RequestList()).allMet &&
      orders == ServeRequests(Resources(med, fire, police), StringKeyed(index), call.city.value, call.RequestList()).orders
  {
    ok := false;
    orders := [];
    var places := StringKeyed(index);
    if !TruthyText(call.city) || !index.Has(Some(call.city.value)) {
      return;
    }
    var target := call.city.value;
    var reqs := call.RequestList();
    if reqs == [] {
      return;
    }
    var tables: Tables := Resources(med, fire, police);
    ghost var start := tables;
    ok := true;
    var j := 0;
    while j < |reqs|
      invariant 0 <= j <= |reqs|
      invariant ServeRequests(start, places, target, reqs[..j]) == Progress(tables, ok, orders)
    {
      ServeRequestsPrefix(start, places, target, reqs, j);
      var rq := reqs[j];
      var need := rq.Quantity();
      if need > 0 && rq.kind.Some? && rq.kind.value in tables {
        var after, remaining, sent := ServeRequest(tables, places, target, rq.kind.value, need);
        tables := tables[rq.kind.value := after];
        orders := orders + sent;
        if remaining > 0 {
          ok := false;
        }
      }
      j := j + 1;
    }
    assert reqs[..j] == reqs;
    ghost var p := ServeRequests(start, places, target, reqs);
    assert p.allMet == ok && p.orders == orders;
  }
}
