/**
 * The first, single-service variant: ambulances only, one count per call,
 * and the walk deducts from the caller's `available` dict, which the caller
 * keeps across calls.
 */
module MainSim {
  import opened Wrappers
  import opened PyDict
  import opened Records
  import opened SeqSum
  import opened Ranking
  import opened Greedy

  /** The `Quantity` of each request, `0` where it is absent. */
  function Quantities(reqs: seq<Request>): (qs: seq<int>)
    ensures |qs| == |reqs|
    ensures forall i :: 0 <= i < |reqs| ==> qs[i] == reqs[i].Quantity()
  {
    seq(|reqs|, i requires 0 <= i < |reqs| => reqs[i].Quantity())
  }

  /**
   * `call.get("needed") or call.get("required") or call.get("count")`, and,
   * when that is `None`, the summed `Quantity` of a `requests` list; `None`
   * when there is neither.  A falsy `0` falls through to the next field.
   */
  function Needed(call: Call): (r: Option<int>)
    ensures TruthyNumber(call.needed) ==> r == call.needed
    ensures !TruthyNumber(call.needed) && TruthyNumber(call.required) ==> r == call.required
    ensures !TruthyNumber(call.needed) && !TruthyNumber(call.required) && call.count.Some? ==> r == call.count
    ensures r.None? <==>
      !TruthyNumber(call.needed) && !TruthyNumber(call.required) && call.count.None? && call.requests.None?
    ensures !TruthyNumber(call.needed) && !TruthyNumber(call.required) && call.count.None? && call.requests.Some? ==>
      r == Some(Sum(Quantities(call.requests.value)))
  {
    var n := OrNumber(OrNumber(call.needed, call.required), call.count);
    if n.Some? then n
    else if call.requests.Some? then Some(Sum(Quantities(call.requests.value)))
    else None
  }

  /**
   * The guards before the walk: a truthy `city`, a positive count, and a
   * target city the location index knows.
   */
  predicate Accepted(call: Call, index: Dict<string, Location>) {
    TruthyText(call.city) && Needed(call).Some? && Needed(call).value > 0 && index.Has(call.city.value)
  }

  /** The caller's `available` dict, which `process_emergency` decrements in place. */
  class Ambulances {
    var available: Dict<string, int>

    constructor(available: Dict<string, int>)
      ensures this.available == available
    {
      this.available := available;
    }
  }

  /**
   * `process_emergency`: a call that fails a guard is refused and touches
   * nothing; otherwise the walk over the ranked ambulances leaves the dict
   * as the reference allocation does, and the call is resolved exactly when
   * the eligible cities hold at least the count asked for.
   */
  method ProcessEmergency(call: Call, index: Dict<string, Location>, pool: Ambulances)
    returns (ok: bool, orders: seq<DispatchOrder>)
    modifies pool
    ensures !Accepted(call, index) ==> !ok && orders == [] && pool.available == old(pool.available)
    ensures Accepted(call, index) ==>
      pool.available == Serve(Medical, call.city.value, old(pool.available), index, Needed(call).value).after &&
      orders == Serve(Medical, call.city.value, old(pool.available), index, Needed(call).value).orders
    ensures Accepted(call, index) ==>
      (ok <==> EligibleUnits(old(pool.available).Items(), index) >= Needed(call).value)
  {
    ok := false;
    orders := [];
    if !TruthyText(call.city) {
      return;
    }
    var target := call.city.value;
    var needed := Needed(call);
    if needed.None? {
      return;
    }
    var need := needed.value;
    if need <= 0 {
      return;
    }
    if !index.Has(target) {
      return;
    }
    var avail := pool.available;
    var found := CollectCandidates(avail.Items(), index, index.Get(target));
    var cands := SortByDistance(found);
    assert cands == Rank(avail, index, index.Get(target));
    RankInAvail(avail, index, index.Get(target));
    var after, remaining;
    after, remaining, orders := Walk(Medical, target, cands, avail, need);
    pool.available := after;
    ServeRemaining(Medical, target, avail, index, need);
    ok := !(remaining > 0);
  }
}
