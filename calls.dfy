/**
 * One emergency call: its requests are served in list order, each one by the
 * greedy allocation of `Greedy.Serve` over the dict of its service, and the
 * call succeeds when no served request is left short.
 *
 * Every variant loops `for req in requests_list` the same way: a request with
 * a non-positive `Quantity` or a service that has no availability dict is
 * passed over with `continue`, and `all_success` is cleared by a request that
 * ends with `remaining > 0`.  `ServeRequests` is the reference definition of
 * that loop; each variant's method is proved equal to it.
 */
module Calls {
  import opened Wrappers
  import opened PyDict
  import opened Records
  import opened SeqSum
  import opened Ranking
  import opened Greedy

  /** The availability dicts a call draws on, by service name. */
  type Tables = map<string, Dict<string, int>>

  /** A request the loop passes over: `Quantity <= 0`, or no dict for its `Type`. */
  predicate Skipped(tables: Tables, r: Request) {
    r.Quantity() <= 0 || r.kind.None? || r.kind.value !in tables
  }

  /**
   * The guards before the request loop: a truthy `city` that the location
   * index knows, and a non-empty `requests` list.
   */
  predicate Admitted(call: Call, index: Dict<string, Location>) {
    TruthyText(call.city) && index.Has(call.city.value) && call.RequestList() != []
  }

  /** The state of the request loop: the dicts, `all_success`, and the dispatches sent so far. */
  datatype Progress = Progress(tables: Tables, allMet: bool, orders: seq<DispatchOrder>)

  /** One iteration of `for req in requests_list`. */
  function ServeOne(p: Progress, index: Dict<string, Location>, target: string, r: Request): Progress
    requires index.Has(target)
  {
    if Skipped(p.tables, r) then p
    else
      var service := r.kind.value;
      var a := Serve(service, target, p.tables[service], index, r.Quantity());
      Progress(p.tables[service := a.after], p.allMet && a.remaining <= 0, p.orders + a.orders)
  }

  /** The whole request loop, from `all_success = True` and no dispatches. */
  function ServeRequests(tables: Tables, index: Dict<string, Location>, target: string, reqs: seq<Request>): Progress
    requires index.Has(target)
    decreases |reqs|
  {
    if reqs == [] then Progress(tables, true, [])
    else ServeOne(ServeRequests(tables, index, target, reqs[..|reqs| - 1]), index, target, reqs[|reqs| - 1])
  }

  /** The request leaves nothing missing, or is passed over. */
  predicate RequestMet(tables: Tables, index: Dict<string, Location>, target: string, r: Request)
    requires index.Has(target)
  {
    Skipped(tables, r) || Serve(r.kind.value, target, tables[r.kind.value], index, r.Quantity()).remaining <= 0
  }

  /** Units of `service` carried by the dispatches. */
  function SentOf(orders: seq<DispatchOrder>, service: string): int
    decreases |orders|
  {
    if orders == [] then 0
    else (if orders[0].service == service then orders[0].count else 0) + SentOf(orders[1..], service)
  }

  /** Every count in every dict is at least zero. */
  ghost predicate NonNegativeCounts(tables: Tables) {
    forall s, k :: s in tables && tables[s].Has(k) ==> tables[s].Get(k) >= 0
  }

  // ---------------------------------------------------------------------------
  // The success flag

  /** A served request is met exactly when the eligible units of its service cover its quantity. */
  lemma RequestMetIff(tables: Tables, index: Dict<string, Location>, target: string, r: Request)
    requires index.Has(target)
    requires !Skipped(tables, r)
    ensures RequestMet(tables, index, target, r) <==> EligibleUnits(tables[r.kind.value].Items(), index) >= r.Quantity()
  {
    ServeRemaining(r.kind.value, target, tables[r.kind.value], index, r.Quantity());
  }

  lemma {:induction false} ServeRequestsPrefix(tables: Tables, index: Dict<string, Location>, target: string, reqs: seq<Request>, i: nat)
    requires index.Has(target)
    requires i < |reqs|
    ensures ServeRequests(tables, index, target, reqs[..i + 1]) ==
      ServeOne(ServeRequests(tables, index, target, reqs[..i]), index, target, reqs[i])
  {
    var upto := reqs[..i + 1];
    assert upto[..i] == reqs[..i] && upto[i] == reqs[i];
  }

  /** A request that is not met clears `all_success` for good. */
  lemma {:induction false} UnmetClears(tables: Tables, index: Dict<string, Location>, target: string, reqs: seq<Request>, i: nat)
    requires index.Has(target)
    requires i < |reqs|
    requires !RequestMet(ServeRequests(tables, index, target, reqs[..i]).tables, index, target, reqs[i])
    ensures !ServeRequests(tables, index, target, reqs).allMet
    decreases |reqs|
  {
    var n := |reqs| - 1;
    var front := reqs[..n];
    assert reqs[..n + 1] == reqs;
    ServeRequestsPrefix(tables, index, target, reqs, n);
    if i < n {
      assert front[..i] == reqs[..i] && front[i] == reqs[i];
      UnmetClears(tables, index, target, front, i);
    }
  }

  /** When `all_success` ends False, some request was not met. */
  lemma {:induction false} FirstUnmet(tables: Tables, index: Dict<string, Location>, target: string, reqs: seq<Request>) returns (i: nat)
    requires index.Has(target)
    requires !ServeRequests(tables, index, target, reqs).allMet
    ensures i < |reqs|
    ensures !RequestMet(ServeRequests(tables, index, target, reqs[..i]).tables, index, target, reqs[i])
    decreases |reqs|
  {
    var n := |reqs| - 1;
    var front := reqs[..n];
    assert reqs[..n + 1] == reqs;
    ServeRequestsPrefix(tables, index, target, reqs, n);
    if ServeRequests(tables, index, target, front).allMet {
      i := n;
    } else {
      i := FirstUnmet(tables, index, target, front);
      assert front[..i] == reqs[..i] && front[i] == reqs[i];
    }
  }

  /** `all_success` survives the loop exactly when every request is met. */
  lemma ServeRequestsMet(tables: Tables, index: Dict<string, Location>, target: string, reqs: seq<Request>)
    requires index.Has(target)
    ensures ServeRequests(tables, index, target, reqs).allMet <==>
      forall i :: 0 <= i < |reqs| ==> RequestMet(ServeRequests(tables, index, target, reqs[..i]).tables, index, target, reqs[i])
  {
    if ServeRequests(tables, index, target, reqs).allMet {
      forall i | 0 <= i < |reqs| ensures RequestMet(ServeRequests(tables, index, target, reqs[..i]).tables, index, target, reqs[i]) {
        if !RequestMet(ServeRequests(tables, index, target, reqs[..i]).tables, index, target, reqs[i]) {
          UnmetClears(tables, index, target, reqs, i);
        }
      }
    } else {
      var i := FirstUnmet(tables, index, target, reqs);
    }
  }

  // ---------------------------------------------------------------------------
  // The dicts

  /** The same services, each dict with the same keys in the same order. */
  lemma {:induction false} ServeRequestsKeys(tables: Tables, index: Dict<string, Location>, target: string, reqs: seq<Request>)
    requires index.Has(target)
    ensures ServeRequests(tables, index, target, reqs).tables.Keys == tables.Keys
    ensures forall s :: s in tables ==> ServeRequests(tables, index, target, reqs).tables[s].Keys() == tables[s].Keys()
    decreases |reqs|
  {
    if reqs != [] {
      var n := |reqs| - 1;
      ServeRequestsKeys(tables, index, target, reqs[..n]);
      var prev := ServeRequests(tables, index, target, reqs[..n]);
      var r := reqs[n];
      if !Skipped(prev.tables, r) {
        ServeConserves(r.kind.value, target, prev.tables[r.kind.value], index, r.Quantity());
      }
    }
  }

  /**
   * A count that was zero or negative is never touched; a positive one only
   * falls, and never below zero.
   */
  lemma {:induction false} ServeRequestsCounts(tables: Tables, index: Dict<string, Location>, target: string, reqs: seq<Request>, s: string, k: string)
    requires index.Has(target)
    requires s in tables && tables[s].Has(k)
    ensures s in ServeRequests(tables, index, target, reqs).tables
    ensures ServeRequests(tables, index, target, reqs).tables[s].Has(k)
    ensures tables[s].Get(k) <= 0 ==> ServeRequests(tables, index, target, reqs).tables[s].Get(k) == tables[s].Get(k)
    ensures tables[s].Get(k) > 0 ==> 0 <= ServeRequests(tables, index, target, reqs).tables[s].Get(k) <= tables[s].Get(k)
    decreases |reqs|
  {
    ServeRequestsKeys(tables, index, target, reqs);
    if reqs != [] {
      var n := |reqs| - 1;
      ServeRequestsCounts(tables, index, target, reqs[..n], s, k);
      var prev := ServeRequests(tables, index, target, reqs[..n]);
      var r := reqs[n];
      if !Skipped(prev.tables, r) && r.kind.value == s {
        ServeCounts(s, target, prev.tables[s], index, r.Quantity(), k);
      }
    }
  }

  /** Counts that start non-negative stay non-negative. */
  lemma ServeRequestsNonNegative(tables: Tables, index: Dict<string, Location>, target: string, reqs: seq<Request>)
    requires index.Has(target)
    requires NonNegativeCounts(tables)
    ensures NonNegativeCounts(ServeRequests(tables, index, target, reqs).tables)
  {
    var after := ServeRequests(tables, index, target, reqs).tables;
    ServeRequestsKeys(tables, index, target, reqs);
    forall s, k | s in after && after[s].Has(k) ensures after[s].Get(k) >= 0 {
      assert after[s].Keys() == tables[s].Keys();
      ElemsIn(tables[s].Keys());
      ElemsIn(after[s].Keys());
      ServeRequestsCounts(tables, index, target, reqs, s, k);
    }
  }

  // ---------------------------------------------------------------------------
  // Conservation

  lemma {:induction false} SentAppend(a: seq<DispatchOrder>, b: seq<DispatchOrder>, service: string)
    ensures SentOf(a + b, service) == SentOf(a, service) + SentOf(b, service)
    decreases |a|
  {
    if a == [] {
      assert a + b == b;
    } else {
      assert (a + b)[0] == a[0];
      assert (a + b)[1..] == a[1..] + b;
      SentAppend(a[1..], b, service);
    }
  }

  lemma {:induction false} SentAll(orders: seq<DispatchOrder>, service: string)
    requires forall o :: o in orders ==> o.service == service
    ensures SentOf(orders, service) == Sum(OrderCounts(orders))
    decreases |orders|
  {
    if orders != [] {
      assert orders[0] in orders;
      assert forall o :: o in orders[1..] ==> o in orders;
      SentAll(orders[1..], service);
      assert OrderCounts(orders)[1..] == OrderCounts(orders[1..]);
    }
  }

  lemma {:induction false} SentNone(orders: seq<DispatchOrder>, service: string)
    requires forall o :: o in orders ==> o.service != service
    ensures SentOf(orders, service) == 0
    decreases |orders|
  {
    if orders != [] {
      assert orders[0] in orders;
      assert forall o :: o in orders[1..] ==> o in orders;
      SentNone(orders[1..], service);
    }
  }

  /** For every service, the units left plus the units dispatched are the units it started with. */
  lemma {:induction false} ServeRequestsConserves(tables: Tables, index: Dict<string, Location>, target: string, reqs: seq<Request>, s: string)
    requires index.Has(target)
    requires s in tables
    ensures s in ServeRequests(tables, index, target, reqs).tables
    ensures TotalUnits(tables[s]) ==
      TotalUnits(ServeRequests(tables, index, target, reqs).tables[s]) + SentOf(ServeRequests(tables, index, target, reqs).orders, s)
    decreases |reqs|
  {
    ServeRequestsKeys(tables, index, target, reqs);
    if reqs != [] {
      var n := |reqs| - 1;
      ServeRequestsConserves(tables, index, target, reqs[..n], s);
      var prev := ServeRequests(tables, index, target, reqs[..n]);
      var r := reqs[n];
      if !Skipped(prev.tables, r) {
        var service := r.kind.value;
        var a := Serve(service, target, prev.tables[service], index, r.Quantity());
        SentAppend(prev.orders, a.orders, s);
        ServeOrdersFor(service, target, prev.tables[service], index, r.Quantity());
        if service == s {
          ServeConserves(service, target, prev.tables[service], index, r.Quantity());
          SentAll(a.orders, s);
        } else {
          SentNone(a.orders, s);
        }
      }
    }
  }
}
