/**
 * The greedy nearest-first allocation shared by every variant: walk the
 * ranked candidates, take `min(count, remaining)` from each, subtract it from
 * the city's count and emit one dispatch, and stop as soon as nothing
 * remains to be sent.
 *
 * `Takes` is the reference definition of what each candidate gives; `Serve`
 * is the whole allocation for one request; `Walk` is the loop that the
 * variants with a private availability dict run.
 */
module Greedy {
  import opened PyDict
  import opened Records
  import opened SeqSum
  import opened Ranking

  function Min(a: int, b: int): int {
    if a <= b then a else b
  }

  function Max(a: int, b: int): int {
    if a >= b then a else b
  }

  /** One iteration: nothing once `remaining` has reached zero (the `break`), otherwise `min(count, remaining)`. */
  function Step(count: int, remaining: int): (r: int)
    ensures remaining <= 0 ==> r == 0
    ensures remaining > 0 ==> r <= count && r <= remaining && (r == count || r == remaining)
  {
    if remaining <= 0 then 0 else Min(count, remaining)
  }

  /**
   * What each candidate, in ranked order, gives towards `need`; the walk's
   * `remaining` before candidate `i` is `need - Sum(Takes(counts, need)[..i])`.
   */
  function Takes(counts: seq<int>, need: int): (t: seq<int>)
    ensures |t| == |counts|
    decreases |counts|
  {
    if counts == [] then []
    else
      var front := Takes(counts[..|counts| - 1], need);
      front + [Step(counts[|counts| - 1], need - Sum(front))]
  }

  predicate Positive(s: seq<int>) {
    forall i :: 0 <= i < |s| ==> s[i] > 0
  }

  predicate Distinct(s: seq<string>) {
    forall i, j :: 0 <= i < j < |s| ==> s[i] != s[j]
  }

  /** The counts after `available[city] -= dispatch_count` for each candidate that gave something. */
  function DeductCounts(m: map<string, int>, cities: seq<string>, takes: seq<int>): (r: map<string, int>)
    requires |cities| == |takes|
    requires forall i :: 0 <= i < |cities| ==> cities[i] in m
    ensures r.Keys == m.Keys
    decreases |cities|
  {
    if cities == [] then m
    else
      var n := |cities| - 1;
      var prev := DeductCounts(m, cities[..n], takes[..n]);
      if takes[n] == 0 then prev
      else prev[cities[n] := prev[cities[n]] - takes[n]]
  }

  /** The availability dict after the walk: same keys in the same order, counts deducted. */
  function Deduct(d: Dict<string, int>, cities: seq<string>, takes: seq<int>): (r: Dict<string, int>)
    requires |cities| == |takes|
    requires forall i :: 0 <= i < |cities| ==> d.Has(cities[i])
    ensures r.Keys() == d.Keys()
    ensures r.values.Keys == d.values.Keys
  {
    assert forall i :: 0 <= i < |cities| ==> cities[i] in d.values by {
      forall i | 0 <= i < |cities| ensures cities[i] in d.values {
        assert d.Has(cities[i]);
      }
    }
    Table(d.order, DeductCounts(d.values, cities, takes))
  }

  /** The dispatches sent, one per candidate that gave something, in walk order. */
  function Orders(service: string, target: string, cities: seq<string>, takes: seq<int>): seq<DispatchOrder>
    requires |cities| == |takes|
    decreases |cities|
  {
    if cities == [] then []
    else
      var n := |cities| - 1;
      var prev := Orders(service, target, cities[..n], takes[..n]);
      if takes[n] == 0 then prev
      else prev + [DispatchOrder(service, cities[n], target, takes[n])]
  }

  function TotalOf(items: seq<(string, int)>): int
    decreases |items|
  {
    if items == [] then 0 else items[0].1 + TotalOf(items[1..])
  }

  /** All the units an availability dict records. */
  function TotalUnits(d: Dict<string, int>): int {
    TotalOf(d.Items())
  }

  function OrderCounts(orders: seq<DispatchOrder>): (cs: seq<int>)
    ensures |cs| == |orders|
    ensures forall i :: 0 <= i < |orders| ==> cs[i] == orders[i].count
  {
    seq(|orders|, i requires 0 <= i < |orders| => orders[i].count)
  }

  /** The outcome of one request: the availability afterwards, what is still missing, and the dispatches. */
  datatype Allocation = Allocation(after: Dict<string, int>, remaining: int, orders: seq<DispatchOrder>)

  /** The reference allocation of `need` units of `service` to `target`. */
  function Serve(service: string, target: string, avail: Dict<string, int>, index: Dict<string, Location>, need: int): Allocation
    requires index.Has(target)
  {
    var cands := Rank(avail, index, index.Get(target));
    RankInAvail(avail, index, index.Get(target));
    var t := Takes(Counts(cands), need);
    Allocation(Deduct(avail, Cities(cands), t), need - Sum(t), Orders(service, target, Cities(cands), t))
  }

  lemma RankInAvail(avail: Dict<string, int>, index: Dict<string, Location>, target: Location)
    ensures forall i :: 0 <= i < |Rank(avail, index, target)| ==>
      avail.Has(Rank(avail, index, target)[i].city) && Rank(avail, index, target)[i].count > 0
  {
    var r := Rank(avail, index, target);
    forall i | 0 <= i < |r| ensures avail.Has(r[i].city) && r[i].count > 0 {
      RankSound(avail, index, target, r[i]);
    }
  }

  // ---------------------------------------------------------------------------
  // The takes

  lemma {:induction false} TakesPrefix(counts: seq<int>, need: int, k: nat)
    requires k <= |counts|
    ensures Takes(counts[..k], need) == Takes(counts, need)[..k]
    decreases |counts|
  {
    if k < |counts| {
      var n := |counts| - 1;
      assert counts[..n][..k] == counts[..k];
      TakesPrefix(counts[..n], need, k);
    } else {
      assert counts[..k] == counts;
    }
  }

  /** Candidate `i` gives `Step` of its count and of what the earlier ones left. */
  lemma TakesAt(counts: seq<int>, need: int, i: nat)
    requires i < |counts|
    ensures Takes(counts, need)[i] == Step(counts[i], need - Sum(Takes(counts, need)[..i]))
  {
    var t := Takes(counts, need);
    TakesPrefix(counts, need, i + 1);
    TakesPrefix(counts, need, i);
    assert counts[..i + 1][..i] == counts[..i];
    assert t[..i + 1][i] == t[i];
    assert t[..i + 1][..i] == t[..i];
  }

  /** Each candidate gives between nothing and all it has. */
  lemma {:induction false} TakesBounds(counts: seq<int>, need: int)
    requires NonNegative(counts)
    ensures forall i :: 0 <= i < |counts| ==> 0 <= Takes(counts, need)[i] <= counts[i]
    decreases |counts|
  {
    if counts != [] {
      var n := |counts| - 1;
      assert NonNegative(counts[..n]) by {
        forall i | 0 <= i < n ensures counts[..n][i] >= 0 {
          assert counts[..n][i] == counts[i];
        }
      }
      TakesBounds(counts[..n], need);
    }
  }

  /** The candidates give, in total, the need or everything they have, whichever is smaller. */
  lemma {:induction false} TakesTotal(counts: seq<int>, need: int)
    requires NonNegative(counts)
    ensures Sum(Takes(counts, need)) == Min(Max(need, 0), Sum(counts))
    decreases |counts|
  {
    if counts != [] {
      var n := |counts| - 1;
      var front := Takes(counts[..n], need);
      assert NonNegative(counts[..n]) by {
        forall i | 0 <= i < n ensures counts[..n][i] >= 0 {
          assert counts[..n][i] == counts[i];
        }
      }
      TakesTotal(counts[..n], need);
      SumNonNegative(counts[..n]);
      SumSnoc(front, Step(counts[n], need - Sum(front)));
      assert counts == counts[..n] + [counts[n]];
      SumSnoc(counts[..n], counts[n]);
    } else {
      assert Sum(counts) == 0;
    }
  }

  /** Once nothing remains after candidate `i - 1`, no later candidate gives anything. */
  lemma TakesStop(counts: seq<int>, need: int, i: nat)
    requires NonNegative(counts)
    requires i <= |counts|
    requires need - Sum(Takes(counts, need)[..i]) <= 0
    ensures forall k :: i <= k < |counts| ==> Takes(counts, need)[k] == 0
  {
    var t := Takes(counts, need);
    TakesBounds(counts, need);
    forall k | i <= k < |counts| ensures t[k] == 0 {
      TakesAt(counts, need, k);
      SumSplit(t[..k], i);
      assert t[..k][..i] == t[..i];
      assert NonNegative(t[..k][i..]) by {
        forall m | 0 <= m < |t[..k][i..]| ensures t[..k][i..][m] >= 0 {
          assert t[..k][i..][m] == t[i + m];
        }
      }
      SumNonNegative(t[..k][i..]);
    }
  }

  /**
   * Nearest first: a candidate gives something only if every nearer candidate
   * gave all it had.
   */
  lemma TakesNearerFirst(counts: seq<int>, need: int, i: nat, j: nat)
    requires Positive(counts)
    requires i < j < |counts|
    requires Takes(counts, need)[j] > 0
    ensures Takes(counts, need)[i] == counts[i]
  {
    var t := Takes(counts, need);
    assert NonNegative(counts);
    TakesBounds(counts, need);
    TakesAt(counts, need, i);
    TakesAt(counts, need, j);
    var between := t[i + 1..j];
    assert t[..j] == t[..i] + [t[i]] + between;
    SumAppend(t[..i] + [t[i]], between);
    SumSnoc(t[..i], t[i]);
    assert NonNegative(between) by {
      forall m | 0 <= m < |between| ensures between[m] >= 0 {
        assert between[m] == t[i + 1 + m];
      }
    }
    SumNonNegative(between);
  }

  // ---------------------------------------------------------------------------
  // The availability after the walk

  /** Replacing one entry changes the total by the difference. */
  lemma {:induction false} TotalOfUpdate(items: seq<(string, int)>, i: nat, p: (string, int))
    requires i < |items|
    ensures TotalOf(items[i := p]) == TotalOf(items) - items[i].1 + p.1
    decreases i
  {
    var r := items[i := p];
    if i == 0 {
      assert r[1..] == items[1..];
    } else {
      assert r[1..] == items[1..][i - 1 := p];
      TotalOfUpdate(items[1..], i - 1, p);
    }
  }

  /** Overwriting a key's count changes the recorded total by the difference. */
  lemma PutTotal(d: Dict<string, int>, k: string, v: int)
    requires d.Has(k)
    ensures d.Put(k, v).Valid() && TotalOf(d.Put(k, v).Items()) == TotalUnits(d) - d.Get(k) + v
  {
    PutValid(d, k, v);
    var r: Dict<string, int> := d.Put(k, v);
    ElemsIn(d.order);
    ItemsAt(d);
    ItemsAt(r);
    assert k in d.order;
    var i :| 0 <= i < |d.order| && d.order[i] == k;
    var updated := d.Items()[i := (k, v)];
    forall j | 0 <= j < |d.order| ensures r.Items()[j] == updated[j] {
      if j < i {
        NoDupAt(d.order, j, i);
      } else if j > i {
        NoDupAt(d.order, i, j);
      }
    }
    assert r.Items() == updated;
    TotalOfUpdate(d.Items(), i, (k, v));
  }

  /** The last candidate of the walk, unfolded. */
  lemma DeductLast(d: Dict<string, int>, cities: seq<string>, takes: seq<int>)
    requires |cities| == |takes| > 0
    requires forall i :: 0 <= i < |cities| ==> d.Has(cities[i])
    ensures Deduct(d, cities, takes) ==
      var prev := Deduct(d, cities[..|cities| - 1], takes[..|takes| - 1]);
      if takes[|takes| - 1] == 0 then prev
      else prev.Put(cities[|cities| - 1], prev.Get(cities[|cities| - 1]) - takes[|takes| - 1])
  {
  }

  /** One more candidate of the walk, on prefixes. */
  lemma DeductStep(d: Dict<string, int>, cities: seq<string>, takes: seq<int>, i: nat)
    requires |cities| == |takes|
    requires i < |cities|
    requires forall m :: 0 <= m < |cities| ==> d.Has(cities[m])
    requires takes[i] != 0
    ensures forall m :: 0 <= m < i ==> d.Has(cities[..i][m])
    ensures Deduct(d, cities[..i], takes[..i]).Has(cities[i])
    ensures Deduct(d, cities[..i + 1], takes[..i + 1]) ==
      var prev := Deduct(d, cities[..i], takes[..i]);
      prev.Put(cities[i], prev.Get(cities[i]) - takes[i])
  {
    var cs := cities[..i + 1];
    var ts := takes[..i + 1];
    assert cs[..i] == cities[..i] && ts[..i] == takes[..i];
    assert cs[i] == cities[i] && ts[i] == takes[i];
    forall m | 0 <= m < i + 1 ensures d.Has(cs[m]) {
      assert cs[m] == cities[m];
    }
  }

  lemma OrdersStep(service: string, target: string, cities: seq<string>, takes: seq<int>, i: nat)
    requires |cities| == |takes|
    requires i < |cities|
    requires takes[i] != 0
    ensures Orders(service, target, cities[..i + 1], takes[..i + 1]) ==
      Orders(service, target, cities[..i], takes[..i]) + [DispatchOrder(service, cities[i], target, takes[i])]
  {
    var cs := cities[..i + 1];
    var ts := takes[..i + 1];
    assert cs[..i] == cities[..i] && ts[..i] == takes[..i];
    assert cs[i] == cities[i] && ts[i] == takes[i];
  }

  lemma OrdersLast(service: string, target: string, cities: seq<string>, takes: seq<int>)
    requires |cities| == |takes| > 0
    ensures Orders(service, target, cities, takes) ==
      var prev := Orders(service, target, cities[..|cities| - 1], takes[..|takes| - 1]);
      if takes[|takes| - 1] == 0 then prev
      else prev + [DispatchOrder(service, cities[|cities| - 1], target, takes[|takes| - 1])]
  {
  }

  /** Every unit the walk takes leaves the dict. */
  lemma {:induction false} DeductTotal(d: Dict<string, int>, cities: seq<string>, takes: seq<int>)
    requires |cities| == |takes|
    requires forall i :: 0 <= i < |cities| ==> d.Has(cities[i])
    ensures TotalUnits(Deduct(d, cities, takes)) == TotalUnits(d) - Sum(takes)
    decreases |cities|
  {
    if cities != [] {
      var n := |cities| - 1;
      var prev := Deduct(d, cities[..n], takes[..n]);
      DeductTotal(d, cities[..n], takes[..n]);
      DeductLast(d, cities, takes);
      SumLast(takes);
      if takes[n] != 0 {
        PutTotal(prev, cities[n], prev.Get(cities[n]) - takes[n]);
      }
    }
  }

  /** With distinct cities, each loses exactly what it gave and every other key keeps its count. */
  lemma {:induction false} DeductAt(d: Dict<string, int>, cities: seq<string>, takes: seq<int>)
    requires |cities| == |takes|
    requires forall i :: 0 <= i < |cities| ==> d.Has(cities[i])
    requires Distinct(cities)
    ensures forall i :: 0 <= i < |cities| ==> Deduct(d, cities, takes).Get(cities[i]) == d.Get(cities[i]) - takes[i]
    ensures forall k :: d.Has(k) && k !in cities ==> Deduct(d, cities, takes).Get(k) == d.Get(k)
    decreases |cities|
  {
    if cities != [] {
      var n := |cities| - 1;
      var prev := Deduct(d, cities[..n], takes[..n]);
      assert Distinct(cities[..n]);
      DeductAt(d, cities[..n], takes[..n]);
      assert forall i :: 0 <= i < n ==> cities[..n][i] == cities[i] && takes[..n][i] == takes[i];
      assert cities[n] !in cities[..n];
      forall k | d.Has(k) && k !in cities
        ensures Deduct(d, cities, takes).Get(k) == d.Get(k)
      {
        assert k !in cities[..n];
      }
    }
  }

  /** A key the walk does not visit keeps its count. */
  lemma {:induction false} DeductCountsOther(m: map<string, int>, cities: seq<string>, takes: seq<int>, k: string)
    requires |cities| == |takes|
    requires forall i :: 0 <= i < |cities| ==> cities[i] in m
    requires k in m && k !in cities
    ensures DeductCounts(m, cities, takes)[k] == m[k]
    decreases |cities|
  {
    if cities != [] {
      var n := |cities| - 1;
      assert k != cities[n];
      assert forall i :: 0 <= i < n ==> cities[..n][i] == cities[i];
      DeductCountsOther(m, cities[..n], takes[..n], k);
    }
  }

  lemma DeductOther(d: Dict<string, int>, cities: seq<string>, takes: seq<int>, k: string)
    requires |cities| == |takes|
    requires forall i :: 0 <= i < |cities| ==> d.Has(cities[i])
    requires d.Has(k) && k !in cities
    ensures Deduct(d, cities, takes).Has(k) && Deduct(d, cities, takes).Get(k) == d.Get(k)
  {
    assert forall i :: 0 <= i < |cities| ==> cities[i] in d.values by {
      forall i | 0 <= i < |cities| ensures cities[i] in d.values {
        assert d.Has(cities[i]);
      }
    }
    DeductCountsOther(d.values, cities, takes, k);
  }

  /** The walk visits each city once: when it reaches the `i`-th, that city's count is still untouched. */
  lemma UntouchedAhead(d: Dict<string, int>, cities: seq<string>, takes: seq<int>, i: nat)
    requires |cities| == |takes|
    requires i < |cities|
    requires forall m :: 0 <= m < |cities| ==> d.Has(cities[m])
    requires Distinct(cities)
    ensures forall m :: 0 <= m < i ==> d.Has(cities[..i][m])
    ensures Deduct(d, cities[..i], takes[..i]).Has(cities[i])
    ensures Deduct(d, cities[..i], takes[..i]).Get(cities[i]) == d.Get(cities[i])
  {
    assert forall m :: 0 <= m < i ==> cities[..i][m] == cities[m];
    assert cities[i] !in cities[..i];
    DeductOther(d, cities[..i], takes[..i], cities[i]);
  }

  /** Candidates past a point where nothing more was taken change nothing. */
  lemma {:induction false} ZeroTail(service: string, target: string, d: Dict<string, int>, cities: seq<string>, takes: seq<int>, i: nat)
    requires |cities| == |takes|
    requires i <= |cities|
    requires forall m :: 0 <= m < |cities| ==> d.Has(cities[m])
    requires forall k :: i <= k < |takes| ==> takes[k] == 0
    ensures Deduct(d, cities, takes) == Deduct(d, cities[..i], takes[..i])
    ensures Orders(service, target, cities, takes) == Orders(service, target, cities[..i], takes[..i])
    ensures Sum(takes) == Sum(takes[..i])
    decreases |cities| - i
  {
    if i == |cities| {
      assert cities[..i] == cities && takes[..i] == takes;
    } else {
      var n := |cities| - 1;
      assert cities[..n][..i] == cities[..i] && takes[..n][..i] == takes[..i];
      ZeroTail(service, target, d, cities[..n], takes[..n], i);
      SumLast(takes);
    }
  }

  // ---------------------------------------------------------------------------
  // The dispatches

  /** The dispatches carry, between them, everything taken. */
  lemma {:induction false} OrdersUnits(service: string, target: string, cities: seq<string>, takes: seq<int>)
    requires |cities| == |takes|
    ensures Sum(OrderCounts(Orders(service, target, cities, takes))) == Sum(takes)
    decreases |cities|
  {
    if cities != [] {
      var n := |cities| - 1;
      var prev := Orders(service, target, cities[..n], takes[..n]);
      OrdersUnits(service, target, cities[..n], takes[..n]);
      assert takes == takes[..n] + [takes[n]];
      SumSnoc(takes[..n], takes[n]);
      if takes[n] != 0 {
        var o := DispatchOrder(service, cities[n], target, takes[n]);
        assert OrderCounts(prev + [o]) == OrderCounts(prev) + [takes[n]];
        SumSnoc(OrderCounts(prev), takes[n]);
      }
    }
  }

  /**
   * When the candidates that give something come first, the dispatches go to
   * exactly those candidates, in walk order.
   */
  lemma {:induction false} OrdersShape(service: string, target: string, cities: seq<string>, takes: seq<int>)
    requires |cities| == |takes|
    requires NonNegative(takes)
    requires forall i, j :: 0 <= i < j < |takes| && takes[j] > 0 ==> takes[i] > 0
    ensures |Orders(service, target, cities, takes)| <= |takes|
    ensures forall k :: 0 <= k < |Orders(service, target, cities, takes)| ==>
      takes[k] > 0 && Orders(service, target, cities, takes)[k] == DispatchOrder(service, cities[k], target, takes[k])
    ensures forall k :: |Orders(service, target, cities, takes)| <= k < |takes| ==> takes[k] == 0
    ensures |takes| > 0 && takes[|takes| - 1] > 0 ==> |Orders(service, target, cities, takes)| == |takes|
    decreases |cities|
  {
    if cities != [] {
      var n := |cities| - 1;
      var prev := Orders(service, target, cities[..n], takes[..n]);
      assert forall i :: 0 <= i < n ==> takes[..n][i] == takes[i] && cities[..n][i] == cities[i];
      OrdersShape(service, target, cities[..n], takes[..n]);
      if takes[n] != 0 && n > 0 {
        assert takes[n - 1] > 0;
      }
    }
  }

  /** Every dispatch of a walk is for its service and its target. */
  lemma {:induction false} OrdersFor(service: string, target: string, cities: seq<string>, takes: seq<int>)
    requires |cities| == |takes|
    ensures forall o :: o in Orders(service, target, cities, takes) ==> o.service == service && o.target == target
    decreases |cities|
  {
    if cities != [] {
      var n := |cities| - 1;
      OrdersFor(service, target, cities[..n], takes[..n]);
    }
  }

  // ---------------------------------------------------------------------------
  // One request

  /**
   * What is still missing after a request for `need > 0` units: the shortfall
   * of all eligible units, so the request is met exactly when they suffice.
   */
  lemma ServeRemaining(service: string, target: string, avail: Dict<string, int>, index: Dict<string, Location>, need: int)
    requires index.Has(target)
    requires need > 0
    ensures Serve(service, target, avail, index, need).remaining == Max(0, need - EligibleUnits(avail.Items(), index))
    ensures Serve(service, target, avail, index, need).remaining == 0 <==> EligibleUnits(avail.Items(), index) >= need
  {
    var cands := Rank(avail, index, index.Get(target));
    RankInAvail(avail, index, index.Get(target));
    RankUnits(avail, index, index.Get(target));
    assert NonNegative(Counts(cands));
    TakesTotal(Counts(cands), need);
  }

  /** No unit is lost or created: what leaves the dict is what the dispatches carry. */
  lemma ServeConserves(service: string, target: string, avail: Dict<string, int>, index: Dict<string, Location>, need: int)
    requires index.Has(target)
    ensures TotalUnits(avail) == TotalUnits(Serve(service, target, avail, index, need).after) + (need - Serve(service, target, avail, index, need).remaining)
    ensures Sum(OrderCounts(Serve(service, target, avail, index, need).orders)) == need - Serve(service, target, avail, index, need).remaining
    ensures Serve(service, target, avail, index, need).after.Keys() == avail.Keys()
  {
    var cands := Rank(avail, index, index.Get(target));
    RankInAvail(avail, index, index.Get(target));
    var t := Takes(Counts(cands), need);
    DeductTotal(avail, Cities(cands), t);
    OrdersUnits(service, target, Cities(cands), t);
  }

  /** The dispatches of a request are all for its service and its target. */
  lemma ServeOrdersFor(service: string, target: string, avail: Dict<string, int>, index: Dict<string, Location>, need: int)
    requires index.Has(target)
    ensures forall o :: o in Serve(service, target, avail, index, need).orders ==> o.service == service && o.target == target
  {
    var cands := Rank(avail, index, index.Get(target));
    RankInAvail(avail, index, index.Get(target));
    OrdersFor(service, target, Cities(cands), Takes(Counts(cands), need));
  }

  /**
   * Only eligible cities lose units, none ends below zero, and a city that
   * had none or has no known location keeps its count.
   */
  lemma ServeCounts(service: string, target: string, avail: Dict<string, int>, index: Dict<string, Location>, need: int, k: string)
    requires index.Has(target)
    requires avail.Has(k)
    ensures Serve(service, target, avail, index, need).after.Has(k)
    ensures avail.Get(k) <= 0 || !index.Has(k) ==> Serve(service, target, avail, index, need).after.Get(k) == avail.Get(k)
    ensures avail.Get(k) > 0 && index.Has(k) ==> 0 <= Serve(service, target, avail, index, need).after.Get(k) <= avail.Get(k)
  {
    var loc := index.Get(target);
    var cands := Rank(avail, index, loc);
    RankInAvail(avail, index, loc);
    RankDistinct(avail, index, loc);
    var t := Takes(Counts(cands), need);
    var after := Deduct(avail, Cities(cands), t);
    assert Distinct(Cities(cands));
    DeductAt(avail, Cities(cands), t);
    if k in Cities(cands) {
      var i :| 0 <= i < |cands| && Cities(cands)[i] == k;
      RankSound(avail, index, loc, cands[i]);
      assert NonNegative(Counts(cands));
      TakesBounds(Counts(cands), need);
    } else if avail.Get(k) > 0 && index.Has(k) {
      RankComplete(avail, index, loc, k);
    }
  }

  /**
   * The dispatches go to the nearest candidates, in ranked order, each with a
   * positive count no larger than the city had.
   */
  lemma ServeNearestFirst(service: string, target: string, avail: Dict<string, int>, index: Dict<string, Location>, need: int)
    requires index.Has(target)
    ensures |Serve(service, target, avail, index, need).orders| <= |Rank(avail, index, index.Get(target))|
    ensures forall k :: 0 <= k < |Serve(service, target, avail, index, need).orders| ==>
      var o := Serve(service, target, avail, index, need).orders[k];
      var c := Rank(avail, index, index.Get(target))[k];
      o.service == service && o.target == target && o.source == c.city && 0 < o.count <= c.count
  {
    var cands := Rank(avail, index, index.Get(target));
    RankInAvail(avail, index, index.Get(target));
    ServeShape(service, target, cands, need);
  }

  /** Every dispatch but the last empties its city: the walk moves on only once a city has nothing left. */
  lemma ServeEmptiesNearer(service: string, target: string, avail: Dict<string, int>, index: Dict<string, Location>, need: int)
    requires index.Has(target)
    ensures |Serve(service, target, avail, index, need).orders| <= |Rank(avail, index, index.Get(target))|
    ensures forall k :: 0 <= k < |Serve(service, target, avail, index, need).orders| - 1 ==>
      Serve(service, target, avail, index, need).orders[k].count == Rank(avail, index, index.Get(target))[k].count
  {
    var cands := Rank(avail, index, index.Get(target));
    RankInAvail(avail, index, index.Get(target));
    ShapeEmpties(service, target, cands, need);
  }

  lemma ShapeEmpties(service: string, target: string, cands: seq<Candidate>, need: int)
    requires forall i :: 0 <= i < |cands| ==> cands[i].count > 0
    ensures |Orders(service, target, Cities(cands), Takes(Counts(cands), need))| <= |cands|
    ensures forall k :: 0 <= k < |Orders(service, target, Cities(cands), Takes(Counts(cands), need))| - 1 ==>
      Orders(service, target, Cities(cands), Takes(Counts(cands), need))[k].count == cands[k].count
  {
    ServeShape(service, target, cands, need);
    var counts := Counts(cands);
    var t := Takes(counts, need);
    var orders := Orders(service, target, Cities(cands), t);
    if |orders| > 0 {
      var last := |orders| - 1;
      assert t[last] > 0;
      forall k | 0 <= k < last ensures orders[k].count == cands[k].count {
        TakesNearerFirst(counts, need, k, last);
      }
    }
  }

  /** The shape of the dispatches over a positive candidate list. */
  lemma ServeShape(service: string, target: string, cands: seq<Candidate>, need: int)
    requires forall i :: 0 <= i < |cands| ==> cands[i].count > 0
    ensures |Orders(service, target, Cities(cands), Takes(Counts(cands), need))| <= |cands|
    ensures forall k :: 0 <= k < |Orders(service, target, Cities(cands), Takes(Counts(cands), need))| ==>
      Takes(Counts(cands), need)[k] > 0 &&
      Orders(service, target, Cities(cands), Takes(Counts(cands), need))[k] ==
        DispatchOrder(service, cands[k].city, target, Takes(Counts(cands), need)[k])
    ensures forall k :: 0 <= k < |cands| ==> Takes(Counts(cands), need)[k] <= cands[k].count
  {
    var counts := Counts(cands);
    var t := Takes(counts, need);
    assert NonNegative(counts);
    TakesBounds(counts, need);
    forall i, j | 0 <= i < j < |t| && t[j] > 0 ensures t[i] > 0 {
      TakesNearerFirst(counts, need, i, j);
    }
    OrdersShape(service, target, Cities(cands), t);
  }

  // ---------------------------------------------------------------------------
  // The loop

  /** One iteration of the walk while something remains: the next candidate gives `min(count, remaining)`. */
  lemma WalkStep(service: string, target: string, avail: Dict<string, int>, cities: seq<string>, counts: seq<int>, need: int, i: nat,
                 after: Dict<string, int>, remaining: int, orders: seq<DispatchOrder>, city: string, take: int)
    requires |cities| == |counts|
    requires i < |cities|
    requires Positive(counts)
    requires forall m :: 0 <= m < |cities| ==> avail.Has(cities[m])
    requires after == Deduct(avail, cities[..i], Takes(counts, need)[..i])
    requires remaining == need - Sum(Takes(counts, need)[..i])
    requires orders == Orders(service, target, cities[..i], Takes(counts, need)[..i])
    requires remaining > 0
    requires city == cities[i] && take == Min(counts[i], remaining)
    ensures after.Has(city)
    ensures after.Put(city, after.Get(city) - take) == Deduct(avail, cities[..i + 1], Takes(counts, need)[..i + 1])
    ensures remaining - take == need - Sum(Takes(counts, need)[..i + 1])
    ensures orders + [DispatchOrder(service, city, target, take)] == Orders(service, target, cities[..i + 1], Takes(counts, need)[..i + 1])
  {
    var t := Takes(counts, need);
    TakesAt(counts, need, i);
    DeductStep(avail, cities, t, i);
    OrdersStep(service, target, cities, t, i);
    SumPrefixStep(t, i);
  }

  /** Leaving the walk early, once nothing remains, changes nothing: no later candidate gives anything. */
  lemma WalkDone(service: string, target: string, avail: Dict<string, int>, cities: seq<string>, counts: seq<int>, need: int, i: nat)
    requires |cities| == |counts|
    requires i <= |cities|
    requires Positive(counts)
    requires forall m :: 0 <= m < |cities| ==> avail.Has(cities[m])
    requires i == |cities| || need - Sum(Takes(counts, need)[..i]) <= 0
    ensures Deduct(avail, cities, Takes(counts, need)) == Deduct(avail, cities[..i], Takes(counts, need)[..i])
    ensures Sum(Takes(counts, need)) == Sum(Takes(counts, need)[..i])
    ensures Orders(service, target, cities, Takes(counts, need)) == Orders(service, target, cities[..i], Takes(counts, need)[..i])
  {
    assert NonNegative(counts);
    if i < |cities| {
      TakesStop(counts, need, i);
    }
    ZeroTail(service, target, avail, cities, Takes(counts, need), i);
  }

  /**
   * The walk over a ranked candidate list, deducting from a private
   * availability dict as it goes (`available[city] -= dispatch_count`).
   */
  method Walk(service: string, target: string, cands: seq<Candidate>, avail: Dict<string, int>, need: int)
    returns (after: Dict<string, int>, remaining: int, orders: seq<DispatchOrder>)
    requires forall i :: 0 <= i < |cands| ==> avail.Has(cands[i].city) && cands[i].count > 0
    ensures after == Deduct(avail, Cities(cands), Takes(Counts(cands), need))
    ensures remaining == need - Sum(Takes(Counts(cands), need))
    ensures orders == Orders(service, target, Cities(cands), Takes(Counts(cands), need))
  {
    ghost var cities := Cities(cands);
    ghost var counts := Counts(cands);
    ghost var t := Takes(counts, need);
    after := avail;
    remaining := need;
    orders := [];
    var i := 0;
    while i < |cands|
      invariant 0 <= i <= |cands|
      invariant after == Deduct(avail, cities[..i], t[..i])
      invariant remaining == need - Sum(t[..i])
      invariant orders == Orders(service, target, cities[..i], t[..i])
    {
      if remaining <= 0 {
        break;
      }
      var city := cands[i].city;
      var take := Min(cands[i].count, remaining);
      assert city == cities[i] && cands[i].count == counts[i];
      WalkStep(service, target, avail, cities, counts, need, i, after, remaining, orders, city, take);
      PutValid(after, city, after.Get(city) - take);
      orders := orders + [DispatchOrder(service, city, target, take)];
      after := after.Put(city, after.Get(city) - take);
      remaining := remaining - take;
      i := i + 1;
    }
    WalkDone(service, target, avail, cities, counts, need, i);
  }
}
