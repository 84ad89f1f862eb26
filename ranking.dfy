/**
 * The candidate ranker: the cities with a positive count that are in the
 * location index, stably sorted by their distance to the target (Python's
 * `list.sort` is stable, so cities at equal distance keep dict order).
 */
module Ranking {
  import opened PyDict
  import opened Records
  import opened SeqSum

  /**
   * Squared straight-line distance between two locations.  `math.hypot` is
   * only ever compared, and on exact coordinates it orders pairs of points
   * exactly as its square does.
   */
  function Distance(a: Location, b: Location): (d: int)
    ensures d >= 0
    ensures d == 0 <==> a.latitude == b.latitude && a.longitude == b.longitude
  {
    var dy := a.latitude - b.latitude;
    var dx := a.longitude - b.longitude;
    dy * dy + dx * dx
  }

  /** A `(city, distance, count)` tuple of the candidate list. */
  datatype Candidate = Candidate(city: string, distance: int, count: int)

  /** The candidate-building comprehension, in `available.items()` order. */
  function Eligible(items: seq<(string, int)>, index: Dict<string, Location>, target: Location): seq<Candidate>
    decreases |items|
  {
    if items == [] then []
    else
      var rest := Eligible(items[1..], index, target);
      var city := items[0].0;
      var count := items[0].1;
      if count > 0 && index.Has(city) then [Candidate(city, Distance(index.Get(city), target), count)] + rest
      else rest
  }

  /** Places `c` before the first candidate that is not strictly nearer than it. */
  function Insert(c: Candidate, s: seq<Candidate>): seq<Candidate>
    decreases |s|
  {
    if s == [] || c.distance <= s[0].distance then [c] + s
    else [s[0]] + Insert(c, s[1..])
  }

  /** `candidates.sort(key=lambda candidate: candidate[1])` */
  function SortByDistance(s: seq<Candidate>): seq<Candidate>
    decreases |s|
  {
    if s == [] then [] else Insert(s[0], SortByDistance(s[1..]))
  }

  /** The ranked candidate list for a target. */
  function Rank(avail: Dict<string, int>, index: Dict<string, Location>, target: Location): seq<Candidate> {
    SortByDistance(Eligible(avail.Items(), index, target))
  }

  function Cities(cands: seq<Candidate>): (r: seq<string>)
    ensures |r| == |cands|
    ensures forall i :: 0 <= i < |cands| ==> r[i] == cands[i].city
  {
    seq(|cands|, i requires 0 <= i < |cands| => cands[i].city)
  }

  function Counts(cands: seq<Candidate>): (r: seq<int>)
    ensures |r| == |cands|
    ensures forall i :: 0 <= i < |cands| ==> r[i] == cands[i].count
  {
    seq(|cands|, i requires 0 <= i < |cands| => cands[i].count)
  }

  predicate SortedByDistance(s: seq<Candidate>) {
    forall i, j :: 0 <= i < j < |s| ==> s[i].distance <= s[j].distance
  }

  predicate DistinctCities(s: seq<Candidate>) {
    forall i, j :: 0 <= i < j < |s| ==> s[i].city != s[j].city
  }

  /** The candidates at distance `d`, in list order. */
  function AtDistance(s: seq<Candidate>, d: int): seq<Candidate>
    decreases |s|
  {
    if s == [] then []
    else if s[0].distance == d then [s[0]] + AtDistance(s[1..], d)
    else AtDistance(s[1..], d)
  }

  /** Total units the eligible cities hold, computed straight from the dict. */
  function EligibleUnits(items: seq<(string, int)>, index: Dict<string, Location>): int
    decreases |items|
  {
    if items == [] then 0
    else if items[0].1 > 0 && index.Has(items[0].0) then items[0].1 + EligibleUnits(items[1..], index)
    else EligibleUnits(items[1..], index)
  }

  // ---------------------------------------------------------------------------
  // The filter

  /** Every candidate comes from a pair of the dict with a positive count and an indexed city. */
  lemma {:induction false} EligibleSound(items: seq<(string, int)>, index: Dict<string, Location>, target: Location)
    ensures forall c :: c in Eligible(items, index, target) ==>
      c.count > 0 && index.Has(c.city) && c.distance == Distance(index.Get(c.city), target) && (c.city, c.count) in items
    decreases |items|
  {
    if items != [] {
      EligibleSound(items[1..], index, target);
      forall c | c in Eligible(items, index, target)
        ensures (c.city, c.count) in items
      {
        if c !in Eligible(items[1..], index, target) {
          assert (c.city, c.count) == items[0];
        } else {
          assert (c.city, c.count) in items[1..];
        }
      }
    }
  }

  /** Every pair with a positive count and an indexed city yields a candidate. */
  lemma {:induction false} EligibleComplete(items: seq<(string, int)>, index: Dict<string, Location>, target: Location, p: (string, int))
    requires p in items && p.1 > 0 && index.Has(p.0)
    ensures exists c :: c in Eligible(items, index, target) && c.city == p.0
    decreases |items|
  {
    if p == items[0] {
      var c := Candidate(p.0, Distance(index.Get(p.0), target), p.1);
      assert c in Eligible(items, index, target);
    } else {
      assert p in items[1..];
      EligibleComplete(items[1..], index, target, p);
      var c :| c in Eligible(items[1..], index, target) && c.city == p.0;
      assert c in Eligible(items, index, target);
    }
  }

  lemma {:induction false} EligibleSum(items: seq<(string, int)>, index: Dict<string, Location>, target: Location)
    ensures Sum(Counts(Eligible(items, index, target))) == EligibleUnits(items, index)
    decreases |items|
  {
    if items != [] {
      var rest := Eligible(items[1..], index, target);
      EligibleSum(items[1..], index, target);
      if items[0].1 > 0 && index.Has(items[0].0) {
        var c := Candidate(items[0].0, Distance(index.Get(items[0].0), target), items[0].1);
        assert Eligible(items, index, target) == [c] + rest;
        ConsCounts(c, rest);
      }
    }
  }

  lemma ConsCounts(c: Candidate, s: seq<Candidate>)
    ensures Sum(Counts([c] + s)) == c.count + Sum(Counts(s))
  {
    assert Counts([c] + s) == [c.count] + Counts(s);
    assert Counts([c] + s)[1..] == Counts(s);
  }

  lemma {:induction false} EligibleDistinct(items: seq<(string, int)>, index: Dict<string, Location>, target: Location)
    requires NoDup(KeysOf(items))
    ensures DistinctCities(Eligible(items, index, target))
    ensures forall c :: c in Eligible(items, index, target) ==> c.city in KeysOf(items)
    decreases |items|
  {
    if items != [] {
      var rest := Eligible(items[1..], index, target);
      EligibleDistinct(items[1..], index, target);
      KeysOfIndex(items);
      KeysOfIndex(items[1..]);
      forall c | c in rest ensures c.city != items[0].0 && c.city in KeysOf(items) {
        var j :| 0 <= j < |items| - 1 && KeysOf(items[1..])[j] == c.city;
        assert items[j + 1].0 == c.city;
        assert KeysOf(items)[j + 1] == c.city;
      }
      if items[0].1 > 0 && index.Has(items[0].0) {
        var c := Candidate(items[0].0, Distance(index.Get(items[0].0), target), items[0].1);
        assert KeysOf(items)[0] == c.city;
        DistinctCons(c, rest);
      }
    }
  }

  lemma DistinctCons(x: Candidate, t: seq<Candidate>)
    requires DistinctCities(t)
    requires forall y :: y in t ==> y.city != x.city
    ensures DistinctCities([x] + t)
  {
    var s := [x] + t;
    forall i, j | 0 <= i < j < |s| ensures s[i].city != s[j].city {
      if i == 0 {
        assert s[j] in t;
      } else {
        assert s[i] == t[i - 1] && s[j] == t[j - 1];
      }
    }
  }

  // ---------------------------------------------------------------------------
  // The stable sort

  lemma {:induction false} InsertPerm(c: Candidate, s: seq<Candidate>)
    ensures multiset(Insert(c, s)) == multiset(s) + multiset{c}
    decreases |s|
  {
    if !(s == [] || c.distance <= s[0].distance) {
      InsertPerm(c, s[1..]);
      assert s == [s[0]] + s[1..];
    }
  }

  lemma {:induction false} InsertUnits(c: Candidate, s: seq<Candidate>)
    ensures Sum(Counts(Insert(c, s))) == c.count + Sum(Counts(s))
    decreases |s|
  {
    if s == [] || c.distance <= s[0].distance {
      ConsCounts(c, s);
    } else {
      InsertUnits(c, s[1..]);
      ConsCounts(s[0], Insert(c, s[1..]));
      ConsCounts(s[0], s[1..]);
      assert s == [s[0]] + s[1..];
    }
  }

  lemma SortedCons(x: Candidate, t: seq<Candidate>)
    requires SortedByDistance(t)
    requires forall y :: y in t ==> x.distance <= y.distance
    ensures SortedByDistance([x] + t)
  {
    var r := [x] + t;
    forall i, j | 0 <= i < j < |r| ensures r[i].distance <= r[j].distance {
      if i == 0 {
        assert r[j] in t;
      } else {
        assert r[i] == t[i - 1] && r[j] == t[j - 1];
      }
    }
  }

  lemma {:induction false} InsertSorted(c: Candidate, s: seq<Candidate>)
    requires SortedByDistance(s)
    ensures SortedByDistance(Insert(c, s))
    decreases |s|
  {
    if s == [] || c.distance <= s[0].distance {
      forall y | y in s ensures c.distance <= y.distance {
        var j :| 0 <= j < |s| && s[j] == y;
        assert s[0].distance <= s[j].distance;
      }
      SortedCons(c, s);
    } else {
      var t := Insert(c, s[1..]);
      InsertSorted(c, s[1..]);
      InsertPerm(c, s[1..]);
      forall y | y in t ensures s[0].distance <= y.distance {
        assert y in multiset(t);
        if y != c {
          var j :| 0 <= j < |s| - 1 && s[1..][j] == y;
          assert s[j + 1] == y;
        }
      }
      SortedCons(s[0], t);
    }
  }

  /** Within one distance, inserting `c` keeps the order `[c] + s` gives. */
  lemma {:induction false} InsertStable(c: Candidate, s: seq<Candidate>, d: int)
    ensures AtDistance(Insert(c, s), d) == AtDistance([c] + s, d)
    decreases |s|
  {
    assert ([c] + s)[1..] == s;
    if !(s == [] || c.distance <= s[0].distance) {
      var t := Insert(c, s[1..]);
      InsertStable(c, s[1..], d);
      assert ([s[0]] + t)[1..] == t;
      assert ([c] + s[1..])[1..] == s[1..];
      assert s == [s[0]] + s[1..];
    }
  }

  lemma {:induction false} InsertDistinct(c: Candidate, s: seq<Candidate>)
    requires DistinctCities(s)
    requires forall y :: y in s ==> y.city != c.city
    ensures DistinctCities(Insert(c, s))
    decreases |s|
  {
    if s == [] || c.distance <= s[0].distance {
      DistinctCons(c, s);
    } else {
      var t := Insert(c, s[1..]);
      assert forall y :: y in s[1..] ==> y in s;
      InsertDistinct(c, s[1..]);
      InsertPerm(c, s[1..]);
      forall y | y in t ensures y.city != s[0].city {
        assert y in multiset(t);
        if y != c {
          var j :| 0 <= j < |s| - 1 && s[1..][j] == y;
          assert s[j + 1] == y;
        }
      }
      DistinctCons(s[0], t);
    }
  }

  /** The sort is a permutation. */
  lemma {:induction false} SortPerm(s: seq<Candidate>)
    ensures multiset(SortByDistance(s)) == multiset(s)
    decreases |s|
  {
    if s != [] {
      SortPerm(s[1..]);
      InsertPerm(s[0], SortByDistance(s[1..]));
      assert s == [s[0]] + s[1..];
    }
  }

  /** The sort orders by distance. */
  lemma {:induction false} SortSorted(s: seq<Candidate>)
    ensures SortedByDistance(SortByDistance(s))
    decreases |s|
  {
    if s != [] {
      SortSorted(s[1..]);
      InsertSorted(s[0], SortByDistance(s[1..]));
    }
  }

  /** The sort is stable: the candidates at each distance keep their order. */
  lemma {:induction false} SortStable(s: seq<Candidate>, d: int)
    ensures AtDistance(SortByDistance(s), d) == AtDistance(s, d)
    decreases |s|
  {
    if s != [] {
      var t := SortByDistance(s[1..]);
      SortStable(s[1..], d);
      InsertStable(s[0], t, d);
      assert ([s[0]] + t)[1..] == t;
    }
  }

  /** The sort neither adds nor loses units. */
  lemma {:induction false} SortUnits(s: seq<Candidate>)
    ensures Sum(Counts(SortByDistance(s))) == Sum(Counts(s))
    decreases |s|
  {
    if s != [] {
      SortUnits(s[1..]);
      InsertUnits(s[0], SortByDistance(s[1..]));
      ConsCounts(s[0], s[1..]);
      assert s == [s[0]] + s[1..];
    }
  }

  /** The sort keeps cities distinct. */
  lemma {:induction false} SortDistinct(s: seq<Candidate>)
    requires DistinctCities(s)
    ensures DistinctCities(SortByDistance(s))
    decreases |s|
  {
    if s != [] {
      var t := SortByDistance(s[1..]);
      assert DistinctCities(s[1..]) by {
        forall i, j | 0 <= i < j < |s| - 1 ensures s[1..][i].city != s[1..][j].city {
          assert s[1..][i] == s[i + 1] && s[1..][j] == s[j + 1];
        }
      }
      SortDistinct(s[1..]);
      SortPerm(s[1..]);
      forall y | y in t ensures y.city != s[0].city {
        assert y in multiset(s[1..]);
        var j :| 0 <= j < |s| - 1 && s[1..][j] == y;
        assert s[j + 1] == y;
      }
      InsertDistinct(s[0], t);
    }
  }

  // ---------------------------------------------------------------------------
  // The ranked list

  /**
   * The candidates are exactly the cities with a positive count that are in
   * the location index, each once, carrying its count and its distance.
   */
  lemma RankSound(avail: Dict<string, int>, index: Dict<string, Location>, target: Location, c: Candidate)
    requires c in Rank(avail, index, target)
    ensures avail.Has(c.city) && avail.Get(c.city) == c.count && c.count > 0
    ensures index.Has(c.city) && c.distance == Distance(index.Get(c.city), target)
  {
    var e := Eligible(avail.Items(), index, target);
    EligibleSound(avail.Items(), index, target);
    SortPerm(e);
    assert c in multiset(e);
    assert c in e;
    ItemsIn(avail, (c.city, c.count));
  }

  /** Every city with a positive count and a known location is a candidate. */
  lemma RankComplete(avail: Dict<string, int>, index: Dict<string, Location>, target: Location, k: string)
    requires avail.Has(k) && avail.Get(k) > 0 && index.Has(k)
    ensures k in Cities(Rank(avail, index, target))
  {
    var e := Eligible(avail.Items(), index, target);
    var r := Rank(avail, index, target);
    InItems(avail, k);
    EligibleComplete(avail.Items(), index, target, (k, avail.Get(k)));
    var c :| c in e && c.city == k;
    SortPerm(e);
    assert c in multiset(r);
    var j :| 0 <= j < |r| && r[j] == c;
    assert Cities(r)[j] == k;
  }

  /** No city is a candidate twice. */
  lemma RankDistinct(avail: Dict<string, int>, index: Dict<string, Location>, target: Location)
    ensures DistinctCities(Rank(avail, index, target))
  {
    ItemsKeys(avail);
    EligibleDistinct(avail.Items(), index, target);
    SortDistinct(Eligible(avail.Items(), index, target));
  }

  /** Nearer candidates come first; among equally distant ones, dict order is kept. */
  lemma RankOrder(avail: Dict<string, int>, index: Dict<string, Location>, target: Location)
    ensures SortedByDistance(Rank(avail, index, target))
    ensures forall d :: AtDistance(Rank(avail, index, target), d) == AtDistance(Eligible(avail.Items(), index, target), d)
    ensures multiset(Rank(avail, index, target)) == multiset(Eligible(avail.Items(), index, target))
  {
    var e := Eligible(avail.Items(), index, target);
    SortSorted(e);
    SortPerm(e);
    forall d ensures AtDistance(Rank(avail, index, target), d) == AtDistance(e, d) {
      SortStable(e, d);
    }
  }

  /** The ranked candidates hold, between them, every eligible unit. */
  lemma RankUnits(avail: Dict<string, int>, index: Dict<string, Location>, target: Location)
    ensures Sum(Counts(Rank(avail, index, target))) == EligibleUnits(avail.Items(), index)
  {
    EligibleSum(avail.Items(), index, target);
    SortUnits(Eligible(avail.Items(), index, target));
  }

  // ---------------------------------------------------------------------------
  // The candidate loop

  /** Appending a pair to the dict's items appends its candidate, if it has one. */
  lemma {:induction false} EligibleSnoc(items: seq<(string, int)>, p: (string, int), index: Dict<string, Location>, target: Location)
    ensures Eligible(items + [p], index, target) ==
      Eligible(items, index, target) + (if p.1 > 0 && index.Has(p.0) then [Candidate(p.0, Distance(index.Get(p.0), target), p.1)] else [])
    decreases |items|
  {
    if items == [] {
      assert items + [p] == [p];
      assert [p][1..] == [];
    } else {
      assert (items + [p])[0] == items[0];
      assert (items + [p])[1..] == items[1..] + [p];
      EligibleSnoc(items[1..], p, index, target);
    }
  }

  /**
   * The loop over `available.items()` that appends `(city, distance, count)`
   * for every city with units and a known location; it builds the same list
   * as the comprehension.
   */
  method CollectCandidates(items: seq<(string, int)>, index: Dict<string, Location>, target: Location) returns (cands: seq<Candidate>)
    ensures cands == Eligible(items, index, target)
  {
    cands := [];
    var i := 0;
    while i < |items|
      invariant 0 <= i <= |items|
      invariant cands == Eligible(items[..i], index, target)
    {
      var (city, count) := items[i];
      if count > 0 && index.Has(city) {
        cands := cands + [Candidate(city, Distance(index.Get(city), target), count)];
      }
      assert items[..i + 1] == items[..i] + [items[i]];
      EligibleSnoc(items[..i], items[i], index, target);
      i := i + 1;
    }
    assert items[..i] == items;
  }
}
