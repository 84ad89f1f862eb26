/**
 * Record-to-dict parsers: the location index (`get_location_details`) and the
 * per-service availability tables (`get_available`, `get_available_*`), in
 * the loop form of aioHttp3.py, aioHttp.py, fast_simulation.py and main.py
 * and the comprehension form of vector_simulation.py.
 *
 * A response is `None` when the API call failed or returned an empty body,
 * `Some([])` for an empty JSON list; `if not data` is true for both.
 */
module Parsers {
  import opened Wrappers
  import opened PyDict
  import opened Records

  // ---------------------------------------------------------------------------
  // Location index

  /** `loc.get("county") or "unknown"` */
  function CountyOf(loc: LocationRecord): string {
    if TruthyText(loc.county) then loc.county.value else "unknown"
  }

  /** What one loop iteration of `get_location_details` does with a record. */
  function LocationEntry(loc: LocationRecord): Result<(string, Location), ParseError> {
    var city := OrText(loc.city, loc.name);
    if !TruthyText(city) then Failure(MissingCity)
    else
      var latitude := OrNumber(loc.latitude, loc.lat);
      var longitude := OrNumber(loc.longitude, loc.long);
      if latitude.None? || longitude.None? then Failure(MissingCoordinates)
      else Success((city.value, Location(CountyOf(loc), latitude.value, longitude.value)))
  }

  /** The loop over `data`, record by record; the first bad record raises. */
  function LocationsOf(recs: seq<LocationRecord>): Result<Dict<string, Location>, ParseError>
    decreases |recs|
  {
    if recs == [] then Success(Empty())
    else
      match LocationsOf(recs[..|recs| - 1])
      case Failure(e) => Failure(e)
      case Success(d) =>
        match LocationEntry(recs[|recs| - 1])
        case Failure(e) => Failure(e)
        case Success(entry) =>
          PutValid(d, entry.0, entry.1);
          Success(d.Put(entry.0, entry.1))
  }

  /** `get_location_details`: no data raises, otherwise the loop. */
  function LocationIndexFrom(data: Option<seq<LocationRecord>>): Result<Dict<string, Location>, ParseError> {
    if data.None? || data.value == [] then Failure(NoData) else LocationsOf(data.value)
  }

  /** The pairs `(city, details)` the loop assigns, when every record is well-formed. */
  function LocationPairs(recs: seq<LocationRecord>): (pairs: seq<(string, Location)>)
    requires WellFormed(recs)
    ensures |pairs| == |recs|
    decreases |recs|
  {
    if recs == [] then []
    else
      WellFormedLast(recs);
      LocationPairs(recs[..|recs| - 1]) + [LocationEntry(recs[|recs| - 1]).value]
  }

  /** Once a prefix has raised, the whole loop raises the same error. */
  lemma {:induction false} LocationsOfFailureSticks(recs: seq<LocationRecord>, j: nat)
    requires j <= |recs|
    requires LocationsOf(recs[..j]).Failure?
    ensures LocationsOf(recs) == LocationsOf(recs[..j])
    decreases |recs| - j
  {
    if j < |recs| {
      assert recs[..j + 1][..j] == recs[..j];
      LocationsOfFailureSticks(recs, j + 1);
    } else {
      assert recs[..j] == recs;
    }
  }

  /** Every record has a truthy city/name and both coordinates. */
  predicate WellFormed(recs: seq<LocationRecord>) {
    forall i :: 0 <= i < |recs| ==> LocationEntry(recs[i]).Success?
  }

  lemma WellFormedLast(recs: seq<LocationRecord>)
    requires recs != []
    ensures WellFormed(recs) <==> WellFormed(recs[..|recs| - 1]) && LocationEntry(recs[|recs| - 1]).Success?
  {
    var n := |recs| - 1;
    var front := recs[..n];
    if WellFormed(front) && LocationEntry(recs[n]).Success? {
      forall i | 0 <= i < |recs| ensures LocationEntry(recs[i]).Success? {
        if i < n {
          assert recs[i] == front[i];
        }
      }
    }
    if WellFormed(recs) {
      forall i | 0 <= i < n ensures LocationEntry(front[i]).Success? {
        assert front[i] == recs[i];
      }
    }
  }

  /** `get_location_details` succeeds exactly when every record is well-formed. */
  lemma {:induction false} LocationsOfSucceeds(recs: seq<LocationRecord>)
    ensures LocationsOf(recs).Success? <==> WellFormed(recs)
    decreases |recs|
  {
    if recs != [] {
      var n := |recs| - 1;
      var front := recs[..n];
      LocationsOfSucceeds(front);
      assert LocationsOf(recs).Success? <==> LocationsOf(front).Success? && LocationEntry(recs[n]).Success?;
      WellFormedLast(recs);
    }
  }

  /**
   * On success the index is the dict of the records' `(city, details)` pairs
   * assigned in order, so a later record for the same city overwrites an
   * earlier one.
   */
  lemma {:induction false} LocationsOfValue(recs: seq<LocationRecord>)
    requires WellFormed(recs)
    ensures LocationsOf(recs) == Success(FromPairs(LocationPairs(recs)))
    decreases |recs|
  {
    if recs != [] {
      var n := |recs| - 1;
      var front := recs[..n];
      WellFormedLast(recs);
      LocationsOfValue(front);
      var pairs := LocationPairs(recs);
      assert pairs[..n] == LocationPairs(front);
      FromPairsLast(pairs);
    }
  }

  /** The first malformed record decides which error is raised. */
  lemma FirstBadLocationRaises(recs: seq<LocationRecord>, i: nat)
    requires i < |recs|
    requires forall j :: 0 <= j < i ==> LocationEntry(recs[j]).Success?
    requires LocationEntry(recs[i]).Failure?
    ensures LocationsOf(recs) == Failure(LocationEntry(recs[i]).error)
  {
    var front := recs[..i];
    assert WellFormed(front) by {
      forall j | 0 <= j < i ensures LocationEntry(front[j]).Success? {
        assert front[j] == recs[j];
      }
    }
    LocationsOfSucceeds(front);
    var upto := recs[..i + 1];
    assert upto[..i] == front && upto[i] == recs[i];
    assert LocationsOf(upto) == Failure(LocationEntry(recs[i]).error);
    LocationsOfFailureSticks(recs, i + 1);
  }

  /** Coordinates use `or`, so a latitude of 0 counts as missing unless `lat` is also given. */
  lemma ZeroLatitudeIsMissing(loc: LocationRecord)
    requires TruthyText(loc.city)
    requires loc.latitude == Some(0) && loc.lat.None?
    ensures LocationEntry(loc) == Failure(MissingCoordinates)
  {
  }

  /** `get_location_details` as the source writes it: a `for` loop filling a dict. */
  method GetLocationDetails(data: Option<seq<LocationRecord>>) returns (r: Result<Dict<string, Location>, ParseError>)
    ensures r == LocationIndexFrom(data)
  {
    if data.None? || data.value == [] {
      return Failure(NoData);
    }
    var recs := data.value;
    var locations: Dict<string, Location> := Empty();
    for i := 0 to |recs|
      invariant LocationsOf(recs[..i]) == Success(locations)
    {
      var loc := recs[i];
      assert recs[..i + 1][..i] == recs[..i];
      var city := OrText(loc.city, loc.name);
      if !TruthyText(city) {
        LocationsOfFailureSticks(recs, i + 1);
        return Failure(MissingCity);
      }
      var county := if TruthyText(loc.county) then loc.county.value else "unknown";
      var latitude := OrNumber(loc.latitude, loc.lat);
      var longitude := OrNumber(loc.longitude, loc.long);
      if latitude.None? || longitude.None? {
        LocationsOfFailureSticks(recs, i + 1);
        return Failure(MissingCoordinates);
      }
      PutValid(locations, city.value, Location(county, latitude.value, longitude.value));
      locations := locations.Put(city.value, Location(county, latitude.value, longitude.value));
    }
    assert recs[..|recs|] == recs;
    return Success(locations);
  }

  // ---------------------------------------------------------------------------
  // Availability tables

  /** `item.get("city") or item.get("name") or "unknown"` */
  function AvailabilityKey(item: AvailabilityRecord): string {
    if TruthyText(item.city) then item.city.value
    else if TruthyText(item.name) then item.name.value
    else "unknown"
  }

  /** `item.get("available", item.get("quantity", 0))`: a present key wins even when it is 0. */
  function AvailabilityCount(item: AvailabilityRecord): int {
    if item.available.Some? then item.available.value else item.quantity.GetOr(0)
  }

  /** The pairs `(key, count)` the loop assigns, in record order. */
  function AvailabilityPairs(recs: seq<AvailabilityRecord>): (pairs: seq<(string, int)>)
    ensures |pairs| == |recs|
    decreases |recs|
  {
    if recs == [] then []
    else AvailabilityPairs(recs[..|recs| - 1]) + [(AvailabilityKey(recs[|recs| - 1]), AvailabilityCount(recs[|recs| - 1]))]
  }

  lemma {:induction false} AvailabilityPairsAt(recs: seq<AvailabilityRecord>)
    ensures forall i :: 0 <= i < |recs| ==> AvailabilityPairs(recs)[i] == (AvailabilityKey(recs[i]), AvailabilityCount(recs[i]))
    decreases |recs|
  {
    if recs != [] {
      var n := |recs| - 1;
      AvailabilityPairsAt(recs[..n]);
      forall i | 0 <= i < n ensures AvailabilityPairs(recs)[i] == (AvailabilityKey(recs[i]), AvailabilityCount(recs[i])) {
        assert recs[..n][i] == recs[i];
      }
    }
  }

  /** The table the loop (or comprehension) builds from a list of records. */
  function AvailableOf(recs: seq<AvailabilityRecord>): Dict<string, int> {
    FromPairs(AvailabilityPairs(recs))
  }

  /** `get_available` / `get_available_ambulances` / ...: no data raises. */
  function AvailableFrom(data: Option<seq<AvailabilityRecord>>): Result<Dict<string, int>, ParseError> {
    if data.None? || data.value == [] then Failure(NoData) else Success(AvailableOf(data.value))
  }

  /** The count kept for a key is that of the last record with that key. */
  lemma AvailableOfLastWins(recs: seq<AvailabilityRecord>, i: nat)
    requires i < |recs|
    requires forall j :: i < j < |recs| ==> AvailabilityKey(recs[j]) != AvailabilityKey(recs[i])
    ensures AvailableOf(recs).Has(AvailabilityKey(recs[i]))
    ensures AvailableOf(recs).Get(AvailabilityKey(recs[i])) == AvailabilityCount(recs[i])
  {
    var pairs := AvailabilityPairs(recs);
    AvailabilityPairsAt(recs);
    assert forall j :: i < j < |pairs| ==> pairs[j].0 != pairs[i].0 by {
      forall j | i < j < |pairs| ensures pairs[j].0 != pairs[i].0 {
        assert pairs[j].0 == AvailabilityKey(recs[j]);
      }
    }
    FromPairsLastWins(pairs, i);
  }

  /** Only the records' keys are in the table. */
  lemma AvailableOfKeys(recs: seq<AvailabilityRecord>, k: string)
    requires AvailableOf(recs).Has(k)
    ensures exists j :: 0 <= j < |recs| && AvailabilityKey(recs[j]) == k
  {
    var pairs := AvailabilityPairs(recs);
    FromPairsKeys(pairs);
    var j :| 0 <= j < |pairs| && KeysOf(pairs)[j] == k;
    KeysOfIndex(pairs);
    AvailabilityPairsAt(recs);
    assert AvailabilityKey(recs[j]) == k;
  }

  /** `get_available` as the source writes it: a `for` loop filling a dict. */
  method GetAvailable(data: Option<seq<AvailabilityRecord>>) returns (r: Result<Dict<string, int>, ParseError>)
    ensures r == AvailableFrom(data)
  {
    if data.None? || data.value == [] {
      return Failure(NoData);
    }
    var recs := data.value;
    var available: Dict<string, int> := Empty();
    for i := 0 to |recs|
      invariant available == FromPairs(AvailabilityPairs(recs[..i]))
    {
      var item := recs[i];
      var city := AvailabilityKey(item);
      var count := AvailabilityCount(item);
      assert recs[..i + 1][..i] == recs[..i];
      FromPairsLast(AvailabilityPairs(recs[..i + 1]));
      PutValid(available, city, count);
      available := available.Put(city, count);
    }
    assert recs[..|recs|] == recs;
    return Success(available);
  }

  // ---------------------------------------------------------------------------
  // vector_simulation.py: dict comprehensions

  /** A record the comprehension keeps: both coordinates present. */
  predicate HasCoordinates(loc: LocationRecord) {
    OrNumber(loc.latitude, loc.lat).Some? && OrNumber(loc.longitude, loc.long).Some?
  }

  /** The entry the comprehension makes of a kept record: its key and its details. */
  function VectorEntry(loc: LocationRecord): (Option<string>, Location)
    requires HasCoordinates(loc)
  {
    (OrText(loc.city, loc.name),
     Location(CountyOf(loc), OrNumber(loc.latitude, loc.lat).value, OrNumber(loc.longitude, loc.long).value))
  }

  /** The key/value pairs of the comprehension, in record order; the key may be `None`. */
  function VectorLocationPairs(recs: seq<LocationRecord>): seq<(Option<string>, Location)>
    decreases |recs|
  {
    if recs == [] then []
    else
      var rest := VectorLocationPairs(recs[1..]);
      if HasCoordinates(recs[0]) then [VectorEntry(recs[0])] + rest else rest
  }

  /** Each kept pair comes from a record with both coordinates, and every such record's key is kept. */
  lemma {:induction false} VectorLocationPairsFrom(recs: seq<LocationRecord>)
    ensures forall p :: p in VectorLocationPairs(recs) ==>
      exists loc :: loc in recs && HasCoordinates(loc) && p.0 == OrText(loc.city, loc.name)
    ensures forall loc :: loc in recs && HasCoordinates(loc) ==> OrText(loc.city, loc.name) in KeysOf(VectorLocationPairs(recs))
    decreases |recs|
  {
    if recs != [] {
      VectorLocationPairsFrom(recs[1..]);
      assert forall loc :: loc in recs <==> loc == recs[0] || loc in recs[1..];
      if HasCoordinates(recs[0]) {
        var pairs := [VectorEntry(recs[0])] + VectorLocationPairs(recs[1..]);
        assert pairs[0] == VectorEntry(recs[0]) && pairs[1..] == VectorLocationPairs(recs[1..]);
        assert KeysOf(pairs) == [VectorEntry(recs[0]).0] + KeysOf(VectorLocationPairs(recs[1..]));
      }
    }
  }

  /** vector_simulation's `get_location_details`: `data or []`, never raises. */
  function VectorLocations(data: Option<seq<LocationRecord>>): Dict<Option<string>, Location> {
    FromPairs(VectorLocationPairs(data.GetOr([])))
  }

  /**
   * The comprehension keeps exactly the records with both coordinates (a record
   * without a city or name is kept too, under its falsy key) and raises on none.
   */
  lemma VectorLocationsKeys(data: Option<seq<LocationRecord>>)
    ensures forall loc :: loc in data.GetOr([]) && HasCoordinates(loc) ==> VectorLocations(data).Has(OrText(loc.city, loc.name))
    ensures forall k :: VectorLocations(data).Has(k) ==>
      exists loc :: loc in data.GetOr([]) && HasCoordinates(loc) && OrText(loc.city, loc.name) == k
    ensures data.None? ==> VectorLocations(data).Keys() == []
  {
    var pairs := VectorLocationPairs(data.GetOr([]));
    VectorLocationPairsFrom(data.GetOr([]));
    FromPairsKeys(pairs);
    forall k | VectorLocations(data).Has(k)
      ensures exists loc :: loc in data.GetOr([]) && HasCoordinates(loc) && OrText(loc.city, loc.name) == k
    {
      var j :| 0 <= j < |pairs| && KeysOf(pairs)[j] == k;
      KeysOfIndex(pairs);
      assert pairs[j] in pairs;
    }
  }

  /** The pairs the comprehension keeps from `a + b` are those of `a`, then those of `b`. */
  lemma {:induction false} VectorLocationPairsAppend(a: seq<LocationRecord>, b: seq<LocationRecord>)
    ensures VectorLocationPairs(a + b) == VectorLocationPairs(a) + VectorLocationPairs(b)
    decreases |a|
  {
    if a != [] {
      assert (a + b)[0] == a[0];
      assert (a + b)[1..] == a[1..] + b;
      VectorLocationPairsAppend(a[1..], b);
    } else {
      assert a + b == b;
    }
  }

  /** A key the comprehension keeps from `recs[i + 1..]` is that of some kept record after `i`. */
  lemma KeptLater(recs: seq<LocationRecord>, i: nat, p: (Option<string>, Location))
    requires i < |recs| && p in VectorLocationPairs(recs[i + 1..])
    ensures exists j :: i < j < |recs| && HasCoordinates(recs[j]) && p.0 == OrText(recs[j].city, recs[j].name)
  {
    VectorLocationPairsFrom(recs[i + 1..]);
    var l :| l in recs[i + 1..] && HasCoordinates(l) && p.0 == OrText(l.city, l.name);
    var m :| 0 <= m < |recs[i + 1..]| && recs[i + 1..][m] == l;
    assert recs[i + 1 + m] == l;
  }

  /** A kept record in front contributes its entry in front. */
  lemma VectorLocationPairsCons(loc: LocationRecord, rest: seq<LocationRecord>)
    requires HasCoordinates(loc)
    ensures VectorLocationPairs([loc] + rest) == [VectorEntry(loc)] + VectorLocationPairs(rest)
  {
    assert ([loc] + rest)[0] == loc && ([loc] + rest)[1..] == rest;
  }

  /** The pairs kept around a kept record `i`: those before it, its entry, those after it. */
  lemma VectorLocationPairsSplit(recs: seq<LocationRecord>, i: nat)
    requires i < |recs| && HasCoordinates(recs[i])
    ensures VectorLocationPairs(recs) ==
      VectorLocationPairs(recs[..i]) + [VectorEntry(recs[i])] + VectorLocationPairs(recs[i + 1..])
  {
    var tail := [recs[i]] + recs[i + 1..];
    assert recs == recs[..i] + tail;
    VectorLocationPairsAppend(recs[..i], tail);
    VectorLocationPairsCons(recs[i], recs[i + 1..]);
    var a, e, b := VectorLocationPairs(recs[..i]), [VectorEntry(recs[i])], VectorLocationPairs(recs[i + 1..]);
    assert a + (e + b) == a + e + b;
  }

  /**
   * What the comprehension stores under a kept record's key, when no later
   * kept record has the same key: the county (`"unknown"` when falsy) and
   * both coordinates, each taken with its alternative key.
   */
  lemma VectorLocationsValue(recs: seq<LocationRecord>, i: nat)
    requires i < |recs| && HasCoordinates(recs[i])
    requires forall j :: i < j < |recs| && HasCoordinates(recs[j]) ==>
      OrText(recs[j].city, recs[j].name) != OrText(recs[i].city, recs[i].name)
    ensures VectorLocations(Some(recs)).Has(OrText(recs[i].city, recs[i].name))
    ensures VectorLocations(Some(recs)).Get(OrText(recs[i].city, recs[i].name)) ==
      Location(CountyOf(recs[i]), OrNumber(recs[i].latitude, recs[i].lat).value, OrNumber(recs[i].longitude, recs[i].long).value)
  {
    var before := VectorLocationPairs(recs[..i]);
    var after := VectorLocationPairs(recs[i + 1..]);
    var entry := VectorEntry(recs[i]);
    var pairs := before + [entry] + after;
    VectorLocationPairsSplit(recs, i);
    forall j | |before| < j < |pairs|
      ensures pairs[j].0 != entry.0
    {
      assert pairs[j] == after[j - |before| - 1];
      KeptLater(recs, i, pairs[j]);
    }
    assert pairs[|before|] == entry;
    FromPairsLastWins(pairs, |before|);
  }

  /** The `(key, count)` pairs of the comprehension, in record order. */
  function VectorAvailabilityPairs(recs: seq<AvailabilityRecord>): seq<(string, int)>
    decreases |recs|
  {
    if recs == [] then []
    else [(AvailabilityKey(recs[0]), AvailabilityCount(recs[0]))] + VectorAvailabilityPairs(recs[1..])
  }

  /** vector_simulation's `get_available`: `data or []`, never raises. */
  function VectorAvailable(data: Option<seq<AvailabilityRecord>>): Dict<string, int> {
    FromPairs(VectorAvailabilityPairs(data.GetOr([])))
  }

  lemma {:induction false} VectorAvailabilityPairsAt(recs: seq<AvailabilityRecord>)
    ensures |VectorAvailabilityPairs(recs)| == |recs|
    ensures forall i :: 0 <= i < |recs| ==> VectorAvailabilityPairs(recs)[i] == (AvailabilityKey(recs[i]), AvailabilityCount(recs[i]))
    decreases |recs|
  {
    if recs != [] {
      VectorAvailabilityPairsAt(recs[1..]);
    }
  }

  /**
   * The comprehension agrees with the raising loop whenever the loop does not
   * raise, and yields `{}` where the loop raises.
   */
  lemma VectorAvailableAgrees(data: Option<seq<AvailabilityRecord>>)
    ensures AvailableFrom(data).Success? ==> VectorAvailable(data) == AvailableFrom(data).value
    ensures AvailableFrom(data).Failure? ==> VectorAvailable(data).Keys() == []
  {
    var recs := data.GetOr([]);
    VectorAvailabilityPairsAt(recs);
    AvailabilityPairsAt(recs);
    assert VectorAvailabilityPairs(recs) == AvailabilityPairs(recs);
  }
}
