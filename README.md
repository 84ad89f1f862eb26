# Emergency dispatch allocator — a verified model

The repository dispatches emergency units (ambulances, fire crews, police
units, and in one variant rescue and utility teams) from the cities that hold
them to the city a call comes from. Five Python programs share one core:

1. parse the location list and the per-service availability lists;
2. for each service request of a call, rank the cities that have units left
   by their distance to the target city;
3. walk that ranking greedily, taking `min(count, remaining)` from each
   city until the request is covered;
4. report whether every request of the call was fully covered.

The variants differ in where the availability counts live and how a call is
guarded:

- `main.py`: ambulances only. One count per call, taken from the first truthy
  of `needed`, `required` and `count`, or else the sum of the request
  quantities. The walk deducts from the caller's own dict.
- `fast_simulation.py`: three services. They are fetched afresh for each call,
  and a failed fetch raises. The walk deducts from those local dicts.
- `vector_simulation.py`: the same three services, built by comprehensions
  that never raise. The location index may hold a `None` key.
- `aioHttp.py`: three services in a shared, lock-protected cache that a
  background task refreshes. Candidates are drawn on by the count they were
  ranked with.
- `aioHttp3.py`: five services in the shared cache. Each take re-reads the
  live count under the lock before drawing on it.

The model is built in layers:

- `PyDict` models an insertion-ordered Python dict.
- `Records` holds the JSON records of calls, requests and dispatch orders,
  with Python truthiness and `or`.
- `Parsers` holds the location and availability parsers, each proved equal to
  a functional definition.
- `Ranking` holds the candidate list and the stable sort by distance.
- `Greedy` holds the reference allocation of one request (`Greedy.Serve`) and
  the walk proved against it.
- `Calls` holds the fold of a call's requests (`Calls.ServeRequests`).
- `Cache` holds the shared cache as a class whose methods are the locked
  blocks.
- Five modules (`MainSim`, `FastSimulation`, `VectorSimulation`, `AioHttp`,
  `AioHttp3`) hold each variant's own processing. Each is proved to leave the
  counts, the dispatch orders and the success flag exactly as the reference
  allocation does.

Coordinates are integers, and distance is the squared Euclidean distance. It
orders cities exactly as `math.hypot` does on exact values.

## Model

| member | source | states |
|---|---|---|
| Records.OrText | aioHttp3.py:61 | `a or b` on optional strings is truthy exactly when either operand is |
| Records.OrNumber | aioHttp3.py:65-66 | `a or b` on optional numbers is `None` exactly when `a` is falsy and `b` is absent, so a zero coordinate falls through to the alternative key |
| Parsers.LocationEntry | aioHttp3.py:60-74 | one loop iteration: a falsy `city or name` raises a missing-city error, a missing `latitude or lat` or `longitude or long` raises a missing-coordinates error, and otherwise the record gives its city and details (its properties are stated by `Parsers.LocationsOfSucceeds` and `Parsers.LocationsOfValue`) |
| Parsers.GetLocationDetails | aioHttp3.py:55-75 | the loop returns `LocationIndexFrom(data)`: no data raises, otherwise the records are processed in order and the first malformed one raises |
| Parsers.LocationsOfSucceeds | aioHttp3.py:60-68 | parsing succeeds if and only if every record has a truthy city or name and both coordinates |
| Parsers.LocationsOfValue | fast_simulation.py:47-68 | on success the index is the dict built by assigning each record's `(city, details)` in order, so a later duplicate city overwrites an earlier one |
| Parsers.FirstBadLocationRaises | main.py:63-72 | when records before `i` are well-formed and record `i` is not, parsing raises record `i`'s error |
| Parsers.LocationsOfFailureSticks | aioHttp3.py:60-68 | once a prefix of the records raises, the whole list raises the same error |
| Parsers.ZeroLatitudeIsMissing | aioHttp3.py:65-68 | a latitude of 0 without a `lat` key counts as missing coordinates |
| Parsers.AvailabilityKey | aioHttp3.py:83 | the key of an availability item: `city`, else `name`, else `"unknown"`, each taken only when truthy (used by `Parsers.AvailableOfLastWins`) |
| Parsers.AvailabilityCount | aioHttp3.py:84 | the count of an availability item: `available` when present, even when 0, else `quantity`, else 0 (used by `Parsers.AvailableOfLastWins`) |
| Parsers.GetAvailable | aioHttp3.py:77-86 | the loop returns `AvailableFrom(data)`: no data raises, otherwise each item's key (city, name, or "unknown") gets its count (`available`, else `quantity`, else 0) |
| Parsers.AvailableOfLastWins | fast_simulation.py:70-101 | for a key, the count kept is that of the last record with that key |
| Parsers.AvailableOfKeys | aioHttp.py:75-84 | every key of the result comes from some record |
| Parsers.VectorLocationsKeys | vector_simulation.py:38-50 | the comprehension keeps exactly the records with both coordinates, keyed by `city or name`; no data gives `{}` |
| Parsers.VectorLocationsValue | vector_simulation.py:40-48 | under the key of a kept record that no later kept record repeats, the comprehension stores that record's county (`"unknown"` when falsy) and its coordinates, each taken with its alternative key |
| Parsers.VectorAvailableAgrees | vector_simulation.py:53-59 | the comprehension, built as its own front-to-back pair list, equals the raising loop wherever the loop succeeds, and is `{}` where the loop raises on missing data |
| PyDict.FromPairsLastWins | aioHttp3.py:81-85 | assigning pairs in order into a dict keeps, for each key, the value of its last assignment |
| PyDict.FromPairsKeys | aioHttp3.py:81-85 | the keys of the built dict are exactly the keys assigned |
| PyDict.PutValid | aioHttp3.py:175 | assigning to a dict key keeps the keys distinct, updates only that key, and keeps an existing key in its position |
| Ranking.Distance | aioHttp3.py:52-53 | the squared Euclidean distance is never negative and is 0 exactly at the same coordinates; it orders cities as `math.hypot` does |
| Ranking.Eligible | aioHttp3.py:157-163 | the candidate comprehension over `available.items()` in order (its properties are stated by `Ranking.EligibleSound`, `Ranking.EligibleComplete` and `Ranking.EligibleDistinct`) |
| Ranking.SortByDistance | aioHttp3.py:164 | the sort by distance (its properties are stated by `Ranking.SortPerm`, `Ranking.SortSorted` and `Ranking.SortStable`) |
| Ranking.Rank | aioHttp3.py:157-164 | the ranked candidate list: the eligible cities sorted by distance (its properties are stated by `Ranking.RankSound`, `Ranking.RankComplete` and `Ranking.RankOrder`) |
| Ranking.CollectCandidates | fast_simulation.py:208-215 | the candidate loop returns `Eligible`: the cities with a positive count known to the location index, in `items()` order, with their distance and count |
| Ranking.EligibleSound | aioHttp3.py:157-163 | every candidate has a positive count taken from the dict, a city in the index, and its true distance |
| Ranking.EligibleComplete | aioHttp3.py:157-163 | every dict entry with a positive count and a known city becomes a candidate |
| Ranking.EligibleDistinct | aioHttp3.py:162 | candidates name distinct cities, all keys of the dict |
| Ranking.EligibleSum | main.py:177-183 | the candidates' counts sum to the eligible units of the dict |
| Ranking.SortPerm | aioHttp3.py:164 | sorting by distance is a permutation of the candidates |
| Ranking.SortSorted | aioHttp3.py:164 | the sorted list is in ascending distance |
| Ranking.SortStable | aioHttp3.py:164 | candidates at equal distance keep their relative order (Python's sort is stable) |
| Ranking.SortUnits | main.py:185 | sorting keeps the total count |
| Ranking.SortDistinct | main.py:185 | sorting keeps cities distinct |
| Ranking.InsertSorted | main.py:185 | inserting into a sorted list keeps it sorted |
| Ranking.InsertPerm | main.py:185 | insertion adds exactly one element |
| Ranking.RankSound | fast_simulation.py:208-216 | every ranked candidate is a dict city with a positive count, known to the index, at its true distance |
| Ranking.RankComplete | fast_simulation.py:208-216 | every dict city with a positive count known to the index is ranked |
| Ranking.RankDistinct | vector_simulation.py:102-107 | ranked cities are distinct |
| Ranking.RankOrder | vector_simulation.py:102-107 | the ranking is sorted, is a permutation of the candidates, and keeps dict order among equal distances |
| Ranking.RankUnits | main.py:177-185 | the ranked counts sum to the eligible units |
| Greedy.Step | main.py:189-191 | one iteration takes nothing once `remaining` has reached 0, and otherwise `min(count, remaining)`, no more than either |
| Greedy.Takes | main.py:187-194 | what each ranked city gives, in order (its properties are stated by `Greedy.TakesBounds`, `Greedy.TakesTotal`, `Greedy.TakesStop` and `Greedy.TakesNearerFirst`) |
| Greedy.Serve | main.py:177-194 | the reference allocation of one request: the counts afterwards, what is still missing, and the dispatches (its properties are stated by `Greedy.ServeRemaining`, `Greedy.ServeConserves`, `Greedy.ServeCounts` and `Greedy.ServeNearestFirst`) |
| Greedy.TakesBounds | main.py:187-194 | each city gives between 0 and its count |
| Greedy.TakesTotal | main.py:187-194 | the walk takes `min(max(need, 0), sum of counts)` in total |
| Greedy.TakesStop | main.py:189-190 | once `remaining` reaches 0 no later city gives anything |
| Greedy.TakesNearerFirst | main.py:187-194 | a city gives something only if every nearer-ranked city gave all it had |
| Greedy.DeductTotal | main.py:193 | the deductions lower the dict's total by exactly the units taken |
| Greedy.DeductAt | main.py:193 | each ranked city loses exactly what it gave; every other key is unchanged |
| Greedy.OrdersUnits | main.py:192 | the dispatch orders carry exactly the units taken |
| Greedy.OrdersShape | fast_simulation.py:219-233 | the orders are one per giving city, in ranked order, and no city after the last order gives anything |
| Greedy.Walk | fast_simulation.py:218-233 | the walk loop leaves the dict, `remaining` and the orders as the reference allocation `Serve` does |
| Greedy.ServeRemaining | main.py:196-201 | after serving `need > 0`, `remaining` is `max(0, need - eligible units)`, so the request is met exactly when the eligible units cover it |
| Greedy.ServeConserves | main.py:187-194 | units are conserved: old total = new total + units dispatched, the orders carry the units dispatched, and no key is added or removed |
| Greedy.ServeOrdersFor | vector_simulation.py:109-116 | every order is for the request's service and target city |
| Greedy.ServeCounts | vector_simulation.py:109-116 | only eligible cities lose units, and never below zero; ineligible keys keep their count |
| Greedy.ServeNearestFirst | aioHttp3.py:166-186 | order `k` draws from the `k`-th nearest candidate, with a positive count no larger than that candidate's count |
| Greedy.ServeEmptiesNearer | fast_simulation.py:218-233 | every order except the last empties its city |
| Calls.Skipped | aioHttp3.py:147-156 | a request is passed over when its `Quantity` is not positive or no dict exists for its `Type` |
| Calls.Admitted | aioHttp3.py:132-138 | the call guards: a truthy `city` that the location index knows, and a non-empty `requests` list |
| Calls.ServeOne | aioHttp3.py:146-189 | one iteration of the request loop: a skipped request changes nothing; otherwise its service's dict becomes `Serve`'s, `all_success` is cleared when something is missing, and the dispatches are appended |
| Calls.ServeRequests | aioHttp3.py:144-190 | the whole request loop from `all_success = True` (its properties are stated by `Calls.ServeRequestsMet`, `Calls.ServeRequestsKeys`, `Calls.ServeRequestsCounts` and `Calls.ServeRequestsConserves`) |
| Calls.RequestMetIff | aioHttp3.py:188-189 | a served request is met if and only if the eligible units of its service cover its quantity |
| Calls.UnmetClears | aioHttp.py:184-185 | one unmet request makes the call fail |
| Calls.FirstUnmet | aioHttp.py:184-185 | a failed call has a first unmet request |
| Calls.ServeRequestsMet | aioHttp3.py:146-190 | `all_success` holds if and only if every request, served after the earlier ones, was met |
| Calls.ServeRequestsKeys | aioHttp3.py:146-186 | serving a call adds or removes no service and no city key |
| Calls.ServeRequestsCounts | aioHttp3.py:171-175 | a positive count never goes below zero and never grows; a non-positive count is untouched |
| Calls.ServeRequestsNonNegative | aioHttp3.py:171-175 | non-negative counts stay non-negative over a whole call |
| Calls.ServeRequestsConserves | fast_simulation.py:190-233 | per service, old total = new total + units dispatched for that service over the call |
| Calls.SentAppend | fast_simulation.py:190-233 | the units sent for a service add up over concatenated orders |
| Cache.AvailabilityCache.constructor | aioHttp3.py:15-21 | the cache holds each service with an empty dict |
| Cache.AvailabilityCache.Lookup | aioHttp3.py:154-156 | `availability_cache.get(service_type)` is `None` exactly for a missing or unknown type |
| Cache.AvailabilityCache.Current | aioHttp3.py:172 | the live count, 0 for an unknown service or city |
| Cache.AvailabilityCache.TryTake | aioHttp3.py:171-175 | under the lock: a positive live count yields `min(count, remaining)` and that much is deducted; otherwise nothing changes; the count never goes negative |
| Cache.AvailabilityCache.Decrement | aioHttp.py:180-181 | under the lock the city's count drops by the amount and nothing else changes |
| Cache.AvailabilityCache.Store | aioHttp3.py:116-121 | one service's dict is replaced and nothing else changes |
| AioHttp3.DispatchEndpoint | aioHttp3.py:177-183 | an endpoint exists exactly for the five cached services |
| AioHttp3.NewCache | aioHttp3.py:15-21 | the module cache starts with five empty dicts |
| AioHttp3.CachedServices | aioHttp3.py:154-156 | the cache holds exactly the five services |
| AioHttp3.UpdateAvailabilityCache | aioHttp3.py:107-124 | when all five fetches succeed, all five dicts are replaced; when any raises, the cache is unchanged |
| AioHttp3.TakeLive | aioHttp3.py:170-175 | the locked take on a city the walk has not yet visited gives `min(count, remaining)` and deducts it |
| AioHttp3.Visit | aioHttp3.py:167-186 | one visit moves the walk state from the `i`-prefix to the `i+1`-prefix of the reference allocation |
| AioHttp3.WalkShared | aioHttp3.py:166-186 | the walk leaves the cache, `remaining` and the orders as the reference allocation does |
| AioHttp3.ServeRequest | aioHttp3.py:152-186 | one request leaves the cache as `Serve` leaves that service's dict |
| AioHttp3.ProcessMultiServiceEmergency | aioHttp3.py:127-190 | a refused call returns False and touches nothing; otherwise the result, the orders and the cache are those of `Calls.ServeRequests` |
| AioHttp.DispatchEndpoint | aioHttp.py:166-174 | an endpoint exists exactly for the three cached services |
| AioHttp.NewCache | aioHttp.py:15-19 | the module cache starts with three empty dicts |
| AioHttp.CachedServices | aioHttp.py:139-148 | the cache holds exactly the three services |
| AioHttp.UpdateAvailabilityCache | aioHttp.py:101-118 | when all three fetches succeed, the three dicts are replaced; otherwise the cache is unchanged |
| AioHttp.DecrementHeld | aioHttp.py:180-181 | the locked decrement lowers the city's count by the dispatch count |
| AioHttp.Visit | aioHttp.py:161-182 | one visit with the ranked count moves the walk state from the `i`-prefix to the `i+1`-prefix of the reference allocation |
| AioHttp.WalkCached | aioHttp.py:161-182 | the walk leaves the cache, `remaining` and the orders as the reference allocation does |
| AioHttp.ServeRequest | aioHttp.py:145-182 | one request leaves the cache as `Serve` leaves that service's dict |
| AioHttp.ProcessMultiServiceEmergency | aioHttp.py:120-186 | a refused call returns False and touches nothing; otherwise the result, the orders and the cache are those of `Calls.ServeRequests` |
| FastSimulation.Started | fast_simulation.py:168-176 | the call guards of this variant: a truthy `city` and a non-empty `requests` list; the target city is not checked here |
| FastSimulation.FetchAll | fast_simulation.py:179-187 | the resources dict exists exactly when all three fetches succeeded, and then holds the three services under their names; otherwise the error is that of the first failed fetch in `result()` order |
| FastSimulation.Dispatcher | fast_simulation.py:223-231 | the dispatch chain has a helper exactly for the three fetched services |
| FastSimulation.ServeRequest | fast_simulation.py:203-233 | one request of a fetched service leaves the local dict as `Serve` does; the service is one of the three, so the chain's `else: continue` is never taken |
| FastSimulation.ProcessMultiServiceEmergency | fast_simulation.py:163-240 | no city or no requests returns False; a failed fetch raises the first error in `result()` order; an unknown target succeeds with nothing sent; otherwise the result and orders are those of `Calls.ServeRequests` |
| VectorSimulation.Resources | vector_simulation.py:86-91 | `available_resources` holds exactly the three capitalised services, each with its comprehension dict |
| VectorSimulation.StringKeyed | vector_simulation.py:102-105 | lookups by a string city see exactly the entries with a string key |
| VectorSimulation.ServeRequest | vector_simulation.py:102-116 | one request leaves the local dict as `Serve` does |
| VectorSimulation.ProcessCall | vector_simulation.py:77-121 | a refused call returns False; otherwise the result and orders are those of `Calls.ServeRequests`; nothing raises |
| MainSim.Needed | main.py:157-163 | the count is the first truthy of `needed` and `required`, then `count` even when falsy, then the summed request quantities; it is `None` exactly when `needed` and `required` are falsy and `count` and `requests` are absent |
| MainSim.ProcessEmergency | main.py:129-201 | a call failing a guard returns False and leaves `available` unchanged; otherwise `available` and the orders are those of `Serve`, and the call succeeds if and only if the eligible units cover the count |

## Left out

- HTTP and I/O: `call_api`, the `dispatch*` helpers and the POST payloads are
  not modelled. A dispatch is recorded as a `DispatchOrder` value, and what the
  gateway returns is ignored, as the source ignores it.
- The fetches are parameters. `update_availability_cache` and the
  per-call fetches take each `get_available` outcome (its dict or its error)
  as a parameter. `Parsers.GetAvailable` proves what that outcome is for the
  fetched data.
- Polling, sleeping and the program entry points: the `main()` loops, the
  call queue, `asyncio.sleep`, and the endless refresh loop of
  `update_availability_cache`, of which one round is modelled.
- Concurrency: each `async with cache_lock` block is one atomic method of
  `Cache.AvailabilityCache`, and each call is processed without interleaving.
  The protection the live re-read of `aioHttp3.py` gives against a
  concurrent refresh or call is therefore not exercised, and neither is the
  stale-count decrement of `aioHttp.py`, which could drive a count negative
  under interleaving.
- Thread pools and `asyncio.gather`: the three or five fetches are modelled
  as values that were all obtained; their order of completion is not.
- Floating point: coordinates are integers, and `math.hypot` is replaced by
  the squared distance, which induces the same order.
- JSON types: a present key holding `null`, a non-integer quantity, or a
  non-list `requests` is not modelled. An absent key is `None`. A `Quantity` of
  `null`, which makes the source raise a `TypeError`, is not modelled.
- `main.py`'s `json.loads` of a call given as a string (main.py:145-150):
  calls are modelled as already-parsed records.
- Logging with `print` is not modelled.
- The unreachable dispatch branches are not reached by the model. These are
  the `else: continue` of `aioHttp.py`, the `if endpoint:` and
  `if dispatch_count > 0:` of `aioHttp3.py`, and the `else: continue` of
  `fast_simulation.py`. Each is asserted dead where it occurs: the endpoint or
  dispatch helper exists for the request's service (`AioHttp.DispatchEndpoint`,
  `AioHttp3.DispatchEndpoint`, `FastSimulation.Dispatcher`), and in
  `aioHttp3.py` every live take is positive. The walk then draws on every
  visited city without a branch.
- Sorting is modelled as a stable insertion sort. It agrees with Python's
  `list.sort` on the result, not on the algorithm.
