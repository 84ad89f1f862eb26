/**
 * The shared availability cache of the two asynchronous variants: one
 * availability dict per service, replaced from the `search` endpoints and
 * decremented as units are dispatched.
 *
 * Each access runs under `cache_lock`, so each method below is one critical
 * section and runs without interleaving.
 */
module Cache {
  import opened Wrappers
  import opened PyDict
  import opened Records
  import opened Greedy

  class AvailabilityCache {
    /** The services the cache holds, in creation order. */
    const services: seq<string>
    /** `availability_cache`: service name to its availability dict. */
    var tables: map<string, Dict<string, int>>

    /** Exactly the services it was created with, each once. */
    ghost predicate Valid()
      reads this
    {
      NoDup(services) && tables.Keys == Elems(services)
    }

    /** The module-level initialisation: every service starts with an empty dict. */
    constructor(services: seq<string>)
      requires NoDup(services)
      ensures Valid()
      ensures this.services == services
      ensures forall s :: s in services ==> s in tables && tables[s] == Empty()
    {
      this.services := services;
      tables := map s | s in services :: Empty();
      ElemsIn(services);
    }

    /** `availability_cache.get(service_type)`: a request without `Type` finds nothing. */
    function Lookup(service: Option<string>): (r: Option<Dict<string, int>>)
      reads this
      ensures r.Some? <==> service.Some? && service.value in tables
      ensures r.Some? ==> r.value == tables[service.value]
    {
      if service.Some? && service.value in tables then Some(tables[service.value]) else None
    }

    /** `availability_cache.get(service_type, {}).get(city, 0)` */
    function Current(service: string, city: string): (n: int)
      reads this
      ensures service in tables && tables[service].Has(city) ==> n == tables[service].Get(city)
      ensures !(service in tables && tables[service].Has(city)) ==> n == 0
    {
      if service in tables && tables[service].Has(city) then tables[service].Get(city) else 0
    }

    /**
     * The locked take step: the count is read again, and only a positive
     * count is drawn on, by at most `remaining`.  A service or city the cache
     * does not hold reads as zero and nothing is written.  A count is never
     * driven below zero while `remaining` is positive.
     */
    method TryTake(service: string, city: string, remaining: int) returns (taken: int)
      requires Valid()
      modifies this
      ensures Valid()
      ensures old(Current(service, city)) > 0 ==>
        (taken == Min(old(Current(service, city)), remaining) &&
         tables == old(tables)[service := old(tables)[service].Put(city, old(Current(service, city)) - taken)])
      ensures old(Current(service, city)) <= 0 ==> taken == 0 && tables == old(tables)
      ensures remaining > 0 && old(Current(service, city)) >= 0 ==>
        0 <= taken <= remaining && Current(service, city) == old(Current(service, city)) - taken >= 0
    {
      var current := Current(service, city);
      taken := 0;
      if current > 0 {
        taken := Min(current, remaining);
        var d := tables[service];
        PutValid(d, city, current - taken);
        var e: Dict<string, int> := d.Put(city, current - taken);
        assert e == old(tables)[service].Put(city, old(Current(service, city)) - taken);
        tables := tables[service := e];
      }
    }

    /** `availability_cache[service_type][city] -= dispatch_count`, on a city the dict holds. */
    method Decrement(service: string, city: string, amount: int)
      requires Valid()
      requires service in tables && tables[service].Has(city)
      modifies this
      ensures Valid()
      ensures tables == old(tables)[service := old(tables)[service].Put(city, old(tables)[service].Get(city) - amount)]
      ensures Current(service, city) == old(Current(service, city)) - amount
    {
      var d := tables[service];
      PutValid(d, city, d.Get(city) - amount);
      var e: Dict<string, int> := d.Put(city, d.Get(city) - amount);
      assert e == old(tables)[service].Put(city, old(tables)[service].Get(city) - amount);
      tables := tables[service := e];
    }

    /** `availability_cache[service] = latest`: one assignment of the swap under `cache_lock`. */
    method Store(service: string, latest: Dict<string, int>)
      requires Valid()
      requires service in tables
      modifies this
      ensures Valid()
      ensures tables == old(tables)[service := latest]
    {
      tables := tables[service := latest];
    }
  }

  /** Writing back the dict a service already holds leaves the tables as they are. */
  lemma RewriteSame(tables: map<string, Dict<string, int>>, service: string, d: Dict<string, int>)
    requires service in tables && tables[service] == d
    ensures tables[service := d] == tables
  {
  }

  /** Of two writes to the same service, the second wins. */
  lemma RewriteTwice(tables: map<string, Dict<string, int>>, service: string, d: Dict<string, int>, e: Dict<string, int>)
    ensures tables[service := d][service := e] == tables[service := e]
  {
  }
}
