/**
 * The JSON records the simulation server returns, the emergency call shape,
 * and Python's truthiness rules used by the `a or b` field fallbacks.
 *
 * A field is `None` when the key is absent (or null, which `or` treats the
 * same way).  Numbers (coordinates, counts, quantities) are integers.
 */
module Records {
  import opened Wrappers

  /** One entry of `/locations`. */
  datatype LocationRecord = LocationRecord(
    city: Option<string>,
    name: Option<string>,
    county: Option<string>,
    latitude: Option<int>,
    lat: Option<int>,
    longitude: Option<int>,
    long: Option<int>)

  /** One entry of `/<service>/search`. */
  datatype AvailabilityRecord = AvailabilityRecord(
    city: Option<string>,
    name: Option<string>,
    available: Option<int>,
    quantity: Option<int>)

  /** The value stored in the location index for one city. */
  datatype Location = Location(county: string, latitude: int, longitude: int)

  /** One element of a call's `requests` list. */
  datatype Request = Request(kind: Option<string>, quantity: Option<int>) {
    /** `req.get("Quantity", 0)` */
    function Quantity(): int {
      quantity.GetOr(0)
    }
  }

  /** An emergency call as polled from `/calls/queue`. */
  datatype Call = Call(
    city: Option<string>,
    requests: Option<seq<Request>>,
    needed: Option<int>,
    required: Option<int>,
    count: Option<int>)
  {
    /** `call.get("requests", [])` */
    function RequestList(): seq<Request> {
      requests.GetOr([])
    }
  }

  /** A dispatch sent to the gateway: `count` units of `service` from `source` to `target`. */
  datatype DispatchOrder = DispatchOrder(service: string, source: string, target: string, count: int)

  /** The exceptions the parsers raise. */
  datatype ParseError = NoData | MissingCity | MissingCoordinates

  const Medical := "Medical"
  const Fire := "Fire"
  const Police := "Police"
  const Rescue := "Rescue"
  const Utility := "Utility"

  /** Python truthiness of an optional string: present and non-empty. */
  predicate TruthyText(s: Option<string>) {
    s.Some? && s.value != ""
  }

  /** Python truthiness of an optional number: present and non-zero. */
  predicate TruthyNumber(n: Option<int>) {
    n.Some? && n.value != 0
  }

  /** `a or b` on optional strings: `a` when truthy, otherwise `b` whatever it is. */
  function OrText(a: Option<string>, b: Option<string>): (r: Option<string>)
    ensures TruthyText(r) <==> TruthyText(a) || TruthyText(b)
  {
    if TruthyText(a) then a else b
  }

  /** `a or b` on optional numbers. */
  function OrNumber(a: Option<int>, b: Option<int>): (r: Option<int>)
    ensures r.None? <==> (!TruthyNumber(a) && b.None?)
  {
    if TruthyNumber(a) then a else b
  }
}
