/**
 * The pairwise comparison loop of app.py (lines 113-149): for every destination, in
 * dictionary order, and every origin within it, geocode, route, and collect a detail row
 * per successful pair and one summary row per destination that could be geocoded.
 *
 * The geocoder and the router are given functions: app.py memoises `geocode` per address,
 * so it behaves as a function of the address; the router is the interpretation of the
 * directions reply for a (start, goal) pair. app.py tests a geocoding result by its
 * truthiness (`if not coord`), so an empty coordinate text counts as a failure here too.
 */
module Aggregation {
  import opened Wrappers
  import opened Locations
  import opened Routing

  /** A coordinate text `"x,y"`, as `geocode` produces it. */
  type Coord = string

  type Geocoder = string -> Option<Coord>

  type Router = (Coord, Coord) -> Option<Metric>

  /** A geocoding result that passes app.py's truthiness test: present and non-empty. */
  predicate Geocoded(c: Option<Coord>)
  {
    c.Some? && c.value != []
  }

  /** One successful (origin, destination) pair, metrics in tenths of a km and of a minute. */
  datatype DetailRow = DetailRow(origin: string, destination: string, distance: int, duration: int)

  /** One geocoded destination with its totals over the successful pairs. */
  datatype SummaryRow = SummaryRow(destination: string, totalDistance: int, totalDuration: int)

  /** The detail row of one pair, for a destination already geocoded to `goal`. */
  function PairRow(o: Entry, d: Entry, goal: Coord, geo: Geocoder, route: Router): Option<DetailRow>
  {
    var start := geo(o.address);
    if !Geocoded(start) then None
    else
      match route(start.value, goal)
      case None => None
      case Some(m) => Some(DetailRow(o.name, d.name, m.distance, m.duration))
  }

  /** The detail rows of one geocoded destination, origins in order. */
  function DestinationRows(origins: seq<Entry>, d: Entry, goal: Coord, geo: Geocoder, route: Router): seq<DetailRow>
  {
    if origins == [] then []
    else
      var rows := DestinationRows(origins[..|origins| - 1], d, goal, geo, route);
      match PairRow(origins[|origins| - 1], d, goal, geo, route)
      case None => rows
      case Some(row) => rows + [row]
  }

  function SumDistance(rows: seq<DetailRow>): int
  {
    if rows == [] then 0 else SumDistance(rows[..|rows| - 1]) + rows[|rows| - 1].distance
  }

  function SumDuration(rows: seq<DetailRow>): int
  {
    if rows == [] then 0 else SumDuration(rows[..|rows| - 1]) + rows[|rows| - 1].duration
  }

  /** All detail rows, destination-major and origin-minor. */
  function Details(dests: seq<Entry>, origins: seq<Entry>, geo: Geocoder, route: Router): seq<DetailRow>
  {
    if dests == [] then []
    else
      var d := dests[|dests| - 1];
      var rows := Details(dests[..|dests| - 1], origins, geo, route);
      var goal := geo(d.address);
      if !Geocoded(goal) then rows
      else rows + DestinationRows(origins, d, goal.value, geo, route)
  }

  /** One summary row per geocoded destination, in destination order. */
  function Summaries(dests: seq<Entry>, origins: seq<Entry>, geo: Geocoder, route: Router): seq<SummaryRow>
  {
    if dests == [] then []
    else
      var d := dests[|dests| - 1];
      var rows := Summaries(dests[..|dests| - 1], origins, geo, route);
      var goal := geo(d.address);
      if !Geocoded(goal) then rows
      else
        var mine := DestinationRows(origins, d, goal.value, geo, route);
        rows + [SummaryRow(d.name, SumDistance(mine), SumDuration(mine))]
  }

  /** The names of the destinations whose address could not be geocoded, in order. */
  function Failures(dests: seq<Entry>, geo: Geocoder): seq<string>
  {
    if dests == [] then []
    else
      var d := dests[|dests| - 1];
      var names := Failures(dests[..|dests| - 1], geo);
      if !Geocoded(geo(d.address)) then names + [d.name] else names
  }

  /** The destinations whose address could be geocoded, in order. */
  function Resolved(dests: seq<Entry>, geo: Geocoder): seq<Entry>
  {
    if dests == [] then []
    else
      var d := dests[|dests| - 1];
      var rs := Resolved(dests[..|dests| - 1], geo);
      if Geocoded(geo(d.address)) then rs + [d] else rs
  }

  /**
   * The loop of app.py:113-149. A destination that does not geocode records an error and
   * is skipped; an origin that does not geocode, or a pair with no route, is skipped
   * silently; every other pair adds a detail row and adds to the destination's totals.
   */
  method Aggregate(origins: seq<Entry>, dests: seq<Entry>, geo: Geocoder, route: Router)
    returns (details: seq<DetailRow>, summaries: seq<SummaryRow>, errors: seq<string>)
    ensures details == Details(dests, origins, geo, route)
    ensures summaries == Summaries(dests, origins, geo, route)
    ensures errors == Failures(dests, geo)
  {
    details, summaries, errors := [], [], [];
    var j := 0;
    while j < |dests|
      invariant 0 <= j <= |dests|
      invariant details == Details(dests[..j], origins, geo, route)
      invariant summaries == Summaries(dests[..j], origins, geo, route)
      invariant errors == Failures(dests[..j], geo)
    {
      var d := dests[j];
      assert dests[..j + 1][..j] == dests[..j];
      var destCoord := geo(d.address);
      if destCoord.None? || destCoord.value == [] {
        errors := errors + [d.name];
      } else {
        var goal := destCoord.value;
        var totalDistance, totalTime := 0, 0;
        ghost var before := details;
        var i := 0;
        while i < |origins|
          invariant 0 <= i <= |origins|
          invariant details == before + DestinationRows(origins[..i], d, goal, geo, route)
          invariant totalDistance == SumDistance(DestinationRows(origins[..i], d, goal, geo, route))
          invariant totalTime == SumDuration(DestinationRows(origins[..i], d, goal, geo, route))
        {
          var o := origins[i];
          assert origins[..i + 1][..i] == origins[..i];
          ghost var done := DestinationRows(origins[..i], d, goal, geo, route);
          var startCoord := geo(o.address);
          if startCoord.Some? && startCoord.value != [] {
            var m := route(startCoord.value, goal);
            if m.Some? {
              var row := DetailRow(o.name, d.name, m.value.distance, m.value.duration);
              details := details + [row];
              totalDistance := totalDistance + m.value.distance;
              totalTime := totalTime + m.value.duration;
              assert (done + [row])[..|done|] == done;
            }
          }
          i := i + 1;
        }
        assert origins[..i] == origins;
        summaries := summaries + [SummaryRow(d.name, totalDistance, totalTime)];
      }
      j := j + 1;
    }
    assert dests[..j] == dests;
  }
}
