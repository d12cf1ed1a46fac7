/**
 * Interpretation of a driving-directions reply (the `get_distance` function of app.py).
 * Distances and durations are kept in integer tenths (of a kilometre, of a minute), so that
 * app.py's rounding to one decimal becomes rounding to an integer and sums are exact.
 */
module Routing {
  import opened Wrappers

  /** `summary` of a route: `distance` in metres and `duration` in milliseconds, each possibly absent. */
  datatype Summary = Summary(distance: Option<int>, duration: Option<int>)

  /** One route of the `traoptimal` option; its `summary` may be absent. */
  datatype Route = Route(summary: Option<Summary>)

  /**
   * The parts of a reply that `get_distance` looks at: the HTTP status and the list
   * `route.traoptimal` (a reply without that key reads here as an empty list).
   */
  datatype RouteReply = RouteReply(status: int, traoptimal: seq<Route>)

  /** Distance in tenths of a kilometre and duration in tenths of a minute. */
  datatype Metric = Metric(distance: int, duration: int)

  const MetresPerTenthKm := 100
  const MillisPerTenthMin := 6000

  function Abs(n: int): nat
  {
    if n < 0 then -n else n
  }

  /** `q` is `n / d` rounded to the nearest integer, a tie going to the even neighbour. */
  predicate RoundsTo(n: int, d: int, q: int)
    requires d > 0
  {
    2 * Abs(n - q * d) <= d && (2 * Abs(n - q * d) == d ==> q % 2 == 0)
  }

  /** Python's `round` on the exact quotient `n / d`: to the nearest integer, ties to even. */
  function RoundHalfEven(n: int, d: int): (q: int)
    requires d > 0
    ensures RoundsTo(n, d, q)
  {
    var f, r := n / d, n % d;
    assert n == f * d + r;
    assert (f + 1) * d == f * d + d;
    if 2 * r < d then f
    else if 2 * r > d then f + 1
    else if f % 2 == 0 then f
    else f + 1
  }

  /** Rounding to tenths is determined: no other integer satisfies RoundsTo. */
  lemma RoundsToUnique(n: int, d: int, q1: int, q2: int)
    requires d > 0
    requires RoundsTo(n, d, q1) && RoundsTo(n, d, q2)
    ensures q1 == q2
  {
    // the two errors differ by (q2 - q1) * d, yet each is at most d / 2 in size
    assert (n - q1 * d) - (n - q2 * d) == (q2 - q1) * d;
    ScaledBounds(q2 - q1, d);
  }

  /** How a multiple of a positive `d` compares with `d`, by the sign and size of the factor. */
  lemma ScaledBounds(k: int, d: int)
    requires d > 0
    ensures k >= 2 ==> k * d >= 2 * d
    ensures k == 1 ==> k * d == d
    ensures k == 0 ==> k * d == 0
    ensures k == -1 ==> k * d == -d
    ensures k <= -2 ==> k * d <= -2 * d
  {
    if k >= 2 {
      assert k * d == 2 * d + (k - 2) * d;
    } else if k <= -2 {
      assert k * d == -2 * d + (k + 2) * d;
    }
  }

  /**
   * `get_distance`: a non-200 status yields no metric; so does any reply whose first
   * `traoptimal` route lacks a summary, a distance or a duration (app.py's bare
   * `except`). Otherwise metres / 1000 and milliseconds / 60000, each rounded to one decimal.
   */
  function GetDistance(reply: RouteReply): (m: Option<Metric>)
    ensures m.Some? <==>
              && reply.status == 200
              && reply.traoptimal != []
              && reply.traoptimal[0].summary.Some?
              && reply.traoptimal[0].summary.value.distance.Some?
              && reply.traoptimal[0].summary.value.duration.Some?
    ensures m.Some? ==>
              var s := reply.traoptimal[0].summary.value;
              && RoundsTo(s.distance.value, MetresPerTenthKm, m.value.distance)
              && RoundsTo(s.duration.value, MillisPerTenthMin, m.value.duration)
  {
    if reply.status != 200 || reply.traoptimal == [] then None
    else match reply.traoptimal[0].summary
      case None => None
      case Some(s) =>
        if s.distance.None? || s.duration.None? then None
        else Some(Metric(RoundHalfEven(s.distance.value, MetresPerTenthKm),
                         RoundHalfEven(s.duration.value, MillisPerTenthMin)))
  }

  /** 12345 m and 987654 ms read as 12.3 km and 16.5 minutes. */
  lemma GetDistanceExample()
    ensures GetDistance(RouteReply(200, [Route(Some(Summary(Some(12345), Some(987654))))]))
            == Some(Metric(123, 165))
  {
  }
}
