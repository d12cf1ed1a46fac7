/**
 * Interpretation of a geocoding reply (the `geocode` function of app.py).
 * The HTTP request itself is not modelled: the reply is given as a value.
 */
module Geocoding {

  /** One match of the geocoder: longitude `x` and latitude `y`, as the text the service sends. */
  datatype Address = Address(x: string, y: string)

  /** The parts of a reply that `geocode` looks at: the HTTP status, `meta.totalCount`, `addresses`. */
  datatype GeocodeReply = GeocodeReply(status: int, totalCount: int, addresses: seq<Address>)

  /**
   * What `geocode` makes of a reply: a coordinate string, nothing (`None` in app.py), or
   * a reply that claims matches but lists none, on which app.py raises an IndexError.
   */
  datatype Lookup = Found(coord: string) | NotFound | Malformed

  /** The coordinate text `"x,y"` that the routing service takes as `start` or `goal`. */
  function JoinCoord(x: string, y: string): string
  {
    x + "," + y
  }

  /** Splits a coordinate text at its first comma; the inverse of JoinCoord. */
  function SplitCoord(c: string): (parts: (string, string))
    ensures ',' !in parts.0
    ensures ',' in c ==> c == JoinCoord(parts.0, parts.1)
    ensures ',' !in c ==> parts == (c, "")
  {
    if c == [] then ("", "")
    else if c[0] == ',' then ("", c[1..])
    else
      var rest := SplitCoord(c[1..]);
      assert c == [c[0]] + c[1..];
      ([c[0]] + rest.0, rest.1)
  }

  /** A longitude without a comma in it is recovered, with the latitude, from the joined text. */
  lemma {:induction false} SplitJoin(x: string, y: string)
    requires ',' !in x
    ensures SplitCoord(JoinCoord(x, y)) == (x, y)
  {
    if x != [] {
      assert JoinCoord(x, y)[1..] == JoinCoord(x[1..], y);
      SplitJoin(x[1..], y);
      assert [x[0]] + x[1..] == x;
    } else {
      assert JoinCoord(x, y) == [','] + y;
    }
  }

  /**
   * `geocode`: a non-200 status or a zero match count is a failure; otherwise the first
   * match's `x` and `y` joined by a comma. A found coordinate is never empty, so the
   * truthiness test `if not coord` of app.py is exactly a test for failure.
   */
  function Geocode(reply: GeocodeReply): (r: Lookup)
    ensures r == NotFound <==> reply.status != 200 || reply.totalCount == 0
    ensures r == Malformed <==> reply.status == 200 && reply.totalCount != 0 && reply.addresses == []
    ensures r.Found? ==> r.coord != [] && ',' in r.coord
  {
    if reply.status != 200 then NotFound
    else if reply.totalCount == 0 then NotFound
    else if reply.addresses == [] then Malformed
    else
      var first := reply.addresses[0];
      Found(JoinCoord(first.x, first.y))
  }

  /** The coordinate `geocode` returns carries exactly the first match's longitude and latitude. */
  lemma GeocodeKeepsFirstMatch(reply: GeocodeReply)
    requires Geocode(reply).Found?
    requires ',' !in reply.addresses[0].x
    ensures SplitCoord(Geocode(reply).coord) == (reply.addresses[0].x, reply.addresses[0].y)
  {
    SplitJoin(reply.addresses[0].x, reply.addresses[0].y);
  }
}
