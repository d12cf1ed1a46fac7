# Distance comparison pipeline, modelled in Dafny

The application compares driving distance and time from up to four named origins to a
chosen set of named destinations. It geocodes each address, asks a directions service for
the route of every (origin, destination) pair, sums the results per destination, and
recommends the destination with the smallest total distance. This project models that
pipeline in Dafny:

- `Geocoding` (geocoding.dfy): how `geocode` reads a geocoding reply. It yields a `"x,y"`
  coordinate text, or nothing (`NotFound`), or `Malformed` for a reply that claims matches
  but lists none.
- `Routing` (routing.dfy): how `get_distance` reads a directions reply. It converts metres
  to kilometres and milliseconds to minutes and rounds each to one decimal. Metrics are
  integers in tenths, and the rounding is round-half-to-even on the exact quotient.
- `Locations` (locations.dfy): the `origins` / `destinations` dictionaries built from the
  form rows. The dictionary is an insertion-ordered sequence of entries. `Collect` is the
  filling loop.
- `Aggregation` (aggregation.dfy): the nested comparison loop as the method `Aggregate`. It
  is proved equal to the specification functions `Details`, `Summaries` and `Failures`.
  The geocoder is a function `string -> Option<Coord>` and the router a function
  `(Coord, Coord) -> Option<Metric>`.
- `AggregationProperties` (aggregation_properties.dfy): which rows exist, their order,
  their totals, and how a destination that fails to geocode drops out.
- `Ranking` (ranking.dfy): sorting the summary rows by total distance and picking the best.
- `Session` (session.dfy): one press of the compute button, from form rows to report.

The summary table is sorted with `sort_values` and its default algorithm, which is not
stable. So the model promises no order among equal totals. `Rank` promises that the best
destination is the first ranked row and that its total distance is minimal.

app.py tests a geocoding result by truthiness (`if not dest_coord`, `if not start_coord`).
`Aggregate` makes the same test: a geocoder result counts as found only when it is present
and non-empty (`Geocoded`), so an empty coordinate text is a failure there too.
`Geocode` never returns an empty coordinate.

## Model

| member | source | states |
|---|---|---|
| Geocoding.Geocode | app.py:25-40 | A reply fails exactly when its status is not 200 or its match count is 0. A reply with matches but an empty list is told apart as `Malformed`. A found coordinate is non-empty and contains a comma, so the `if not coord` test of app.py means exactly "not found". |
| Geocoding.SplitJoin | app.py:40 | Splitting `"x,y"` at its first comma gives back `x` and `y` when `x` has no comma: the joined text loses nothing. |
| Geocoding.GeocodeKeepsFirstMatch | app.py:37-40 | The coordinate returned carries exactly the first match's longitude and latitude. |
| Routing.RoundHalfEven | app.py:64 | The result is the integer nearest to `n / d`, with a tie going to the even neighbour. |
| Routing.RoundsToUnique | app.py:64 | At most one integer is `n / d` rounded that way, so the rounding contract fixes the value. |
| Routing.GetDistance | app.py:46-66 | Distance and duration are both present or both absent. They are present exactly when the status is 200 and the first `traoptimal` route has a summary with both fields. Distance is metres / 1000 and duration is ms / 60000, each rounded to one decimal (in tenths). |
| Routing.GetDistanceExample | app.py:62-64 | 12345 m and 987654 ms read as 12.3 km and 16.5 min. |
| Locations.Put | app.py:84 | Assigning to a name maps it to the new address and leaves other names unchanged. An existing name keeps its position and a new name is appended. Distinct keys stay distinct. |
| Locations.Collect | app.py:79-98 | The filling loop yields the dictionary of the kept rows. Its names are distinct, every entry has a non-empty name and address, and each name maps to the last kept row's address. |
| Locations.CollectedWellFormed | app.py:83-84 | The dictionary never holds a name twice, nor an empty name or address. |
| Locations.CollectedLookup | app.py:83-84 | Each name maps to the address of the last kept row with that name: later rows overwrite earlier ones. |
| Locations.CollectedNames | app.py:83-84 | A name is a key exactly when some row with that name and a non-empty address was kept. |
| Aggregation.Aggregate | app.py:113-149 | The loop's detail rows, summary rows and errors are exactly `Details`, `Summaries` and `Failures` of the two dictionaries. Each summary's running totals are the sums over its destination's rows. A geocoding result counts as failed when it is absent or empty, as `if not coord` does. |
| AggregationProperties.FailedDestinationIgnored | app.py:113-118 | A destination that fails to geocode leaves the detail and summary rows as if it were absent. Its name is added to the errors at its own position. |
| AggregationProperties.SummaryPerResolvedDestination | app.py:113-149 | There is exactly one summary row per geocoded destination, in destination order, and one error per destination that fails to geocode. Together they account for every destination. |
| AggregationProperties.DetailRowIff | app.py:123-142 | A detail row exists exactly when its destination geocodes, its origin geocodes and the router returns a route between them. The row carries that route's metrics and the two names. |
| AggregationProperties.DetailsInPairOrder | app.py:113-142 | The detail rows are the successful pairs in destination-major, origin-minor order: pair `k` is `(dests[k / n], origins[k % n])`. |
| AggregationProperties.SummaryTotals | app.py:120-148 | With distinct destination names, each summary row's totals equal the sums of that destination's detail rows. They are 0 when it has none. |
| AggregationProperties.EmptyCoordinateIsFailure | app.py:114-118 | A destination whose geocoding result is the empty text records an error and gets no summary row. |
| AggregationProperties.TwoOriginsExample | app.py:113-149 | Origins A and B to destination D at 10.0 km / 15.0 min and 20.0 km / 25.0 min give two detail rows and a summary of 30.0 km / 40.0 min. |
| Ranking.InsertByDistance | app.py:164 | Inserting into rows sorted by total distance keeps them sorted and adds exactly that row. |
| Ranking.SortByDistance | app.py:164 | The result is sorted ascending by total distance and is a permutation of the summary rows. |
| Ranking.FirstIsMinimal | app.py:169 | The first ranked row is one of the summary rows and has the least total distance. |
| Ranking.Rank | app.py:162-170 | There is no report exactly when there are no summary rows. Otherwise the ranked table is a sorted permutation of the summary rows. The best destination is that of the table's first row, and that row is a summary row of minimal total distance. |
| Ranking.RankExample | app.py:162-170 | Totals of 30.0 km (D1) and 10.0 km (D2) rank as [D2, D1] and recommend D2. |
| Session.Compare | app.py:79-170 | One run builds both dictionaries and compares every pair. Summaries and errors account for every destination, every summary's totals match its detail rows, and the report is the ranking of the summaries. |

## Left out

- Streamlit widgets, the spinner, tables and messages: presentation only. The error shown for a destination that fails to geocode is its name in `errors`.
- HTTP transport, the two API credentials and the endpoint URLs: foreign calls. Replies are given as values (`GeocodeReply`, `RouteReply`), and the pipeline takes the geocoder and router as functions.
- `@st.cache_data` memoisation: the geocoder is a function of the address, which is what the cache makes it. The number of network calls is not modelled.
- `time.sleep(0.2)` pacing: rate limiting only, with no effect on results.
- Floating point: metrics are exact integers in tenths. Python's `round` rounds the binary float, so a value such as 0.35 that lies just below a tie may round differently from the exact half-to-even rule used here. Summing floats is also not modelled: the totals here are exact sums of tenths, so the final `round(total, 1)` is the identity.
- Geocoding.Geocode: a reply with matches but no address list makes app.py raise an IndexError and abort the script. The model reports it as `Malformed`, but `Aggregate` takes a geocoder that only finds or fails, so the aborted run is not modelled.
- Geocoding.Geocode, Routing.GetDistance: replies whose JSON lacks `meta`, or whose body is not JSON at all, raise outside any `try` in app.py. The reply types here always carry those fields. A missing `route` or `traoptimal` key is modelled as an empty route list, which the `except` of app.py turns into "no route" just as it does an empty list.
- Routing.GetDistance: non-numeric `distance` or `duration` values, which the `except` of app.py also turns into "no route", are not representable in the reply type. Metres and milliseconds are integers, as the service sends them.
- Ranking.Rank: no order among rows with equal total distance is promised, because `sort_values` is not stable.
- The form's fixed shape (four origin rows, one to ten destination rows) is not imposed. `Collect` and `Compare` accept any number of rows.
