/**
 * One press of the compute button (app.py:79-98 and 106-170): the form rows become the
 * origin and destination dictionaries, every pair is compared, and the summary rows are
 * ranked when there are any.
 */
module Session {
  import opened Wrappers
  import opened Locations
  import opened Aggregation
  import opened AggregationProperties
  import opened Ranking

  method Compare(originRows: seq<Entry>, destRows: seq<Entry>, geo: Geocoder, route: Router)
    returns (details: seq<DetailRow>, summaries: seq<SummaryRow>, errors: seq<string>, report: Option<Report>)
    ensures var origins, dests := Collected(originRows), Collected(destRows);
      && details == Details(dests, origins, geo, route)
      && summaries == Summaries(dests, origins, geo, route)
      && errors == Failures(dests, geo)
    ensures |summaries| + |errors| == |Collected(destRows)|
    ensures forall k :: 0 <= k < |summaries| ==> TotalsMatch(summaries[k], details)
    ensures report == Rank(summaries)
  {
    var origins := Collect(originRows);
    var dests := Collect(destRows);
    details, summaries, errors := Aggregate(origins, dests, geo, route);
    SummaryPerResolvedDestination(dests, origins, geo, route);
    forall k | 0 <= k < |summaries| ensures TotalsMatch(summaries[k], details) {
      SummaryTotals(dests, origins, geo, route, k);
    }
    if summaries == [] {
      report := None;
    } else {
      report := Rank(summaries);
    }
  }
}
