/**
 * The summary table's ordering and the recommended destination (app.py:162-170): the
 * summary rows sorted by total distance, ascending, and the destination of the first.
 * Duration plays no part. The order among rows with equal distance is left open, as
 * `sort_values` with its default algorithm is not stable.
 */
module Ranking {
  import opened Wrappers
  import opened Aggregation

  predicate SortedByDistance(rows: seq<SummaryRow>)
  {
    forall a, b :: 0 <= a < b < |rows| ==> rows[a].totalDistance <= rows[b].totalDistance
  }

  /** Inserts `row` into rows already sorted by total distance. */
  function InsertByDistance(row: SummaryRow, sorted: seq<SummaryRow>): (r: seq<SummaryRow>)
    requires SortedByDistance(sorted)
    ensures SortedByDistance(r)
    ensures multiset(r) == multiset(sorted) + multiset{row}
    ensures forall x :: x in r ==> x == row || x in sorted
  {
    if sorted == [] then [row]
    else if row.totalDistance <= sorted[0].totalDistance then [row] + sorted
    else
      var rest := InsertByDistance(row, sorted[1..]);
      assert sorted == [sorted[0]] + sorted[1..];
      assert forall x :: x in sorted[1..] ==> sorted[0].totalDistance <= x.totalDistance;
      assert forall x :: x in rest ==> sorted[0].totalDistance <= x.totalDistance;
      [sorted[0]] + rest
  }

  /** `sort_values` on total distance: the same rows, ascending by total distance. */
  function SortByDistance(rows: seq<SummaryRow>): (r: seq<SummaryRow>)
    ensures SortedByDistance(r)
    ensures multiset(r) == multiset(rows)
  {
    if rows == [] then []
    else
      assert rows == [rows[0]] + rows[1..];
      InsertByDistance(rows[0], SortByDistance(rows[1..]))
  }

  /** The ranked summary table and the name of the recommended destination. */
  datatype Report = Report(ranked: seq<SummaryRow>, best: string)

  /**
   * The reporting step: nothing when there is no summary row; otherwise the rows ranked
   * by total distance and, as the best destination, that of the first ranked row, whose
   * total distance is minimal.
   */
  function Rank(summaries: seq<SummaryRow>): (r: Option<Report>)
    ensures r.None? <==> summaries == []
    ensures r.Some? ==> SortedByDistance(r.value.ranked) && multiset(r.value.ranked) == multiset(summaries)
    ensures r.Some? ==> r.value.ranked != [] && r.value.best == r.value.ranked[0].destination
    ensures r.Some? ==>
              exists s :: s in summaries && s.destination == r.value.best &&
                forall q :: q in summaries ==> s.totalDistance <= q.totalDistance
  {
    if summaries == [] then None
    else
      var ranked := SortByDistance(summaries);
      FirstIsMinimal(ranked, summaries);
      Some(Report(ranked, ranked[0].destination))
  }

  /** The first of the sorted rows is one of the rows, with the least total distance. */
  lemma FirstIsMinimal(ranked: seq<SummaryRow>, rows: seq<SummaryRow>)
    requires SortedByDistance(ranked) && multiset(ranked) == multiset(rows) && rows != []
    ensures ranked != [] && ranked[0] in rows
    ensures forall q :: q in rows ==> ranked[0].totalDistance <= q.totalDistance
  {
    assert rows[0] in multiset(ranked);
    assert ranked[0] in multiset(rows);
    forall q | q in rows ensures ranked[0].totalDistance <= q.totalDistance {
      assert q in multiset(ranked);
      var i :| 0 <= i < |ranked| && ranked[i] == q;
    }
  }

  /** Totals of 30.0 km for D1 and 10.0 km for D2 rank D2 first and recommend it. */
  lemma RankExample()
    ensures var d1, d2 := SummaryRow("D1", 300, 400), SummaryRow("D2", 100, 150);
      Rank([d1, d2]) == Some(Report([d2, d1], "D2"))
  {
    var d1, d2 := SummaryRow("D1", 300, 400), SummaryRow("D2", 100, 150);
    assert [d1, d2][1..] == [d2];
    assert SortByDistance([d2]) == [d2];
    assert InsertByDistance(d1, [d2]) == [d2, d1];
  }
}
