/**
 * What the comparison loop promises, stated over the functions that specify it: which
 * rows exist and in what order, what the totals are, and how a destination that cannot
 * be geocoded drops out.
 */
module AggregationProperties {
  import opened Wrappers
  import opened Locations
  import opened Routing
  import opened Aggregation

  /** The pair (`o` to `d`) succeeds with `row`: both addresses geocode and the router finds a route. */
  predicate Succeeds(d: Entry, o: Entry, geo: Geocoder, route: Router, row: DetailRow)
  {
    && Geocoded(geo(d.address))
    && Geocoded(geo(o.address))
    && route(geo(o.address).value, geo(d.address).value) == Some(Metric(row.distance, row.duration))
    && row.origin == o.name
    && row.destination == d.name
  }

  /** The detail row of a pair, or None when one of its calls fails. */
  function PairOutcome(d: Entry, o: Entry, geo: Geocoder, route: Router): Option<DetailRow>
  {
    var goal := geo(d.address);
    if Geocoded(goal) then PairRow(o, d, goal.value, geo, route) else None
  }

  /** Every (destination, origin) pair, destination-major: pair `k` is `(dests[k / n], origins[k % n])`. */
  function Pairs(dests: seq<Entry>, origins: seq<Entry>): (ps: seq<(Entry, Entry)>)
    ensures |ps| == |dests| * |origins|
  {
    var n := |origins|;
    if n == 0 then []
    else
      seq(|dests| * n, k requires 0 <= k < |dests| * n =>
        DivBelow(k, n, |dests|); (dests[k / n], origins[k % n]))
  }

  /** The rows of the successful pairs, in the order of `ps`. */
  function SuccessfulRows(ps: seq<(Entry, Entry)>, geo: Geocoder, route: Router): seq<DetailRow>
  {
    if ps == [] then []
    else
      var rows := SuccessfulRows(ps[..|ps| - 1], geo, route);
      var p := ps[|ps| - 1];
      match PairOutcome(p.0, p.1, geo, route)
      case None => rows
      case Some(row) => rows + [row]
  }

  // ---------------------------------------------------------------------------
  // Arithmetic on pair indices

  lemma DivBelow(k: int, n: int, m: int)
    requires n > 0 && 0 <= k < m * n
    ensures 0 <= k / n < m && 0 <= k % n < n
  {
    var q, r := k / n, k % n;
    assert k == q * n + r;
    assert (q - m) * n == q * n - m * n;
    ScaledBounds(q - m, n);
    ScaledBounds(q, n);
  }

  lemma DivOfBlock(q: int, n: int, i: int)
    requires n > 0 && 0 <= i < n
    ensures (q * n + i) / n == q && (q * n + i) % n == i
  {
    var a := q * n + i;
    var q', r' := a / n, a % n;
    assert a == q' * n + r';
    assert (q' - q) * n == i - r';
    ScaledBounds(q' - q, n);
  }

  // ---------------------------------------------------------------------------
  // Concatenation of destination lists

  lemma {:induction false} DetailsAppend(a: seq<Entry>, b: seq<Entry>, origins: seq<Entry>, geo: Geocoder, route: Router)
    ensures Details(a + b, origins, geo, route) == Details(a, origins, geo, route) + Details(b, origins, geo, route)
    ensures Summaries(a + b, origins, geo, route) == Summaries(a, origins, geo, route) + Summaries(b, origins, geo, route)
    ensures Failures(a + b, geo) == Failures(a, geo) + Failures(b, geo)
    ensures Resolved(a + b, geo) == Resolved(a, geo) + Resolved(b, geo)
  {
    if b == [] {
      assert a + b == a;
    } else {
      var b' := b[..|b| - 1];
      assert (a + b)[..|a + b| - 1] == a + b';
      DetailsAppend(a, b', origins, geo, route);
    }
  }

  /**
   * A destination that does not geocode leaves the detail and summary rows exactly as
   * if it were absent, and adds its name to the errors at its own position.
   */
  lemma FailedDestinationIgnored(dests: seq<Entry>, origins: seq<Entry>, geo: Geocoder, route: Router, j: int)
    requires 0 <= j < |dests| && !Geocoded(geo(dests[j].address))
    ensures var without := dests[..j] + dests[j + 1..];
      && Details(without, origins, geo, route) == Details(dests, origins, geo, route)
      && Summaries(without, origins, geo, route) == Summaries(dests, origins, geo, route)
      && Failures(dests, geo) == Failures(dests[..j], geo) + [dests[j].name] + Failures(dests[j + 1..], geo)
  {
    var pre, d, post := dests[..j], dests[j], dests[j + 1..];
    assert dests == pre + [d] + post;
    DetailsAppend(pre, [d], origins, geo, route);
    DetailsAppend(pre + [d], post, origins, geo, route);
    DetailsAppend(pre, post, origins, geo, route);
    assert [d][..0] == [];
  }

  // ---------------------------------------------------------------------------
  // Which summary rows and errors exist

  /**
   * Exactly one summary row per geocoded destination, in destination order, and one error
   * per destination that does not geocode: together they account for every destination.
   */
  lemma {:induction false} SummaryPerResolvedDestination(dests: seq<Entry>, origins: seq<Entry>, geo: Geocoder, route: Router)
    ensures |Summaries(dests, origins, geo, route)| == |Resolved(dests, geo)|
    ensures forall k :: 0 <= k < |Resolved(dests, geo)| ==>
              Summaries(dests, origins, geo, route)[k].destination == Resolved(dests, geo)[k].name
    ensures |Resolved(dests, geo)| + |Failures(dests, geo)| == |dests|
    ensures forall d :: d in Resolved(dests, geo) <==> d in dests && Geocoded(geo(d.address))
    ensures forall n :: n in Failures(dests, geo) <==> exists d :: d in dests && d.name == n && !Geocoded(geo(d.address))
  {
    if dests != [] {
      var init, d := dests[..|dests| - 1], dests[|dests| - 1];
      assert dests == init + [d];
      SummaryPerResolvedDestination(init, origins, geo, route);
      forall n | n in Failures(dests, geo)
        ensures exists e :: e in dests && e.name == n && !Geocoded(geo(e.address))
      {
        if n in Failures(init, geo) {
          var e :| e in init && e.name == n && !Geocoded(geo(e.address));
          assert e in dests;
        } else {
          assert d in dests;
        }
      }
    }
  }

  // ---------------------------------------------------------------------------
  // Which detail rows exist, and in what order

  lemma {:induction false} DestinationRowsIff(origins: seq<Entry>, d: Entry, goal: Coord, geo: Geocoder, route: Router, row: DetailRow)
    ensures row in DestinationRows(origins, d, goal, geo, route) <==>
              exists i :: 0 <= i < |origins| && PairRow(origins[i], d, goal, geo, route) == Some(row)
  {
    if origins != [] {
      var init := origins[..|origins| - 1];
      DestinationRowsIff(init, d, goal, geo, route, row);
      if exists i :: 0 <= i < |init| && PairRow(init[i], d, goal, geo, route) == Some(row) {
        var i :| 0 <= i < |init| && PairRow(init[i], d, goal, geo, route) == Some(row);
        assert origins[i] == init[i];
      }
      if exists i :: 0 <= i < |origins| && PairRow(origins[i], d, goal, geo, route) == Some(row) {
        var i :| 0 <= i < |origins| && PairRow(origins[i], d, goal, geo, route) == Some(row);
        if i < |init| {
          assert init[i] == origins[i];
        }
      }
    }
  }

  /** Some (destination, origin) pair of the two lists succeeds with `row`. */
  predicate SomePairSucceeds(dests: seq<Entry>, origins: seq<Entry>, geo: Geocoder, route: Router, row: DetailRow)
  {
    exists j, i :: 0 <= j < |dests| && 0 <= i < |origins| && Succeeds(dests[j], origins[i], geo, route, row)
  }

  /**
   * A detail row exists exactly when its destination geocodes, its origin geocodes and
   * the router finds a route between them; the row carries that route's metrics.
   */
  lemma {:induction false} DetailRowIff(dests: seq<Entry>, origins: seq<Entry>, geo: Geocoder, route: Router, row: DetailRow)
    ensures row in Details(dests, origins, geo, route) <==>
              exists j, i :: 0 <= j < |dests| && 0 <= i < |origins| && Succeeds(dests[j], origins[i], geo, route, row)
  {
    if dests != [] {
      var init, d := dests[..|dests| - 1], dests[|dests| - 1];
      DetailRowIff(init, origins, geo, route, row);
      SomePairSucceedsSplit(dests, origins, geo, route, row);
      if Geocoded(geo(d.address)) {
        var goal := geo(d.address).value;
        assert Details(dests, origins, geo, route) == Details(init, origins, geo, route) + DestinationRows(origins, d, goal, geo, route);
        DestinationRowsIff(origins, d, goal, geo, route, row);
        PairRowSucceeds(origins, d, goal, geo, route, row);
      } else {
        assert Details(dests, origins, geo, route) == Details(init, origins, geo, route);
        assert forall i :: 0 <= i < |origins| ==> !Succeeds(d, origins[i], geo, route, row);
      }
    }
  }

  lemma PairRowSucceeds(origins: seq<Entry>, d: Entry, goal: Coord, geo: Geocoder, route: Router, row: DetailRow)
    requires geo(d.address) == Some(goal) && goal != []
    ensures (exists i :: 0 <= i < |origins| && PairRow(origins[i], d, goal, geo, route) == Some(row)) <==>
            (exists i :: 0 <= i < |origins| && Succeeds(d, origins[i], geo, route, row))
  {
    forall i | 0 <= i < |origins|
      ensures PairRow(origins[i], d, goal, geo, route) == Some(row) <==> Succeeds(d, origins[i], geo, route, row)
    {
    }
  }

  lemma SomePairSucceedsSplit(dests: seq<Entry>, origins: seq<Entry>, geo: Geocoder, route: Router, row: DetailRow)
    requires dests != []
    ensures var init, d := dests[..|dests| - 1], dests[|dests| - 1];
      SomePairSucceeds(dests, origins, geo, route, row) <==>
        SomePairSucceeds(init, origins, geo, route, row) ||
        exists i :: 0 <= i < |origins| && Succeeds(d, origins[i], geo, route, row)
  {
    var init, d := dests[..|dests| - 1], dests[|dests| - 1];
    if SomePairSucceeds(init, origins, geo, route, row) {
      var j, i :| 0 <= j < |init| && 0 <= i < |origins| && Succeeds(init[j], origins[i], geo, route, row);
      assert dests[j] == init[j];
    }
    if exists i :: 0 <= i < |origins| && Succeeds(d, origins[i], geo, route, row) {
      var i :| 0 <= i < |origins| && Succeeds(d, origins[i], geo, route, row);
      assert Succeeds(dests[|dests| - 1], origins[i], geo, route, row);
    }
    if SomePairSucceeds(dests, origins, geo, route, row) {
      var j, i :| 0 <= j < |dests| && 0 <= i < |origins| && Succeeds(dests[j], origins[i], geo, route, row);
      if j < |init| {
        assert init[j] == dests[j];
      }
    }
  }

  lemma {:induction false} SuccessfulRowsAppend(a: seq<(Entry, Entry)>, b: seq<(Entry, Entry)>, geo: Geocoder, route: Router)
    ensures SuccessfulRows(a + b, geo, route) == SuccessfulRows(a, geo, route) + SuccessfulRows(b, geo, route)
  {
    if b == [] {
      assert a + b == a;
    } else {
      var b' := b[..|b| - 1];
      assert (a + b)[..|a + b| - 1] == a + b';
      SuccessfulRowsAppend(a, b', geo, route);
    }
  }

  /** The pairs of one destination, origins in order. */
  function PairsWith(d: Entry, origins: seq<Entry>): (ps: seq<(Entry, Entry)>)
    ensures |ps| == |origins|
  {
    seq(|origins|, i requires 0 <= i < |origins| => (d, origins[i]))
  }

  lemma {:induction false} SuccessfulRowsWith(d: Entry, origins: seq<Entry>, geo: Geocoder, route: Router)
    ensures SuccessfulRows(PairsWith(d, origins), geo, route) ==
              if Geocoded(geo(d.address)) then DestinationRows(origins, d, geo(d.address).value, geo, route)
              else []
  {
    if origins != [] {
      var init := origins[..|origins| - 1];
      assert PairsWith(d, origins)[..|origins| - 1] == PairsWith(d, init);
      SuccessfulRowsWith(d, init, geo, route);
    }
  }

  lemma PairsAppend(dests: seq<Entry>, d: Entry, origins: seq<Entry>)
    ensures Pairs(dests + [d], origins) == Pairs(dests, origins) + PairsWith(d, origins)
  {
    var n, m := |origins|, |dests|;
    if n > 0 {
      var lhs, rhs := Pairs(dests + [d], origins), Pairs(dests, origins) + PairsWith(d, origins);
      assert (m + 1) * n == m * n + n;
      forall k | 0 <= k < |lhs| ensures lhs[k] == rhs[k] {
        PairAt(dests, d, origins, k);
      }
    }
  }

  lemma PairAt(dests: seq<Entry>, d: Entry, origins: seq<Entry>, k: int)
    requires |origins| > 0 && 0 <= k < (|dests| + 1) * |origins|
    ensures |Pairs(dests + [d], origins)| == |Pairs(dests, origins)| + |origins|
    ensures Pairs(dests + [d], origins)[k] == (Pairs(dests, origins) + PairsWith(d, origins))[k]
  {
    var n, m := |origins|, |dests|;
    assert (m + 1) * n == m * n + n;
    DivBelow(k, n, m + 1);
    var all := dests + [d];
    assert Pairs(all, origins)[k] == (all[k / n], origins[k % n]);
    if k < m * n {
      DivBelow(k, n, m);
      assert all[k / n] == dests[k / n];
      assert Pairs(dests, origins)[k] == (dests[k / n], origins[k % n]);
    } else {
      var i := k - m * n;
      DivOfBlock(m, n, i);
      assert PairsWith(d, origins)[i] == (d, origins[i]);
    }
  }

  /**
   * The detail rows are the successful pairs taken destination-major, origin-minor: the
   * rows keep the order of `Pairs`, each pair contributing its row when it succeeds.
   */
  lemma {:induction false} DetailsInPairOrder(dests: seq<Entry>, origins: seq<Entry>, geo: Geocoder, route: Router)
    ensures Details(dests, origins, geo, route) == SuccessfulRows(Pairs(dests, origins), geo, route)
  {
    if dests != [] {
      var init, d := dests[..|dests| - 1], dests[|dests| - 1];
      assert dests == init + [d];
      DetailsInPairOrder(init, origins, geo, route);
      PairsAppend(init, d, origins);
      SuccessfulRowsAppend(Pairs(init, origins), PairsWith(d, origins), geo, route);
      SuccessfulRowsWith(d, origins, geo, route);
    }
  }

  // ---------------------------------------------------------------------------
  // Totals

  /** The detail rows of one destination name. */
  function RowsTo(rows: seq<DetailRow>, name: string): seq<DetailRow>
  {
    if rows == [] then []
    else
      var rest := RowsTo(rows[..|rows| - 1], name);
      if rows[|rows| - 1].destination == name then rest + [rows[|rows| - 1]] else rest
  }

  lemma {:induction false} RowsToAppend(a: seq<DetailRow>, b: seq<DetailRow>, name: string)
    ensures RowsTo(a + b, name) == RowsTo(a, name) + RowsTo(b, name)
  {
    if b == [] {
      assert a + b == a;
    } else {
      var b' := b[..|b| - 1];
      assert (a + b)[..|a + b| - 1] == a + b';
      RowsToAppend(a, b', name);
    }
  }

  lemma {:induction false} RowsToOnly(rows: seq<DetailRow>, name: string)
    ensures (forall r :: r in rows ==> r.destination == name) ==> RowsTo(rows, name) == rows
    ensures (forall r :: r in rows ==> r.destination != name) ==> RowsTo(rows, name) == []
  {
    if rows != [] {
      var init := rows[..|rows| - 1];
      assert forall r :: r in init ==> r in rows;
      RowsToOnly(init, name);
      assert rows == init + [rows[|rows| - 1]];
    }
  }

  lemma {:induction false} DestinationRowsName(origins: seq<Entry>, d: Entry, goal: Coord, geo: Geocoder, route: Router)
    ensures forall r :: r in DestinationRows(origins, d, goal, geo, route) ==> r.destination == d.name
  {
    if origins != [] {
      DestinationRowsName(origins[..|origins| - 1], d, goal, geo, route);
    }
  }

  lemma {:induction false} DetailsNames(dests: seq<Entry>, origins: seq<Entry>, geo: Geocoder, route: Router)
    ensures forall r :: r in Details(dests, origins, geo, route) ==> r.destination in Names(dests)
  {
    if dests != [] {
      var init, d := dests[..|dests| - 1], dests[|dests| - 1];
      DetailsNames(init, origins, geo, route);
      if Geocoded(geo(d.address)) {
        DestinationRowsName(origins, d, geo(d.address).value, geo, route);
      }
      assert Names(dests) == Names(init) + [d.name];
    }
  }

  /** The totals of `s` are the sums over the rows of `details` that go to its destination. */
  predicate TotalsMatch(s: SummaryRow, details: seq<DetailRow>)
  {
    var mine := RowsTo(details, s.destination);
    s.totalDistance == SumDistance(mine) && s.totalDuration == SumDuration(mine)
  }

  /**
   * With distinct destination names (they are dictionary keys), each summary row's totals
   * are the sums of the detail rows for its destination; with no such rows they are zero.
   */
  lemma {:induction false} SummaryTotals(dests: seq<Entry>, origins: seq<Entry>, geo: Geocoder, route: Router, k: int)
    requires DistinctNames(dests)
    requires 0 <= k < |Summaries(dests, origins, geo, route)|
    ensures TotalsMatch(Summaries(dests, origins, geo, route)[k], Details(dests, origins, geo, route))
    ensures var s := Summaries(dests, origins, geo, route)[k];
      RowsTo(Details(dests, origins, geo, route), s.destination) == [] ==> s.totalDistance == 0 && s.totalDuration == 0
  {
    assert dests != [];
    var init, d := dests[..|dests| - 1], dests[|dests| - 1];
    DistinctPrefix(dests);
    var details := Details(init, origins, geo, route);
    var summaries := Summaries(init, origins, geo, route);
    if !Geocoded(geo(d.address)) {
      assert Summaries(dests, origins, geo, route) == summaries;
      assert Details(dests, origins, geo, route) == details;
      SummaryTotals(init, origins, geo, route, k);
    } else {
      var goal := geo(d.address).value;
      var mine := DestinationRows(origins, d, goal, geo, route);
      assert Details(dests, origins, geo, route) == details + mine;
      assert Summaries(dests, origins, geo, route) == summaries + [SummaryRow(d.name, SumDistance(mine), SumDuration(mine))];
      DestinationRowsName(origins, d, goal, geo, route);
      NewNameAbsent(dests);
      if k < |summaries| {
        SummaryTotals(init, origins, geo, route, k);
        SummaryPerResolvedDestination(init, origins, geo, route);
        OlderSummaryKeepsTotals(init, d, origins, geo, route, k, mine);
        assert Summaries(dests, origins, geo, route)[k] == summaries[k];
      } else {
        DetailsNames(init, origins, geo, route);
        RowsToAppend(details, mine, d.name);
        RowsToOnly(details, d.name);
        RowsToOnly(mine, d.name);
        assert RowsTo(details + mine, d.name) == mine;
        assert Summaries(dests, origins, geo, route)[k] == SummaryRow(d.name, SumDistance(mine), SumDuration(mine));
      }
    }
  }

  lemma OlderSummaryKeepsTotals(init: seq<Entry>, d: Entry, origins: seq<Entry>, geo: Geocoder, route: Router, k: int, mine: seq<DetailRow>)
    requires 0 <= k < |Summaries(init, origins, geo, route)| == |Resolved(init, geo)|
    requires Summaries(init, origins, geo, route)[k].destination == Resolved(init, geo)[k].name
    requires forall e :: e in Resolved(init, geo) ==> e in init
    requires d.name !in Names(init)
    requires forall r :: r in mine ==> r.destination == d.name
    requires TotalsMatch(Summaries(init, origins, geo, route)[k], Details(init, origins, geo, route))
    ensures TotalsMatch(Summaries(init, origins, geo, route)[k], Details(init, origins, geo, route) + mine)
  {
    var s := Summaries(init, origins, geo, route)[k];
    assert Resolved(init, geo)[k] in init;
    assert s.destination in Names(init);
    assert s.destination != d.name;
    RowsToAppend(Details(init, origins, geo, route), mine, s.destination);
    RowsToOnly(mine, s.destination);
    assert RowsTo(mine, s.destination) == [];
    assert RowsTo(Details(init, origins, geo, route) + mine, s.destination) == RowsTo(Details(init, origins, geo, route), s.destination);
  }

  lemma DistinctPrefix(dests: seq<Entry>)
    requires dests != [] && DistinctNames(dests)
    ensures DistinctNames(dests[..|dests| - 1])
  {
  }

  lemma NewNameAbsent(dests: seq<Entry>)
    requires dests != [] && DistinctNames(dests)
    ensures dests[|dests| - 1].name !in Names(dests[..|dests| - 1])
  {
    var init := dests[..|dests| - 1];
    forall a | 0 <= a < |init| ensures Names(init)[a] != dests[|dests| - 1].name {
      assert init[a] == dests[a];
    }
  }

  /**
   * Two origins A and B and one destination D, with A to D 10.0 km / 15.0 min and B to D
   * 20.0 km / 25.0 min: two detail rows and a summary of 30.0 km / 40.0 min.
   */
  lemma TwoOriginsExample()
    ensures var a, b, d := Entry("A", "a"), Entry("B", "b"), Entry("D", "d");
      var geo: Geocoder := addr => if addr == "d" then Some("0,0") else if addr == "a" then Some("1,1") else Some("2,2");
      var route: Router := (start, goal) => if start == "1,1" then Some(Metric(100, 150)) else Some(Metric(200, 250));
      && Details([d], [a, b], geo, route) == [DetailRow("A", "D", 100, 150), DetailRow("B", "D", 200, 250)]
      && Summaries([d], [a, b], geo, route) == [SummaryRow("D", 300, 400)]
      && Failures([d], geo) == []
  {
    var a, b, d := Entry("A", "a"), Entry("B", "b"), Entry("D", "d");
    var geo: Geocoder := addr => if addr == "d" then Some("0,0") else if addr == "a" then Some("1,1") else Some("2,2");
    var route: Router := (start, goal) => if start == "1,1" then Some(Metric(100, 150)) else Some(Metric(200, 250));
    assert Geocoded(geo("d")) && Geocoded(geo("a")) && Geocoded(geo("b"));
    assert [a, b][..1] == [a];
    assert [d][..0] == [];
    var rows := DestinationRows([a, b], d, "0,0", geo, route);
    assert DestinationRows([a], d, "0,0", geo, route) == [DetailRow("A", "D", 100, 150)];
    assert rows == [DetailRow("A", "D", 100, 150), DetailRow("B", "D", 200, 250)];
    assert rows[..1] == [DetailRow("A", "D", 100, 150)];
    assert rows[..1][..0] == [];
    assert SumDistance(rows[..1]) == 100 && SumDuration(rows[..1]) == 150;
    assert SumDistance(rows) == 300 && SumDuration(rows) == 400;
  }

  /**
   * app.py tests `if not dest_coord`, so a destination geocoded to an empty text is a
   * failure: it records an error and gets no summary row.
   */
  lemma EmptyCoordinateIsFailure(route: Router)
    ensures var geo: Geocoder := addr => Some("");
      && Summaries([Entry("D", "d")], [], geo, route) == []
      && Failures([Entry("D", "d")], geo) == ["D"]
  {
    var geo: Geocoder := addr => Some("");
    assert !Geocoded(geo("d"));
    assert [Entry("D", "d")][..0] == [];
  }
}
