/**
 * The `origins` and `destinations` dictionaries of app.py: insertion-ordered mappings from a
 * location's name to its address, filled from the rows of the input form.
 */
module Locations {
  import opened Wrappers

  /** A named location: one (name, address) item of the dictionary, or one row of the form. */
  datatype Entry = Entry(name: string, address: string)

  /** The names of a dictionary's items, in iteration order. */
  function Names(d: seq<Entry>): (ns: seq<string>)
    ensures |ns| == |d|
    ensures forall k :: 0 <= k < |d| ==> ns[k] == d[k].name
  {
    if d == [] then [] else [d[0].name] + Names(d[1..])
  }

  predicate DistinctNames(d: seq<Entry>)
  {
    forall a, b :: 0 <= a < b < |d| ==> d[a].name != d[b].name
  }

  /** `d.get(name)`: the address stored under `name`, if any. */
  function Lookup(d: seq<Entry>, name: string): Option<string>
  {
    if d == [] then None
    else if d[0].name == name then Some(d[0].address)
    else Lookup(d[1..], name)
  }

  /**
   * `d[name] = address` on an insertion-ordered dictionary: an existing name keeps its
   * position and gets the new address, a new name goes to the end.
   */
  function Put(d: seq<Entry>, name: string, address: string): (r: seq<Entry>)
    ensures Lookup(r, name) == Some(address)
    ensures forall n :: n != name ==> Lookup(r, n) == Lookup(d, n)
    ensures Names(r) == if name in Names(d) then Names(d) else Names(d) + [name]
    ensures DistinctNames(d) ==> DistinctNames(r)
    ensures forall e :: e in r ==> e in d || e == Entry(name, address)
  {
    if d == [] then [Entry(name, address)]
    else if d[0].name == name then [Entry(name, address)] + d[1..]
    else
      var r := [d[0]] + Put(d[1..], name, address);
      assert Names(d) == [d[0].name] + Names(d[1..]);
      assert Names(r) == [d[0].name] + Names(r[1..]);
      r
  }

  /** A form row is stored only when both its name and its address are non-empty strings. */
  predicate Kept(e: Entry)
  {
    e.name != [] && e.address != []
  }

  /** The dictionary that the form rows build, row by row. */
  function Collected(rows: seq<Entry>): seq<Entry>
  {
    if rows == [] then []
    else
      var d, e := Collected(rows[..|rows| - 1]), rows[|rows| - 1];
      if Kept(e) then Put(d, e.name, e.address) else d
  }

  /** Reference reading of the dictionary: the address of the last kept row with that name. */
  function LastAddress(rows: seq<Entry>, name: string): (a: Option<string>)
    ensures a.Some? ==> Entry(name, a.value) in rows && Kept(Entry(name, a.value))
  {
    if rows == [] then None
    else
      var e := rows[|rows| - 1];
      if Kept(e) && e.name == name then Some(e.address)
      else
        var a := LastAddress(rows[..|rows| - 1], name);
        assert a.Some? ==> Entry(name, a.value) in rows[..|rows| - 1];
        a
  }

  /** The loop of app.py:79-84 (origins) and app.py:93-98 (destinations). */
  method Collect(rows: seq<Entry>) returns (d: seq<Entry>)
    ensures d == Collected(rows)
    ensures DistinctNames(d)
    ensures forall e :: e in d ==> Kept(e)
    ensures forall n :: Lookup(d, n) == LastAddress(rows, n)
  {
    d := [];
    var i := 0;
    while i < |rows|
      invariant 0 <= i <= |rows|
      invariant d == Collected(rows[..i])
    {
      var e := rows[i];
      if e.name != [] && e.address != [] {
        d := Put(d, e.name, e.address);
      }
      assert rows[..i + 1][..i] == rows[..i];
      i := i + 1;
    }
    assert rows[..i] == rows;
    CollectedWellFormed(rows);
    forall n {
      CollectedLookup(rows, n);
    }
  }

  /** The dictionary never holds a name twice, nor an empty name or address. */
  lemma {:induction false} CollectedWellFormed(rows: seq<Entry>)
    ensures DistinctNames(Collected(rows))
    ensures forall e :: e in Collected(rows) ==> Kept(e)
  {
    if rows != [] {
      CollectedWellFormed(rows[..|rows| - 1]);
    }
  }

  /** Each name maps to the address of the last kept row carrying it: later rows overwrite. */
  lemma {:induction false} CollectedLookup(rows: seq<Entry>, name: string)
    ensures Lookup(Collected(rows), name) == LastAddress(rows, name)
  {
    if rows != [] {
      CollectedLookup(rows[..|rows| - 1], name);
    }
  }

  /** A name is a key exactly when some row with that name was kept. */
  lemma {:induction false} CollectedNames(rows: seq<Entry>, name: string)
    ensures name in Names(Collected(rows)) <==> exists k :: 0 <= k < |rows| && Kept(rows[k]) && rows[k].name == name
  {
    if rows != [] {
      var init := rows[..|rows| - 1];
      CollectedNames(init, name);
      if exists k :: 0 <= k < |init| && Kept(init[k]) && init[k].name == name {
        var k :| 0 <= k < |init| && Kept(init[k]) && init[k].name == name;
        assert rows[k] == init[k];
      }
      if exists k :: 0 <= k < |rows| && Kept(rows[k]) && rows[k].name == name {
        var k :| 0 <= k < |rows| && Kept(rows[k]) && rows[k].name == name;
        if k < |init| {
          assert init[k] == rows[k];
        }
      }
    }
  }
}
