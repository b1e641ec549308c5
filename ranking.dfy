/**
  Ranking the rows of a table by their distance to a reference vector: every
  row gets a `distance` column, the rows are sorted by it in ascending order,
  and the first `n` are kept.
*/
module Ranking {
  import opened Table

  /** The column the ranking writes. */
  const DistanceColumn: string := "distance"

  /** Number of neighbours the interpolation sweep asks for. */
  const SweepNeighbours: nat := 10

  /** A distance function between two feature vectors (cosine by default in the
      Python code); it is a parameter of the model. */
  type Metric = (seq<real>, seq<real>) -> real

  function Min(a: nat, b: nat): nat {
    if a <= b then a else b
  }

  /** The value in the row's `distance` column; a row that was never annotated
      has none and reads as 0. */
  function DistanceOf(row: Row): real {
    if DistanceColumn in row && row[DistanceColumn].Num? then row[DistanceColumn].num else 0.0
  }

  /** The row with its `distance` column set to the distance from `v` to the row's vector. */
  function AnnotateRow(row: Row, keys: seq<string>, v: seq<real>, dist: Metric): (r: Row)
    requires HasFeatures(row, keys)
    ensures r.Keys == row.Keys + {DistanceColumn}
    ensures DistanceOf(r) == dist(v, Project(row, keys))
    ensures forall k :: k in row && k != DistanceColumn ==> r[k] == row[k]
  {
    row[DistanceColumn := Num(dist(v, Project(row, keys)))]
  }

  /** Every row of the table, annotated with its distance to `v`. */
  function Annotate(rows: seq<Row>, keys: seq<string>, col: string, v: seq<real>, dist: Metric): (a: seq<Row>)
    requires WellFormed(rows, keys, col)
    ensures |a| == |rows|
  {
    seq(|rows|, i requires 0 <= i < |rows| => AnnotateRow(rows[i], keys, v, dist))
  }

  /** Annotation sets `distance` on every row to that row's distance and leaves
      every other column as it was. */
  lemma AnnotateChangesOnlyDistance(rows: seq<Row>, keys: seq<string>, col: string, v: seq<real>, dist: Metric)
    requires WellFormed(rows, keys, col)
    ensures var a := Annotate(rows, keys, col, v, dist);
      && |a| == |rows|
      && (forall i :: 0 <= i < |a| ==> a[i][DistanceColumn] == Num(dist(v, Project(rows[i], keys))))
      && (forall i :: 0 <= i < |a| ==> a[i].Keys == rows[i].Keys + {DistanceColumn})
      && (forall i, k :: 0 <= i < |a| && k in rows[i] && k != DistanceColumn ==> a[i][k] == rows[i][k])
      && (forall i :: 0 <= i < |a| ==> DistanceOf(a[i]) == dist(v, Project(rows[i], keys)))
  {
  }

  /** When `distance` is neither a feature nor the name column, an annotated
      table is still well formed, gives the same vectors and names, and annotating
      it again gives the same table as annotating the original once. */
  lemma AnnotateAgain(rows: seq<Row>, keys: seq<string>, col: string, v: seq<real>, w: seq<real>, dist: Metric)
    requires WellFormed(rows, keys, col)
    requires DistanceColumn !in keys && DistanceColumn != col
    ensures WellFormed(Annotate(rows, keys, col, v, dist), keys, col)
    ensures forall i :: 0 <= i < |rows| ==>
      Annotate(rows, keys, col, v, dist)[i][col] == rows[i][col]
    ensures Annotate(Annotate(rows, keys, col, v, dist), keys, col, w, dist) == Annotate(rows, keys, col, w, dist)
  {
    var a := Annotate(rows, keys, col, v, dist);
    forall i | 0 <= i < |rows|
      ensures HasFeatures(a[i], keys) && Project(a[i], keys) == Project(rows[i], keys)
    {
      assert forall j :: 0 <= j < |keys| ==> a[i][keys[j]] == rows[i][keys[j]];
    }
    assert WellFormed(a, keys, col);
    var b := Annotate(a, keys, col, w, dist);
    var c := Annotate(rows, keys, col, w, dist);
    assert forall i :: 0 <= i < |rows| ==> b[i] == c[i];
  }

  /** Rows in non-decreasing order of their `distance` column. */
  predicate SortedByDistance(s: seq<Row>) {
    forall i, j :: 0 <= i < j < |s| ==> DistanceOf(s[i]) <= DistanceOf(s[j])
  }

  /** A row no farther than any row of a sorted sequence may go in front of it. */
  lemma PrependSorted(h: Row, t: seq<Row>)
    requires SortedByDistance(t)
    requires forall y :: y in t ==> DistanceOf(h) <= DistanceOf(y)
    ensures SortedByDistance([h] + t)
  {
    var s := [h] + t;
    forall i, j | 0 <= i < j < |s| ensures DistanceOf(s[i]) <= DistanceOf(s[j]) {
      if i == 0 {
        assert s[j] == t[j - 1];
        assert s[j] in t;
      } else {
        assert s[i] == t[i - 1] && s[j] == t[j - 1];
      }
    }
  }

  /** Insert `x` into a sorted sequence before the first row it does not exceed. */
  function InsertByDistance(x: Row, s: seq<Row>): (r: seq<Row>)
    requires SortedByDistance(s)
    ensures SortedByDistance(r)
    ensures multiset(r) == multiset(s) + multiset{x}
    ensures forall y :: y in r ==> y == x || y in s
  {
    if s == [] then [x]
    else if DistanceOf(x) <= DistanceOf(s[0]) then
      PrependSorted(x, s);
      [x] + s
    else
      var rest := InsertByDistance(x, s[1..]);
      assert s == [s[0]] + s[1..];
      assert forall y :: y in s[1..] ==> DistanceOf(s[0]) <= DistanceOf(y);
      PrependSorted(s[0], rest);
      [s[0]] + rest
  }

  /** `sort_values("distance", ascending=True)`: the same rows, in non-decreasing
      order of distance. The Python sort is not stable; this one is deterministic,
      and no tie order is promised. */
  function SortByDistance(s: seq<Row>): (r: seq<Row>)
    ensures SortedByDistance(r)
    ensures multiset(r) == multiset(s)
  {
    if s == [] then []
    else
      assert s == [s[0]] + s[1..];
      InsertByDistance(s[0], SortByDistance(s[1..]))
  }

  /** `head(n)` for a non-negative `n`: the first `n` rows, or all of them. */
  function Take(s: seq<Row>, n: nat): (r: seq<Row>)
    ensures |r| == Min(n, |s|)
    ensures forall i :: 0 <= i < |r| ==> r[i] == s[i]
  {
    s[..Min(n, |s|)]
  }

  /** The `n` rows nearest to `v`, each annotated with its distance, nearest first. */
  function Ranked(rows: seq<Row>, keys: seq<string>, col: string, v: seq<real>, dist: Metric, n: nat): (r: seq<Row>)
    requires WellFormed(rows, keys, col)
    ensures |r| == Min(n, |rows|)
  {
    var s := SortByDistance(Annotate(rows, keys, col, v, dist));
    assert |s| == |multiset(s)| == |rows|;
    Take(s, n)
  }

  /** A prefix of a sorted sequence holds its nearest rows: every row outside
      the prefix is at least as far as every row in it. */
  lemma SortedPrefixIsNearest(s: seq<Row>, k: nat)
    requires SortedByDistance(s) && k <= |s|
    ensures multiset(s[..k]) <= multiset(s)
    ensures forall x, y :: x in multiset(s) - multiset(s[..k]) && y in s[..k] ==> DistanceOf(y) <= DistanceOf(x)
  {
    var r, rest := s[..k], s[k..];
    assert s == r + rest;
    assert multiset(s) == multiset(r) + multiset(rest);
    forall x, y | x in multiset(s) - multiset(r) && y in r
      ensures DistanceOf(y) <= DistanceOf(x)
    {
      assert x in multiset(rest);
      var j :| 0 <= j < |rest| && rest[j] == x;
      var i :| 0 <= i < |r| && r[i] == y;
      assert s[i] == y && s[k + j] == x;
    }
  }

  /** The ranking is a true top-n: it has `min(n, rows)` rows, in non-decreasing
      distance; it is drawn from the annotated table without repetition beyond the
      table's own; and every row left out is at least as far as every row kept. */
  lemma RankedIsTopN(rows: seq<Row>, keys: seq<string>, col: string, v: seq<real>, dist: Metric, n: nat)
    requires WellFormed(rows, keys, col)
    ensures var a := Annotate(rows, keys, col, v, dist);
      var r := Ranked(rows, keys, col, v, dist, n);
      && |r| == Min(n, |rows|)
      && SortedByDistance(r)
      && multiset(r) <= multiset(a)
      && (forall x, y :: x in multiset(a) - multiset(r) && y in r ==> DistanceOf(y) <= DistanceOf(x))
  {
    var a := Annotate(rows, keys, col, v, dist);
    var s := SortByDistance(a);
    var k := Min(n, |s|);
    assert |s| == |multiset(s)| == |a|;
    SortedPrefixIsNearest(s, k);
  }

  /** Every ranked row is a row of the table annotated with its own distance. */
  lemma RankedRowsAreTableRows(rows: seq<Row>, keys: seq<string>, col: string, v: seq<real>, dist: Metric, n: nat)
    requires WellFormed(rows, keys, col)
    ensures forall y :: y in Ranked(rows, keys, col, v, dist, n) ==>
      col in y && exists i :: 0 <= i < |rows| && y == AnnotateRow(rows[i], keys, v, dist)
  {
    var a := Annotate(rows, keys, col, v, dist);
    var r := Ranked(rows, keys, col, v, dist, n);
    RankedIsTopN(rows, keys, col, v, dist, n);
    forall y | y in r
      ensures col in y && exists i :: 0 <= i < |rows| && y == AnnotateRow(rows[i], keys, v, dist)
    {
      assert y in multiset(r);
      assert y in multiset(a);
      var i :| 0 <= i < |a| && a[i] == y;
    }
  }

  /** The name of the row at position 1 of the ten nearest rows to `v`
      (`find_similar_players(v, n=10).iloc[[1]]`): the nearest row is skipped. */
  function SecondNearestName(rows: seq<Row>, keys: seq<string>, col: string, v: seq<real>, dist: Metric): (name: Cell)
    requires WellFormed(rows, keys, col) && |rows| >= 2
    ensures col != DistanceColumn ==> exists i :: 0 <= i < |rows| && name == rows[i][col]
  {
    var r := Ranked(rows, keys, col, v, dist, SweepNeighbours);
    RankedRowsAreTableRows(rows, keys, col, v, dist, SweepNeighbours);
    assert r[1] in r;
    var i :| 0 <= i < |rows| && r[1] == AnnotateRow(rows[i], keys, v, dist);
    r[1][col]
  }

  /** The sweep's pick is the name column of the row at position 1 of the ranking. */
  lemma SecondNearestIsAtOne(rows: seq<Row>, keys: seq<string>, col: string, v: seq<real>, dist: Metric)
    requires WellFormed(rows, keys, col) && |rows| >= 2
    ensures var r := Ranked(rows, keys, col, v, dist, SweepNeighbours);
      |r| >= 2 && col in r[1] && SecondNearestName(rows, keys, col, v, dist) == r[1][col]
  {
    var r := Ranked(rows, keys, col, v, dist, SweepNeighbours);
    RankedIsTopN(rows, keys, col, v, dist, SweepNeighbours);
    RankedRowsAreTableRows(rows, keys, col, v, dist, SweepNeighbours);
    assert r[1] in r;
  }

  /** The row picked by the sweep is no nearer than the first-ranked row and no
      farther than any row outside the ten nearest; unless the name column is
      `distance` itself, the name picked is the name of a table row. */
  lemma SecondNearestIsSecond(rows: seq<Row>, keys: seq<string>, col: string, v: seq<real>, dist: Metric)
    requires WellFormed(rows, keys, col) && |rows| >= 2
    ensures var a := Annotate(rows, keys, col, v, dist);
      var r := Ranked(rows, keys, col, v, dist, SweepNeighbours);
      && |r| >= 2
      && col in r[1]
      && SecondNearestName(rows, keys, col, v, dist) == r[1][col]
      && DistanceOf(r[0]) <= DistanceOf(r[1])
      && (forall x :: x in multiset(a) - multiset(r) ==> DistanceOf(r[1]) <= DistanceOf(x))
      && (col != DistanceColumn ==> exists i :: 0 <= i < |rows| && r[1][col] == rows[i][col])
  {
    var r := Ranked(rows, keys, col, v, dist, SweepNeighbours);
    RankedIsTopN(rows, keys, col, v, dist, SweepNeighbours);
    RankedRowsAreTableRows(rows, keys, col, v, dist, SweepNeighbours);
    assert r[1] in r;
    var i :| 0 <= i < |rows| && r[1] == AnnotateRow(rows[i], keys, v, dist);
    if col != DistanceColumn {
      assert r[1][col] == rows[i][col];
    }
  }
}
