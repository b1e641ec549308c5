/**
  The player table as the similarity code sees it: an ordered sequence of rows,
  each row a map from column name to a cell. Feature vectors are projections of
  a row onto an ordered list of feature keys; a player is looked up by the value
  of a name column.
*/
module Table {
  import opened Results

  /** A table cell: a number or a piece of text. */
  datatype Cell = Num(num: real) | Text(text: string)

  type Row = map<string, Cell>

  /** A reference to a player: a name to look up, or a vector used as it is. */
  datatype Reference = Named(name: string) | Vector(vector: seq<real>)

  /** Every feature key is a numeric column of the row. */
  predicate HasFeatures(row: Row, keys: seq<string>) {
    forall k :: k in keys ==> k in row && row[k].Num?
  }

  /** The table is rectangular for the columns the engine reads: every row has
      the name column and a numeric value for every feature key. */
  predicate WellFormed(rows: seq<Row>, keys: seq<string>, col: string) {
    forall i :: 0 <= i < |rows| ==> col in rows[i] && HasFeatures(rows[i], keys)
  }

  /** The row's name column holds the text `p`. */
  predicate Matches(row: Row, col: string, p: string) {
    col in row && row[col] == Text(p)
  }

  /** `row[keys]` as a vector: one value per key, in the order of `keys`. */
  function Project(row: Row, keys: seq<string>): (v: seq<real>)
    requires HasFeatures(row, keys)
    ensures |v| == |keys|
    ensures forall i :: 0 <= i < |keys| ==> v[i] == row[keys[i]].num
  {
    if keys == [] then [] else [row[keys[0]].num] + Project(row, keys[1..])
  }

  /** The positions of the rows named `p`, ascending: the boolean mask
      `data[col] == p` turned into the row positions it selects. */
  function MatchIndices(rows: seq<Row>, col: string, p: string): (idx: seq<nat>)
    ensures forall j :: 0 <= j < |idx| ==> idx[j] < |rows| && Matches(rows[idx[j]], col, p)
    ensures forall j, k :: 0 <= j < k < |idx| ==> idx[j] < idx[k]
    ensures forall i :: 0 <= i < |rows| && Matches(rows[i], col, p) ==> i in idx
  {
    if rows == [] then []
    else
      var last := |rows| - 1;
      var rest := MatchIndices(rows[..last], col, p);
      if Matches(rows[last], col, p) then rest + [last] else rest
  }

  /** `data[data[col] == p][keys]`: the projected vector of every row named `p`,
      in table order. */
  function Lookup(rows: seq<Row>, keys: seq<string>, col: string, p: string): (vs: seq<seq<real>>)
    requires WellFormed(rows, keys, col)
    ensures |vs| == |MatchIndices(rows, col, p)|
    ensures forall j :: 0 <= j < |vs| ==> |vs[j]| == |keys|
  {
    var idx := MatchIndices(rows, col, p);
    seq(|idx|, j requires 0 <= j < |idx| => Project(rows[idx[j]], keys))
  }

  /** Exactly one row carries the name `p`. */
  predicate IsUnique(rows: seq<Row>, col: string, p: string) {
    |MatchIndices(rows, col, p)| == 1
  }

  /** The lookup has one entry per matching row, in table order, and each entry
      is that row's projection; it is empty exactly when no row matches. */
  lemma LookupInTableOrder(rows: seq<Row>, keys: seq<string>, col: string, p: string)
    requires WellFormed(rows, keys, col)
    ensures var idx := MatchIndices(rows, col, p);
      var vs := Lookup(rows, keys, col, p);
      && |vs| == |idx|
      && (forall j :: 0 <= j < |vs| ==> vs[j] == Project(rows[idx[j]], keys) && |vs[j]| == |keys|)
      && (forall j, k :: 0 <= j < k < |idx| ==> idx[j] < idx[k])
      && (forall i :: 0 <= i < |rows| ==> (Matches(rows[i], col, p) <==> i in idx))
      && (vs == [] <==> forall i :: 0 <= i < |rows| ==> !Matches(rows[i], col, p))
  {
    var idx := MatchIndices(rows, col, p);
    if idx != [] {
      assert Matches(rows[idx[0]], col, p);
    }
  }

  /** A name carried by exactly one row is unique, and its lookup is that row's vector. */
  lemma UniqueLookup(rows: seq<Row>, keys: seq<string>, col: string, p: string, i: nat)
    requires WellFormed(rows, keys, col)
    requires i < |rows| && Matches(rows[i], col, p)
    requires forall j :: 0 <= j < |rows| && Matches(rows[j], col, p) ==> j == i
    ensures IsUnique(rows, col, p)
    ensures Lookup(rows, keys, col, p) == [Project(rows[i], keys)]
  {
    var idx := MatchIndices(rows, col, p);
    assert i in idx;
    assert forall j :: 0 <= j < |idx| ==> idx[j] == i;
    FirstTwoAscend(idx);
  }

  /** In an ascending sequence the first entry is below the second. */
  lemma FirstTwoAscend(idx: seq<nat>)
    requires forall j, k :: 0 <= j < k < |idx| ==> idx[j] < idx[k]
    ensures |idx| >= 2 ==> idx[0] < idx[1]
  {
  }

  /** The row carrying a unique name is the only such row. */
  lemma UniqueRow(rows: seq<Row>, col: string, p: string) returns (i: nat)
    requires IsUnique(rows, col, p)
    ensures i < |rows| && Matches(rows[i], col, p)
    ensures forall j :: 0 <= j < |rows| && Matches(rows[j], col, p) ==> j == i
    ensures MatchIndices(rows, col, p) == [i]
  {
    i := MatchIndices(rows, col, p)[0];
  }

  /** The reference vector of a query. A name is resolved through the lookup;
      only a name carried by exactly one row yields a one-dimensional vector, which
      is what the distance functions accept. A vector is used as it is. */
  function Resolve(rows: seq<Row>, keys: seq<string>, col: string, player: Reference): (v: Option<seq<real>>)
    requires WellFormed(rows, keys, col)
    ensures player.Vector? ==> v == Some(player.vector)
    ensures player.Named? ==> (v.Some? <==> IsUnique(rows, col, player.name))
    ensures player.Named? && v.Some? ==>
      exists i :: 0 <= i < |rows| && Matches(rows[i], col, player.name) && v.value == Project(rows[i], keys)
  {
    match player
    case Vector(vec) => Some(vec)
    case Named(p) =>
      var found := Lookup(rows, keys, col, p);
      if |found| == 1 then
        var idx := MatchIndices(rows, col, p);
        assert found[0] == Project(rows[idx[0]], keys);
        Some(found[0])
      else None
  }

  /** A resolved reference the distance function accepts: present, and as
      long as a row's vector. */
  predicate Usable(v: Option<seq<real>>, keys: seq<string>) {
    v.Some? && |v.value| == |keys|
  }

  /** `data.drop(data[data[col] == p].index)`: the table without the rows named
      `p`, the other rows kept in their order. */
  function DropNamed(rows: seq<Row>, col: string, p: string): (kept: seq<Row>)
    ensures |kept| == |rows| - |MatchIndices(rows, col, p)|
    ensures forall j :: 0 <= j < |kept| ==> kept[j] in rows && !Matches(kept[j], col, p)
    ensures forall i :: 0 <= i < |rows| && !Matches(rows[i], col, p) ==> rows[i] in kept
  {
    if rows == [] then []
    else
      var last := |rows| - 1;
      var rest := DropNamed(rows[..last], col, p);
      if Matches(rows[last], col, p) then rest else rest + [rows[last]]
  }

  /** The positions of the rows not named `p`, ascending. */
  function KeptIndices(rows: seq<Row>, col: string, p: string): (idx: seq<nat>)
    ensures forall j :: 0 <= j < |idx| ==> idx[j] < |rows| && !Matches(rows[idx[j]], col, p)
    ensures forall j, k :: 0 <= j < k < |idx| ==> idx[j] < idx[k]
    ensures forall i :: 0 <= i < |rows| && !Matches(rows[i], col, p) ==> i in idx
  {
    if rows == [] then []
    else
      var last := |rows| - 1;
      var rest := KeptIndices(rows[..last], col, p);
      if Matches(rows[last], col, p) then rest else rest + [last]
  }

  /** Dropping keeps exactly the rows not named `p`, each once, in table
      order: the `j`-th kept row is the `j`-th row without that name. */
  lemma {:induction false} DropNamedKeepsOrder(rows: seq<Row>, col: string, p: string)
    ensures var kept, idx := DropNamed(rows, col, p), KeptIndices(rows, col, p);
      |kept| == |idx| && forall j :: 0 <= j < |kept| ==> kept[j] == rows[idx[j]]
  {
    if rows != [] {
      var last := |rows| - 1;
      DropNamedKeepsOrder(rows[..last], col, p);
      var kept, idx := DropNamed(rows, col, p), KeptIndices(rows, col, p);
      var kept0, idx0 := DropNamed(rows[..last], col, p), KeptIndices(rows[..last], col, p);
      forall j | 0 <= j < |kept0| ensures kept0[j] == rows[idx0[j]] {
        assert rows[..last][idx0[j]] == rows[idx0[j]];
      }
    }
  }

  /** Dropping rows keeps a well-formed table well formed. */
  lemma DropNamedWellFormed(rows: seq<Row>, keys: seq<string>, col: string, p: string)
    requires WellFormed(rows, keys, col)
    ensures WellFormed(DropNamed(rows, col, p), keys, col)
  {
    var kept := DropNamed(rows, col, p);
    forall j | 0 <= j < |kept| ensures col in kept[j] && HasFeatures(kept[j], keys) {
      var i :| 0 <= i < |rows| && rows[i] == kept[j];
    }
  }
}
