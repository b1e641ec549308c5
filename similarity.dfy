/**
  The similarity engine of `src/similarity.py`: built once from a table, an
  ordered list of feature keys and a name column, it looks up player vectors,
  ranks the table by distance to a reference, blends two players and sweeps the
  blend from the first player towards the second.
*/
module Similarity {
  import opened Results
  import opened Table
  import opened Ranking
  import opened Interpolation

  class SimilarEngine {
    // Set once by the constructor; no operation changes them.
    const data: seq<Row>
    const vectorKeys: seq<string>
    const nameColumn: string

    constructor (data: seq<Row>, vectorKeys: seq<string>, nameColumn: string)
      ensures this.data == data && this.vectorKeys == vectorKeys && this.nameColumn == nameColumn
    {
      this.data := data;
      this.vectorKeys := vectorKeys;
      this.nameColumn := nameColumn;
    }

    /** The table has the name column and numeric feature columns in every row. */
    predicate Valid() {
      WellFormed(data, vectorKeys, nameColumn)
    }

    /** The vector of every row named `player`, in table order, each in the
        order of the feature keys; empty when no row has that name. */
    function GetPlayerVector(player: string): (vs: seq<seq<real>>)
      requires Valid()
      ensures |vs| == |MatchIndices(data, nameColumn, player)|
      ensures forall j :: 0 <= j < |vs| ==> |vs[j]| == |vectorKeys|
      ensures forall j :: 0 <= j < |vs| ==>
        var i := MatchIndices(data, nameColumn, player)[j];
        i < |data| && Matches(data[i], nameColumn, player) && vs[j] == Project(data[i], vectorKeys)
      ensures vs == [] <==> forall i :: 0 <= i < |data| ==> !Matches(data[i], nameColumn, player)
    {
      LookupInTableOrder(data, vectorKeys, nameColumn, player);
      Lookup(data, vectorKeys, nameColumn, player)
    }

    /** Rank the table by distance to `player` and keep the `n` nearest rows,
        each a copy of a table row with its `distance` column set. The ranking
        works on a copy: the engine's table is left as it was. On an empty table
        no `distance` column is ever created, so sorting by it raises `KeyError`.
        A name that does not resolve to exactly one row, or a vector whose
        length differs from the number of feature keys, makes the first
        distance call raise `ValueError`. */
    method FindSimilarPlayers(player: Reference, dist: Metric, n: nat) returns (r: Result<seq<Row>>)
      requires Valid()
      ensures |data| == 0 ==> r == Err("KeyError")
      ensures |data| > 0 && !Usable(Resolve(data, vectorKeys, nameColumn, player), vectorKeys) ==>
        r == Err("ValueError")
      ensures |data| > 0 && Usable(Resolve(data, vectorKeys, nameColumn, player), vectorKeys) ==>
        r == Ok(Ranked(data, vectorKeys, nameColumn, Resolve(data, vectorKeys, nameColumn, player).value, dist, n))
      ensures r.Ok? ==> |r.value| == Min(n, |data|) && SortedByDistance(r.value)
    {
      var copy := data;
      var reference := Resolve(data, vectorKeys, nameColumn, player);
      if |copy| == 0 {
        return Err("KeyError");
      }
      if !Usable(reference, vectorKeys) {
        return Err("ValueError");
      }
      var v := reference.value;
      var i := 0;
      while i < |copy|
        invariant 0 <= i <= |copy| == |data|
        invariant forall j :: 0 <= j < i ==> copy[j] == AnnotateRow(data[j], vectorKeys, v, dist)
        invariant forall j :: i <= j < |copy| ==> copy[j] == data[j]
      {
        var playerVector := Project(copy[i], vectorKeys);
        var distance := dist(v, playerVector);
        copy := copy[i := copy[i][DistanceColumn := Num(distance)]];
        i := i + 1;
      }
      assert copy == Annotate(data, vectorKeys, nameColumn, v, dist);
      RankedIsTopN(data, vectorKeys, nameColumn, v, dist, n);
      r := Ok(Take(SortByDistance(copy), n));
    }

    /** The blend of two players' vectors, `alpha * player1 + (1 - alpha) * player2`:
        at `alpha = 1` it is the first player's vector, at `alpha = 0` the second's. */
    function GradientEmbedding(player1: string, player2: string, alpha: real): (v: seq<real>)
      requires Valid()
      requires IsUnique(data, nameColumn, player1) && IsUnique(data, nameColumn, player2)
      ensures |v| == |vectorKeys|
      ensures forall k :: 0 <= k < |v| ==>
        v[k] == alpha * GetPlayerVector(player1)[0][k] + (1.0 - alpha) * GetPlayerVector(player2)[0][k]
      ensures alpha == 1.0 ==> v == GetPlayerVector(player1)[0]
      ensures alpha == 0.0 ==> v == GetPlayerVector(player2)[0]
    {
      var vs1, vs2 := GetPlayerVector(player1), GetPlayerVector(player2);
      var v1, v2 := vs1[0], vs2[0];
      BlendEndpoints(v1, v2, alpha);
      Blend(v1, v2, alpha)
    }

    /** The name the sweep records at weight `alpha`: unless the name column is
        `distance` itself, the name of some row of the table. */
    function SweepName(player1: string, player2: string, dist: Metric, alpha: real): (name: Cell)
      requires Valid() && |data| >= 2
      requires IsUnique(data, nameColumn, player1) && IsUnique(data, nameColumn, player2)
      ensures nameColumn != DistanceColumn ==> exists i :: 0 <= i < |data| && name == data[i][nameColumn]
    {
      SecondNearestName(data, vectorKeys, nameColumn, GradientEmbedding(player1, player2, alpha), dist)
    }

    /** For each weight of `linspace(1, 0, alphaRange, endpoint=False)`, the name
        of the second-ranked of the ten rows nearest to the blend at that weight.
        The ranking runs over the whole table, so either player may be named. */
    method InterpolatedPlayers(player1: string, player2: string, dist: Metric, alphaRange: nat) returns (players: seq<Cell>)
      requires Valid() && |data| >= 2
      requires IsUnique(data, nameColumn, player1) && IsUnique(data, nameColumn, player2)
      ensures |players| == alphaRange
      ensures forall i :: 0 <= i < alphaRange ==> players[i] == SweepName(player1, player2, dist, Alphas(alphaRange)[i])
    {
      var alphas := Alphas(alphaRange);
      players := [];
      var i := 0;
      while i < |alphas|
        invariant 0 <= i <= |alphas|
        invariant |players| == i
        invariant forall j :: 0 <= j < i ==> players[j] == SweepName(player1, player2, dist, alphas[j])
      {
        var vector := GradientEmbedding(player1, player2, alphas[i]);
        var similar := FindSimilarPlayers(Vector(vector), dist, SweepNeighbours);
        SecondNearestIsAtOne(data, vectorKeys, nameColumn, vector, dist);
        players := players + [similar.value[1][nameColumn]];
        i := i + 1;
      }
    }

    /** The sweep's first entry is ranked around the first player's own vector. */
    lemma SweepStartsAtFirstPlayer(player1: string, player2: string, alphaRange: nat)
      requires Valid() && alphaRange > 0
      requires IsUnique(data, nameColumn, player1) && IsUnique(data, nameColumn, player2)
      ensures GradientEmbedding(player1, player2, Alphas(alphaRange)[0]) == GetPlayerVector(player1)[0]
    {
      AlphasDescend(alphaRange);
    }
  }
}
