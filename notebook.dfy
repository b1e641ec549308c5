/**
  The copy of the similarity engine in `notebook.py`: the same operations as
  free functions over a table, with two differences from the engine class.
  Ranking writes the `distance` column into the caller's table in place, and
  the interpolation sweep ranks over a table from which both endpoint players
  have been dropped. The notebook writes its list of 48 feature keys out inside
  each function; here that list is the argument `vectorKeys`, and `VectorKeys`
  is the list the notebook writes.
*/
module Notebook {
  import opened Results
  import opened Table
  import opened Ranking
  import opened Interpolation

  // The 48 feature columns of the notebook's list, in its order, grouped as the
  // player database groups them.
  const ProfileKeys: seq<string> :=
    ["weight_kg", "height_cm", "pace", "shooting", "passing", "dribbling", "defending", "physic"]
  const GkRatingKeys: seq<string> :=
    ["gk_diving", "gk_handling", "gk_kicking", "gk_reflexes", "gk_speed", "gk_positioning"]
  const AttackingKeys: seq<string> :=
    ["attacking_crossing", "attacking_finishing", "attacking_heading_accuracy",
     "attacking_short_passing", "attacking_volleys"]
  const SkillKeys: seq<string> :=
    ["skill_dribbling", "skill_curve", "skill_fk_accuracy", "skill_long_passing", "skill_ball_control"]
  const MovementKeys: seq<string> :=
    ["movement_acceleration", "movement_sprint_speed", "movement_agility", "movement_reactions",
     "movement_balance"]
  const PowerKeys: seq<string> :=
    ["power_shot_power", "power_jumping", "power_stamina", "power_strength", "power_long_shots"]
  const MentalityKeys: seq<string> :=
    ["mentality_aggression", "mentality_interceptions", "mentality_positioning", "mentality_vision",
     "mentality_penalties", "mentality_composure"]
  const DefendingKeys: seq<string> :=
    ["defending_marking", "defending_standing_tackle", "defending_sliding_tackle"]
  const GoalkeepingKeys: seq<string> :=
    ["goalkeeping_diving", "goalkeeping_handling", "goalkeeping_kicking", "goalkeeping_positioning",
     "goalkeeping_reflexes"]

  const VectorKeys: seq<string> :=
    ProfileKeys + GkRatingKeys + AttackingKeys + SkillKeys + MovementKeys + PowerKeys
    + MentalityKeys + DefendingKeys + GoalkeepingKeys

  /** The column holding the player's name. */
  const NameColumn: string := "short_name"

  /** A table the notebook functions read and update in place. */
  class Frame {
    var rows: seq<Row>

    constructor (rows: seq<Row>)
      ensures this.rows == rows
    {
      this.rows := rows;
    }
  }

  /** The table has the name column and numeric feature columns in every row. */
  predicate PlayerTable(rows: seq<Row>, vectorKeys: seq<string>) {
    WellFormed(rows, vectorKeys, NameColumn)
  }

  /** The notebook's key list has 48 keys, and the `distance` column is neither
      one of them nor the name column, so writing it never disturbs what the
      notebook reads. */
  lemma DistanceColumnIsFree()
    ensures |VectorKeys| == 48
    ensures DistanceColumn !in VectorKeys && DistanceColumn != NameColumn
  {
  }

  /** The vector of every row whose `short_name` is `name`, in table order,
      each in the order of the feature keys. The notebook passes its table here
      but only reads it, so the model passes the rows. */
  function GetPlayerVector(rows: seq<Row>, vectorKeys: seq<string>, name: string): (vs: seq<seq<real>>)
    requires PlayerTable(rows, vectorKeys)
    ensures |vs| == |MatchIndices(rows, NameColumn, name)|
    ensures forall j :: 0 <= j < |vs| ==> |vs[j]| == |vectorKeys|
    ensures forall j :: 0 <= j < |vs| ==>
      var i := MatchIndices(rows, NameColumn, name)[j];
      i < |rows| && Matches(rows[i], NameColumn, name) && vs[j] == Project(rows[i], vectorKeys)
    ensures vs == [] <==> forall i :: 0 <= i < |rows| ==> !Matches(rows[i], NameColumn, name)
  {
    LookupInTableOrder(rows, vectorKeys, NameColumn, name);
    Lookup(rows, vectorKeys, NameColumn, name)
  }

  /** Set the `distance` column of every row of the caller's table, in place,
      to the row's distance from `player`, and return the `n` nearest rows. On
      an empty table no `distance` column is ever created, so sorting by it
      raises `KeyError`. If `player` is a name that does not resolve to exactly
      one row, or a vector whose length differs from the number of feature
      keys, the first distance call raises `ValueError` before anything is
      written. */
  method FindSimilarPlayers(data: Frame, vectorKeys: seq<string>, player: Reference, dist: Metric, n: nat)
    returns (r: Result<seq<Row>>)
    requires PlayerTable(data.rows, vectorKeys)
    modifies data
    ensures |old(data.rows)| == 0 ==> data.rows == old(data.rows) && r == Err("KeyError")
    ensures |old(data.rows)| > 0 && !Usable(Resolve(old(data.rows), vectorKeys, NameColumn, player), vectorKeys) ==>
      data.rows == old(data.rows) && r == Err("ValueError")
    ensures |old(data.rows)| > 0 && Usable(Resolve(old(data.rows), vectorKeys, NameColumn, player), vectorKeys) ==>
      && data.rows == Annotate(old(data.rows), vectorKeys, NameColumn,
                               Resolve(old(data.rows), vectorKeys, NameColumn, player).value, dist)
      && r == Ok(Take(SortByDistance(data.rows), n))
    ensures r.Ok? ==> |r.value| == Min(n, |data.rows|) && SortedByDistance(r.value)
  {
    var reference := Resolve(data.rows, vectorKeys, NameColumn, player);
    if |data.rows| == 0 {
      return Err("KeyError");
    }
    if !Usable(reference, vectorKeys) {
      return Err("ValueError");
    }
    var v := reference.value;
    ghost var before := data.rows;
    var i := 0;
    while i < |data.rows|
      invariant 0 <= i <= |data.rows| == |before|
      invariant forall j :: 0 <= j < i ==> data.rows[j] == AnnotateRow(before[j], vectorKeys, v, dist)
      invariant forall j :: i <= j < |data.rows| ==> data.rows[j] == before[j]
    {
      var playerVector := Project(data.rows[i], vectorKeys);
      var distance := dist(v, playerVector);
      data.rows := data.rows[i := data.rows[i][DistanceColumn := Num(distance)]];
      i := i + 1;
    }
    assert data.rows == Annotate(before, vectorKeys, NameColumn, v, dist);
    RankedIsTopN(before, vectorKeys, NameColumn, v, dist, n);
    r := Ok(Take(SortByDistance(data.rows), n));
  }

  /** The blend `alpha * name1 + (1 - alpha) * name2` of two players' vectors:
      `name1`'s vector at `alpha = 1` and `name2`'s at `alpha = 0`. */
  function GradientEmbedding(rows: seq<Row>, vectorKeys: seq<string>, name1: string, name2: string, alpha: real)
    : (v: seq<real>)
    requires PlayerTable(rows, vectorKeys)
    requires IsUnique(rows, NameColumn, name1) && IsUnique(rows, NameColumn, name2)
    ensures |v| == |vectorKeys|
    ensures var v1, v2 := GetPlayerVector(rows, vectorKeys, name1)[0], GetPlayerVector(rows, vectorKeys, name2)[0];
      && (forall k :: 0 <= k < |v| ==> v[k] == alpha * v1[k] + (1.0 - alpha) * v2[k])
      && (alpha == 1.0 ==> v == v1)
      && (alpha == 0.0 ==> v == v2)
  {
    var vs1, vs2 := GetPlayerVector(rows, vectorKeys, name1), GetPlayerVector(rows, vectorKeys, name2);
    var v1, v2 := vs1[0], vs2[0];
    BlendEndpoints(v1, v2, alpha);
    Blend(v1, v2, alpha)
  }

  /** The table the sweep ranks over: every row named `name1` or `name2` dropped. */
  function SweepTable(rows: seq<Row>, name1: string, name2: string): (kept: seq<Row>)
    ensures |kept| <= |rows|
    ensures forall j :: 0 <= j < |kept| ==>
      kept[j] in rows && !Matches(kept[j], NameColumn, name1) && !Matches(kept[j], NameColumn, name2)
  {
    DropNamed(DropNamed(rows, NameColumn, name1), NameColumn, name2)
  }

  lemma SweepTableWellFormed(rows: seq<Row>, vectorKeys: seq<string>, name1: string, name2: string)
    requires PlayerTable(rows, vectorKeys)
    ensures PlayerTable(SweepTable(rows, name1, name2), vectorKeys)
  {
    DropNamedWellFormed(rows, vectorKeys, NameColumn, name1);
    DropNamedWellFormed(DropNamed(rows, NameColumn, name1), vectorKeys, NameColumn, name2);
  }

  /** The preconditions of one step of the sweep. */
  predicate SweepReady(rows: seq<Row>, vectorKeys: seq<string>, name1: string, name2: string) {
    && PlayerTable(rows, vectorKeys)
    && IsUnique(rows, NameColumn, name1) && IsUnique(rows, NameColumn, name2)
    && |SweepTable(rows, name1, name2)| >= 2
  }

  /** The name the sweep records at weight `alpha`: never either endpoint's. */
  function SweepName(rows: seq<Row>, vectorKeys: seq<string>, name1: string, name2: string, dist: Metric, alpha: real)
    : (name: Cell)
    requires SweepReady(rows, vectorKeys, name1, name2)
    ensures name != Text(name1) && name != Text(name2)
  {
    SweepTableWellFormed(rows, vectorKeys, name1, name2);
    SweepNeverNamesEndpoints(rows, vectorKeys, name1, name2,
                             GradientEmbedding(rows, vectorKeys, name1, name2, alpha), dist);
    SecondNearestName(SweepTable(rows, name1, name2), vectorKeys, NameColumn,
                      GradientEmbedding(rows, vectorKeys, name1, name2, alpha), dist)
  }

  /** No row of the sweep table carries either endpoint's name, so whatever the
      blend, the sweep never names either endpoint. */
  lemma SweepNeverNamesEndpoints(rows: seq<Row>, vectorKeys: seq<string>, name1: string, name2: string,
                                 v: seq<real>, dist: Metric)
    requires PlayerTable(rows, vectorKeys) && |SweepTable(rows, name1, name2)| >= 2
    ensures PlayerTable(SweepTable(rows, name1, name2), vectorKeys)
    ensures var pick := SecondNearestName(SweepTable(rows, name1, name2), vectorKeys, NameColumn, v, dist);
      pick != Text(name1) && pick != Text(name2)
  {
    var kept := SweepTable(rows, name1, name2);
    SweepTableWellFormed(rows, vectorKeys, name1, name2);
    var pick := SecondNearestName(kept, vectorKeys, NameColumn, v, dist);
    var i :| 0 <= i < |kept| && pick == kept[i][NameColumn];
    assert !Matches(kept[i], NameColumn, name1) && !Matches(kept[i], NameColumn, name2);
  }

  /** The names the sweep records, one per weight. */
  function SweepNames(rows: seq<Row>, vectorKeys: seq<string>, name1: string, name2: string, dist: Metric,
                      alphas: seq<real>): (names: seq<Cell>)
    requires SweepReady(rows, vectorKeys, name1, name2)
    ensures |names| == |alphas|
  {
    seq(|alphas|, j requires 0 <= j < |alphas| => SweepName(rows, vectorKeys, name1, name2, dist, alphas[j]))
  }

  /** Every name the sweep records comes from the blend at its own weight, and
      none is either endpoint's name. */
  lemma SweepNamesAvoidEndpoints(rows: seq<Row>, vectorKeys: seq<string>, name1: string, name2: string,
                                 dist: Metric, alphas: seq<real>)
    requires SweepReady(rows, vectorKeys, name1, name2)
    ensures var names := SweepNames(rows, vectorKeys, name1, name2, dist, alphas);
      forall j :: 0 <= j < |alphas| ==>
        && names[j] == SweepName(rows, vectorKeys, name1, name2, dist, alphas[j])
        && names[j] != Text(name1) && names[j] != Text(name2)
  {
    var names := SweepNames(rows, vectorKeys, name1, name2, dist, alphas);
    forall j | 0 <= j < |alphas|
      ensures && names[j] == SweepName(rows, vectorKeys, name1, name2, dist, alphas[j])
              && names[j] != Text(name1) && names[j] != Text(name2)
    {
      var v := GradientEmbedding(rows, vectorKeys, name1, name2, alphas[j]);
      SweepNeverNamesEndpoints(rows, vectorKeys, name1, name2, v, dist);
    }
  }

  lemma PrefixGrows(s: seq<Cell>, i: nat)
    requires i < |s|
    ensures s[..i + 1] == s[..i] + [s[i]]
  {
  }

  /** What the sweep's fresh table holds between steps: the sweep table itself
      before the first step, and afterwards the sweep table annotated with the
      distances to the last blend. */
  predicate SweepFrame(cur: seq<Row>, base: seq<Row>, vectorKeys: seq<string>, last: seq<real>, dist: Metric,
                       started: bool)
    requires PlayerTable(base, vectorKeys)
  {
    if started then cur == Annotate(base, vectorKeys, NameColumn, last, dist) else cur == base
  }

  /** One step of the sweep: ranking the fresh table, whatever the last step
      wrote into it, gives position 1 holding the name the sweep records at
      weight `alphas[i]`, and leaves the table annotated with this step's blend. */
  lemma SweepStep(rows: seq<Row>, vectorKeys: seq<string>, name1: string, name2: string, dist: Metric,
                  alphas: seq<real>, i: nat, cur: seq<Row>, last: seq<real>, started: bool,
                  after: seq<Row>, ranked: seq<Row>)
    requires SweepReady(rows, vectorKeys, name1, name2) && DistanceColumn !in vectorKeys && i < |alphas|
    requires PlayerTable(SweepTable(rows, name1, name2), vectorKeys)
    requires SweepFrame(cur, SweepTable(rows, name1, name2), vectorKeys, last, dist, started)
    requires PlayerTable(cur, vectorKeys)
    requires after == Annotate(cur, vectorKeys, NameColumn,
                               GradientEmbedding(rows, vectorKeys, name1, name2, alphas[i]), dist)
    requires ranked == Take(SortByDistance(after), SweepNeighbours)
    ensures PlayerTable(after, vectorKeys)
    ensures SweepFrame(after, SweepTable(rows, name1, name2), vectorKeys,
                       GradientEmbedding(rows, vectorKeys, name1, name2, alphas[i]), dist, true)
    ensures |ranked| >= 2 && NameColumn in ranked[1]
    ensures ranked[1][NameColumn] == SweepNames(rows, vectorKeys, name1, name2, dist, alphas)[i]
  {
    var base := SweepTable(rows, name1, name2);
    var v := GradientEmbedding(rows, vectorKeys, name1, name2, alphas[i]);
    AnnotateAgain(base, vectorKeys, NameColumn, v, v, dist);
    if started {
      AnnotateAgain(base, vectorKeys, NameColumn, last, v, dist);
    }
    SecondNearestIsAtOne(base, vectorKeys, NameColumn, v, dist);
    SweepNamesAvoidEndpoints(rows, vectorKeys, name1, name2, dist, alphas);
  }

  /** For each weight of `linspace(1, 0, alphaRange, endpoint=False)`, the name
      of the second-ranked of the ten rows nearest to the blend at that weight,
      ranked over a fresh table without either endpoint; neither endpoint is
      ever named. The caller's table is not changed; the fresh one gains a
      `distance` column on every step, which the next step overwrites. */
  method InterpolatedPlayers(data: Frame, vectorKeys: seq<string>, name1: string, name2: string, dist: Metric,
                             alphaRange: nat) returns (players: seq<Cell>)
    requires SweepReady(data.rows, vectorKeys, name1, name2)
    requires DistanceColumn !in vectorKeys
    ensures players == SweepNames(data.rows, vectorKeys, name1, name2, dist, Alphas(alphaRange))
  {
    var rows := data.rows;
    var df := new Frame(SweepTable(rows, name1, name2));
    ghost var base := df.rows;
    SweepTableWellFormed(rows, vectorKeys, name1, name2);
    var alphas := Alphas(alphaRange);
    players := [];
    ghost var names := SweepNames(rows, vectorKeys, name1, name2, dist, alphas);
    ghost var last: seq<real> := [];
    var i := 0;
    while i < |alphas|
      invariant 0 <= i <= |alphas| && |players| == i
      invariant PlayerTable(df.rows, vectorKeys)
      invariant SweepFrame(df.rows, base, vectorKeys, last, dist, i > 0)
      invariant players == names[..i]
    {
      var vector := GradientEmbedding(rows, vectorKeys, name1, name2, alphas[i]);
      ghost var cur := df.rows;
      var similar := FindSimilarPlayers(df, vectorKeys, Vector(vector), dist, SweepNeighbours);
      SweepStep(rows, vectorKeys, name1, name2, dist, alphas, i, cur, last, i > 0, df.rows, similar.value);
      PrefixGrows(names, i);
      players := players + [similar.value[1][NameColumn]];
      last := vector;
      i := i + 1;
    }
    assert players == names;
  }

  // The worked example of the notebook: two-dimensional players compared under
  // euclidean and cosine distance.

  function Dot(a: seq<real>, b: seq<real>): real
    requires |a| == |b|
  {
    if a == [] then 0.0 else a[0] * b[0] + Dot(a[1..], b[1..])
  }

  /** The square of the euclidean distance; since the square root is increasing,
      it orders pairs exactly as the euclidean distance does. */
  function SquaredEuclidean(a: seq<real>, b: seq<real>): real
    requires |a| == |b|
  {
    if a == [] then 0.0 else (a[0] - b[0]) * (a[0] - b[0]) + SquaredEuclidean(a[1..], b[1..])
  }

  function Scale(c: real, a: seq<real>): (r: seq<real>)
    ensures |r| == |a|
  {
    if a == [] then [] else [c * a[0]] + Scale(c, a[1..])
  }

  /** Cosine distance, one minus `Dot(a, b)` over the product of the norms, is
      zero exactly when `Dot(a, b)` is positive and its square equals
      `Dot(a, a) * Dot(b, b)`; stated this way no square root is needed. */
  predicate CosineDistanceIsZero(a: seq<real>, b: seq<real>)
    requires |a| == |b|
  {
    Dot(a, b) > 0.0 && Dot(a, b) * Dot(a, b) == Dot(a, a) * Dot(b, b)
  }

  /** Scaling one side of a dot product scales the product. */
  lemma {:induction false} DotScaleRight(a: seq<real>, b: seq<real>, c: real)
    requires |a| == |b|
    ensures Dot(a, Scale(c, b)) == c * Dot(a, b)
  {
    if a != [] {
      assert Scale(c, b)[1..] == Scale(c, b[1..]);
      DotScaleRight(a[1..], b[1..], c);
    }
  }

  lemma {:induction false} DotSymmetric(a: seq<real>, b: seq<real>)
    requires |a| == |b|
    ensures Dot(a, b) == Dot(b, a)
  {
    if a != [] {
      DotSymmetric(a[1..], b[1..]);
    }
  }

  /** A positive multiple of a non-zero vector is at cosine distance 0 from it. */
  lemma PositiveMultipleHasCosineDistanceZero(a: seq<real>, c: real)
    requires c > 0.0 && Dot(a, a) > 0.0
    ensures CosineDistanceIsZero(a, Scale(c, a))
  {
    var b := Scale(c, a);
    DotScaleRight(a, a, c);
    DotSymmetric(b, a);
    DotScaleRight(b, a, c);
    assert Dot(b, b) == c * Dot(b, a);
    assert Dot(a, b) == c * Dot(a, a);
    assert Dot(b, b) == c * c * Dot(a, a);
    assert Dot(a, b) * Dot(a, b) == (c * Dot(a, a)) * (c * Dot(a, a));
  }

  const Player1: seq<real> := [100.0, 100.0]
  const Player2: seq<real> := [50.0, 50.0]
  const Player3: seq<real> := [90.0, 40.0]

  /** The two metrics disagree on the example: under euclidean distance player 3
      is nearer to player 1 than player 2 is (3700 < 5000 in squares), while player
      2, half of player 1, is at cosine distance 0 from it and player 3 is not. */
  lemma ExampleMetricsDisagree()
    ensures SquaredEuclidean(Player1, Player3) == 3700.0
    ensures SquaredEuclidean(Player1, Player2) == 5000.0
    ensures CosineDistanceIsZero(Player1, Player2)
    ensures !CosineDistanceIsZero(Player1, Player3)
  {
    assert Player2 == Scale(0.5, Player1);
    PositiveMultipleHasCosineDistanceZero(Player1, 0.5);
    assert Dot(Player1, Player3) == 13000.0;
    assert Dot(Player3, Player3) == 9700.0;
  }
}
