# player_vector similarity core, modelled in Dafny

The repository compares football players by their statistics. Each player is a
row of a table; a chosen, ordered list of numeric columns (the feature keys) is
the player's vector, and a name column identifies the player. The core this
project models:

- **`SimilarEngine`** (`src/similarity.py`). It looks up a player's vector and
  ranks the whole table by distance to a reference (a name or a vector). It
  blends two players' vectors ("gradient embedding") and sweeps the blend from
  the first player towards the second. At each step it records the name at
  position 1 of the ten nearest rows.
- **The notebook copy** of the same operations (`notebook.py`). There are two
  differences. Its ranking writes the `distance` column into the caller's
  table in place. Its sweep ranks over a table from which both endpoint
  players have been dropped. The notebook also has a two-dimensional example
  showing that euclidean and cosine distance disagree.
- **Three cell cleaners** (`src/load_whoscored_data.py`). `clean_apparition`
  reads the appearance count in front of a bracket, `clean_float` turns a
  figure into a number with `-` standing for 0, and `clean_text` drops commas.

Modules:

- `Results`: `Option` and `Result`.
- `Table`: cells, rows, projection, name lookup, dropping rows.
- `Ranking`: distance annotation, sorting, `head(n)`, the second-nearest pick.
- `Interpolation`: the blend and the `linspace` weights.
- `Similarity`: the engine class.
- `Notebook`: the notebook functions, over a `Frame` class holding the table.
- `Cleaners`: the three cleaners.

The distance function is a parameter (`Metric`) of every operation that
ranks. In Python it is the `distance_callback` argument of
`find_similar_players`, and its default is `scipy.spatial.distance.cosine`.
Both sweeps call `find_similar_players` without that argument, so in Python
they always rank by cosine distance. The model's sweeps take the metric as a
parameter, which covers cosine as one case. Python's default arguments
(`n=2` for `find_similar_players`, `alpha_range=10` for
`interpolated_players`) are not defaults here: every call passes them
explicitly. Numbers are mathematical reals.

Two behaviours of the code worth stating:

- **Sorting.** `sort_values` is not a stable sort and promises no tie order.
  The model sorts deterministically and proves only that the result is sorted
  and a permutation.
- **The engine's sweep.** `SimilarEngine.interpolated_players` computes a
  table without the two endpoints (lines 86-87) and then never uses it. It
  ranks over the whole table (line 92), so either endpoint can be recorded.
  The model does the same. Only the notebook's sweep provably never names an
  endpoint.

Error paths of `find_similar_players`:

- **Empty table.** The `iterrows` loop never runs, so no `distance` column
  exists and `sort_values("distance")` raises `KeyError`. The model returns
  `Err("KeyError")` for any reference.
- **Unusable reference.** On a non-empty table, the model assumes the first
  distance call raises `ValueError` when:
  - the reference is a name that does not match exactly one row, so that an
    empty or two-dimensional array reaches the metric; or
  - the reference is a vector whose length differs from the number of feature
    keys.

  The model then returns `Err("ValueError")`, and nothing is written before
  it. This is an assumption about the metric, not a promise of the code: a
  metric that broadcasts a length-1 input (see "## Left out") ranks the table
  instead.

## Model

| member | source | states |
|---|---|---|
| Table.Project | src/similarity.py:51-52 | a row's vector has one value per feature key, the value of that key's column, in key order |
| Table.MatchIndices | src/similarity.py:32 | the rows selected by the mask `data[name_column] == player`: every position matches, positions ascend, and every matching row is included |
| Table.Lookup | src/similarity.py:32 | `data[mask][vector_keys]` has one vector per matching row, each as long as the key list |
| Table.LookupInTableOrder | src/similarity.py:32 | the lookup returns one vector per matching row, in table order, each that row's projection; it is empty exactly when no row matches |
| Table.UniqueLookup | src/similarity.py:32 | when exactly one row carries the name, the name is unique and the lookup is that row's vector alone |
| Table.UniqueRow | src/similarity.py:32 | a unique name is carried by one row, and no other row carries it |
| Table.Resolve | src/similarity.py:46-49 | a vector reference is used as is; a name gives a vector exactly when one row carries it, and that vector is the row's projection |
| Table.DropNamed | notebook.py:62-63 | the kept rows are table rows without the name; every table row without the name is kept; exactly as many rows are removed as carry the name |
| Table.KeptIndices | notebook.py:62-63 | the positions of the rows without the name: in range, ascending, and complete |
| Table.DropNamedKeepsOrder | notebook.py:62-63 | the `j`-th kept row is the `j`-th row without the name, so `drop` keeps the other rows once each, in table order |
| Table.DropNamedWellFormed | notebook.py:62-63 | dropping rows keeps every row's name column and numeric features |
| Ranking.AnnotateRow | src/similarity.py:51-54 | the annotated row gains the `distance` column, holding the distance from the reference to the row's vector, and every other column is unchanged |
| Ranking.Annotate | src/similarity.py:50-54 | the loop over `iterrows` annotates every row: one annotated row per table row |
| Ranking.AnnotateChangesOnlyDistance | src/similarity.py:50-54 | after the loop, every row's `distance` holds its own distance, its columns are the old ones plus `distance`, and no other column changed |
| Ranking.AnnotateAgain | notebook.py:67-69 | when `distance` is neither a feature nor the name column, annotating keeps the table well formed and its names unchanged, and annotating twice equals annotating once with the second vector |
| Ranking.InsertByDistance | src/similarity.py:55 | inserting into a sorted sequence keeps it sorted and adds exactly that row |
| Ranking.SortByDistance | src/similarity.py:55 | `sort_values("distance")` returns a permutation of the rows in non-decreasing distance |
| Ranking.Take | src/similarity.py:55 | `head(n)` has `min(n, len)` rows, the first ones in order |
| Ranking.Ranked | src/similarity.py:50-55 | the ranking of a table has `min(n, rows)` rows |
| Ranking.SortedPrefixIsNearest | src/similarity.py:55 | a prefix of a sorted sequence holds its nearest rows: every row left out is at least as far as every row kept |
| Ranking.RankedIsTopN | src/similarity.py:50-55 | the ranking has `min(n, rows)` rows, sorted by distance, drawn from the annotated table, and no row left out is nearer than a row kept |
| Ranking.RankedRowsAreTableRows | src/similarity.py:50-55 | every ranked row is a table row with its own distance written into it |
| Ranking.SecondNearestName | src/similarity.py:92-93 | `find_similar_players(vector, n=10).iloc[[1]]`'s name is the name of some table row, unless the name column is `distance` itself |
| Ranking.SecondNearestIsAtOne | src/similarity.py:92-93 | the sweep's pick is the name in the row at position 1 of the ten nearest rows, and that row exists when the table has two rows |
| Ranking.SecondNearestIsSecond | src/similarity.py:92-93 | the picked row is no nearer than the first-ranked row and no farther than any row outside the ten; its name is the name of a table row |
| Interpolation.Blend | src/similarity.py:72 | the blend has one component per feature |
| Interpolation.BlendMovesFromSecond | src/similarity.py:72 | each component starts at the second player's value and moves the fraction `alpha` of the way to the first player's |
| Interpolation.BlendEndpoints | src/similarity.py:72 | the blend is the first vector at alpha = 1 and the second at alpha = 0; for alpha in [0, 1] every component lies between the two players' components |
| Interpolation.Alphas | src/similarity.py:88 | `linspace(1, 0, m, endpoint=False)` has `m` weights |
| Interpolation.AlphasDescend | src/similarity.py:88 | the weights start at 1, strictly decrease, and lie in (0, 1], so the second player's own vector is never used |
| Similarity.SimilarEngine.constructor | src/similarity.py:18-21 | the engine keeps the table, the key list and the name column it is given |
| Similarity.SimilarEngine.GetPlayerVector | src/similarity.py:23-32 | one vector per row carrying the name, in table order, each that row's projection with one value per key; empty when no row carries it |
| Similarity.SimilarEngine.FindSimilarPlayers | src/similarity.py:34-55 | an empty table gives `KeyError`; a name not carried by exactly one row, or a vector of the wrong length, gives `ValueError`; otherwise the result is the `n` nearest rows of the annotated table, sorted; the engine's table is not changed |
| Similarity.SimilarEngine.GradientEmbedding | src/similarity.py:58-73 | each component is `alpha * v1 + (1 - alpha) * v2` of the two players' vectors; the result is player 1's vector at alpha = 1 and player 2's at alpha = 0 |
| Similarity.SimilarEngine.SweepName | src/similarity.py:91-93 | the name recorded at one weight is the name of some row of the whole table, either endpoint included |
| Similarity.SimilarEngine.InterpolatedPlayers | src/similarity.py:75-94 | one name per weight; the name at each weight is the position-1 name of the ten rows of the whole table nearest to the blend at that weight |
| Similarity.SimilarEngine.SweepStartsAtFirstPlayer | src/similarity.py:88-91 | the first blend of the sweep is exactly the first player's vector |
| Notebook.Frame.constructor | notebook.py:62-63 | a frame holds the rows it is built from |
| Notebook.DistanceColumnIsFree | notebook.py:39-52 | the notebook's key list has 48 keys, and neither it nor the name column is `distance`, so writing distances never alters what is read |
| Notebook.GetPlayerVector | notebook.py:38-40 | one vector per row whose `short_name` is the name, in table order, each that row's projection; empty when there is none |
| Notebook.FindSimilarPlayers | notebook.py:42-53 | an empty table gives `KeyError`; a name not carried by exactly one row, or a vector of the wrong length, gives `ValueError` and leaves the table untouched; otherwise the caller's table gets a `distance` column on every row holding that row's distance, and the result is its `n` nearest rows, sorted |
| Notebook.GradientEmbedding | notebook.py:55-59 | each component is `alpha * v1 + (1 - alpha) * v2`; the result is name1's vector at alpha = 1 and name2's at alpha = 0 |
| Notebook.SweepTable | notebook.py:62-63 | the sweep's table holds only rows of the table, none carrying either endpoint's name |
| Notebook.SweepTableWellFormed | notebook.py:62-63 | the table without both endpoints is still a well-formed player table |
| Notebook.SweepName | notebook.py:68-70 | the name recorded at one weight is never either endpoint's name |
| Notebook.SweepNeverNamesEndpoints | notebook.py:62-69 | ranking the table without both endpoints, whatever the blend, never picks either endpoint's name |
| Notebook.SweepNames | notebook.py:64-72 | the sweep records one name per weight |
| Notebook.SweepNamesAvoidEndpoints | notebook.py:61-72 | each recorded name is the pick at its own weight, and none is either endpoint's name |
| Notebook.SweepStep | notebook.py:67-70 | ranking the reused table, whatever the previous step wrote into it, gives the pick for this weight at position 1 and leaves the table annotated with this step's blend |
| Notebook.InterpolatedPlayers | notebook.py:61-72 | the names returned are exactly the recorded sweep names for `linspace(1, 0, alpha_range, endpoint=False)`; by the lemma above, neither endpoint is among them |
| Notebook.DotScaleRight | notebook.py:98-115 | scaling one side of a dot product scales the product |
| Notebook.DotSymmetric | notebook.py:98-115 | the dot product is symmetric |
| Notebook.PositiveMultipleHasCosineDistanceZero | notebook.py:98-104 | a positive multiple of a non-zero vector is at cosine distance 0 from it |
| Notebook.ExampleMetricsDisagree | notebook.py:107-115 | for players [100, 100], [50, 50] and [90, 40], player 3 is nearer to player 1 by euclidean distance, while player 2 is at cosine distance 0 from player 1 and player 3 is not |
| Cleaners.ParseInt | src/load_whoscored_data.py:35-37 | `int(s)` succeeds exactly on a non-empty run of digits or a sign followed by one; its value is the digits' value, negated after `-` |
| Cleaners.IndexOf | src/load_whoscored_data.py:35 | `str.index` fails exactly when the character is absent; otherwise it gives its first position |
| Cleaners.TruncateToInt | src/load_whoscored_data.py:37 | `int(x)` of a number cuts toward zero: the floor for non-negative `x`, the ceiling for negative `x` |
| Cleaners.CleanApparition | src/load_whoscored_data.py:33-37 | a failure is `ValueError`; a number is truncated; on text, a success is the integer spelled by a bracket-free prefix |
| Cleaners.ParenIsNeverAnInteger | src/load_whoscored_data.py:35-37 | a string holding `(` is never an integer, so the fallback can only succeed when there is no bracket |
| Cleaners.CleanApparitionSucceeds | src/load_whoscored_data.py:33-37 | on text, `clean_apparition` succeeds exactly when the text before the first `(` is an integer, or when there is no `(` and the whole string is one; the result is that integer |
| Cleaners.NatToStringParses | src/load_whoscored_data.py:35-37 | the decimal digits of a number read back as that number |
| Cleaners.ParseIntOfIntToString | src/load_whoscored_data.py:35-37 | `int(str(n)) == n` for every integer |
| Cleaners.IndexAfterPrefix | src/load_whoscored_data.py:35 | the first `(` after a bracket-free prefix is at the prefix's length |
| Cleaners.ApparitionBeforeBracket | src/load_whoscored_data.py:33-35 | `clean_apparition(str(n) + "(" + rest) == n` |
| Cleaners.ApparitionWithoutBracket | src/load_whoscored_data.py:33-37 | `clean_apparition(str(n)) == n` |
| Cleaners.IntegerHasNoParen | src/load_whoscored_data.py:35-37 | a string that parses as an integer holds no `(` |
| Cleaners.ApparitionOfNumber | src/load_whoscored_data.py:33-37 | a whole number comes back as it is; 2.7 gives 2 and -2.7 gives -2 |
| Cleaners.ApparitionOfBareBracketFails | src/load_whoscored_data.py:33-37 | `clean_apparition("(3)")` raises `ValueError`: both attempts fail |
| Cleaners.DecimalValue | src/load_whoscored_data.py:44 | the value of a figure `w.f` is non-negative |
| Cleaners.UnsignedFloat | src/load_whoscored_data.py:44 | accepts only an unsigned figure (digits, or digits around one decimal point, at least one digit); its value is non-negative, and a run of digits reads as its value |
| Cleaners.UnsignedFigureParses | src/load_whoscored_data.py:44 | every unsigned figure is accepted, so acceptance is exactly the figure grammar |
| Cleaners.ParseFloat | src/load_whoscored_data.py:44 | `float(s)` succeeds only on an unsigned figure with an optional `+` or `-` in front, and raises `ValueError` on anything else; a run of digits reads as its value, and a figure without `-` is non-negative |
| Cleaners.SignedFigureParses | src/load_whoscored_data.py:44 | every optionally signed figure is accepted, so `float(s)` succeeds exactly on that grammar |
| Cleaners.UnsignedDecimal | src/load_whoscored_data.py:44 | the unsigned figure `w.f` reads as the whole part plus the fraction's digits over ten to the power of their count |
| Cleaners.DecimalParses | src/load_whoscored_data.py:44 | `float("w.f")` is the whole part plus the scaled fraction, for all digit strings `w` and `f` not both empty |
| Cleaners.SignedParses | src/load_whoscored_data.py:44 | a `+` in front changes nothing, and a `-` negates the value or fails with it |
| Cleaners.CleanFloat | src/load_whoscored_data.py:39-46 | text containing `-` becomes 0.0; other text becomes the number it spells when it spells one, and is otherwise returned unchanged; a number cell is returned unchanged |
| Cleaners.CleanFloatIdempotent | src/load_whoscored_data.py:39-46 | cleaning a cleaned cell changes nothing |
| Cleaners.CleanFloatOfDigits | src/load_whoscored_data.py:39-46 | a count written in digits becomes that count |
| Cleaners.CleanFloatOfDecimal | src/load_whoscored_data.py:39-46 | a figure `w.f` becomes the whole part plus the scaled fraction |
| Cleaners.CleanFloatExamples | src/load_whoscored_data.py:39-46 | `"-"` and `"-2.5"` become 0.0, and `"n/a"` is kept |
| Cleaners.CleanFloatOfTwoAndAHalf | src/load_whoscored_data.py:39-46 | `"2.5"` becomes 2.5 |
| Cleaners.CleanFloatOfPlusSign | src/load_whoscored_data.py:39-46 | `"+2.5"` becomes 2.5 |
| Cleaners.CleanText | src/load_whoscored_data.py:48-49 | the result has no comma, is no longer than the input, and holds only characters of the input |
| Cleaners.CleanTextConcat | src/load_whoscored_data.py:48-49 | cleaning a concatenation cleans each part, so the non-comma characters are kept in order |
| Cleaners.CleanTextOfChar | src/load_whoscored_data.py:48-49 | a single character is kept unless it is a comma |
| Cleaners.CleanTextWithoutComma | src/load_whoscored_data.py:48-49 | text without a comma comes back unchanged |
| Cleaners.CleanTextIdempotent | src/load_whoscored_data.py:48-49 | cleaning twice is cleaning once |

## Left out

- Data loading, merging and CSV reading and writing (`load_merge_data`, `clean_data`, `process_data`), PCA, and the streamlit interface including `render_latex`: none of these is part of this model.
- `print` calls in the notebook's sweep and its example: output only.
- The distance functions from scipy are not part of this model. The metric is a parameter. The notebook example is stated through dot products and squared euclidean distance, which avoids square roots.
- Floating point: values are reals. NaN, rounding and the `float(x)` conversion of each feature are not modelled.
- Missing or non-numeric feature columns and a missing name column (`KeyError` in pandas): the table is required to be well formed.
- Tie order: which of several equally distant rows comes first is not stated, because the Python sort does not promise it.
- FindSimilarPlayers: `head(n)` with a negative `n` is not modelled; `n` is a natural number.
- FindSimilarPlayers: an empty table that already has a `distance` column, which pandas would sort without error, cannot be represented, because rows are maps and an empty table has no columns.
- FindSimilarPlayers: the result is returned as rows (maps), not as a pandas frame with an index.
- FindSimilarPlayers: the model assumes the metric rejects (raises `ValueError` for) a reference that is not one vector of the key count. A metric that accepts such input is not modelled. One known exception is a cosine that squeezes its inputs and broadcasts a length-1 vector: it ranks the table for a one-element reference vector, and, with a single feature key, for a missing or repeated name, where the model returns `Err("ValueError")`.
- FindSimilarPlayers: row positions stand in for pandas index labels, so the labels are assumed unique, as `read_csv` gives by default. With a repeated label, `data.at[index, "distance"]` writes to every row sharing it, and the last such row's distance wins. The model gives each row its own distance.
- DropNamed: assumes unique index labels, as above. `data.drop(data[mask].index)` removes every row carrying a dropped label, so with a repeated label it can also remove rows without the name. `DropNamed` keeps those rows.
- InterpolatedPlayers: `alpha_range` is a natural number. A negative value, for which `numpy.linspace` raises `ValueError`, is not modelled.
- GradientEmbedding: the players must be unique names. pandas broadcasting of several or zero matching rows is not modelled.
- InterpolatedPlayers: the sweep needs at least two rows to rank. With fewer, `iloc[[1]]` raises `IndexError`, which is not modelled.
- Notebook.InterpolatedPlayers: requires that `distance` is not one of the keys passed in. The notebook's own list meets this (DistanceColumnIsFree).
- Notebook: the 48-key list that the notebook writes inside each function is the argument `vectorKeys`; `Notebook.VectorKeys` is that list.
- Similarity.SimilarEngine.InterpolatedPlayers: the unused endpoint-free table of lines 86-87 is not built. The result is a sequence of names rather than a one-column frame.
- GradientEmbedding: the docstring at `src/similarity.py:65` says a small alpha gives a vector close to the first player. The code gives the opposite, and the model follows the code.
- Annotate: its own contract states only the length. What each annotated row holds is stated by AnnotateRow and AnnotateChangesOnlyDistance.
- Ranked: its own contract states only the length. Order and the top-n property are stated by RankedIsTopN.
- Blend: its own contract states only the length. The component values are stated by BlendMovesFromSecond and BlendEndpoints.
- ParseInt: Python's `int` also accepts surrounding whitespace, digit-group underscores and non-ASCII decimal digits (`int("١٢") == 12`). The model accepts only an optional sign followed by digits.
- ParseFloat: Python's `float` also accepts exponents, whitespace, underscores, non-ASCII decimal digits, `inf` and `nan`. The model accepts an optional `+` or `-` followed by digits with at most one decimal point.
- CleanApparition: on a number, `data.index("(")` raises `AttributeError` and the handler's `int(data)` truncates toward zero, which is modelled. Values that are neither text nor numbers are not modelled.
