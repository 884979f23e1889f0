# MonteCarlo: dice, games and their analysis, in Dafny

The MonteCarlo package is a three-stage pipeline.

- A `Die` holds distinct faces, each with a weight that starts at 1.0. It can be reweighted, rolled and shown.
- A `Game` rolls a list of dice together `n` times. It stores the outcomes as a wide frame: one column per die, one row per roll. It shows that frame wide, or stacked narrow as (roll, die, outcome) entries.
- An `Analyzer` snapshots a played game's wide frame and computes four statistics from it:
  - the jackpot count;
  - per-roll face counts;
  - combination counts, where a roll's key is its sorted faces;
  - permutation counts, where the key is the roll in die order.

The model is functional. Each class becomes an immutable datatype, and each mutating method returns the new value in a `Result`. Each Python exception becomes a `Failure` with its own error.

The random draw is not modelled. `Roll` is handed the positions the sampler picked. The model proves what holds whatever those positions are:
- the number of outcomes;
- that every outcome is a face of the die;
- the shape of the frame;
- the stack/unstack round trip;
- the counting invariants of the analyzer.

Modules, in dependency order:

- `Results` (results.dfy): the error values and `Option`/`Result`.
- `Seqs` (seqs.dfy): distinctness, element sets, sums, tallies, dedup and flatten helpers.
- `Sorting` (sorting.dfy): `sorted()` on a row of faces, and the uniqueness of a sorted rearrangement.
- `Counting` (counting.dfy): pandas `value_counts()` as a list of (key, count) entries with distinct keys.
- `Dice` (die.dfy): the Die class.
- `Games` (game.dfy): the Game class.
- `Analysis` (analyzer.dfy): the Analyzer class.

`montecarlo/die.py`, `montecarlo/game.py` and `montecarlo/analyzer.py` repeat the three classes of `montecarlo/MonteCarlo.py` line for line. The table below cites `MonteCarlo.py`, and the same model covers the copies.

Two edge cases of the code are modelled exactly as written:

- `(nunique(axis=1) == 1).sum()` counts every roll with a single distinct face. For the rolls (1,1), (2,3), (1,1) that is two jackpot rows, and `ExampleJackpots` proves the count is 2.
- A game with no dice plays successfully for any `num_rolls`, even a negative one. The loop never calls `roll`, and `pd.DataFrame({})` has no rows. `Play` states exactly this.

## Model

| member | source | states |
|---|---|---|
| Dice.NewDie | montecarlo/MonteCarlo.py:25-40 | A non-array is refused, and then faces with a repeat are refused. Otherwise the die has exactly the given faces, in the given order, with no repeats and weight 1.0 on each face. |
| Dice.ChangeWeight | montecarlo/MonteCarlo.py:42-58 | An unknown face fails before the weight is looked at. A weight float() refuses fails next. Otherwise the faces are unchanged, the named face reads the new weight, and every other face keeps its old weight. |
| Dice.Show | montecarlo/MonteCarlo.py:77-85 | show() as the frame's rows (face, weight) in face order; its meaning is stated by ShowLoc and ChangeWeightShown. |
| Dice.ShowLoc | montecarlo/MonteCarlo.py:77-85 | The shown frame answers `.loc` for exactly the die's faces. Each answer is the die's current weight, and any other face has no row. |
| Dice.ChangeWeightShown | montecarlo/MonteCarlo.py:52-58 | After a numeric change_weight, the shown frame reads the new weight at that face and the earlier shown weight at every other face. |
| Dice.ProbabilitiesSumToOne | montecarlo/MonteCarlo.py:73-74 | When numpy accepts the weights, `weights / weights.sum()` is a probability vector: no entry is negative and the entries sum to 1. |
| Dice.Roll | montecarlo/MonteCarlo.py:60-75 | Weights that do not normalise are refused first, then a negative count is refused. Otherwise there are exactly `times` outcomes, each a face of the die. |
| Dice.FreshDieRollsAFace | montecarlo/MonteCarlo.py:38-75 | A freshly built die with at least one face is drawable, and a single roll yields the face at the sampled position. |
| Games.NewGame | montecarlo/MonteCarlo.py:107-109 | Game(dice_list) keeps the dice and holds no frame; its meaning is stated by FreshGameShowFails. |
| Games.RollAll | montecarlo/MonteCarlo.py:123-126 | The loop over the dice succeeds exactly when there are no dice, or when the count is non-negative and every die is drawable. The error is the first failing die's: NegativeRollCount when n < 0 and die 0 is drawable, InvalidProbabilities otherwise. On success, entry i is die i's roll. |
| Games.FromColumns | montecarlo/MonteCarlo.py:128 | A frame built from a dict of equal columns has one column per entry, each read back unchanged. It has the columns' common length in rows, and no rows when there are no columns. |
| Games.Play | montecarlo/MonteCarlo.py:111-129 | play(n) fails exactly when a die's roll fails, with that error, and the game is left as it was. Otherwise the dice are kept and the frame is replaced by one with \|dice\| columns and n rows (0 with no dice). Column i is die i's roll, so every cell is a face of its die. |
| Games.PlayReplaces | montecarlo/MonteCarlo.py:128 | The state after a play does not depend on any earlier frame: two games with the same dice end up equal. |
| Games.FreshGameShowFails | montecarlo/MonteCarlo.py:107-145 | A new game holds no frame, and show() on it fails in every form. |
| Games.Show | montecarlo/MonteCarlo.py:131-157 | Before any play, show() fails. Any form other than 'wide' or 'narrow' fails. 'wide' gives the stored frame. 'narrow' gives rows × columns entries, roll by roll and then die by die, and regrouping them by roll gives back the stored frame. |
| Games.Stack | montecarlo/MonteCarlo.py:151 | frame.stack() as (roll, die, outcome) entries; its layout is stated by StackShape and its inverse by UnstackStack. |
| Games.StackShape | montecarlo/MonteCarlo.py:151 | The stacked layout has width entries per row, and the entry at k·width + c is roll k, die c, with that cell's outcome. |
| Games.StackLength | montecarlo/MonteCarlo.py:151 | Stacking rows of equal width yields rows × width entries. |
| Games.StackAt | montecarlo/MonteCarlo.py:151 | Row k's cell c is stacked at position k·width + c, numbered with its roll and die. |
| Games.WithRollStack | montecarlo/MonteCarlo.py:150-154 | Selecting one roll number from the stacked layout yields exactly that row's entries, in die order. A roll number outside the frame yields nothing. |
| Games.NumRollsStack | montecarlo/MonteCarlo.py:150-154 | The roll numbers of a stacked frame with non-empty rows run up to the number of rows. |
| Games.UnstackStack | montecarlo/MonteCarlo.py:150-154 | Regrouping the narrow layout by roll recovers the wide frame. |
| Analysis.NewAnalyzer | montecarlo/MonteCarlo.py:185-197 | Building an analyzer from a game that was never played fails. Otherwise the snapshot is the game's stored frame, which is what show('wide') returns. |
| Analysis.AnalyzerAfterPlay | montecarlo/MonteCarlo.py:197 | An analyzer built after a successful play(n) holds that play's frame: \|dice\| columns and n rows (0 with no dice). |
| Analysis.Jackpot | montecarlo/MonteCarlo.py:199-207 | jackpot() on the snapshot; its meaning is CountJackpots' contract and SingleDieJackpot. |
| Analysis.CountJackpots | montecarlo/MonteCarlo.py:207 | The jackpot count is the number of rolls with exactly one distinct face, and it is at most the number of rolls. |
| Analysis.JackpotMeansAllEqual | montecarlo/MonteCarlo.py:207 | A roll has one distinct face exactly when it is non-empty and every die shows the first die's face. |
| Analysis.SingleFaceRows | montecarlo/MonteCarlo.py:207 | When every roll has a single cell, every roll is a jackpot. |
| Analysis.SingleDieJackpot | montecarlo/MonteCarlo.py:207 | In a one-die game, the jackpot count equals the number of rolls. |
| Analysis.FaceCountsPerRoll | montecarlo/MonteCarlo.py:209-219 | With at least one roll, the columns are the faces seen anywhere in the frame, each once. There is one row per roll. Each count is how often that face occurs in the roll, and an absent face reads 0. With no rolls, `apply` returns the empty frame itself, so the columns are the die numbers and there are no rows. |
| Analysis.ExampleNoRollsFaceCounts | montecarlo/MonteCarlo.py:218-219 | Two dice played zero times give a face-count frame with columns 0 and 1 and no rows. |
| Analysis.FaceCountsOf | montecarlo/MonteCarlo.py:209-219 | face_counts_per_roll() on the snapshot; its meaning is FaceCountsPerRoll's contract and FaceCountsRowSums. |
| Analysis.FaceCountsRowSums | montecarlo/MonteCarlo.py:218-219 | The face counts of every roll add up to the number of dice. |
| Analysis.ComboCount | montecarlo/MonteCarlo.py:221-232 | The keys are exactly the sorted rolls, each listed once and each sorted. Each count is the number of rolls that sort to its key, and is at least 1. |
| Analysis.CombinationsOf | montecarlo/MonteCarlo.py:221-232 | combo_count() on the snapshot; its meaning is ComboCount's contract. |
| Analysis.PermutationCount | montecarlo/MonteCarlo.py:234-245 | The keys are exactly the rolls as they came, in die order, each listed once. Each count is how often that roll occurs, and is at least 1. |
| Analysis.PermutationsOf | montecarlo/MonteCarlo.py:234-245 | permutation_count() on the snapshot; its meaning is PermutationCount's contract. |
| Analysis.CountsSumToRolls | montecarlo/MonteCarlo.py:229-243 | The combination counts and the permutation counts each add up to the number of rolls. |
| Analysis.CombinationGroupsPermutations | montecarlo/MonteCarlo.py:229-243 | Each combination's count is the sum of the counts of the permutations that sort to it. |
| Analysis.FewerCombinations | montecarlo/MonteCarlo.py:229-243 | There are never more combinations than permutations. |
| Analysis.ExampleJackpots | montecarlo/MonteCarlo.py:207 | The rolls (1,1), (2,3), (1,1) have jackpot count 2. |
| Analysis.ExampleNoReorderingCounts | montecarlo/MonteCarlo.py:243 | value_counts of the rolls (1,1), (2,3), (1,1) gives (1,1) twice and (2,3) once. |
| Analysis.SortedRowsCoincide | montecarlo/MonteCarlo.py:229-243 | When every roll is already in ascending order, the combination counts and the permutation counts are the same table. |
| Analysis.ExampleNoReordering | montecarlo/MonteCarlo.py:229-243 | For the rolls (1,1), (2,3), (1,1), the combination counts and the permutation counts are both (1,1) twice and (2,3) once. |
| Analysis.ExampleReorderingCombinations | montecarlo/MonteCarlo.py:229-230 | The rolls (2,3) and (3,2) share the combination (2,3), which is counted twice. |
| Analysis.ExampleReorderingPermutations | montecarlo/MonteCarlo.py:242-243 | The rolls (2,3) and (3,2) are separate permutations, each counted once. |
| Sorting.Sort | montecarlo/MonteCarlo.py:229 | sorted(row) as insertion sort; its meaning is stated by SortSorted and SortedUnique. |
| Sorting.SortSorted | montecarlo/MonteCarlo.py:229 | sorted(row) is ascending and a rearrangement of the row. |
| Sorting.SortedUnique | montecarlo/MonteCarlo.py:229 | Two ascending sequences holding the same values with the same multiplicities are equal. |
| Sorting.SameCombination | montecarlo/MonteCarlo.py:229 | Rolls that are rearrangements of each other get the same combination key. |
| Counting.ValueCounts | montecarlo/MonteCarlo.py:230 | value_counts() lists each distinct value once and only the values present. Each count is the value's number of occurrences, and is at least 1. |
| Counting.CountsSumToLength | montecarlo/MonteCarlo.py:230 | The counts of value_counts() add up to the number of values counted. |
| Counting.EntriesAreDistinctValues | montecarlo/MonteCarlo.py:230 | value_counts() has as many entries as there are distinct values. |

## Left out

- Roll: states the number of outcomes and that each is a face. Which face comes out, and with what probability, belongs to `numpy.random.choice`. The sampler is outside the model, and its choices enter only as the `picks` parameter.
- Drawable: numpy's check that the probabilities sum to 1 within a floating-point tolerance is replaced by exact real arithmetic. Weights are `real`. NaN, infinity and rounding are not modelled.
- The conversion `float(new_weight)` is not modelled. A weight argument is either numeric, carrying its real value, or non-numeric.
- Faces are integers. String faces are not modelled, because the analyzer sorts rows and needs an ordered face type.
- The `isinstance(faces, np.ndarray)` test is modelled by a faces argument that is either an array or not. The `isinstance(game, Game)` test in the Analyzer constructor is ruled out by Dafny's types.
- Game does not check that its dice share the same faces, and neither does the model. Nothing depends on it.
- pandas presentation is not modelled:
  - index and column names ('Roll', 'Die', 'Outcome', 'Count', 'Combination', 'Permutation');
  - the MultiIndex;
  - the descending-count order of `value_counts()`, whose entries here appear in first-appearance order;
  - the column order of the face-count frame, which here is first appearance in row-major order.
- Copies (`df.copy()`, `show()` returning a copy) need no modelling: every value here is immutable, so a returned frame cannot alter the die, the game or the analyzer.
- Games.Play: rolls the dice stored in the game value. In Python the game keeps the caller's list and its `Die` objects by reference (`self.dice = dice_list`). A later `change_weight` on one of those dice, or an `append` to the list, changes what the next `play` rolls, and can turn a successful play into a `ValueError`. In the model a caller who changes a die must build the game again from the new dice.
- Unstack: takes the number of columns as a parameter. A stacked frame with no rows no longer records how many dice there were.
- The default arguments `times=1` and `form='wide'` are not modelled. Callers pass both explicitly.
- The class docstrings at column 0 in `montecarlo/die.py`, `montecarlo/game.py` and `montecarlo/analyzer.py`, and the missing `Game` import in `analyzer.py`, are packaging faults of the copies. They are not modelled.
