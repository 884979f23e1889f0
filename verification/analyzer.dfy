/** The Analyzer class: statistics over a snapshot of a game's wide frame. */
module Analysis {
  import opened Results
  import opened Seqs
  import opened Sorting
  import opened Counting
  import opened Dice
  import opened Games

  /** The analyzer keeps its own copy of the wide frame. */
  datatype Analyzer = Analyzer(results: Table)

  /** Analyzer(game): takes game.show('wide'), which fails if the game was
      never played. */
  function NewAnalyzer(g: Game): (r: Result<Analyzer>)
    requires g.playDf.Some? ==> g.playDf.value.WellFormed()
    ensures g.playDf.None? ==> r == Failure(NoGamePlayed)
    ensures g.playDf.Some? ==>
              && r.Success? && r.value.results.WellFormed()
              && r.value.results == g.playDf.value
  {
    var v := Games.Show(g, "wide");
    if v.Failure? then Failure(v.error) else Success(Analyzer(v.value.table))
  }

  /** An analyzer built after a successful play holds that play's frame:
      one column per die and `n` rows (none when there are no dice). */
  lemma AnalyzerAfterPlay(g: Game, n: int, picks: seq<seq<nat>>)
    requires Playable(g.dice, n, picks) && Play(g, n, picks).Success?
    ensures NewAnalyzer(Play(g, n, picks).value).Success?
    ensures var a := NewAnalyzer(Play(g, n, picks).value).value;
            && a.results == Play(g, n, picks).value.playDf.value
            && a.results.width == |g.dice|
            && |a.results.rows| == (if |g.dice| == 0 then 0 else n)
  {
  }

  // ---------------------------------------------------------------- jackpot

  /** nunique() of one row: its number of distinct faces. */
  function Nunique(row: seq<Face>): nat {
    |Elements(row)|
  }

  /** The rolls counted as jackpots: those with exactly one distinct face. */
  function JackpotRolls(rows: seq<seq<Face>>): set<nat> {
    set i | 0 <= i < |rows| && Nunique(rows[i]) == 1
  }

  /** (nunique(axis=1) == 1).sum(), one roll at a time. */
  function CountJackpots(rows: seq<seq<Face>>): (r: nat)
    ensures r == |JackpotRolls(rows)|
    ensures r <= |rows|
  {
    if |rows| == 0 then
      assert JackpotRolls(rows) == {};
      0
    else
      var front := rows[..|rows| - 1];
      var hit := Nunique(rows[|rows| - 1]) == 1;
      var prev := CountJackpots(front);
      JackpotRollsSnoc(rows);
      prev + (if hit then 1 else 0)
  }

  /** The jackpot rolls of a longer record: those of its prefix, plus the
      last roll if it is one. */
  lemma {:induction false} JackpotRollsSnoc(rows: seq<seq<Face>>)
    requires |rows| > 0
    ensures JackpotRolls(rows) == JackpotRolls(rows[..|rows| - 1]) +
              (if Nunique(rows[|rows| - 1]) == 1 then {|rows| - 1} else {})
    ensures |rows| - 1 !in JackpotRolls(rows[..|rows| - 1])
  {
    var front := rows[..|rows| - 1];
    assert forall i | 0 <= i < |front| :: front[i] == rows[i];
  }

  function Jackpot(a: Analyzer): nat {
    CountJackpots(a.results.rows)
  }

  /** A row is a jackpot exactly when it is non-empty and every die shows
      the first die's face. */
  lemma JackpotMeansAllEqual(row: seq<Face>)
    ensures Nunique(row) == 1 <==> |row| > 0 && forall c | 0 <= c < |row| :: row[c] == row[0]
  {
    if |row| > 0 && forall c | 0 <= c < |row| :: row[c] == row[0] {
      assert Elements(row) == {row[0]};
    }
    if Nunique(row) == 1 {
      var e :| e in Elements(row);
      assert Elements(row) - {e} == {} by {
        assert |Elements(row) - {e}| == 0;
      }
      forall c | 0 <= c < |row| ensures row[c] == row[0] {
        assert row[c] in Elements(row) && row[0] in Elements(row);
      }
    }
  }

  lemma {:induction false} SingleFaceRows(rows: seq<seq<Face>>)
    requires forall i | 0 <= i < |rows| :: |rows[i]| == 1
    ensures CountJackpots(rows) == |rows|
  {
    if |rows| > 0 {
      var last := rows[|rows| - 1];
      assert Elements(last) == {last[0]};
      SingleFaceRows(rows[..|rows| - 1]);
    }
  }

  /** With one die every roll is a jackpot. */
  lemma SingleDieJackpot(a: Analyzer)
    requires a.results.WellFormed() && a.results.width == 1
    ensures Jackpot(a) == |a.results.rows|
  {
    SingleFaceRows(a.results.rows);
  }

  // ------------------------------------------------------ face counts per roll

  /** face_counts_per_roll(): one column per face seen anywhere in the frame
      and one row of counts per roll. */
  datatype FaceCounts = FaceCounts(faces: seq<Face>, counts: seq<seq<nat>>)

  /** Each roll's value_counts(), widened to every face of the frame with
      missing counts filled by 0. A frame with no rolls is a different case:
      pandas' apply has no row to call value_counts() on, so it hands back
      the empty frame itself, whose columns are the die numbers. */
  function FaceCountsPerRoll(t: Table): (r: FaceCounts)
    ensures NoDup(r.faces)
    ensures |t.rows| == 0 ==>
              |r.faces| == t.width && forall c | 0 <= c < t.width :: r.faces[c] == c
    ensures |t.rows| > 0 ==>
              forall f :: f in r.faces <==> exists i | 0 <= i < |t.rows| :: f in t.rows[i]
    ensures |r.counts| == |t.rows|
    ensures forall i | 0 <= i < |t.rows| :: |r.counts[i]| == |r.faces|
    ensures forall i, j | 0 <= i < |t.rows| && 0 <= j < |r.faces| ::
              r.counts[i][j] == multiset(t.rows[i])[r.faces[j]]
    ensures forall i, j | 0 <= i < |t.rows| && 0 <= j < |r.faces| ::
              r.faces[j] !in t.rows[i] ==> r.counts[i][j] == 0
  {
    if |t.rows| == 0 then
      FaceCounts(seq(t.width, c requires 0 <= c < t.width => c), [])
    else
      var rows := t.rows;
      var faces := Dedup(Flatten(rows));
      FaceCounts(faces, seq(|rows|, i requires 0 <= i < |rows| => Tally(faces, multiset(rows[i]))))
  }

  function FaceCountsOf(a: Analyzer): FaceCounts {
    FaceCountsPerRoll(a.results)
  }

  /** Every die of a roll is counted once: each row of counts sums to the
      number of dice. */
  lemma FaceCountsRowSums(a: Analyzer, i: nat)
    requires a.results.WellFormed() && i < |a.results.rows|
    ensures Sum(FaceCountsOf(a).counts[i]) == a.results.width
  {
    var rows := a.results.rows;
    var fc := FaceCountsOf(a);
    forall x | x in multiset(rows[i]) ensures x in fc.faces {
      assert x in rows[i];
    }
    SumTally(fc.faces, multiset(rows[i]));
  }

  // ------------------------------------------- combination and permutation counts

  /** Each roll's combination key tuple(sorted(row)), roll by roll. */
  function SortedRows(rows: seq<seq<Face>>): seq<seq<Face>> {
    seq(|rows|, i requires 0 <= i < |rows| => Sort(rows[i]))
  }

  /** combo_count(): each distinct sorted row with the number of rolls
      that sort to it. */
  function ComboCount(rows: seq<seq<Face>>): (r: seq<Freq<seq<Face>>>)
    ensures NoDup(Keys(r))
    ensures forall c :: c in Keys(r) <==> c in SortedRows(rows)
    ensures forall j | 0 <= j < |r| :: Sorted(r[j].key) && r[j].count >= 1
    ensures forall j | 0 <= j < |r| :: r[j].count == multiset(SortedRows(rows))[r[j].key]
  {
    var sorted := SortedRows(rows);
    var r := ValueCounts(sorted);
    assert forall c :: c in Keys(r) <==> c in Elements(sorted);
    forall j | 0 <= j < |r| ensures Sorted(r[j].key) {
      assert Keys(r)[j] == r[j].key;
      assert r[j].key in Elements(sorted);
      var i :| 0 <= i < |sorted| && sorted[i] == r[j].key;
      SortSorted(rows[i]);
    }
    r
  }

  /** permutation_count(): each distinct row, in die order, with the number
      of rolls equal to it. */
  function PermutationCount(rows: seq<seq<Face>>): (r: seq<Freq<seq<Face>>>)
    ensures NoDup(Keys(r))
    ensures forall p :: p in Keys(r) <==> p in rows
    ensures forall j | 0 <= j < |r| :: r[j].count >= 1 && r[j].count == multiset(rows)[r[j].key]
  {
    var r := ValueCounts(rows);
    assert forall p :: p in Keys(r) <==> p in Elements(rows);
    r
  }

  function CombinationsOf(a: Analyzer): seq<Freq<seq<Face>>> {
    ComboCount(a.results.rows)
  }

  function PermutationsOf(a: Analyzer): seq<Freq<seq<Face>>> {
    PermutationCount(a.results.rows)
  }

  /** Every roll lands in exactly one combination and one permutation. */
  lemma CountsSumToRolls(rows: seq<seq<Face>>)
    ensures Total(ComboCount(rows)) == |rows|
    ensures Total(PermutationCount(rows)) == |rows|
  {
    CountsSumToLength(SortedRows(rows));
    CountsSumToLength(rows);
  }

  /** The rolls whose combination is `c`, in roll order. */
  function WithCombination(rows: seq<seq<Face>>, c: seq<Face>): seq<seq<Face>> {
    if |rows| == 0 then []
    else
      var front := WithCombination(rows[..|rows| - 1], c);
      if Sort(rows[|rows| - 1]) == c then front + [rows[|rows| - 1]] else front
  }

  /** As many rolls have combination `c` as sort to `c`. */
  lemma {:induction false} WithCombinationSize(rows: seq<seq<Face>>, c: seq<Face>)
    ensures |WithCombination(rows, c)| == multiset(SortedRows(rows))[c]
  {
    if |rows| > 0 {
      var front := rows[..|rows| - 1];
      WithCombinationSize(front, c);
      assert SortedRows(rows) == SortedRows(front) + [Sort(rows[|rows| - 1])];
    }
  }

  /** A row occurs among the rolls with combination `c` as often as among
      all rolls if it sorts to `c`, and never otherwise. */
  lemma {:induction false} WithCombinationMembers(rows: seq<seq<Face>>, c: seq<Face>, p: seq<Face>)
    ensures multiset(WithCombination(rows, c))[p] == if Sort(p) == c then multiset(rows)[p] else 0
  {
    if |rows| > 0 {
      var front := rows[..|rows| - 1];
      WithCombinationMembers(front, c, p);
      assert rows == front + [rows[|rows| - 1]];
    }
  }

  /** The permutation counts of the entries whose sorted key is `c`, summed. */
  function PermutationsFor(perms: seq<Freq<seq<Face>>>, c: seq<Face>): nat {
    Sum(seq(|perms|, j requires 0 <= j < |perms| => if Sort(perms[j].key) == c then perms[j].count else 0))
  }

  /** PermutationsFor read as a tally of `m` over the permutation keys. */
  lemma {:induction false} PermutationsForTally(perms: seq<Freq<seq<Face>>>, c: seq<Face>, m: multiset<seq<Face>>)
    requires forall k | 0 <= k < |perms| ::
               (if Sort(perms[k].key) == c then perms[k].count else 0) == m[perms[k].key]
    ensures PermutationsFor(perms, c) == Sum(Tally(Keys(perms), m))
  {
    assert seq(|perms|, k requires 0 <= k < |perms| => if Sort(perms[k].key) == c then perms[k].count else 0)
        == Tally(Keys(perms), m);
  }

  /** A combination's count is the sum of the counts of the permutations
      that sort to it. */
  lemma {:induction false} CombinationGroupsPermutations(rows: seq<seq<Face>>, j: nat)
    requires j < |ComboCount(rows)|
    ensures ComboCount(rows)[j].count == PermutationsFor(PermutationCount(rows), ComboCount(rows)[j].key)
  {
    var c := ComboCount(rows)[j].key;
    var perms := PermutationCount(rows);
    var m := multiset(WithCombination(rows, c));
    WithCombinationSize(rows, c);
    forall k | 0 <= k < |perms|
      ensures (if Sort(perms[k].key) == c then perms[k].count else 0) == m[perms[k].key]
    {
      WithCombinationMembers(rows, c, perms[k].key);
    }
    PermutationsForTally(perms, c, m);
    forall p | p in m ensures p in Keys(perms) {
      WithCombinationMembers(rows, c, p);
      assert multiset(rows)[p] > 0;
    }
    SumTally(Keys(perms), m);
  }

  /** There are never more combinations than permutations. */
  lemma {:induction false} FewerCombinations(rows: seq<seq<Face>>)
    ensures |ComboCount(rows)| <= |PermutationCount(rows)|
  {
    var sorted := SortedRows(rows);
    EntriesAreDistinctValues(sorted);
    EntriesAreDistinctValues(rows);
    forall c | c in Elements(sorted) ensures exists p | p in Elements(rows) :: Sort(p) == c {
      var i :| 0 <= i < |sorted| && sorted[i] == c;
      assert rows[i] in Elements(rows);
    }
    ImageCard(Elements(rows), Elements(sorted), Sort);
  }

  /** When every roll is already in ascending order, each combination key is
      the roll itself, so the two tables coincide entry for entry. */
  lemma {:induction false} SortedRowsCoincide(rows: seq<seq<Face>>)
    requires forall i | 0 <= i < |rows| :: Sorted(rows[i])
    ensures ComboCount(rows) == PermutationCount(rows)
  {
    forall i | 0 <= i < |rows| ensures Sort(rows[i]) == rows[i] {
      SortSorted(rows[i]);
      SortedUnique(Sort(rows[i]), rows[i]);
    }
    assert SortedRows(rows) == rows;
  }

  // ------------------------------------------------------------------ examples

  /** Two dice played zero times: the face-count frame has the die numbers
      0 and 1 as its columns and no rows. */
  lemma ExampleNoRollsFaceCounts()
    ensures FaceCountsPerRoll(Table(2, [])) == FaceCounts([0, 1], [])
  {
  }

  /** Two dice, rolls (1,1), (2,3), (1,1): two of the rolls are jackpots. */
  lemma ExampleJackpots()
    ensures CountJackpots([[1, 1], [2, 3], [1, 1]]) == 2
  {
    var rows: seq<seq<Face>> := [[1, 1], [2, 3], [1, 1]];
    assert Elements([1, 1]) == {1};
    assert Elements([2, 3]) == {2, 3};
    assert rows[..2][..1] == [[1, 1]] && rows[..2] == [[1, 1], [2, 3]];
    assert CountJackpots([[1, 1]]) == 1;
    assert CountJackpots([[1, 1], [2, 3]]) == 1;
  }

  /** The same rolls in value_counts form: (1,1) twice, (2,3) once. */
  lemma ExampleNoReorderingCounts()
    ensures ValueCounts([[1, 1], [2, 3], [1, 1]]) == [Freq([1, 1], 2), Freq([2, 3], 1)]
  {
    var rows: seq<seq<Face>> := [[1, 1], [2, 3], [1, 1]];
    assert rows[..2][..1] == [[1, 1]] && rows[..2] == [[1, 1], [2, 3]];
    assert ValueCounts([[1, 1]]) == [Freq([1, 1], 1)];
    assert [1, 1][0] != [2, 3][0];
    assert Bump([Freq([1, 1], 1)], [2, 3]) == [Freq([1, 1], 1), Freq([2, 3], 1)];
    assert ValueCounts([[1, 1], [2, 3]]) == [Freq([1, 1], 1), Freq([2, 3], 1)];
  }

  /** Rows already in sorted order: the combinations coincide with the permutations. */
  lemma {:induction false} ExampleNoReordering()
    ensures ComboCount([[1, 1], [2, 3], [1, 1]]) == [Freq([1, 1], 2), Freq([2, 3], 1)]
    ensures PermutationCount([[1, 1], [2, 3], [1, 1]]) == [Freq([1, 1], 2), Freq([2, 3], 1)]
  {
    var rows: seq<seq<Face>> := [[1, 1], [2, 3], [1, 1]];
    assert Sort([1]) == [1] && Sort([3]) == [3];
    assert Sort([1, 1]) == [1, 1] && Sort([2, 3]) == [2, 3];
    assert SortedRows(rows) == rows;
    ExampleNoReorderingCounts();
  }

  /** Rolls (2,3), (3,2), (1,1): the combination (2,3) is counted twice. */
  lemma ExampleReorderingCombinations()
    ensures ComboCount([[2, 3], [3, 2], [1, 1]]) == [Freq([2, 3], 2), Freq([1, 1], 1)]
  {
    var rows: seq<seq<Face>> := [[2, 3], [3, 2], [1, 1]];
    assert Sort([3]) == [3] && Sort([2]) == [2] && Sort([1]) == [1];
    assert Sort([2, 3]) == [2, 3] && Sort([3, 2]) == [2, 3] && Sort([1, 1]) == [1, 1];
    var sorted: seq<seq<Face>> := [[2, 3], [2, 3], [1, 1]];
    assert SortedRows(rows) == sorted;
    assert sorted[..2][..1] == [[2, 3]] && sorted[..2] == [[2, 3], [2, 3]];
    assert ValueCounts([[2, 3]]) == [Freq([2, 3], 1)];
    assert ValueCounts([[2, 3], [2, 3]]) == [Freq([2, 3], 2)];
    assert [2, 3][0] != [1, 1][0];
    assert Bump([Freq([2, 3], 2)], [1, 1]) == [Freq([2, 3], 2), Freq([1, 1], 1)];
  }

  /** Rolls (2,3), (3,2), (1,1): the permutations (2,3) and (3,2) are counted once each. */
  lemma ExampleReorderingPermutations()
    ensures PermutationCount([[2, 3], [3, 2], [1, 1]]) ==
              [Freq([2, 3], 1), Freq([3, 2], 1), Freq([1, 1], 1)]
  {
    var rows: seq<seq<Face>> := [[2, 3], [3, 2], [1, 1]];
    assert rows[..2][..1] == [[2, 3]] && rows[..2] == [[2, 3], [3, 2]];
    assert ValueCounts([[2, 3]]) == [Freq([2, 3], 1)];
    assert [2, 3][0] != [3, 2][0];
    assert Bump([Freq([2, 3], 1)], [3, 2]) == [Freq([2, 3], 1), Freq([3, 2], 1)];
    assert ValueCounts([[2, 3], [3, 2]]) == [Freq([2, 3], 1), Freq([3, 2], 1)];
    assert [2, 3][0] != [1, 1][0] && [3, 2][0] != [1, 1][0];
    assert Bump([Freq([2, 3], 1), Freq([3, 2], 1)], [1, 1]) ==
           [Freq([2, 3], 1), Freq([3, 2], 1), Freq([1, 1], 1)];
  }
}
