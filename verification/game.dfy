/** The Game class: a list of dice rolled together, the frame of the latest
    play, and that frame shown wide or narrow. */
module Games {
  import opened Results
  import opened Dice

  /** A play frame: `width` columns, column i holding die i's outcomes, and
      one row per roll. */
  datatype Table = Table(width: nat, rows: seq<seq<Face>>) {
    /** Every row has one cell per column. A frame built from no columns
        has no rows either, as pandas builds it. */
    predicate WellFormed() {
      && (forall r | 0 <= r < |rows| :: |rows[r]| == width)
      && (width == 0 ==> rows == [])
    }

    /** The outcomes in column `c`, roll by roll. */
    function Column(c: nat): seq<Face>
      requires WellFormed() && c < width
    {
      seq(|rows|, r requires 0 <= r < |rows| => rows[r][c])
    }
  }

  /** The game: its dice, and the frame of the latest play if there was one. */
  datatype Game = Game(dice: seq<Die>, playDf: Option<Table>)

  /** One row of the narrow layout: roll number, die number, outcome. */
  datatype Entry = Entry(roll: nat, die: nat, outcome: Face)

  /** What show() returns in either layout. */
  datatype View = Wide(table: Table) | Narrow(entries: seq<Entry>)

  /** Game(dice_list): the dice as given and no result yet. */
  function NewGame(dice: seq<Die>): Game {
    Game(dice, None)
  }

  /** What play() asks of its inputs: every die is a constructed one and the
      sampler answers each die's roll. */
  predicate Playable(dice: seq<Die>, n: int, picks: seq<seq<nat>>) {
    && |picks| == |dice|
    && forall i | 0 <= i < |dice| :: dice[i].Valid() && Sampled(dice[i], n, picks[i])
  }

  /** The loop of play(): roll each die `n` times in order; the first die
      whose roll fails ends the loop with its error. Every die is asked for
      the same `n`, so that is die 0 unless `n` is valid. */
  function RollAll(dice: seq<Die>, n: int, picks: seq<seq<nat>>): (r: Result<seq<seq<Face>>>)
    requires Playable(dice, n, picks)
    ensures r.Success? <==> |dice| == 0 || (n >= 0 && forall i | 0 <= i < |dice| :: Drawable(dice[i]))
    ensures r.Failure? ==>
              r.error == (if n >= 0 || !Drawable(dice[0]) then InvalidProbabilities else NegativeRollCount)
    ensures r.Success? ==>
              && |r.value| == |dice|
              && forall i | 0 <= i < |dice| :: r.value[i] == Roll(dice[i], n, picks[i]).value
    decreases |dice|
  {
    if |dice| == 0 then Success([])
    else
      match Roll(dice[0], n, picks[0])
      case Failure(e) => Failure(e)
      case Success(col) =>
        assert forall i | 1 <= i < |dice| :: dice[1..][i - 1] == dice[i] && picks[1..][i - 1] == picks[i];
        match RollAll(dice[1..], n, picks[1..])
        case Failure(e) => Failure(e)
        case Success(cols) => Success([col] + cols)
  }

  /** pd.DataFrame of a dict of equal-length columns: one row per position,
      and no rows at all when there are no columns. */
  function FromColumns(cols: seq<seq<Face>>): (t: Table)
    requires forall c | 0 <= c < |cols| :: |cols[c]| == |cols[0]|
    ensures t.WellFormed() && t.width == |cols|
    ensures |t.rows| == (if |cols| == 0 then 0 else |cols[0]|)
    ensures forall c | 0 <= c < |cols| :: t.Column(c) == cols[c]
  {
    if |cols| == 0 then Table(0, [])
    else
      var n := |cols[0]|;
      Table(|cols|, seq(n, r requires 0 <= r < n =>
                             seq(|cols|, c requires 0 <= c < |cols| => cols[c][r])))
  }

  /** play(num_rolls): roll every die; a failing roll propagates and the
      game keeps its old frame; otherwise the new frame replaces it. */
  function Play(g: Game, n: int, picks: seq<seq<nat>>): (r: Result<Game>)
    requires Playable(g.dice, n, picks)
    ensures r.Success? <==> |g.dice| == 0 || (n >= 0 && forall i | 0 <= i < |g.dice| :: Drawable(g.dice[i]))
    ensures r.Failure? ==>
              && |g.dice| > 0
              && r.error == (if n >= 0 || !Drawable(g.dice[0]) then InvalidProbabilities else NegativeRollCount)
    ensures r.Success? ==>
              && r.value.dice == g.dice
              && r.value.playDf.Some?
              && var t := r.value.playDf.value;
              && t.WellFormed() && t.width == |g.dice|
              && |t.rows| == (if |g.dice| == 0 then 0 else n)
              && (forall k, c | 0 <= k < |t.rows| && 0 <= c < t.width :: t.rows[k][c] in g.dice[c].faces)
              && forall c | 0 <= c < t.width :: t.Column(c) == Roll(g.dice[c], n, picks[c]).value
  {
    match RollAll(g.dice, n, picks)
    case Failure(e) => Failure(e)
    case Success(cols) =>
      var t := FromColumns(cols);
      assert forall k, c | 0 <= k < |t.rows| && 0 <= c < t.width :: t.rows[k][c] == t.Column(c)[k];
      Success(Game(g.dice, Some(t)))
  }

  /** The narrow entries of one row: (roll, die, outcome) for each die in order. */
  function RowEntries(roll: nat, row: seq<Face>): seq<Entry> {
    seq(|row|, c requires 0 <= c < |row| => Entry(roll, c, row[c]))
  }

  /** frame.stack() from roll `start` on: row after row, each row's cells in
      die order. */
  function StackFrom(rows: seq<seq<Face>>, start: nat): seq<Entry> {
    if |rows| == 0 then []
    else RowEntries(start, rows[0]) + StackFrom(rows[1..], start + 1)
  }

  function Stack(t: Table): seq<Entry> {
    StackFrom(t.rows, 0)
  }

  /** The number of rolls the unstacked frame has: one past the largest roll number. */
  function NumRolls(es: seq<Entry>): nat {
    if |es| == 0 then 0
    else
      var rest := NumRolls(es[1..]);
      if es[0].roll + 1 > rest then es[0].roll + 1 else rest
  }

  /** The entries for roll `r`, in their order. */
  function WithRoll(es: seq<Entry>, r: nat): seq<Entry> {
    if |es| == 0 then []
    else if es[0].roll == r then [es[0]] + WithRoll(es[1..], r)
    else WithRoll(es[1..], r)
  }

  function Outcomes(es: seq<Entry>): seq<Face> {
    seq(|es|, k requires 0 <= k < |es| => es[k].outcome)
  }

  /** The narrow layout grouped back by roll into a frame of `width` columns:
      row r holds the outcomes of the entries numbered r. */
  function Unstack(width: nat, es: seq<Entry>): Table {
    Table(width, seq(NumRolls(es), r requires 0 <= r < NumRolls(es) => Outcomes(WithRoll(es, r))))
  }

  /** `es` is the narrow layout of `t`: one entry per cell, roll by roll and
      die by die, each carrying its roll number, die number and outcome. */
  predicate IsStackOf(t: Table, es: seq<Entry>) {
    && t.WellFormed()
    && |es| == |t.rows| * t.width
    && forall k, c | 0 <= k < |t.rows| && 0 <= c < t.width ::
         && k * t.width + c < |es|
         && es[k * t.width + c] == Entry(k, c, t.rows[k][c])
  }

  /** show(form): fails before any play, gives the frame for 'wide', its
      stacked entries for 'narrow', and fails for any other form. */
  function Show(g: Game, form: string): (r: Result<View>)
    requires g.playDf.Some? ==> g.playDf.value.WellFormed()
    ensures g.playDf.None? ==> r == Failure(NoGamePlayed)
    ensures g.playDf.Some? && form != "wide" && form != "narrow" ==> r == Failure(InvalidForm)
    ensures g.playDf.Some? && form == "wide" ==> r == Success(Wide(g.playDf.value))
    ensures g.playDf.Some? && form == "narrow" ==>
              && r.Success? && r.value.Narrow?
              && IsStackOf(g.playDf.value, r.value.entries)
              && Unstack(g.playDf.value.width, r.value.entries) == g.playDf.value
  {
    match g.playDf
    case None => Failure(NoGamePlayed)
    case Some(t) =>
      if form == "wide" then Success(Wide(t))
      else if form == "narrow" then
        StackShape(t.rows, t.width);
        UnstackStack(t);
        Success(Narrow(Stack(t)))
      else Failure(InvalidForm)
  }

  /** A fresh game has no result, so show() fails whatever the form. */
  lemma FreshGameShowFails(dice: seq<Die>, form: string)
    ensures NewGame(dice).playDf.None?
    ensures Show(NewGame(dice), form) == Failure(NoGamePlayed)
  {
  }

  /** play() keeps nothing of the previous frame: two games with the same
      dice end in the same state, whatever they held before. */
  lemma PlayReplaces(g1: Game, g2: Game, n: int, picks: seq<seq<nat>>)
    requires g1.dice == g2.dice
    requires Playable(g1.dice, n, picks)
    ensures Play(g1, n, picks) == Play(g2, n, picks)
  {
  }

  /** The stacked entries number `width` per row. */
  lemma {:induction false} StackLength(rows: seq<seq<Face>>, start: nat, w: nat)
    requires forall k | 0 <= k < |rows| :: |rows[k]| == w
    ensures |StackFrom(rows, start)| == |rows| * w
  {
    if |rows| > 0 {
      StackLength(rows[1..], start + 1, w);
      assert (|rows| - 1 + 1) * w == (|rows| - 1) * w + w;
    }
  }

  /** Row k's cell c sits at position k * width + c, numbered (start + k, c). */
  lemma {:induction false} StackAt(rows: seq<seq<Face>>, start: nat, w: nat, k: nat, c: nat)
    requires forall i | 0 <= i < |rows| :: |rows[i]| == w
    requires k < |rows| && c < w
    ensures k * w + c < |StackFrom(rows, start)|
    ensures StackFrom(rows, start)[k * w + c] == Entry(start + k, c, rows[k][c])
  {
    var tail := rows[1..];
    StackLength(rows, start, w);
    StackLength(tail, start + 1, w);
    if k > 0 {
      StackAt(tail, start + 1, w, k - 1, c);
      assert (k - 1 + 1) * w == (k - 1) * w + w;
      assert tail[k - 1] == rows[k];
    }
  }

  /** The stacked entries in roll-then-die order, as Show's narrow layout promises. */
  lemma {:induction false} StackShape(rows: seq<seq<Face>>, w: nat)
    requires forall k | 0 <= k < |rows| :: |rows[k]| == w
    ensures |StackFrom(rows, 0)| == |rows| * w
    ensures forall k, c | 0 <= k < |rows| && 0 <= c < w ::
              && k * w + c < |StackFrom(rows, 0)|
              && StackFrom(rows, 0)[k * w + c] == Entry(k, c, rows[k][c])
  {
    StackLength(rows, 0, w);
    forall k, c | 0 <= k < |rows| && 0 <= c < w
      ensures k * w + c < |StackFrom(rows, 0)|
      ensures StackFrom(rows, 0)[k * w + c] == Entry(k, c, rows[k][c])
    {
      StackAt(rows, 0, w, k, c);
    }
  }

  lemma {:induction false} NumRollsConcat(a: seq<Entry>, b: seq<Entry>)
    ensures NumRolls(a + b) == if NumRolls(a) > NumRolls(b) then NumRolls(a) else NumRolls(b)
  {
    if |a| > 0 {
      assert (a + b)[1..] == a[1..] + b;
      NumRollsConcat(a[1..], b);
    } else {
      assert a + b == b;
    }
  }

  lemma {:induction false} WithRollConcat(a: seq<Entry>, b: seq<Entry>, r: nat)
    ensures WithRoll(a + b, r) == WithRoll(a, r) + WithRoll(b, r)
  {
    if |a| > 0 {
      assert (a + b)[1..] == a[1..] + b;
      WithRollConcat(a[1..], b, r);
    } else {
      assert a + b == b;
    }
  }

  /** Entries that all carry roll `s` are kept whole for `s` and dropped for
      any other roll; a non-empty run of them numbers s + 1 rolls. */
  lemma {:induction false} SingleRoll(es: seq<Entry>, s: nat, r: nat)
    requires forall k | 0 <= k < |es| :: es[k].roll == s
    ensures WithRoll(es, r) == if r == s then es else []
    ensures NumRolls(es) == if |es| == 0 then 0 else s + 1
  {
    if |es| > 0 {
      SingleRoll(es[1..], s, r);
      assert es == [es[0]] + es[1..];
    }
  }

  /** Grouping the stacked rows by roll number gives each row back. */
  lemma {:induction false} WithRollStack(rows: seq<seq<Face>>, start: nat, r: nat)
    ensures WithRoll(StackFrom(rows, start), r) ==
              if start <= r < start + |rows| then RowEntries(r, rows[r - start]) else []
  {
    if |rows| > 0 {
      var head := RowEntries(start, rows[0]);
      WithRollStack(rows[1..], start + 1, r);
      WithRollConcat(head, StackFrom(rows[1..], start + 1), r);
      SingleRoll(head, start, r);
      if start + 1 <= r < start + |rows| {
        assert rows[1..][r - (start + 1)] == rows[r - start];
      }
    }
  }

  /** Stacked rows that are not empty number as many rolls as there are rows. */
  lemma {:induction false} NumRollsStack(rows: seq<seq<Face>>, start: nat)
    requires forall k | 0 <= k < |rows| :: |rows[k]| > 0
    ensures NumRolls(StackFrom(rows, start)) == if |rows| == 0 then 0 else start + |rows|
  {
    if |rows| > 0 {
      var head := RowEntries(start, rows[0]);
      assert forall k | 0 <= k < |rows[1..]| :: rows[1..][k] == rows[k + 1];
      NumRollsStack(rows[1..], start + 1);
      NumRollsConcat(head, StackFrom(rows[1..], start + 1));
      SingleRoll(head, start, 0);
    }
  }

  /** Narrow then regrouped by roll is the wide frame again. */
  lemma UnstackStack(t: Table)
    requires t.WellFormed()
    ensures Unstack(t.width, Stack(t)) == t
  {
    var es := Stack(t);
    forall r | 0 <= r < |t.rows| {
      WithRollStack(t.rows, 0, r);
    }
    if t.width > 0 {
      NumRollsStack(t.rows, 0);
    }
    var u := Unstack(t.width, es);
    assert |u.rows| == |t.rows|;
    forall r | 0 <= r < |t.rows| ensures u.rows[r] == t.rows[r] {
      assert u.rows[r] == Outcomes(WithRoll(es, r));
    }
  }
}
