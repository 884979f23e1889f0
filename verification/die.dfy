/** The Die class: a fixed list of distinct faces, one weight per face,
    and rolls drawn from those faces. */
module Dice {
  import opened Results
  import opened Seqs

  /** Faces are integers: they must be totally ordered, since the analyzer
      sorts rows of faces. */
  type Face = int

  /** What Die() is handed: a NumPy array of faces, or some other value. */
  datatype FacesArg = NumpyArray(items: seq<Face>) | NotAnArray

  /** What change_weight() is handed as the new weight: a value float()
      converts, or one it refuses. */
  datatype WeightArg = Numeric(value: real) | NonNumeric

  /** The die's private frame: the faces in the order given, each with its weight. */
  datatype Die = Die(faces: seq<Face>, weights: seq<real>) {
    /** The frame has one weight per face, and its index has no repeated face. */
    predicate Valid() {
      |weights| == |faces| && NoDup(faces)
    }
  }

  /** One row of the frame that show() returns. */
  datatype WeightRow = WeightRow(face: Face, weight: real)

  /** Die(faces): refuses a non-array, then refuses repeated faces (the
      number of unique values differs from the length); otherwise every face
      starts with weight 1.0. */
  function NewDie(arg: FacesArg): (r: Result<Die>)
    ensures arg.NotAnArray? ==> r == Failure(FacesNotArray)
    ensures arg.NumpyArray? && !NoDup(arg.items) ==> r == Failure(DuplicateFaces)
    ensures arg.NumpyArray? && NoDup(arg.items) ==>
              && r.Success? && r.value.Valid()
              && r.value.faces == arg.items
              && forall i | 0 <= i < |arg.items| :: r.value.weights[i] == 1.0
  {
    match arg
    case NotAnArray => Failure(FacesNotArray)
    case NumpyArray(items) =>
      ElementsCard(items);
      if |Elements(items)| != |items| then Failure(DuplicateFaces)
      else Success(Die(items, seq(|items|, _ => 1.0)))
  }

  /** The position of `f` in the frame's index. */
  function IndexOf(faces: seq<Face>, f: Face): (i: nat)
    requires f in faces
    ensures i < |faces| && faces[i] == f
  {
    if faces[0] == f then 0 else 1 + IndexOf(faces[1..], f)
  }

  /** The weight the frame holds for face `f`. */
  function WeightOf(d: Die, f: Face): real
    requires d.Valid() && f in d.faces
  {
    d.weights[IndexOf(d.faces, f)]
  }

  /** change_weight(face, w): an unknown face fails first, then a weight
      float() refuses; otherwise only that face's weight becomes `w`. */
  function ChangeWeight(d: Die, face: Face, w: WeightArg): (r: Result<Die>)
    requires d.Valid()
    ensures face !in d.faces ==> r == Failure(UnknownFace)
    ensures face in d.faces && w.NonNumeric? ==> r == Failure(WeightNotNumeric)
    ensures face in d.faces && w.Numeric? ==>
              && r.Success? && r.value.Valid()
              && r.value.faces == d.faces
              && WeightOf(r.value, face) == w.value
              && forall g | g in d.faces && g != face :: WeightOf(r.value, g) == WeightOf(d, g)
  {
    if face !in d.faces then Failure(UnknownFace)
    else if w.NonNumeric? then Failure(WeightNotNumeric)
    else
      var i := IndexOf(d.faces, face);
      var d' := d.(weights := d.weights[i := w.value]);
      assert forall g | g in d.faces && g != face :: IndexOf(d.faces, g) != i;
      Success(d')
  }

  /** show(): the frame as rows (face, weight) in face order. A value, so
      nothing done to it reaches the die. */
  function Show(d: Die): seq<WeightRow>
    requires d.Valid()
  {
    seq(|d.faces|, i requires 0 <= i < |d.faces| => WeightRow(d.faces[i], d.weights[i]))
  }

  /** frame.loc[f, 'weight']: the weight of the first row for face `f`. */
  function Loc(frame: seq<WeightRow>, f: Face): Option<real> {
    if |frame| == 0 then None
    else if frame[0].face == f then Some(frame[0].weight)
    else Loc(frame[1..], f)
  }

  /** The shown frame answers .loc for exactly the die's faces, with the
      die's current weight. */
  lemma ShowLoc(d: Die, f: Face)
    requires d.Valid()
    ensures f !in d.faces ==> Loc(Show(d), f) == None
    ensures f in d.faces ==> Loc(Show(d), f) == Some(WeightOf(d, f))
  {
    LocFrom(d, 0, f);
  }

  lemma {:induction false} LocFrom(d: Die, k: nat, f: Face)
    requires d.Valid() && k <= |d.faces|
    ensures f !in d.faces[k..] ==> Loc(Show(d)[k..], f) == None
    ensures f in d.faces[k..] ==> Loc(Show(d)[k..], f) == Some(WeightOf(d, f))
    decreases |d.faces| - k
  {
    if k < |d.faces| {
      var frame := Show(d)[k..];
      assert frame[0] == WeightRow(d.faces[k], d.weights[k]);
      assert frame[1..] == Show(d)[k + 1..];
      assert d.faces[k..] == [d.faces[k]] + d.faces[k + 1..];
      if d.faces[k] == f {
        assert IndexOf(d.faces, f) == k;
      } else {
        LocFrom(d, k + 1, f);
      }
    }
  }

  /** The sum numpy divides the weights by. */
  function TotalWeight(d: Die): real {
    SumReal(d.weights)
  }

  /** weights / weights.sum(), the vector handed to numpy.random.choice. */
  function Probabilities(d: Die): seq<real>
    requires TotalWeight(d) != 0.0
  {
    seq(|d.weights|, i requires 0 <= i < |d.weights| => d.weights[i] / TotalWeight(d))
  }

  /** numpy accepts the normalised weights: the sum is not zero (no NaN or
      infinity) and no probability is negative. */
  predicate Drawable(d: Die) {
    && TotalWeight(d) != 0.0
    && forall i | 0 <= i < |d.weights| :: d.weights[i] / TotalWeight(d) >= 0.0
  }

  /** A drawable die hands numpy a probability vector: non-negative entries
      that sum to one. */
  lemma ProbabilitiesSumToOne(d: Die)
    requires Drawable(d)
    ensures forall i | 0 <= i < |Probabilities(d)| :: Probabilities(d)[i] >= 0.0
    ensures SumReal(Probabilities(d)) == 1.0
  {
    var t := TotalWeight(d);
    SumRealScaled(d.weights, Probabilities(d), t);
    assert SumReal(d.weights) / t == 1.0;
  }

  /** What the sampler hands back when roll() consults it: `times` positions
      into the face list. Nothing is asked of it when numpy fails first. */
  predicate Sampled(d: Die, times: int, picks: seq<nat>) {
    Drawable(d) && times >= 0 ==>
      |picks| == times && forall k | 0 <= k < |picks| :: picks[k] < |d.faces|
  }

  /** roll(times): numpy refuses weights that do not normalise, then a
      negative size; otherwise `times` faces of the die, the k-th being the
      face at the sampler's k-th position. */
  function Roll(d: Die, times: int, picks: seq<nat>): (r: Result<seq<Face>>)
    requires d.Valid() && Sampled(d, times, picks)
    ensures !Drawable(d) ==> r == Failure(InvalidProbabilities)
    ensures Drawable(d) && times < 0 ==> r == Failure(NegativeRollCount)
    ensures Drawable(d) && times >= 0 ==>
              && r.Success? && |r.value| == times
              && forall k | 0 <= k < times :: r.value[k] in d.faces
  {
    if !Drawable(d) then Failure(InvalidProbabilities)
    else if times < 0 then Failure(NegativeRollCount)
    else Success(seq(times, k requires 0 <= k < times => d.faces[picks[k]]))
  }

  /** A fresh die with at least one face can be rolled, and one roll lands
      on one of the faces it was built from. */
  lemma FreshDieRollsAFace(faces: seq<Face>, pick: nat)
    requires NoDup(faces) && pick < |faces|
    ensures NewDie(NumpyArray(faces)).Success?
    ensures Drawable(NewDie(NumpyArray(faces)).value)
    ensures Roll(NewDie(NumpyArray(faces)).value, 1, [pick]) == Success([faces[pick]])
  {
    var d := NewDie(NumpyArray(faces)).value;
    SumRealOnes(|faces|);
    assert d.weights == seq(|faces|, _ => 1.0);
    assert TotalWeight(d) == |faces| as real;
    var rolled := Roll(d, 1, [pick]).value;
    assert rolled[0] == faces[pick];
    assert rolled == [faces[pick]];
  }

  /** After change_weight(f, w) the shown frame reads `w` at `f` and the old
      weight at every other face. */
  lemma ChangeWeightShown(d: Die, f: Face, w: real, g: Face)
    requires d.Valid() && f in d.faces && g in d.faces
    ensures ChangeWeight(d, f, Numeric(w)).Success?
    ensures Loc(Show(ChangeWeight(d, f, Numeric(w)).value), f) == Some(w)
    ensures g != f ==> Loc(Show(ChangeWeight(d, f, Numeric(w)).value), g) == Loc(Show(d), g)
  {
    var d' := ChangeWeight(d, f, Numeric(w)).value;
    ShowLoc(d', f);
    ShowLoc(d', g);
    ShowLoc(d, g);
  }
}
