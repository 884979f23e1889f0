/** Facts about sequences shared by the die, the game and the analyzer:
    distinctness, element sets, sums and per-key tallies. */
module Seqs {

  /** No element occurs twice. */
  predicate NoDup<T(==)>(s: seq<T>) {
    forall i, j | 0 <= i < j < |s| :: s[i] != s[j]
  }

  /** The set of values in `s`, what numpy.unique and nunique measure. */
  function Elements<T(==)>(s: seq<T>): set<T> {
    set x | x in s
  }

  /** A sequence has as many distinct values as elements exactly when
      no element repeats. */
  lemma {:induction false} ElementsCard<T>(s: seq<T>)
    ensures |Elements(s)| <= |s|
    ensures |Elements(s)| == |s| <==> NoDup(s)
  {
    if |s| == 0 {
      assert Elements(s) == {};
    } else {
      var tail := s[1..];
      ElementsCard(tail);
      assert Elements(s) == {s[0]} + Elements(tail);
      if s[0] in tail {
        assert Elements(s) == Elements(tail);
        var j :| 0 <= j < |tail| && tail[j] == s[0];
        assert s[0] == s[j + 1];
      } else {
        assert s[0] !in Elements(tail);
        if NoDup(tail) {
          forall i, j | 0 <= i < j < |s|
            ensures s[i] != s[j]
          {
            if i == 0 {
              assert s[j] == tail[j - 1];
            } else {
              assert s[i] == tail[i - 1] && s[j] == tail[j - 1];
            }
          }
        } else {
          var i, j :| 0 <= i < j < |tail| && tail[i] == tail[j];
          assert s[i + 1] == s[j + 1];
        }
      }
    }
  }

  function Sum(s: seq<nat>): nat {
    if |s| == 0 then 0 else s[0] + Sum(s[1..])
  }

  function SumReal(s: seq<real>): real {
    if |s| == 0 then 0.0 else s[0] + SumReal(s[1..])
  }

  /** Scaling every term scales the sum: weights / weights.sum() sums to 1. */
  lemma {:induction false} SumRealScaled(s: seq<real>, p: seq<real>, t: real)
    requires t != 0.0
    requires |p| == |s| && forall i | 0 <= i < |s| :: p[i] == s[i] / t
    ensures SumReal(p) == SumReal(s) / t
  {
    if |s| > 0 {
      SumRealScaled(s[1..], p[1..], t);
      assert s[0] / t + SumReal(s[1..]) / t == (s[0] + SumReal(s[1..])) / t;
    }
  }

  /** A sequence of ones sums to its length. */
  lemma {:induction false} SumRealOnes(n: nat)
    ensures SumReal(seq(n, _ => 1.0)) == n as real
  {
    if n > 0 {
      SumRealOnes(n - 1);
      assert seq(n, _ => 1.0)[1..] == seq(n - 1, _ => 1.0);
    }
  }

  /** How many times each key of `ks` occurs in `m`, key by key. */
  function Tally<T(==)>(ks: seq<T>, m: multiset<T>): seq<nat> {
    seq(|ks|, j requires 0 <= j < |ks| => m[ks[j]])
  }

  lemma {:induction false} SumTallyEmpty<T>(ks: seq<T>)
    ensures Sum(Tally(ks, multiset{})) == 0
  {
    if |ks| > 0 {
      SumTallyEmpty(ks[1..]);
      assert Tally(ks, multiset{})[1..] == Tally(ks[1..], multiset{});
    }
  }

  /** One more occurrence of `x` adds one to the tally sum when `x` is a key. */
  lemma {:induction false} SumTallyAdd<T>(ks: seq<T>, m: multiset<T>, x: T)
    requires NoDup(ks)
    ensures Sum(Tally(ks, m + multiset{x})) == Sum(Tally(ks, m)) + (if x in ks then 1 else 0)
  {
    if |ks| > 0 {
      var tail := ks[1..];
      assert NoDup(tail) by {
        forall i, j | 0 <= i < j < |tail| ensures tail[i] != tail[j] {
          assert tail[i] == ks[i + 1] && tail[j] == ks[j + 1];
        }
      }
      SumTallyAdd(tail, m, x);
      assert Tally(ks, m + multiset{x})[1..] == Tally(tail, m + multiset{x});
      assert Tally(ks, m)[1..] == Tally(tail, m);
      if x == ks[0] {
        assert x !in tail by {
          forall j | 0 <= j < |tail| ensures tail[j] != x {
            assert tail[j] == ks[j + 1];
          }
        }
      } else {
        assert x in ks <==> x in tail;
      }
    }
  }

  /** Tallying a multiset over distinct keys that cover it counts every
      element exactly once. */
  lemma {:induction false} SumTally<T>(ks: seq<T>, m: multiset<T>)
    requires NoDup(ks)
    requires forall x | x in m :: x in ks
    ensures Sum(Tally(ks, m)) == |m|
    decreases |m|
  {
    if m == multiset{} {
      SumTallyEmpty(ks);
    } else {
      var x :| x in m;
      var rest := m - multiset{x};
      assert m == rest + multiset{x};
      SumTally(ks, rest);
      SumTallyAdd(ks, rest, x);
    }
  }

  /** The distinct values of `s` in order of first appearance. */
  function Dedup<T(==,!new)>(s: seq<T>): (r: seq<T>)
    ensures NoDup(r)
    ensures forall x :: x in r <==> x in s
  {
    if |s| == 0 then []
    else
      var front := Dedup(s[..|s| - 1]);
      var last := s[|s| - 1];
      assert forall x :: x in s <==> x in s[..|s| - 1] || x == last by {
        assert s == s[..|s| - 1] + [last];
      }
      if last in front then front else front + [last]
  }

  /** All cells of a table, row after row. */
  function Flatten<T(==,!new)>(rows: seq<seq<T>>): (r: seq<T>)
    ensures forall x :: x in r <==> exists i | 0 <= i < |rows| :: x in rows[i]
  {
    if |rows| == 0 then []
    else
      var rest := Flatten(rows[1..]);
      assert forall i | 1 <= i < |rows| :: rows[i] == rows[1..][i - 1];
      rows[0] + rest
  }

  /** A set every element of which is the image of some element of `s`
      under `f` has no more elements than `s`. */
  lemma {:induction false} ImageCard<A, B>(s: set<A>, t: set<B>, f: A -> B)
    requires forall y | y in t :: exists x | x in s :: f(x) == y
    ensures |t| <= |s|
    decreases |s|
  {
    if s != {} {
      var x :| x in s;
      var rest := s - {x};
      var others := t - {f(x)};
      forall y | y in others ensures exists z | z in rest :: f(z) == y {
        var z :| z in s && f(z) == y;
        assert z != x;
      }
      ImageCard(rest, others, f);
    } else {
      assert t == {};
    }
  }
}
