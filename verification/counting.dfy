/** pandas value_counts(): how often each distinct value occurs, as a list
    of (key, count) pairs with no key twice. */
module Counting {
  import opened Seqs

  datatype Freq<K> = Freq(key: K, count: nat)

  function Keys<K>(tab: seq<Freq<K>>): seq<K> {
    seq(|tab|, j requires 0 <= j < |tab| => tab[j].key)
  }

  function Counts<K>(tab: seq<Freq<K>>): seq<nat> {
    seq(|tab|, j requires 0 <= j < |tab| => tab[j].count)
  }

  /** The sum of the counts column. */
  function Total<K>(tab: seq<Freq<K>>): nat {
    Sum(Counts(tab))
  }

  /** The count listed for `k`, or 0 if `k` is not listed. */
  function Lookup<K(==)>(tab: seq<Freq<K>>, k: K): nat {
    if |tab| == 0 then 0
    else if tab[0].key == k then tab[0].count
    else Lookup(tab[1..], k)
  }

  lemma {:induction false} KeysTail<K>(tab: seq<Freq<K>>)
    requires |tab| > 0
    ensures Keys(tab) == [tab[0].key] + Keys(tab[1..])
    ensures NoDup(Keys(tab)) ==> NoDup(Keys(tab[1..])) && tab[0].key !in Keys(tab[1..])
  {
    var ks := Keys(tab);
    assert ks == [tab[0].key] + Keys(tab[1..]);
    if NoDup(ks) {
      forall i, j | 0 <= i < j < |tab| - 1 ensures Keys(tab[1..])[i] != Keys(tab[1..])[j] {
        assert Keys(tab[1..])[i] == ks[i + 1] && Keys(tab[1..])[j] == ks[j + 1];
      }
      forall j | 0 <= j < |tab| - 1 ensures Keys(tab[1..])[j] != tab[0].key {
        assert Keys(tab[1..])[j] == ks[j + 1] && ks[0] == tab[0].key;
      }
    }
  }

  /** With distinct keys, Lookup finds each listed entry's own count, and 0
      for an unlisted key. */
  lemma {:induction false} LookupFacts<K>(tab: seq<Freq<K>>, k: K)
    requires NoDup(Keys(tab))
    ensures k !in Keys(tab) ==> Lookup(tab, k) == 0
    ensures forall j | 0 <= j < |tab| && tab[j].key == k :: Lookup(tab, k) == tab[j].count
  {
    if |tab| > 0 {
      KeysTail(tab);
      LookupFacts(tab[1..], k);
      forall j | 0 <= j < |tab| && tab[j].key == k ensures Lookup(tab, k) == tab[j].count {
        if j > 0 {
          assert tab[j] == tab[1..][j - 1];
          assert Keys(tab[1..])[j - 1] == tab[j].key;
        }
      }
    }
  }

  /** Count one more occurrence of `x`: raise its entry, or append Freq(x, 1). */
  function Bump<K(==)>(tab: seq<Freq<K>>, x: K): (r: seq<Freq<K>>)
    requires NoDup(Keys(tab))
    ensures NoDup(Keys(r))
    ensures Elements(Keys(r)) == Elements(Keys(tab)) + {x}
    ensures forall j | 0 <= j < |r| :: r[j].count == Lookup(tab, r[j].key) + (if r[j].key == x then 1 else 0)
  {
    if |tab| == 0 then
      assert Keys([Freq(x, 1)]) == [x];
      [Freq(x, 1)]
    else
      KeysTail(tab);
      var tail := tab[1..];
      if tab[0].key == x then
        var r := [Freq(x, tab[0].count + 1)] + tail;
        KeysTail(r);
        assert r[1..] == tail;
        forall j | 0 <= j < |r| ensures r[j].count == Lookup(tab, r[j].key) + (if r[j].key == x then 1 else 0) {
          if j == 0 {
            assert r[0] == Freq(x, tab[0].count + 1);
          } else {
            assert r[j] == tail[j - 1];
            LookupFacts(tail, r[j].key);
            assert Keys(tail)[j - 1] == r[j].key;
            assert r[j].key != x;
          }
        }
        r
      else
        var rest := Bump(tail, x);
        var r := [tab[0]] + rest;
        KeysTail(r);
        assert r[1..] == rest;
        assert tab[0].key !in Keys(rest) by {
          assert tab[0].key !in Elements(Keys(rest));
        }
        forall j | 1 <= j < |r| ensures r[j].count == Lookup(tab, r[j].key) + (if r[j].key == x then 1 else 0) {
          assert r[j] == rest[j - 1];
          assert Keys(rest)[j - 1] == r[j].key;
        }
        assert Elements(Keys(r)) == {tab[0].key} + Elements(Keys(rest));
        assert Elements(Keys(tab)) == {tab[0].key} + Elements(Keys(tail));
        r
  }

  /** Counting one more value keeps a table of exact, positive counts exact
      and positive. */
  lemma {:induction false} BumpCounts<K>(front: seq<K>, prev: seq<Freq<K>>, last: K)
    requires NoDup(Keys(prev)) && Elements(Keys(prev)) == Elements(front)
    requires forall j | 0 <= j < |prev| :: prev[j].count == multiset(front)[prev[j].key]
    ensures forall j | 0 <= j < |Bump(prev, last)| ::
              Bump(prev, last)[j].count == multiset(front + [last])[Bump(prev, last)[j].key] >= 1
  {
    var xs := front + [last];
    var r := Bump(prev, last);
    forall j | 0 <= j < |r| ensures r[j].count == multiset(xs)[r[j].key] >= 1 {
      var k := r[j].key;
      assert Keys(r)[j] == k;
      assert k in Elements(Keys(r));
      LookupFacts(prev, k);
      if k in Keys(prev) {
        var i :| 0 <= i < |prev| && Keys(prev)[i] == k;
        assert k in Elements(front);
      } else {
        assert k !in Elements(front);
        assert k == last;
      }
    }
  }

  /** value_counts(): one entry per distinct value, in order of first
      appearance, each with the number of times the value occurs. */
  function ValueCounts<K(==)>(xs: seq<K>): (r: seq<Freq<K>>)
    ensures NoDup(Keys(r))
    ensures Elements(Keys(r)) == Elements(xs)
    ensures forall j | 0 <= j < |r| :: r[j].count == multiset(xs)[r[j].key]
    ensures forall j | 0 <= j < |r| :: r[j].count >= 1
  {
    if |xs| == 0 then []
    else
      var front := xs[..|xs| - 1];
      var last := xs[|xs| - 1];
      assert xs == front + [last];
      var prev := ValueCounts(front);
      BumpCounts(front, prev, last);
      Bump(prev, last)
  }

  /** The counts of value_counts() add up to the number of values counted. */
  lemma {:induction false} CountsSumToLength<K>(xs: seq<K>)
    ensures Total(ValueCounts(xs)) == |xs|
  {
    var r := ValueCounts(xs);
    assert Counts(r) == Tally(Keys(r), multiset(xs));
    forall x | x in multiset(xs) ensures x in Keys(r) {
      assert x in Elements(xs);
    }
    SumTally(Keys(r), multiset(xs));
  }

  /** value_counts() has one entry per distinct value. */
  lemma {:induction false} EntriesAreDistinctValues<K>(xs: seq<K>)
    ensures |ValueCounts(xs)| == |Elements(xs)|
  {
    ElementsCard(Keys(ValueCounts(xs)));
  }
}
