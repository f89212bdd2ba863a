/** Stable sort by descending integer score, the behaviour of
    `Array.prototype.sort` (stable since ECMAScript 2019) with the comparator
    `(a, b) => score(b) - score(a)`. Written as insertion: each element is
    placed after every element of equal or higher score already placed. */
module StableSort {

  predicate SortedDescending<T>(s: seq<T>, score: T -> int) {
    forall i, j :: 0 <= i < j < |s| ==> score(s[i]) >= score(s[j])
  }

  /** Places `x` after the leading run of elements scoring at least as high. */
  function Insert<T>(x: T, s: seq<T>, score: T -> int): seq<T>
    decreases |s|
  {
    if |s| == 0 then [x]
    else if score(s[0]) >= score(x) then [s[0]] + Insert(x, s[1..], score)
    else [x] + s
  }

  function SortDescending<T>(xs: seq<T>, score: T -> int): seq<T>
    decreases |xs|
  {
    if |xs| == 0 then []
    else Insert(xs[|xs| - 1], SortDescending(xs[..|xs| - 1], score), score)
  }

  /** The elements scoring exactly `v`, in order. */
  function WithScore<T>(s: seq<T>, score: T -> int, v: int): seq<T>
    decreases |s|
  {
    if |s| == 0 then []
    else (if score(s[0]) == v then [s[0]] else []) + WithScore(s[1..], score, v)
  }

  // ---------------------------------------------------------------------
  // Insertion
  // ---------------------------------------------------------------------

  lemma {:induction false} InsertPermutes<T>(x: T, s: seq<T>, score: T -> int)
    ensures multiset(Insert(x, s, score)) == multiset(s) + multiset{x}
    decreases |s|
  {
    if |s| > 0 && score(s[0]) >= score(x) {
      InsertPermutes(x, s[1..], score);
      assert s == [s[0]] + s[1..];
    }
  }

  lemma {:induction false} InsertSorted<T>(x: T, s: seq<T>, score: T -> int)
    requires SortedDescending(s, score)
    ensures SortedDescending(Insert(x, s, score), score)
    decreases |s|
  {
    if |s| > 0 && score(s[0]) >= score(x) {
      var tail := Insert(x, s[1..], score);
      InsertSorted(x, s[1..], score);
      InsertPermutes(x, s[1..], score);
      forall j | 0 <= j < |tail| ensures score(s[0]) >= score(tail[j]) {
        assert tail[j] in multiset(tail);
        assert tail[j] in s[1..] || tail[j] == x;
      }
    }
  }

  lemma {:induction false} NoneWithScoreBelowHead<T>(s: seq<T>, score: T -> int, v: int)
    requires SortedDescending(s, score)
    requires |s| > 0 && score(s[0]) < v
    ensures WithScore(s, score, v) == []
    decreases |s|
  {
    if |s| > 1 {
      NoneWithScoreBelowHead(s[1..], score, v);
    }
  }

  lemma WithScoreCons<T>(y: T, s: seq<T>, score: T -> int, v: int)
    ensures WithScore([y] + s, score, v) == (if score(y) == v then [y] else []) + WithScore(s, score, v)
  {
    assert ([y] + s)[0] == y && ([y] + s)[1..] == s;
  }

  lemma SortedTail<T>(s: seq<T>, score: T -> int)
    requires SortedDescending(s, score) && |s| > 0
    ensures SortedDescending(s[1..], score)
  {
    forall i, j | 0 <= i < j < |s[1..]| ensures score(s[1..][i]) >= score(s[1..][j]) {
      assert s[1..][i] == s[i + 1] && s[1..][j] == s[j + 1];
    }
  }

  /** Inserting `x` appends it to the run of its own score and leaves every
      other score's run as it was. */
  lemma {:induction false} InsertStable<T>(x: T, s: seq<T>, score: T -> int, v: int)
    requires SortedDescending(s, score)
    ensures WithScore(Insert(x, s, score), score, v) == WithScore(s, score, v) + (if score(x) == v then [x] else [])
    decreases |s|
  {
    var xPart := if score(x) == v then [x] else [];
    if |s| == 0 {
      WithScoreCons(x, [], score, v);
      assert Insert(x, s, score) == [x] + [];
    } else if score(s[0]) >= score(x) {
      var head := if score(s[0]) == v then [s[0]] else [];
      var tail := Insert(x, s[1..], score);
      SortedTail(s, score);
      InsertStable(x, s[1..], score, v);
      assert Insert(x, s, score) == [s[0]] + tail;
      WithScoreCons(s[0], tail, score, v);
      assert s == [s[0]] + s[1..];
      WithScoreCons(s[0], s[1..], score, v);
      assert head + (WithScore(s[1..], score, v) + xPart) == (head + WithScore(s[1..], score, v)) + xPart;
    } else {
      assert Insert(x, s, score) == [x] + s;
      WithScoreCons(x, s, score, v);
      if score(x) == v {
        NoneWithScoreBelowHead(s, score, v);
      }
    }
  }

  lemma {:induction false} WithScoreAppend<T>(p: seq<T>, x: T, score: T -> int, v: int)
    ensures WithScore(p + [x], score, v) == WithScore(p, score, v) + (if score(x) == v then [x] else [])
    decreases |p|
  {
    if |p| == 0 {
      assert p + [x] == [x] + [];
      WithScoreCons(x, [], score, v);
    } else {
      var rest := p[1..];
      WithScoreAppend(rest, x, score, v);
      assert p + [x] == [p[0]] + (rest + [x]);
      WithScoreCons(p[0], rest + [x], score, v);
      assert p == [p[0]] + rest;
      WithScoreCons(p[0], rest, score, v);
    }
  }

  // ---------------------------------------------------------------------
  // Sorting
  // ---------------------------------------------------------------------

  lemma {:induction false} SortPermutes<T>(xs: seq<T>, score: T -> int)
    ensures multiset(SortDescending(xs, score)) == multiset(xs)
    decreases |xs|
  {
    if |xs| > 0 {
      var prefix := xs[..|xs| - 1];
      SortPermutes(prefix, score);
      InsertPermutes(xs[|xs| - 1], SortDescending(prefix, score), score);
      assert xs == prefix + [xs[|xs| - 1]];
    }
  }

  lemma {:induction false} SortSorted<T>(xs: seq<T>, score: T -> int)
    ensures SortedDescending(SortDescending(xs, score), score)
    decreases |xs|
  {
    if |xs| > 0 {
      SortSorted(xs[..|xs| - 1], score);
      InsertSorted(xs[|xs| - 1], SortDescending(xs[..|xs| - 1], score), score);
    }
  }

  lemma {:induction false} SortStable<T>(xs: seq<T>, score: T -> int, v: int)
    ensures WithScore(SortDescending(xs, score), score, v) == WithScore(xs, score, v)
    decreases |xs|
  {
    if |xs| > 0 {
      var prefix := xs[..|xs| - 1];
      var x := xs[|xs| - 1];
      SortStable(prefix, score, v);
      SortSorted(prefix, score);
      InsertStable(x, SortDescending(prefix, score), score, v);
      WithScoreAppend(prefix, x, score, v);
      assert xs == prefix + [x];
    }
  }

  /** The sort's result is a permutation of its input, ordered by
      non-increasing score, and elements of equal score keep their input
      order: together these determine it uniquely. */
  lemma SortCharacterized<T>(xs: seq<T>, score: T -> int)
    ensures multiset(SortDescending(xs, score)) == multiset(xs)
    ensures SortedDescending(SortDescending(xs, score), score)
    ensures forall v :: WithScore(SortDescending(xs, score), score, v) == WithScore(xs, score, v)
  {
    SortPermutes(xs, score);
    SortSorted(xs, score);
    forall v ensures WithScore(SortDescending(xs, score), score, v) == WithScore(xs, score, v) {
      SortStable(xs, score, v);
    }
  }

  // ---------------------------------------------------------------------
  // Keys survive the sort
  // ---------------------------------------------------------------------

  predicate DistinctBy<T, K(==)>(s: seq<T>, key: T -> K) {
    forall i, j :: 0 <= i < j < |s| ==> key(s[i]) != key(s[j])
  }

  /** Prepending an element whose key is new keeps the keys distinct. */
  lemma DistinctCons<T, K>(y: T, s: seq<T>, key: T -> K)
    requires DistinctBy(s, key)
    requires forall z :: z in s ==> key(z) != key(y)
    ensures DistinctBy([y] + s, key)
  {
    var r := [y] + s;
    forall i, j | 0 <= i < j < |r| ensures key(r[i]) != key(r[j]) {
      assert r[j] == s[j - 1];
      if i == 0 {
        assert r[j] in s;
      } else {
        assert r[i] == s[i - 1];
      }
    }
  }

  /** The head's key does not recur in the tail, which is distinct too. */
  lemma DistinctHead<T, K>(s: seq<T>, key: T -> K)
    requires DistinctBy(s, key) && |s| > 0
    ensures DistinctBy(s[1..], key)
    ensures forall z :: z in s[1..] ==> key(z) != key(s[0])
  {
    forall i, j | 0 <= i < j < |s[1..]| ensures key(s[1..][i]) != key(s[1..][j]) {
      assert s[1..][i] == s[i + 1] && s[1..][j] == s[j + 1];
    }
    forall z | z in s[1..] ensures key(z) != key(s[0]) {
      var k :| 0 <= k < |s[1..]| && s[1..][k] == z;
      assert s[k + 1] == z;
    }
  }

  /** A permutation of a sequence with distinct keys has distinct keys. */
  lemma {:induction false} InsertDistinct<T, K>(x: T, s: seq<T>, score: T -> int, key: T -> K)
    requires DistinctBy(s, key)
    requires forall y :: y in s ==> key(y) != key(x)
    ensures DistinctBy(Insert(x, s, score), key)
    decreases |s|
  {
    if |s| == 0 {
      DistinctCons(x, s, key);
      assert Insert(x, s, score) == [x] + s;
    } else if score(s[0]) >= score(x) {
      var tail := Insert(x, s[1..], score);
      DistinctHead(s, key);
      assert forall y :: y in s[1..] ==> y in s;
      InsertDistinct(x, s[1..], score, key);
      InsertPermutes(x, s[1..], score);
      forall z | z in tail ensures key(z) != key(s[0]) {
        assert z in multiset(tail);
        assert z in s[1..] || z == x;
      }
      DistinctCons(s[0], tail, key);
    } else {
      DistinctCons(x, s, key);
    }
  }

  lemma {:induction false} SortDistinct<T, K>(xs: seq<T>, score: T -> int, key: T -> K)
    requires DistinctBy(xs, key)
    ensures DistinctBy(SortDescending(xs, score), key)
    decreases |xs|
  {
    if |xs| > 0 {
      var prefix := xs[..|xs| - 1];
      var x := xs[|xs| - 1];
      var sorted := SortDescending(prefix, score);
      SortDistinct(prefix, score, key);
      SortPermutes(prefix, score);
      forall y | y in sorted ensures key(y) != key(x) {
        assert y in multiset(sorted);
        var k :| 0 <= k < |prefix| && prefix[k] == y;
        assert xs[k] == y;
      }
      InsertDistinct(x, sorted, score, key);
    }
  }
}
