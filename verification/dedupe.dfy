/** De-duplication by key, first occurrence wins, order of first appearance kept.
    Both the search pipeline (merging the two result pages, keyed by video id,
    items without an id dropped) and the random-pool rebuild (keyed by video id)
    run this loop; `key` returning `None` means "drop this element". */
module Dedupe {
  import opened Wrappers

  /** The keys carried by the elements of `xs`. */
  function Keys<T, K>(xs: seq<T>, key: T -> Option<K>): set<K>
    decreases |xs|
  {
    if |xs| == 0 then {}
    else
      var x := xs[|xs| - 1];
      Keys(xs[..|xs| - 1], key) + (if key(x).Some? then {key(x).value} else {})
  }

  /** The position of the first element of `xs` whose key is `k`, or `|xs|`. */
  function IndexOfKey<T, K(==)>(xs: seq<T>, key: T -> Option<K>, k: K): (i: nat)
    ensures i <= |xs|
    ensures i < |xs| ==> key(xs[i]) == Some(k)
    ensures forall j :: 0 <= j < i ==> key(xs[j]) != Some(k)
    decreases |xs|
  {
    if |xs| == 0 then 0
    else if key(xs[0]) == Some(k) then 0
    else 1 + IndexOfKey(xs[1..], key, k)
  }

  /** Reference definition: keep an element exactly when it carries a key
      that no earlier element carried. */
  function FirstSeen<T, K(==)>(xs: seq<T>, key: T -> Option<K>): seq<T>
    decreases |xs|
  {
    if |xs| == 0 then []
    else
      var prefix := xs[..|xs| - 1];
      var x := xs[|xs| - 1];
      var kept := FirstSeen(prefix, key);
      if key(x).Some? && key(x).value !in Keys(prefix, key) then kept + [x] else kept
  }

  /** Every survivor carries a key and is the first input element with that key. */
  ghost predicate FirstOccurrences<T, K>(r: seq<T>, xs: seq<T>, key: T -> Option<K>) {
    forall i :: 0 <= i < |r| ==>
      && key(r[i]).Some?
      && IndexOfKey(xs, key, key(r[i]).value) < |xs|
      && r[i] == xs[IndexOfKey(xs, key, key(r[i]).value)]
  }

  /** No key is carried by two survivors. */
  ghost predicate DistinctKeys<T, K>(r: seq<T>, key: T -> Option<K>) {
    forall i, j :: 0 <= i < j < |r| ==> key(r[i]) != key(r[j])
  }

  /** Survivors appear in the order of their keys' first occurrences in the input. */
  ghost predicate InFirstOccurrenceOrder<T, K>(r: seq<T>, xs: seq<T>, key: T -> Option<K>) {
    forall i, j :: 0 <= i < j < |r| && key(r[i]).Some? && key(r[j]).Some? ==>
      IndexOfKey(xs, key, key(r[i]).value) < IndexOfKey(xs, key, key(r[j]).value)
  }

  /** What "de-duplicated, first-seen wins, in order of first appearance" means. */
  ghost predicate IsFirstSeenOf<T, K>(r: seq<T>, xs: seq<T>, key: T -> Option<K>) {
    && Keys(r, key) == Keys(xs, key)
    && FirstOccurrences(r, xs, key)
    && DistinctKeys(r, key)
    && InFirstOccurrenceOrder(r, xs, key)
  }

  lemma {:induction false} KeysMembership<T, K>(xs: seq<T>, key: T -> Option<K>, k: K)
    ensures k in Keys(xs, key) <==> IndexOfKey(xs, key, k) < |xs|
    decreases |xs|
  {
    if |xs| > 0 {
      var prefix := xs[..|xs| - 1];
      assert xs == prefix + [xs[|xs| - 1]];
      KeysMembership(prefix, key, k);
      IndexOfKeyExtend(prefix, xs[|xs| - 1], key, k);
    }
  }

  /** Appending an element does not move the first occurrence of a key already present. */
  lemma IndexOfKeyExtend<T, K>(p: seq<T>, x: T, key: T -> Option<K>, k: K)
    ensures IndexOfKey(p, key, k) < |p| ==> IndexOfKey(p + [x], key, k) == IndexOfKey(p, key, k)
    ensures IndexOfKey(p, key, k) == |p| ==> IndexOfKey(p + [x], key, k) == if key(x) == Some(k) then |p| else |p| + 1
  {
    var xs := p + [x];
    assert forall j :: 0 <= j < |p| ==> xs[j] == p[j];
    assert xs[|p|] == x;
  }

  lemma IndexStable<T, K>(p: seq<T>, x: T, key: T -> Option<K>, k: K)
    requires k in Keys(p, key)
    ensures IndexOfKey(p, key, k) < |p|
    ensures IndexOfKey(p + [x], key, k) == IndexOfKey(p, key, k)
    ensures (p + [x])[IndexOfKey(p, key, k)] == p[IndexOfKey(p, key, k)]
  {
    KeysMembership(p, key, k);
    IndexOfKeyExtend(p, x, key, k);
  }

  lemma KeysInclude<T, K>(xs: seq<T>, key: T -> Option<K>, i: nat)
    requires i < |xs| && key(xs[i]).Some?
    ensures key(xs[i]).value in Keys(xs, key)
    decreases |xs|
  {
    if i < |xs| - 1 {
      KeysInclude(xs[..|xs| - 1], key, i);
    }
  }

  lemma {:induction false} FirstSeenKeys<T, K>(xs: seq<T>, key: T -> Option<K>)
    ensures Keys(FirstSeen(xs, key), key) == Keys(xs, key)
    decreases |xs|
  {
    if |xs| > 0 {
      var prefix := xs[..|xs| - 1];
      var x := xs[|xs| - 1];
      var kept := FirstSeen(prefix, key);
      FirstSeenKeys(prefix, key);
      if key(x).Some? && key(x).value !in Keys(prefix, key) {
        assert (kept + [x])[..|kept|] == kept;
      }
    }
  }

  /** The first occurrences of the prefix's keys do not move when `x` is appended. */
  lemma PrefixIndicesStable<T, K>(prefix: seq<T>, x: T, kept: seq<T>, key: T -> Option<K>)
    requires Keys(kept, key) == Keys(prefix, key)
    ensures forall i | 0 <= i < |kept| && key(kept[i]).Some? ::
      && IndexOfKey(prefix + [x], key, key(kept[i]).value) == IndexOfKey(prefix, key, key(kept[i]).value)
      && IndexOfKey(prefix, key, key(kept[i]).value) < |prefix|
  {
    forall i | 0 <= i < |kept| && key(kept[i]).Some?
      ensures IndexOfKey(prefix + [x], key, key(kept[i]).value) == IndexOfKey(prefix, key, key(kept[i]).value) < |prefix|
    {
      KeysInclude(kept, key, i);
      IndexStable(prefix, x, key, key(kept[i]).value);
    }
  }

  /** Survivors of a prefix stay first occurrences when the input grows. */
  lemma OccurrencesExtend<T, K>(prefix: seq<T>, x: T, kept: seq<T>, key: T -> Option<K>)
    requires FirstOccurrences(kept, prefix, key)
    requires Keys(kept, key) == Keys(prefix, key)
    ensures FirstOccurrences(kept, prefix + [x], key)
  {
    forall i | 0 <= i < |kept|
      ensures IndexOfKey(prefix + [x], key, key(kept[i]).value) < |prefix + [x]|
      ensures kept[i] == (prefix + [x])[IndexOfKey(prefix + [x], key, key(kept[i]).value)]
    {
      KeysInclude(kept, key, i);
      IndexStable(prefix, x, key, key(kept[i]).value);
    }
  }

  /** An element with a new key is its key's first occurrence. */
  lemma OccurrencesAppend<T, K>(prefix: seq<T>, x: T, kept: seq<T>, key: T -> Option<K>)
    requires FirstOccurrences(kept, prefix + [x], key)
    requires key(x).Some? && key(x).value !in Keys(prefix, key)
    ensures FirstOccurrences(kept + [x], prefix + [x], key)
  {
    var k := key(x).value;
    var xs := prefix + [x];
    KeysMembership(prefix, key, k);
    IndexOfKeyExtend(prefix, x, key, k);
    assert IndexOfKey(xs, key, k) == |prefix| && xs[|prefix|] == x;
    var r := kept + [x];
    forall i | 0 <= i < |r|
      ensures key(r[i]).Some?
      ensures IndexOfKey(xs, key, key(r[i]).value) < |xs|
      ensures r[i] == xs[IndexOfKey(xs, key, key(r[i]).value)]
    {
      if i < |kept| {
        assert r[i] == kept[i];
      } else {
        assert r[i] == x;
      }
    }
  }

  lemma {:induction false} FirstSeenOccurrences<T, K>(xs: seq<T>, key: T -> Option<K>)
    ensures FirstOccurrences(FirstSeen(xs, key), xs, key)
    decreases |xs|
  {
    if |xs| > 0 {
      var prefix := xs[..|xs| - 1];
      var x := xs[|xs| - 1];
      assert xs == prefix + [x];
      var kept := FirstSeen(prefix, key);
      FirstSeenOccurrences(prefix, key);
      FirstSeenKeys(prefix, key);
      OccurrencesExtend(prefix, x, kept, key);
      if key(x).Some? && key(x).value !in Keys(prefix, key) {
        OccurrencesAppend(prefix, x, kept, key);
      }
    }
  }

  lemma {:induction false} FirstSeenOrder<T, K>(xs: seq<T>, key: T -> Option<K>)
    ensures InFirstOccurrenceOrder(FirstSeen(xs, key), xs, key)
    decreases |xs|
  {
    if |xs| > 0 {
      var prefix := xs[..|xs| - 1];
      var x := xs[|xs| - 1];
      assert xs == prefix + [x];
      var kept := FirstSeen(prefix, key);
      FirstSeenOrder(prefix, key);
      FirstSeenKeys(prefix, key);
      PrefixIndicesStable(prefix, x, kept, key);
      if key(x).Some? && key(x).value !in Keys(prefix, key) {
        var k := key(x).value;
        var r := kept + [x];
        KeysMembership(prefix, key, k);
        IndexOfKeyExtend(prefix, x, key, k);
        assert IndexOfKey(xs, key, k) == |prefix|;
        assert forall i :: 0 <= i < |kept| ==> r[i] == kept[i];
        assert r[|kept|] == x;
      }
    }
  }

  lemma FirstSeenDistinct<T, K>(xs: seq<T>, key: T -> Option<K>)
    ensures DistinctKeys(FirstSeen(xs, key), key)
  {
    var r := FirstSeen(xs, key);
    FirstSeenOccurrences(xs, key);
    FirstSeenOrder(xs, key);
    forall i, j | 0 <= i < j < |r| ensures key(r[i]) != key(r[j]) {
      assert key(r[i]).Some? && key(r[j]).Some?;
    }
  }

  lemma FirstSeenCharacterized<T, K>(xs: seq<T>, key: T -> Option<K>)
    ensures IsFirstSeenOf(FirstSeen(xs, key), xs, key)
  {
    FirstSeenKeys(xs, key);
    FirstSeenOccurrences(xs, key);
    FirstSeenOrder(xs, key);
    FirstSeenDistinct(xs, key);
  }

  /** The loop both source sites run: a `seen` set of keys and an output list. */
  method DedupeBy<T, K(==)>(xs: seq<T>, key: T -> Option<K>) returns (out: seq<T>)
    ensures out == FirstSeen(xs, key)
    ensures IsFirstSeenOf(out, xs, key)
  {
    var seen: set<K> := {};
    out := [];
    for i := 0 to |xs|
      invariant out == FirstSeen(xs[..i], key)
      invariant seen == Keys(xs[..i], key)
    {
      var x := xs[i];
      assert xs[..i + 1][..i] == xs[..i];
      match key(x) {
        case Some(k) =>
          if k !in seen {
            seen := seen + {k};
            out := out + [x];
          }
        case None =>
      }
    }
    assert xs[..|xs|] == xs;
    FirstSeenCharacterized(xs, key);
  }
}
