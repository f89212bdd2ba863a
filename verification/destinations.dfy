/** The curated walking-tour destinations: substring search over their
    names, and a random pick that can exclude the current one. The list is a
    parameter, and the random draw is the `draw` parameter, a number in
    [0, 1) as `Math.random()` returns. */
module Destinations {
  import opened Wrappers
  import opened Text

  datatype Region = Asia | Europe | Americas | Africa | Oceania

  datatype Destination = Destination(
    name: string,
    nameJa: string,
    nameFr: string,
    lat: real,
    lng: real,
    query: string,
    region: Region)

  // ---------------------------------------------------------------------
  // searchDestinations
  // ---------------------------------------------------------------------

  /** The search test: the lower-cased query inside the lower-cased English
      name, French name or search query, or the query as typed inside the
      Japanese name. */
  predicate Matches(d: Destination, q: string) {
    var lower := ToLower(q);
    Contains(ToLower(d.name), lower)
      || Contains(d.nameJa, q)
      || Contains(ToLower(d.nameFr), lower)
      || Contains(ToLower(d.query), lower)
  }

  /** `r` is `s` with some elements removed, the rest in their order. */
  predicate IsSubsequence<T(==)>(r: seq<T>, s: seq<T>)
    decreases |s|
  {
    if |r| == 0 then true
    else if |s| == 0 then false
    else (r[0] == s[0] && IsSubsequence(r[1..], s[1..])) || IsSubsequence(r, s[1..])
  }

  function SearchDestinations(dests: seq<Destination>, q: string): (r: seq<Destination>)
    ensures forall d :: d in r <==> d in dests && Matches(d, q)
    decreases |dests|
  {
    if |dests| == 0 then []
    else (if Matches(dests[0], q) then [dests[0]] else []) + SearchDestinations(dests[1..], q)
  }

  /** The search keeps the list's order. */
  lemma {:induction false} SearchIsSubsequence(dests: seq<Destination>, q: string)
    ensures IsSubsequence(SearchDestinations(dests, q), dests)
    decreases |dests|
  {
    if |dests| > 0 {
      var rest := SearchDestinations(dests[1..], q);
      SearchIsSubsequence(dests[1..], q);
      if Matches(dests[0], q) {
        assert ([dests[0]] + rest)[1..] == rest;
      } else {
        assert [] + rest == rest;
        if |rest| > 0 {
          assert IsSubsequence(rest, dests[1..]);
        }
      }
    }
  }

  /** The search keeps every copy of a matching destination and no copy of
      any other. */
  lemma {:induction false} SearchCounts(dests: seq<Destination>, q: string, d: Destination)
    ensures multiset(SearchDestinations(dests, q))[d] == if Matches(d, q) then multiset(dests)[d] else 0
    decreases |dests|
  {
    if |dests| > 0 {
      var x := dests[0];
      var keep := Matches(x, q);
      var rest := SearchDestinations(dests[1..], q);
      assert SearchDestinations(dests, q) == (if keep then [x] else []) + rest;
      CountStep(SearchDestinations(dests, q), x, rest, keep, d);
      CountStep(dests, x, dests[1..], true, d);
      SearchCounts(dests[1..], q, d);
    }
  }

  /** Every destination matches the empty query, so it returns the whole list. */
  lemma {:induction false} EmptySearchReturnsAll(dests: seq<Destination>)
    ensures SearchDestinations(dests, "") == dests
    decreases |dests|
  {
    forall d | d in dests ensures Matches(d, "") {
      MatchesEmpty(d);
    }
    SearchAllMatching(dests, "");
  }

  lemma MatchesEmpty(d: Destination)
    ensures Matches(d, "")
  {
    ContainsEmpty(ToLower(d.name));
    assert ToLower("") == "";
  }

  /** A query every destination matches returns the whole list. */
  lemma {:induction false} SearchAllMatching(dests: seq<Destination>, q: string)
    requires forall d :: d in dests ==> Matches(d, q)
    ensures SearchDestinations(dests, q) == dests
    decreases |dests|
  {
    if |dests| > 0 {
      assert dests[0] in dests;
      assert forall d :: d in dests[1..] ==> d in dests;
      SearchAllMatching(dests[1..], q);
      assert [dests[0]] + dests[1..] == dests;
    }
  }

  // ---------------------------------------------------------------------
  // getRandomDestination
  // ---------------------------------------------------------------------

  /** The candidates: every destination but those named `exclude`, when
      `exclude` is given and non-empty (a truthy string). */
  function Candidates(dests: seq<Destination>, exclude: Option<string>): (r: seq<Destination>)
    ensures exclude.None? || exclude == Some("") ==> r == dests
    ensures exclude.Some? && exclude.value != "" ==>
      forall d :: d in r <==> d in dests && d.name != exclude.value
    decreases |dests|
  {
    if exclude.None? || exclude.value == "" then dests
    else if |dests| == 0 then []
    else (if dests[0].name != exclude.value then [dests[0]] else []) + Candidates(dests[1..], exclude)
  }

  /** The exclusion keeps the list's order. */
  lemma {:induction false} CandidatesAreSubsequence(dests: seq<Destination>, exclude: Option<string>)
    ensures IsSubsequence(Candidates(dests, exclude), dests)
    decreases |dests|
  {
    if exclude.None? || exclude.value == "" {
      SubsequenceOfSelf(dests);
    } else if |dests| > 0 {
      var rest := Candidates(dests[1..], exclude);
      CandidatesAreSubsequence(dests[1..], exclude);
      if dests[0].name != exclude.value {
        assert ([dests[0]] + rest)[1..] == rest;
      } else {
        assert [] + rest == rest;
      }
    }
  }

  /** The exclusion keeps every copy of a destination with another name and
      no copy of one named `exclude`. */
  lemma {:induction false} CandidatesCounts(dests: seq<Destination>, exclude: Option<string>, d: Destination)
    ensures multiset(Candidates(dests, exclude))[d]
         == if exclude.Some? && exclude.value != "" && d.name == exclude.value then 0 else multiset(dests)[d]
    decreases |dests|
  {
    if exclude.Some? && exclude.value != "" && |dests| > 0 {
      var x := dests[0];
      var keep := x.name != exclude.value;
      var rest := Candidates(dests[1..], exclude);
      assert Candidates(dests, exclude) == (if keep then [x] else []) + rest;
      CountStep(Candidates(dests, exclude), x, rest, keep, d);
      CountStep(dests, x, dests[1..], true, d);
      CandidatesCounts(dests[1..], exclude, d);
    }
  }

  /** The count of `d` in `rest`, with `x` put in front when `keep` holds. */
  lemma CountStep<T>(r: seq<T>, x: T, rest: seq<T>, keep: bool, d: T)
    requires r == (if keep then [x] else []) + rest
    ensures multiset(r)[d] == (if keep && x == d then 1 else 0) + multiset(rest)[d]
  {
    if keep {
      assert multiset(r) == multiset([x]) + multiset(rest);
    } else {
      assert r == rest;
    }
  }

  lemma {:induction false} SubsequenceOfSelf<T>(s: seq<T>)
    ensures IsSubsequence(s, s)
    decreases |s|
  {
    if |s| > 0 {
      SubsequenceOfSelf(s[1..]);
    }
  }

  /** `Math.floor(draw * n)` for a draw in [0, 1). */
  function DrawIndex(draw: real, n: nat): (i: int)
    requires 0.0 <= draw < 1.0
    ensures n > 0 ==> 0 <= i < n
  {
    var x := draw * n as real;
    assert 0.0 <= x;
    assert n > 0 ==> x < n as real;
    x.Floor
  }

  /** `getRandomDestination(exclude)`: the candidate at the drawn index; an
      empty candidate list indexes past its end, which is `undefined` in
      JavaScript and `None` here. */
  function GetRandomDestination(dests: seq<Destination>, exclude: Option<string>, draw: real): (r: Option<Destination>)
    requires 0.0 <= draw < 1.0
    ensures r.None? <==> |Candidates(dests, exclude)| == 0
    ensures r.Some? ==> r.value in dests
    ensures r.Some? && exclude.Some? && exclude.value != "" ==> r.value.name != exclude.value
  {
    var candidates := Candidates(dests, exclude);
    if |candidates| == 0 then None
    else
      var i := DrawIndex(draw, |candidates|);
      assert candidates[i] in candidates;
      Some(candidates[i])
  }

  /** Whenever some destination carries another name, the pick succeeds and
      differs from the excluded one; with nothing to exclude the pick
      succeeds on any non-empty list. */
  lemma RandomPickAvoidsExclude(dests: seq<Destination>, exclude: Option<string>, draw: real, other: Destination)
    requires 0.0 <= draw < 1.0
    requires other in dests
    requires exclude.Some? ==> other.name != exclude.value
    ensures GetRandomDestination(dests, exclude, draw).Some?
    ensures exclude.Some? && exclude.value != "" ==> GetRandomDestination(dests, exclude, draw).value.name != exclude.value
  {
    assert other in Candidates(dests, exclude);
  }

  /** The draw `i / n` lands on index `i`. */
  lemma DrawIndexOf(i: nat, n: nat)
    requires i < n
    ensures 0.0 <= i as real / n as real < 1.0
    ensures DrawIndex(i as real / n as real, n) == i
  {
    var draw := i as real / n as real;
    assert draw * n as real == i as real;
    assert draw < 1.0 by {
      assert draw * n as real < n as real;
    }
  }

  /** Every candidate is picked by some draw: `floor(draw · n)` ranges over
      all of [0, n). */
  lemma EveryCandidateReachable(dests: seq<Destination>, exclude: Option<string>, i: nat)
    requires i < |Candidates(dests, exclude)|
    ensures var n := |Candidates(dests, exclude)|;
      var draw := i as real / n as real;
      0.0 <= draw < 1.0 && GetRandomDestination(dests, exclude, draw) == Some(Candidates(dests, exclude)[i])
  {
    DrawIndexOf(i, |Candidates(dests, exclude)|);
  }
}
