/** The random-video endpoint: a process-wide pool of the best cached videos,
    rebuilt from every cached search when it has expired or is empty, then
    filtered by mode and served in a random order. The store's documents, the
    ratings, the clock and the shuffle are inputs. */
module RandomPool {
  import opened Wrappers
  import opened Text
  import Dedupe
  import StableSort
  import FirestoreCache
  import YouTubeSearch

  type VideoResult = YouTubeSearch.VideoResult

  /** Six hours in milliseconds. */
  const POOL_TTL_MS: nat := 6 * 60 * 60 * 1000
  const POOL_SIZE: nat := 300
  const DEFAULT_COUNT: string := "10"
  const DEFAULT_MODE: string := "scenic"

  /** One cached search as the store lists it; `videos` is `None` when the
      field is missing or not an array. */
  datatype CacheDocSnapshot = CacheDocSnapshot(id: string, videos: Option<seq<VideoResult>>)

  /** A video with its hidden `_mode` tag; `None` when the document id did
      not decode. */
  datatype TaggedVideo = TaggedVideo(video: VideoResult, mode: Option<string>)

  datatype Rating = Rating(likes: int, dislikes: int)

  datatype ScoredVideo = ScoredVideo(video: VideoResult, mode: Option<string>, rating: Rating, score: int)

  /** What a client receives: the video and its ratings, without `_mode`. */
  datatype ServedVideo = ServedVideo(video: VideoResult, rating: Rating, score: int)

  /** `globalRandomPool` and `poolExpiresAt`; initially empty and 0. */
  datatype PoolState = PoolState(pool: seq<ScoredVideo>, expiresAt: int)

  const INITIAL_STATE: PoolState := PoolState([], 0)

  datatype StoreFailure = StoreFailure

  // ---------------------------------------------------------------------
  // Mode of a cached document
  // ---------------------------------------------------------------------

  /** The last `|` field of the decoded document id, or `None` when
      `decodeURIComponent` throws. */
  function DocMode(id: string): (m: Option<string>)
    ensures m.Some? <==> FirestoreCache.DecodeDocId(id).Success?
    ensures m.Some? ==> IsLastField(FirestoreCache.DecodeDocId(id).value, '|', m.value)
  {
    match FirestoreCache.DecodeDocId(id)
    case Success(key) =>
      SplitLastField(key, '|');
      Some(Last(Split(key, '|')))
    case Failure(_) => None
  }

  /** For a document written under `makeCacheKey` with a `|`-free mode and no
      `_` anywhere, the recovered mode is the one the key was built with. */
  lemma DocModeOfCacheKey(city: string, region: string, mode: string)
    requires '|' !in mode
    requires '_' !in city && '_' !in region && '_' !in mode
    ensures DocMode(FirestoreCache.EncodeDocId(FirestoreCache.MakeCacheKey(city, region, mode))) == Some(mode)
  {
    var key := FirestoreCache.MakeCacheKey(city, region, mode);
    assert NatToString(FirestoreCache.CACHE_VERSION) == "2";
    assert key == "v2|" + city + "|" + region + "|" + mode;
    FirestoreCache.DocIdRoundTrip(key);
    FirestoreCache.KeyModeField(FirestoreCache.CACHE_VERSION, city, region, mode);
  }

  // ---------------------------------------------------------------------
  // Gathering every cached video
  // ---------------------------------------------------------------------

  /** The videos of one document, each tagged with the document's mode. */
  function TagDoc(doc: CacheDocSnapshot): (tagged: seq<TaggedVideo>)
    ensures doc.videos.None? ==> tagged == []
    ensures doc.videos.Some? ==> |tagged| == |doc.videos.value|
    ensures doc.videos.Some? ==> forall i :: 0 <= i < |tagged| ==> tagged[i] == TaggedVideo(doc.videos.value[i], DocMode(doc.id))
  {
    match doc.videos
    case None => []
    case Some(vs) =>
      var m := DocMode(doc.id);
      seq(|vs|, i requires 0 <= i < |vs| => TaggedVideo(vs[i], m))
  }

  /** `allVideos`: the tagged videos of every document, document by document. */
  function Gather(docs: seq<CacheDocSnapshot>): seq<TaggedVideo>
    decreases |docs|
  {
    if |docs| == 0 then [] else Gather(docs[..|docs| - 1]) + TagDoc(docs[|docs| - 1])
  }

  /** Every gathered entry is a video of some document, tagged with that
      document's mode. */
  lemma {:induction false} GatherProvenance(docs: seq<CacheDocSnapshot>, k: nat)
    requires k < |Gather(docs)|
    ensures exists d :: (0 <= d < |docs| && docs[d].videos.Some?
      && Gather(docs)[k].video in docs[d].videos.value
      && Gather(docs)[k].mode == DocMode(docs[d].id))
    decreases |docs|
  {
    var prefix := docs[..|docs| - 1];
    var last := docs[|docs| - 1];
    if k < |Gather(prefix)| {
      GatherProvenance(prefix, k);
      var d :| 0 <= d < |prefix| && prefix[d].videos.Some?
        && Gather(prefix)[k].video in prefix[d].videos.value
        && Gather(prefix)[k].mode == DocMode(prefix[d].id);
      assert docs[d] == prefix[d];
    } else {
      var i := k - |Gather(prefix)|;
      assert Gather(docs)[k] == TagDoc(last)[i];
      assert last.videos.value[i] in last.videos.value;
    }
  }

  /** Every video of every document with a video list is gathered, with that
      document's mode. */
  lemma {:induction false} GatherComplete(docs: seq<CacheDocSnapshot>, d: nat, i: nat)
    requires d < |docs| && docs[d].videos.Some? && i < |docs[d].videos.value|
    ensures TaggedVideo(docs[d].videos.value[i], DocMode(docs[d].id)) in Gather(docs)
    decreases |docs|
  {
    var prefix := docs[..|docs| - 1];
    if d < |prefix| {
      assert prefix[d] == docs[d];
      GatherComplete(prefix, d, i);
    } else {
      assert TagDoc(docs[d])[i] in TagDoc(docs[d]);
    }
  }

  function VideoKey(t: TaggedVideo): Option<string> {
    Some(t.video.id)
  }

  // ---------------------------------------------------------------------
  // Scoring
  // ---------------------------------------------------------------------

  /** Looks the rating up (`ratingsMap[id] || { likes: 0, dislikes: 0 }`)
      and scores it as 5·likes − 10·dislikes. */
  function ScoreVideo(t: TaggedVideo, ratings: map<string, Rating>): (s: ScoredVideo)
    ensures s.video == t.video && s.mode == t.mode
    ensures t.video.id !in ratings ==> s.rating == Rating(0, 0) && s.score == 0
    ensures t.video.id in ratings ==> s.rating == ratings[t.video.id]
    ensures s.score == s.rating.likes * 5 - s.rating.dislikes * 10
  {
    var r := if t.video.id in ratings then ratings[t.video.id] else Rating(0, 0);
    ScoredVideo(t.video, t.mode, r, r.likes * 5 - r.dislikes * 10)
  }

  function ScoreAll(ts: seq<TaggedVideo>, ratings: map<string, Rating>): (scored: seq<ScoredVideo>)
    ensures |scored| == |ts|
    ensures forall i :: 0 <= i < |ts| ==> scored[i] == ScoreVideo(ts[i], ratings)
  {
    seq(|ts|, i requires 0 <= i < |ts| => ScoreVideo(ts[i], ratings))
  }

  function ScoreField(v: ScoredVideo): int {
    v.score
  }

  function IdOf(v: ScoredVideo): string {
    v.video.id
  }

  // ---------------------------------------------------------------------
  // Rebuilding
  // ---------------------------------------------------------------------

  function Min(a: nat, b: nat): nat {
    if a < b then a else b
  }

  /** The rebuilt pool: de-duplicate the gathered videos by id (first seen
      wins), score them, sort by descending score (stable), keep the top 300. */
  function BuildPool(docs: seq<CacheDocSnapshot>, ratings: map<string, Rating>): seq<ScoredVideo> {
    var unique := Dedupe.FirstSeen(Gather(docs), VideoKey);
    var sorted := StableSort.SortDescending(ScoreAll(unique, ratings), ScoreField);
    sorted[..Min(POOL_SIZE, |sorted|)]
  }

  /** The pool invariant: distinct ids, non-increasing scores, at most 300. */
  predicate ValidPool(pool: seq<ScoredVideo>) {
    && |pool| <= POOL_SIZE
    && StableSort.DistinctBy(pool, IdOf)
    && StableSort.SortedDescending(pool, ScoreField)
  }

  lemma UniqueIdsDistinct(ts: seq<TaggedVideo>, ratings: map<string, Rating>)
    requires Dedupe.DistinctKeys(ts, VideoKey)
    ensures StableSort.DistinctBy(ScoreAll(ts, ratings), IdOf)
  {
    var scored := ScoreAll(ts, ratings);
    forall i, j | 0 <= i < j < |scored| ensures IdOf(scored[i]) != IdOf(scored[j]) {
      assert VideoKey(ts[i]) != VideoKey(ts[j]);
    }
  }

  /** The rebuilt pool is the first min(300, n) entries of the sorted unique
      videos: it satisfies the pool invariant, it holds exactly one entry per
      id among its members, and nothing left out scores higher than anything
      kept. */
  lemma BuildPoolProperties(docs: seq<CacheDocSnapshot>, ratings: map<string, Rating>)
    ensures var unique := Dedupe.FirstSeen(Gather(docs), VideoKey);
      var sorted := StableSort.SortDescending(ScoreAll(unique, ratings), ScoreField);
      var pool := BuildPool(docs, ratings);
      && |pool| == Min(POOL_SIZE, |unique|)
      && pool == sorted[..|pool|]
      && multiset(sorted) == multiset(ScoreAll(unique, ratings))
      && ValidPool(pool)
      && (forall i, j :: 0 <= i < |pool| <= j < |sorted| ==> pool[i].score >= sorted[j].score)
  {
    var unique := Dedupe.FirstSeen(Gather(docs), VideoKey);
    var scored := ScoreAll(unique, ratings);
    var sorted := StableSort.SortDescending(scored, ScoreField);
    StableSort.SortCharacterized(scored, ScoreField);
    assert |sorted| == |scored| by {
      assert |multiset(sorted)| == |multiset(scored)|;
    }
    Dedupe.FirstSeenDistinct(Gather(docs), VideoKey);
    UniqueIdsDistinct(unique, ratings);
    StableSort.SortDistinct(scored, ScoreField, IdOf);
    var pool := BuildPool(docs, ratings);
    assert forall i :: 0 <= i < |pool| ==> pool[i] == sorted[i];
  }

  predicate NeedsRebuild(state: PoolState, now: int) {
    now > state.expiresAt || |state.pool| == 0
  }

  /** The rebuild step of `GET`: kept as is unless expired or empty;
      otherwise rebuilt from the listed documents and ratings and stamped to
      expire six hours after `now`. A store failure leaves the state as it was
      and fails the request. */
  function Refresh(state: PoolState, now: int,
                   docs: Result<seq<CacheDocSnapshot>, StoreFailure>,
                   ratings: Result<map<string, Rating>, StoreFailure>): (r: Result<PoolState, StoreFailure>)
    ensures !NeedsRebuild(state, now) ==> r == Success(state)
    ensures NeedsRebuild(state, now) ==> (r.Failure? <==> docs.Failure? || ratings.Failure?)
    ensures NeedsRebuild(state, now) && r.Success? ==>
      r.value == PoolState(BuildPool(docs.value, ratings.value), now + POOL_TTL_MS)
  {
    if !NeedsRebuild(state, now) then Success(state)
    else if docs.Failure? || ratings.Failure? then Failure(StoreFailure)
    else Success(PoolState(BuildPool(docs.value, ratings.value), now + POOL_TTL_MS))
  }

  /** Refreshing keeps the pool invariant and, whenever it succeeds, leaves a
      pool that will not be rebuilt again before its expiry unless empty. */
  lemma RefreshKeepsInvariant(state: PoolState, now: int,
                              docs: Result<seq<CacheDocSnapshot>, StoreFailure>,
                              ratings: Result<map<string, Rating>, StoreFailure>)
    requires ValidPool(state.pool)
    ensures var r := Refresh(state, now, docs, ratings);
      r.Success? ==> ValidPool(r.value.pool) && r.value.expiresAt >= now
  {
    var r := Refresh(state, now, docs, ratings);
    if NeedsRebuild(state, now) && r.Success? {
      BuildPoolProperties(docs.value, ratings.value);
    }
  }

  // ---------------------------------------------------------------------
  // Serving
  // ---------------------------------------------------------------------

  /** `v._mode === mode || !v._mode`: the requested mode, or no usable tag. */
  predicate MatchesMode(v: ScoredVideo, mode: string) {
    v.mode == Some(mode) || v.mode == None || v.mode == Some("")
  }

  function PoolForMode(pool: seq<ScoredVideo>, mode: string): (r: seq<ScoredVideo>)
    ensures |r| <= |pool|
    ensures forall v :: v in r <==> v in pool && MatchesMode(v, mode)
    decreases |pool|
  {
    if |pool| == 0 then []
    else
      var kept := PoolForMode(pool[..|pool| - 1], mode);
      var v := pool[|pool| - 1];
      assert pool == pool[..|pool| - 1] + [v];
      if MatchesMode(v, mode) then kept + [v] else kept
  }

  lemma {:induction false} PoolForModeDistinct(pool: seq<ScoredVideo>, mode: string)
    requires StableSort.DistinctBy(pool, IdOf)
    ensures StableSort.DistinctBy(PoolForMode(pool, mode), IdOf)
    decreases |pool|
  {
    if |pool| > 0 {
      var prefix := pool[..|pool| - 1];
      var v := pool[|pool| - 1];
      assert forall i :: 0 <= i < |prefix| ==> prefix[i] == pool[i];
      PoolForModeDistinct(prefix, mode);
      var kept := PoolForMode(prefix, mode);
      forall u | u in kept ensures IdOf(u) != IdOf(v) {
        var i :| 0 <= i < |prefix| && prefix[i] == u;
      }
    }
  }

  /** The end index of `slice(0, count)`: `NaN` reads as 0 and a negative
      count counts back from the end. */
  function SliceEnd(count: Option<int>, len: nat): (n: nat)
    ensures n <= len
    ensures count.Some? && count.value >= 0 ==> n == Min(count.value, len)
    ensures count.Some? && count.value < 0 ==> n == (if len + count.value < 0 then 0 else len + count.value)
    ensures count.None? ==> n == 0
  {
    match count
    case None => 0
    case Some(c) =>
      if c < 0 then (if len + c < 0 then 0 else len + c)
      else if c > len then len else c
  }

  /** `order` lists every position of a sequence of length `n` exactly once. */
  predicate IsPermutation(order: seq<nat>, n: nat) {
    && |order| == n
    && (forall i :: 0 <= i < |order| ==> order[i] < n)
    && (forall i, j :: 0 <= i < j < |order| ==> order[i] != order[j])
  }

  function Strip(v: ScoredVideo): ServedVideo {
    ServedVideo(v.video, v.rating, v.score)
  }

  /** Shuffle by `order`, take `slice(0, count)`, drop `_mode`. */
  function Serve(forMode: seq<ScoredVideo>, count: Option<int>, order: seq<nat>): (served: seq<ServedVideo>)
    requires IsPermutation(order, |forMode|)
    ensures |served| == SliceEnd(count, |forMode|)
    ensures forall k :: 0 <= k < |served| ==> served[k] == Strip(forMode[order[k]])
  {
    seq(SliceEnd(count, |forMode|), k requires 0 <= k < SliceEnd(count, |forMode|) => Strip(forMode[order[k]]))
  }

  /** Served videos come from distinct positions, so with distinct pool ids
      no video is served twice. */
  lemma ServeDistinct(forMode: seq<ScoredVideo>, count: Option<int>, order: seq<nat>)
    requires IsPermutation(order, |forMode|)
    requires StableSort.DistinctBy(forMode, IdOf)
    ensures var served := Serve(forMode, count, order);
      forall i, j :: 0 <= i < j < |served| ==> served[i].video.id != served[j].video.id
  {
    var served := Serve(forMode, count, order);
    forall i, j | 0 <= i < j < |served| ensures served[i].video.id != served[j].video.id {
      if order[i] < order[j] {
        assert IdOf(forMode[order[i]]) != IdOf(forMode[order[j]]);
      } else {
        assert IdOf(forMode[order[j]]) != IdOf(forMode[order[i]]);
      }
    }
  }

  /** `parseInt(searchParams.get('count') || '10', 10)`. */
  function CountParam(param: Option<string>): Option<int> {
    ParseInt(if param.Some? && param.value != "" then param.value else DEFAULT_COUNT)
  }

  /** `searchParams.get('mode') || 'scenic'`. */
  function ModeParam(param: Option<string>): (mode: string)
    ensures mode != ""
    ensures param.Some? && param.value != "" ==> mode == param.value
  {
    if param.Some? && param.value != "" then param.value else DEFAULT_MODE
  }

  /** A missing or empty mode parameter means `scenic`. */
  lemma DefaultMode(param: Option<string>)
    requires param.None? || param == Some("")
    ensures ModeParam(param) == "scenic"
  {
  }

  /** A missing or empty count parameter means 10. */
  lemma DefaultCount(param: Option<string>)
    requires param.None? || param == Some("")
    ensures CountParam(param) == Some(10)
  {
    assert !(param.Some? && param.value != "");
    assert CountParam(param) == ParseInt(DEFAULT_COUNT);
    DefaultCountParses();
  }

  /** The default count text parses to 10. */
  lemma DefaultCountParses()
    ensures ParseInt(DEFAULT_COUNT) == Some(10)
  {
    assert IntToString(10) == DEFAULT_COUNT by {
      assert 10 / 10 == 1 && 10 % 10 == 0;
      assert NatToString(1) == [DigitChar(1)] == "1";
      assert NatToString(10) == NatToString(1) + [DigitChar(0)];
    }
    ParseIntOfIntToString(10);
  }

  datatype RandomResponse = Videos(videos: seq<ServedVideo>) | ServerError

  /** The shuffle is valid for the pool the request ends up filtering. */
  predicate ShuffleFits(state: PoolState, now: int, modeParam: Option<string>,
                        docs: Result<seq<CacheDocSnapshot>, StoreFailure>,
                        ratings: Result<map<string, Rating>, StoreFailure>, order: seq<nat>)
  {
    var r := Refresh(state, now, docs, ratings);
    r.Success? ==> IsPermutation(order, |PoolForMode(r.value.pool, ModeParam(modeParam))|)
  }

  /** `GET /api/random`: refresh the pool, filter it by mode, serve up to
      `count` of its videos in shuffled order. Returns the response and the
      pool state after the request. */
  function Get(state: PoolState, now: int, countParam: Option<string>, modeParam: Option<string>,
               docs: Result<seq<CacheDocSnapshot>, StoreFailure>,
               ratings: Result<map<string, Rating>, StoreFailure>, order: seq<nat>): (out: (RandomResponse, PoolState))
    requires ShuffleFits(state, now, modeParam, docs, ratings, order)
    ensures out.0.ServerError? <==> Refresh(state, now, docs, ratings).Failure?
    ensures out.0.ServerError? ==> out.1 == state
    ensures out.0.Videos? ==>
      var forMode := PoolForMode(out.1.pool, ModeParam(modeParam));
      && out.1 == Refresh(state, now, docs, ratings).value
      && |out.0.videos| == SliceEnd(CountParam(countParam), |forMode|)
      && |out.0.videos| <= |forMode|
      && (CountParam(countParam).Some? && CountParam(countParam).value >= 0 ==> |out.0.videos| <= CountParam(countParam).value)
      && ServedFrom(out.0.videos, out.1.pool, ModeParam(modeParam))
  {
    match Refresh(state, now, docs, ratings)
    case Failure(_) => (ServerError, state)
    case Success(next) => (Videos(Respond(next.pool, ModeParam(modeParam), CountParam(countParam), order)), next)
  }

  /** The videos of one response: none when no video fits the mode,
      otherwise the served slice of the mode's pool. */
  function Respond(pool: seq<ScoredVideo>, mode: string, count: Option<int>, order: seq<nat>): (videos: seq<ServedVideo>)
    requires IsPermutation(order, |PoolForMode(pool, mode)|)
    ensures |videos| == SliceEnd(count, |PoolForMode(pool, mode)|)
    ensures |videos| <= |PoolForMode(pool, mode)|
    ensures count.Some? && count.value >= 0 ==> |videos| <= count.value
    ensures |PoolForMode(pool, mode)| > 0 ==> videos == Serve(PoolForMode(pool, mode), count, order)
    ensures ServedFrom(videos, pool, mode)
  {
    var forMode := PoolForMode(pool, mode);
    if |forMode| == 0 then []
    else
      var served := Serve(forMode, count, order);
      ServeFromPool(pool, mode, served, count, order);
      served
  }

  /** Each served video is the stripped pool video at its shuffled position. */
  lemma ServeFromPool(pool: seq<ScoredVideo>, mode: string, served: seq<ServedVideo>, count: Option<int>, order: seq<nat>)
    requires IsPermutation(order, |PoolForMode(pool, mode)|)
    requires served == Serve(PoolForMode(pool, mode), count, order)
    ensures ServedFrom(served, pool, mode)
  {
    var forMode := PoolForMode(pool, mode);
    forall k | 0 <= k < |served|
      ensures StrippedFrom(served[k], pool, mode)
    {
      var v := forMode[order[k]];
      assert v in forMode;
      assert v in pool && MatchesMode(v, mode) && served[k] == Strip(v);
    }
  }

  /** Every served video is a pool video of the mode with `_mode` dropped. */
  predicate ServedFrom(videos: seq<ServedVideo>, pool: seq<ScoredVideo>, mode: string) {
    forall k :: 0 <= k < |videos| ==> StrippedFrom(videos[k], pool, mode)
  }

  /** `w` is a pool video of the mode with `_mode` dropped. */
  predicate StrippedFrom(w: ServedVideo, pool: seq<ScoredVideo>, mode: string) {
    exists v :: v in pool && MatchesMode(v, mode) && w == Strip(v)
  }

  /** Starting from a valid pool (the initial empty one included), no request
      serves the same video twice. */
  lemma GetServesDistinct(state: PoolState, now: int, countParam: Option<string>, modeParam: Option<string>,
                          docs: Result<seq<CacheDocSnapshot>, StoreFailure>,
                          ratings: Result<map<string, Rating>, StoreFailure>, order: seq<nat>)
    requires ValidPool(state.pool)
    requires ShuffleFits(state, now, modeParam, docs, ratings, order)
    ensures var out := Get(state, now, countParam, modeParam, docs, ratings, order);
      out.0.Videos? ==> (ValidPool(out.1.pool) &&
        forall i, j :: 0 <= i < j < |out.0.videos| ==> out.0.videos[i].video.id != out.0.videos[j].video.id)
  {
    var out := Get(state, now, countParam, modeParam, docs, ratings, order);
    RefreshKeepsInvariant(state, now, docs, ratings);
    if out.0.Videos? {
      var mode := ModeParam(modeParam);
      var forMode := PoolForMode(out.1.pool, mode);
      PoolForModeDistinct(out.1.pool, mode);
      if |forMode| > 0 {
        ServeDistinct(forMode, CountParam(countParam), order);
      }
    }
  }
}
