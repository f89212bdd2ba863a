/** The decision logic of `searchVideos`: the query text, the request
    parameters of the two result pages, merging the "medium" and "long"
    pages, the per-video details table, and the quality filter that keeps at
    most `maxResults` videos. The HTTP calls themselves are not modelled: the
    two pages and the details response are inputs. */
module YouTubeSearch {
  import opened Wrappers
  import opened Text
  import Dedupe
  import YouTubeFormat

  /** One found video, as the application stores and serves it. */
  datatype VideoResult = VideoResult(
    id: string,
    title: string,
    channelTitle: string,
    channelId: string,
    thumbnail: string,
    viewCount: string,
    publishedAt: string,
    durationSeconds: nat)

  const MIN_VIEWS: int := 10000
  const MIN_DURATION_SECONDS: nat := 10 * 60

  // ---------------------------------------------------------------------
  // Query text
  // ---------------------------------------------------------------------

  const CAMP_TERMS: string := " Solo Camping OR Bushcraft OR Outdoor vlog OR Nature ASMR"
  const VLOG_TERMS: string := " walking tour vlog"

  /** `localKeywords.join(' OR ')` when there are keywords, `''` otherwise. */
  function LocalPart(localKeywords: Option<seq<string>>): string {
    match localKeywords
    case Some(ks) => if |ks| > 0 then Join(ks, " OR ") else ""
    case None => ""
  }

  /** The two-group form `(a) OR (b)`. */
  function OrGroups(a: string, b: string): string {
    "(" + a + ") OR (" + b + ")"
  }

  lemma OrGroupsContain(a: string, b: string, sub: string)
    requires Contains(a, sub) || Contains(b, sub)
    ensures Contains(OrGroups(a, b), sub)
  {
    if Contains(a, sub) {
      ContainsWithin("(", a, ") OR (" + b + ")", sub);
      assert "(" + a + (") OR (" + b + ")") == OrGroups(a, b);
    } else {
      ContainsWithin("(" + a + ") OR (", b, ")", sub);
    }
  }

  /** The search text: camp mode appends the outdoor terms and ignores the
      keywords; vlog mode appends the walking-tour terms and, when the joined
      keywords are non-empty, ORs them in as a second group. The place name
      always occurs in it. */
  function BuildQuery(query: string, localKeywords: Option<seq<string>>, isCampMode: bool): (q: string)
    ensures Contains(q, query)
    ensures isCampMode ==> q == query + CAMP_TERMS
    ensures !isCampMode && LocalPart(localKeywords) == "" ==> q == query + VLOG_TERMS
    ensures !isCampMode && LocalPart(localKeywords) != "" ==> q == OrGroups(query + VLOG_TERMS, LocalPart(localKeywords))
  {
    ContainsInfix("", query, CAMP_TERMS);
    ContainsInfix("", query, VLOG_TERMS);
    assert "" + query == query;
    if isCampMode then query + CAMP_TERMS
    else
      var localPart := LocalPart(localKeywords);
      var baseQuery := query + VLOG_TERMS;
      if localPart != "" then
        OrGroupsContain(baseQuery, localPart, query);
        OrGroups(baseQuery, localPart)
      else baseQuery
  }

  /** In vlog mode every local keyword occurs in the search text. */
  lemma QueryMentionsKeywords(query: string, keywords: seq<string>, i: nat)
    requires i < |keywords|
    ensures Contains(BuildQuery(query, Some(keywords), false), keywords[i])
  {
    JoinContainsParts(keywords, " OR ", i);
    OrGroupsContain(query + VLOG_TERMS, LocalPart(Some(keywords)), keywords[i]);
  }

  // ---------------------------------------------------------------------
  // Request parameters of one result page
  // ---------------------------------------------------------------------

  datatype PageDuration = Medium | Long

  function DurationName(d: PageDuration): string {
    match d
    case Medium => "medium"
    case Long => "long"
  }

  /** `Math.ceil(maxResults * 1.5)`: the page asks for half as many again. */
  function PageSize(maxResults: int): (n: int)
    ensures 2 * n >= 3 * maxResults && 2 * (n - 1) < 3 * maxResults
  {
    (3 * maxResults + 1) / 2
  }

  /** The region code's primary language, `'en'` for codes not listed. */
  const LANGUAGES: map<string, string> := map[
    "JP" := "ja", "KR" := "ko", "CN" := "zh-Hans", "TH" := "th", "VN" := "vi",
    "SG" := "en", "ID" := "id", "AE" := "ar", "TR" := "tr", "SA" := "ar",
    "MA" := "ar", "FR" := "fr", "IT" := "it", "ES" := "es", "GB" := "en",
    "CZ" := "cs", "NL" := "nl", "US" := "en", "MX" := "es", "BR" := "pt",
    "ZA" := "en", "KE" := "en", "AU" := "en"]

  function LanguageFromRegion(regionCode: string): (lang: string)
    ensures regionCode in LANGUAGES ==> lang == LANGUAGES[regionCode]
    ensures regionCode !in LANGUAGES ==> lang == "en"
    ensures lang in LANGUAGES.Values
  {
    assert LANGUAGES["US"] == "en";
    if regionCode in LANGUAGES then LANGUAGES[regionCode] else "en"
  }

  /** The query parameters of one page request; `relevanceLanguage` is
      absent unless a non-empty region code is given. */
  datatype PageRequest = PageRequest(
    part: string,
    q: string,
    kind: string,
    order: string,
    videoEmbeddable: string,
    videoDuration: string,
    maxResults: string,
    key: string,
    relevanceLanguage: Option<string>)

  /** The request of one result page: the search text, embeddable videos of
      one length class ordered by views, half as many again as wanted, and a
      language hint exactly when a non-empty region code is given. */
  function PageParams(fullQuery: string, duration: PageDuration, maxResults: int,
                      regionCode: Option<string>, apiKey: string): (r: PageRequest)
    ensures r.q == fullQuery && r.videoDuration == DurationName(duration) && r.key == apiKey
    ensures r.part == "snippet" && r.kind == "video" && r.order == "viewCount" && r.videoEmbeddable == "true"
    ensures ParseInt(r.maxResults) == Some(PageSize(maxResults))
    ensures maxResults >= 0 ==> PageSize(maxResults) >= maxResults
    ensures r.relevanceLanguage.Some? <==> regionCode.Some? && regionCode.value != ""
    ensures r.relevanceLanguage.Some? ==> r.relevanceLanguage.value == LanguageFromRegion(regionCode.value)
  {
    ParseIntOfIntToString(PageSize(maxResults));
    PageRequest(
      "snippet", fullQuery, "video", "viewCount", "true", DurationName(duration),
      IntToString(PageSize(maxResults)), apiKey,
      if regionCode.Some? && regionCode.value != "" then Some(LanguageFromRegion(regionCode.value)) else None)
  }

  // ---------------------------------------------------------------------
  // Merging the two pages
  // ---------------------------------------------------------------------

  datatype Snippet = Snippet(
    title: string,
    channelTitle: string,
    channelId: string,
    highThumbnail: Option<string>,
    publishedAt: string)

  /** One search hit; `videoId` is absent for hits that are not videos. */
  datatype SearchItem = SearchItem(videoId: Option<string>, snippet: Snippet)

  /** The id a hit is merged by; a missing or empty id drops the hit. */
  function ItemKey(item: SearchItem): (k: Option<string>)
    ensures k.Some? ==> k.value != "" && item.videoId == k
  {
    if item.videoId.Some? && item.videoId.value != "" then item.videoId else None
  }

  /** Medium-page hits followed by long-page hits, without repeated ids and
      without id-less hits; a hit keeps the position of its id's first
      occurrence, so every medium-page survivor precedes every long-page one. */
  method MergePages(mediumItems: seq<SearchItem>, longItems: seq<SearchItem>) returns (all: seq<SearchItem>)
    ensures all == Dedupe.FirstSeen(mediumItems + longItems, ItemKey)
    ensures Dedupe.IsFirstSeenOf(all, mediumItems + longItems, ItemKey)
  {
    all := Dedupe.DedupeBy(mediumItems + longItems, ItemKey);
  }

  // ---------------------------------------------------------------------
  // Details table
  // ---------------------------------------------------------------------

  /** One entry of the details response. */
  datatype RawDetails = RawDetails(id: string, viewCount: Option<string>, duration: Option<string>)

  datatype Details = Details(viewCount: string, durationSeconds: nat)

  /** A missing or empty view count reads `'0'`; a missing duration reads as `''`. */
  function DetailsOf(raw: RawDetails): (d: Details)
    ensures d.viewCount != ""
    ensures raw.viewCount.Some? && raw.viewCount.value != "" ==> d.viewCount == raw.viewCount.value
    ensures raw.viewCount.None? || raw.viewCount == Some("") ==> d.viewCount == "0"
    ensures d.durationSeconds == YouTubeFormat.ParseDuration(raw.duration.GetOr(""))
  {
    Details(
      if raw.viewCount.Some? && raw.viewCount.value != "" then raw.viewCount.value else "0",
      YouTubeFormat.ParseDuration(raw.duration.GetOr("")))
  }

  /** No later entry carries the same id. */
  predicate LastWithId(items: seq<RawDetails>, i: nat)
    requires i < |items|
  {
    forall j :: i < j < |items| ==> items[j].id != items[i].id
  }

  /** `detailsMap`, filled in response order, so a later entry overwrites an
      earlier one with the same id. */
  function BuildDetails(items: seq<RawDetails>): map<string, Details>
    decreases |items|
  {
    if |items| == 0 then map[]
    else
      var last := items[|items| - 1];
      BuildDetails(items[..|items| - 1])[last.id := DetailsOf(last)]
  }

  /** The table has an entry for exactly the ids of the response. */
  lemma BuildDetailsKeys(items: seq<RawDetails>)
    ensures forall i :: 0 <= i < |items| ==> items[i].id in BuildDetails(items)
    ensures forall id :: id in BuildDetails(items) ==> exists i :: 0 <= i < |items| && items[i].id == id
  {
    forall i | 0 <= i < |items| ensures items[i].id in BuildDetails(items) {
      BuildDetailsHas(items, i);
    }
    forall id | id in BuildDetails(items) ensures exists i :: 0 <= i < |items| && items[i].id == id {
      var i := BuildDetailsFrom(items, id);
    }
  }

  lemma {:induction false} BuildDetailsHas(items: seq<RawDetails>, i: nat)
    requires i < |items|
    ensures items[i].id in BuildDetails(items)
    decreases |items|
  {
    if i < |items| - 1 {
      var prefix := items[..|items| - 1];
      BuildDetailsHas(prefix, i);
      assert prefix[i] == items[i];
    }
  }

  lemma {:induction false} BuildDetailsFrom(items: seq<RawDetails>, id: string) returns (i: nat)
    requires id in BuildDetails(items)
    ensures i < |items| && items[i].id == id
    decreases |items|
  {
    var last := items[|items| - 1];
    if last.id == id {
      i := |items| - 1;
    } else {
      var prefix := items[..|items| - 1];
      i := BuildDetailsFrom(prefix, id);
      assert prefix[i] == items[i];
    }
  }

  /** The entry of an id is built from the last response entry with that id. */
  lemma {:induction false} BuildDetailsLastWins(items: seq<RawDetails>)
    ensures forall i :: 0 <= i < |items| && LastWithId(items, i) ==>
      items[i].id in BuildDetails(items) && BuildDetails(items)[items[i].id] == DetailsOf(items[i])
    decreases |items|
  {
    forall i | 0 <= i < |items| && LastWithId(items, i)
      ensures items[i].id in BuildDetails(items) && BuildDetails(items)[items[i].id] == DetailsOf(items[i])
    {
      BuildDetailsLastAt(items, i);
    }
  }

  lemma {:induction false} BuildDetailsLastAt(items: seq<RawDetails>, i: nat)
    requires i < |items| && LastWithId(items, i)
    ensures items[i].id in BuildDetails(items) && BuildDetails(items)[items[i].id] == DetailsOf(items[i])
    decreases |items|
  {
    var prefix := items[..|items| - 1];
    var last := items[|items| - 1];
    assert BuildDetails(items) == BuildDetails(prefix)[last.id := DetailsOf(last)];
    if i < |items| - 1 {
      assert items[i].id != last.id;
      assert prefix[i] == items[i];
      assert LastWithId(prefix, i);
      BuildDetailsLastAt(prefix, i);
    }
  }

  // ---------------------------------------------------------------------
  // Quality filter
  // ---------------------------------------------------------------------

  /** `parseInt(viewCount) < MIN_VIEWS`; a `NaN` count compares false. */
  predicate ViewsBelowMinimum(viewCount: string) {
    ParseInt(viewCount).Some? && ParseInt(viewCount).value < MIN_VIEWS
  }

  predicate PassesQuality(d: Details) {
    !ViewsBelowMinimum(d.viewCount) && d.durationSeconds >= MIN_DURATION_SECONDS
  }

  function ToResult(item: SearchItem, d: Details): VideoResult
    requires ItemKey(item).Some?
  {
    var s := item.snippet;
    VideoResult(
      ItemKey(item).value, s.title, s.channelTitle, s.channelId,
      s.highThumbnail.GetOr(""), d.viewCount, s.publishedAt, d.durationSeconds)
  }

  predicate AllKeyed(items: seq<SearchItem>) {
    forall i :: 0 <= i < |items| ==> ItemKey(items[i]).Some?
  }

  /** Reference definition: every merged hit that has details and passes
      the quality thresholds, in merged order. */
  function Accepted(items: seq<SearchItem>, details: map<string, Details>): seq<VideoResult>
    decreases |items|
  {
    if |items| == 0 then []
    else
      var prefix := items[..|items| - 1];
      var item := items[|items| - 1];
      var kept := Accepted(prefix, details);
      match ItemKey(item)
      case None => kept
      case Some(id) =>
        if id in details && PassesQuality(details[id]) then kept + [ToResult(item, details[id])] else kept
  }

  /** The results the loop may stop at: `maxResults`, but at least one. */
  function Cap(maxResults: int): nat {
    if maxResults >= 1 then maxResults else 1
  }

  lemma {:induction false} AcceptedPrefix(items: seq<SearchItem>, k: nat, details: map<string, Details>)
    requires k <= |items|
    ensures |Accepted(items[..k], details)| <= |Accepted(items, details)|
    ensures Accepted(items[..k], details) == Accepted(items, details)[..|Accepted(items[..k], details)|]
    decreases |items| - k
  {
    if k == |items| {
      assert items[..k] == items;
    } else {
      var prefix := items[..|items| - 1];
      assert prefix[..k] == items[..k];
      AcceptedPrefix(prefix, k, details);
    }
  }

  /** Each accepted video has a details entry, meets both thresholds (the
      boundaries included) and carries that entry's view count and duration. */
  lemma {:induction false} AcceptedMeetsThresholds(items: seq<SearchItem>, details: map<string, Details>, k: nat)
    requires k < |Accepted(items, details)|
    ensures var v := Accepted(items, details)[k];
      && v.id in details
      && !ViewsBelowMinimum(v.viewCount)
      && v.durationSeconds >= MIN_DURATION_SECONDS
      && v.viewCount == details[v.id].viewCount
      && v.durationSeconds == details[v.id].durationSeconds
    decreases |items|
  {
    var prefix := items[..|items| - 1];
    var kept := Accepted(prefix, details);
    if k < |kept| {
      AcceptedMeetsThresholds(prefix, details, k);
    }
  }

  /** With distinct merged ids, each accepted video is the result built from
      the merged hit carrying its id. */
  lemma {:induction false} AcceptedProvenance(items: seq<SearchItem>, details: map<string, Details>, k: nat)
    requires Dedupe.DistinctKeys(items, ItemKey)
    requires k < |Accepted(items, details)|
    ensures var v := Accepted(items, details)[k];
      && v.id in details
      && Dedupe.IndexOfKey(items, ItemKey, v.id) < |items|
      && v == ToResult(items[Dedupe.IndexOfKey(items, ItemKey, v.id)], details[v.id])
    decreases |items|
  {
    var prefix := items[..|items| - 1];
    var item := items[|items| - 1];
    assert items == prefix + [item];
    assert forall j :: 0 <= j < |prefix| ==> items[j] == prefix[j];
    var kept := Accepted(prefix, details);
    if k < |kept| {
      AcceptedProvenance(prefix, details, k);
      Dedupe.IndexOfKeyExtend(prefix, item, ItemKey, kept[k].id);
    } else {
      var id := ItemKey(item).value;
      assert forall j :: 0 <= j < |prefix| ==> ItemKey(items[j]) != ItemKey(items[|prefix|]);
      Dedupe.IndexOfKeyExtend(prefix, item, ItemKey, id);
    }
  }

  /** The result loop of `searchVideos`: walk the merged hits, skip those
      without details or below a threshold, stop once `maxResults` videos
      are collected (after the first one when `maxResults` < 1). */
  method FilterCandidates(items: seq<SearchItem>, details: map<string, Details>, maxResults: int)
    returns (results: seq<VideoResult>)
    requires AllKeyed(items)
    ensures |results| <= Cap(maxResults)
    ensures |results| == if |Accepted(items, details)| < Cap(maxResults) then |Accepted(items, details)| else Cap(maxResults)
    ensures results == Accepted(items, details)[..|results|]
  {
    results := [];
    var i := 0;
    while i < |items|
      invariant 0 <= i <= |items|
      invariant results == Accepted(items[..i], details)
      invariant |results| < Cap(maxResults)
    {
      var item := items[i];
      var id := ItemKey(item).value;
      assert items[..i + 1][..i] == items[..i];
      assert items[..i + 1][i] == item;
      if id in details && PassesQuality(details[id]) {
        results := results + [ToResult(item, details[id])];
        if |results| >= maxResults {
          AcceptedPrefix(items, i + 1, details);
          return;
        }
      }
      i := i + 1;
    }
    assert items[..i] == items;
  }

  /** Accepted videos keep the merged order; with distinct merged ids they
      therefore have distinct ids. */
  lemma {:induction false} AcceptedOrdered(items: seq<SearchItem>, details: map<string, Details>, i: nat, j: nat)
    requires Dedupe.DistinctKeys(items, ItemKey)
    requires i < j < |Accepted(items, details)|
    ensures Dedupe.IndexOfKey(items, ItemKey, Accepted(items, details)[i].id)
          < Dedupe.IndexOfKey(items, ItemKey, Accepted(items, details)[j].id)
    decreases |items|
  {
    var prefix := items[..|items| - 1];
    var item := items[|items| - 1];
    assert items == prefix + [item];
    assert forall n :: 0 <= n < |prefix| ==> items[n] == prefix[n];
    var kept := Accepted(prefix, details);
    AcceptedProvenance(prefix, details, i);
    Dedupe.IndexOfKeyExtend(prefix, item, ItemKey, kept[i].id);
    if j < |kept| {
      AcceptedOrdered(prefix, details, i, j);
      AcceptedProvenance(prefix, details, j);
      Dedupe.IndexOfKeyExtend(prefix, item, ItemKey, kept[j].id);
    } else {
      assert forall n :: 0 <= n < |prefix| ==> ItemKey(items[n]) != ItemKey(items[|prefix|]);
      Dedupe.IndexOfKeyExtend(prefix, item, ItemKey, ItemKey(item).value);
    }
  }

  /** What one page fetch delivers: the HTTP outcome and `data.items`. */
  datatype PageResponse = PageResponse(ok: bool, status: int, items: Option<seq<SearchItem>>)

  datatype SearchError = SearchApiError(status: int)

  /** `data.items ?? []`, or the error thrown for a non-OK response. */
  function PageItems(page: PageResponse): (r: Result<seq<SearchItem>, SearchError>)
    ensures r.Failure? <==> !page.ok
    ensures r.Failure? ==> r.error.status == page.status
    ensures r.Success? ==> r.value == page.items.GetOr([])
  {
    if page.ok then Success(page.items.GetOr([])) else Failure(SearchApiError(page.status))
  }

  /** The details table; a response without `items` gives an empty one. */
  function DetailsTable(detailItems: Option<seq<RawDetails>>): map<string, Details> {
    match detailItems
    case Some(ds) => BuildDetails(ds)
    case None => map[]
  }

  /** `searchVideos` around its three requests, whose responses are inputs:
      a failing page fails the search; otherwise the merged hits are filtered
      against the details table and at most `maxResults` videos (at least one
      allowed) come back, each passing both thresholds, with distinct ids, all
      found on one of the pages, in merged order. */
  method SearchVideos(maxResults: int, medium: PageResponse, long: PageResponse,
                      detailItems: Option<seq<RawDetails>>) returns (outcome: Result<seq<VideoResult>, SearchError>)
    ensures outcome.Failure? <==> !medium.ok || !long.ok
    ensures outcome.Failure? ==>
      (!medium.ok && outcome.error.status == medium.status) || (!long.ok && outcome.error.status == long.status)
    ensures outcome.Success? ==>
      var hits := medium.items.GetOr([]) + long.items.GetOr([]);
      var accepted := Accepted(Dedupe.FirstSeen(hits, ItemKey), DetailsTable(detailItems));
      var results := outcome.value;
      && |results| <= Cap(maxResults)
      && |results| == (if |accepted| < Cap(maxResults) then |accepted| else Cap(maxResults))
      && results == accepted[..|results|]
      && (forall i, j :: 0 <= i < j < |results| ==> results[i].id != results[j].id)
      && (forall k :: 0 <= k < |results| ==>
            && !ViewsBelowMinimum(results[k].viewCount)
            && results[k].durationSeconds >= MIN_DURATION_SECONDS
            && results[k].id in Dedupe.Keys(hits, ItemKey))
  {
    var mediumPage := PageItems(medium);
    if mediumPage.Failure? {
      return Failure(mediumPage.error);
    }
    var longPage := PageItems(long);
    if longPage.Failure? {
      return Failure(longPage.error);
    }
    var mediumItems := mediumPage.value;
    var longItems := longPage.value;
    var all := MergePages(mediumItems, longItems);
    assert AllKeyed(all);
    var details := DetailsTable(detailItems);
    var results: seq<VideoResult>;
    if |all| == 0 {
      results := [];
    } else {
      results := FilterCandidates(all, details, maxResults);
    }
    var accepted := Accepted(all, details);
    assert forall k :: 0 <= k < |results| ==> results[k] == accepted[k];
    forall k | 0 <= k < |results|
      ensures !ViewsBelowMinimum(results[k].viewCount) && results[k].durationSeconds >= MIN_DURATION_SECONDS
      ensures results[k].id in Dedupe.Keys(mediumItems + longItems, ItemKey)
    {
      AcceptedMeetsThresholds(all, details, k);
      AcceptedProvenance(all, details, k);
      var idx := Dedupe.IndexOfKey(all, ItemKey, results[k].id);
      Dedupe.KeysInclude(all, ItemKey, idx);
    }
    forall i, j | 0 <= i < j < |results| ensures results[i].id != results[j].id {
      AcceptedOrdered(all, details, i, j);
    }
    return Success(results);
  }
}
