# World vlog viewer: search, cache and random pool in Dafny

This project models the server-side core of a travel-video viewer and proves
properties of the model. The viewer lets a user pick a region, then a
country, then a city, and shows walking-tour or camping videos for it. The
modelled core covers:

- **The YouTube search pipeline** (`src/lib/youtube.ts`):
  - building the query for vlog or camp mode;
  - the parameters of the medium and long result pages;
  - merging the two pages and de-duplicating them by video id;
  - the details table;
  - the quality filter (at least 10,000 views and 10 minutes) and the result cap;
  - `parseDuration`, `formatDuration`, `formatViewCount` and the region-to-language table.
- **The persistent search cache** (`src/lib/firestoreCache.ts`):
  - the versioned cache key;
  - its document id, `encodeURIComponent` with `%` turned into `_`;
  - the 24-hour expiry rule of reads and writes, over a map from document id to document.
- **The random-video endpoint** (`src/app/api/random/route.ts`):
  - a process-wide pool, rebuilt from every cached document when it is expired or empty;
  - the rebuild recovers each document's mode from its id, de-duplicates by id, scores by ratings, sorts stably by descending score and keeps the top 300;
  - each request filters the pool by mode, shuffles it, takes `count` videos and strips the hidden mode tag.
- **The catalogue lookups** (`src/lib/countryData.ts`, `src/lib/destinations.ts`):
  - flattening areas, countries and cities into one list;
  - looking up an area by id;
  - finding the nearest city;
  - searching destinations by name;
  - picking a random destination other than the current one.

The JavaScript semantics the code relies on are written out:

- `parseInt`: leading whitespace, a sign, leading digits; `NaN` is `None`.
- Truthiness in `a || b`.
- `slice(0, count)`, including negative and `NaN` counts.
- The stable `Array.prototype.sort`.
- `encodeURIComponent` and `decodeURIComponent` over UTF-8, including the `URIError` a bad escape throws.
- `Math.floor(Math.random() * n)`.

Modules, one per file:

| file | module | models |
|---|---|---|
| `wrappers.dfy` | `Wrappers` | `Option` (null / undefined / `NaN`) and `Result` (a thrown error) |
| `text.dfy` | `Text` | digits, `parseInt`, `padStart(2, '0')`, `includes`, ASCII `toLowerCase`, `replace(/x/g, y)`, `split` and `join` |
| `dedupe.dfy` | `Dedupe` | first-seen de-duplication by key, shared by the search merge and the pool rebuild |
| `uri.dfy` | `Uri` | `encodeURIComponent` and `decodeURIComponent` |
| `youtube_format.dfy` | `YouTubeFormat` | `parseDuration`, `formatDuration`, `formatViewCount` |
| `youtube_search.dfy` | `YouTubeSearch` | `searchVideos` and `getLanguageFromRegion` |
| `firestore_cache.dfy` | `FirestoreCache` | `makeCacheKey`, `encodeDocId`, `getCachedVideos`, `setCachedVideos` |
| `stable_sort.dfy` | `StableSort` | the stable descending sort of the pool rebuild |
| `random_pool.dfy` | `RandomPool` | `GET /api/random` and its pool state |
| `country_data.dfy` | `CountryData` | `getAllCities`, `getAreaById`, `getNearestCity` |
| `destinations.dfy` | `Destinations` | `searchDestinations`, `getRandomDestination` |

These behaviours are inputs, not computed:

- Each search page is a `PageResponse`: an `ok` flag, a status and an optional item list. A page that is not ok makes the search throw.
- The details response is an optional list of parsed items. Reading it never fails in the model.
- The document store and the ratings store are `Result` parameters: `Success` is an answer and `Failure` is a thrown error.
- The cache's write path takes a `reachable` flag: when it is false, the write throws and nothing changes.
- The clock: a `now` parameter in milliseconds.
- `Math.random()`:
  - in the random route, an index permutation `order`;
  - in `getRandomDestination`, a `draw` in [0, 1).
- The haversine distance: a `dist` function from a city to a real number.

Facts about the code that the model follows:

- One query string is built per search.
- The only in-memory store is the random pool.
- The persistent TTL is 24 hours.
- The pool rebuild keeps the videos of a document whose id does not decode, untagged, so every mode serves them.

## Model

| member | source | states |
|---|---|---|
| Text.ParseInt | src/lib/youtube.ts:120 | `parseInt(s, 10)` is `NaN` exactly when no digit follows the optional whitespace and sign; its value is given by `Text.ParseIntOfParts` and `Text.ParseIntNaN` |
| Text.ParseIntOfParts | src/lib/youtube.ts:120 | whitespace, an optional sign, digits and a tail that does not start with a digit parse to the digits' value, negated after `-` |
| Text.ParseIntNaN | src/app/api/random/route.ts:16 | whitespace, an optional sign and then no digit parse to `NaN` |
| Text.ParseIntAfterWhitespace | src/lib/youtube.ts:120 | leading JavaScript whitespace does not change the result of `parseInt` |
| Text.ParseIntOfIntToString | src/lib/youtube.ts:156-159 | `parseInt(String(n))` gives `n` back for every integer of the model; in the source this holds for integers of magnitude below 2^53, so the plain view-count label re-reads as the parsed count |
| Text.PadTwoOfSmall | src/lib/youtube.ts:166-167 | `String(n).padStart(2, '0')` of a number below 100 is two digits whose value is `n` |
| Text.SplitJoin | src/app/api/random/route.ts:39 | splitting a `|`-join of `|`-free parts on `|` gives the parts back |
| Text.JoinSplit | src/app/api/random/route.ts:39 | joining the fields of `split('|')` with `|` rebuilds the string |
| Text.SplitLastField | src/app/api/random/route.ts:39-40 | the last field of `split('|')` is the `|`-free suffix that is the whole string or follows the last `|` |
| Text.LastFieldUnique | src/app/api/random/route.ts:39-40 | a string has only one such last field |
| Text.SplitFieldsFree | src/app/api/random/route.ts:39-40 | no field of `split('|')`, the last one (the mode) included, contains `|` |
| Text.JoinContainsParts | src/lib/youtube.ts:42-43 | every keyword appears in `localKeywords.join(' OR ')` |
| Uri.EncodeComponent | src/lib/firestoreCache.ts:28 | `encodeURIComponent` output holds only `%`, upper-case hex digits and unreserved characters of the input |
| Uri.DecodeEncode | src/app/api/random/route.ts:37 | `decodeURIComponent(encodeURIComponent(s)) == s` for every string of scalar values |
| Uri.DecodeEncodedChar | src/app/api/random/route.ts:37 | decoding an encoded character followed by any text yields that character in front of the decoding of the text |
| Uri.DecodeEscapedChar | src/app/api/random/route.ts:37 | the `%XX` escapes of a reserved character decode to that character in one step that consumes exactly those escapes |
| Uri.Utf8Decodes | src/app/api/random/route.ts:37 | the UTF-8 bytes of each character pass the decoder's lead-byte, continuation and range checks and give back the code point |
| Dedupe.DedupeBy | src/lib/youtube.ts:79-87 | the seen-set loop returns exactly the first item of each key, in first-occurrence order, and skips keyless items |
| Dedupe.FirstSeenCharacterized | src/app/api/random/route.ts:51-56 | first-seen de-duplication keeps exactly the first occurrence of each key, in order, with distinct keys |
| Dedupe.FirstSeenKeys | src/app/api/random/route.ts:51-56 | de-duplication neither loses nor invents a key |
| Dedupe.FirstSeenOccurrences | src/app/api/random/route.ts:51-56 | every survivor carries a key and is the first input element with that key |
| Dedupe.FirstSeenOrder | src/app/api/random/route.ts:51-56 | survivors appear in the order their keys first occur in the input |
| Dedupe.FirstSeenDistinct | src/app/api/random/route.ts:51-56 | no key is carried by two survivors |
| YouTubeFormat.ParseDuration | src/lib/youtube.ts:19-21 | a duration without `PT` counts as 0 seconds |
| YouTubeFormat.ParseIsoDuration | src/lib/youtube.ts:19-26 | an ISO 8601 `PT…H…M…S` duration with any subset of the three fields parses to hours·3600 + minutes·60 + seconds |
| YouTubeFormat.ReadFields | src/lib/youtube.ts:20-25 | the optional `H`, `M` and `S` groups, read in turn, give back hours·3600 + minutes·60 + seconds of the fields they were written from |
| YouTubeFormat.FormatDurationRoundTrip | src/lib/youtube.ts:162-168 | reading `formatDuration(n)` back as hours·3600 + minutes·60 + seconds from its colon-separated fields gives `n` |
| YouTubeFormat.FormatDurationLayout | src/lib/youtube.ts:162-168 | `formatDuration(n)` has three colon-separated fields exactly when `n` is at least 3600, and the fields after the leading one are two digits wide |
| YouTubeFormat.ClockLayoutOf | src/lib/youtube.ts:166-167 | with minutes and seconds below 60, the clock shows an hour field exactly when hours are positive, and pads the later fields to two digits |
| YouTubeFormat.ClockValueOf | src/lib/youtube.ts:166-167 | with minutes and seconds below 60, the clock's fields read back as h·3600 + m·60 + s |
| YouTubeFormat.FormatViewCount | src/lib/youtube.ts:155-160 | the label is millions iff the parsed count is at least 1,000,000, thousands iff it lies in [1,000, 1,000,000), and otherwise re-parses to the parsed count |
| YouTubeSearch.BuildQuery | src/lib/youtube.ts:38-47 | camp mode appends the camping terms; vlog mode appends "walking tour vlog" and ORs it with the joined keywords when that join is non-empty; the place is always in the query |
| YouTubeSearch.QueryMentionsKeywords | src/lib/youtube.ts:42-46 | in vlog mode every local keyword appears in the query |
| YouTubeSearch.PageSize | src/lib/youtube.ts:58 | the page size is the least integer at least 1.5 × maxResults |
| YouTubeSearch.PageParams | src/lib/youtube.ts:50-63 | each page asks for embeddable videos of its duration ordered by views, `maxResults` parses back to the page size, and a language is sent iff a non-empty region code is given |
| YouTubeSearch.LanguageFromRegion | src/lib/youtube.ts:144-153 | the table's language for a listed region, `en` otherwise; always one of the table's languages |
| YouTubeSearch.PageItems | src/lib/youtube.ts:64-69 | a non-ok page throws with its status; an ok page without items counts as empty |
| YouTubeSearch.MergePages | src/lib/youtube.ts:79-87 | the merge is the first-seen de-duplication of the medium page followed by the long page |
| YouTubeSearch.DetailsOf | src/lib/youtube.ts:104-107 | a missing or empty view count reads as `"0"`, and a missing duration as 0 seconds |
| YouTubeSearch.BuildDetailsKeys | src/lib/youtube.ts:101-109 | the details table has an entry for exactly the ids the details response lists |
| YouTubeSearch.BuildDetailsHas | src/lib/youtube.ts:103-104 | every id the details response lists has an entry in the table |
| YouTubeSearch.BuildDetailsFrom | src/lib/youtube.ts:103-104 | every entry of the table comes from an id the details response lists |
| YouTubeSearch.BuildDetailsLastWins | src/lib/youtube.ts:103-108 | when an id is listed twice, its last listing wins |
| YouTubeSearch.AcceptedMeetsThresholds | src/lib/youtube.ts:115-124 | every accepted video has details, at least 10,000 views unless the count is not a number, and at least 600 seconds |
| YouTubeSearch.AcceptedProvenance | src/lib/youtube.ts:115-135 | every accepted video is built from a merged item and that id's details |
| YouTubeSearch.AcceptedOrdered | src/lib/youtube.ts:115 | accepted videos keep the merged order |
| YouTubeSearch.FilterCandidates | src/lib/youtube.ts:114-140 | the loop returns the first min(accepted, max(1, maxResults)) accepted videos |
| YouTubeSearch.SearchVideos | src/lib/youtube.ts:73-140 | fails iff a page is not ok, reporting a failing page's status; otherwise returns the capped accepted prefix of the merged pages, with distinct ids that all come from the pages and meet the thresholds |
| FirestoreCache.KeySplits | src/lib/firestoreCache.ts:31-37 | a key built from `|`-free parts splits into the version tag and the three parts |
| FirestoreCache.MakeCacheKeyInjective | src/lib/firestoreCache.ts:31-37 | distinct `|`-free city, region and mode triples get distinct keys |
| FirestoreCache.VersionsNeverCollide | src/lib/firestoreCache.ts:22-23 | keys under different versions never coincide, so raising the version misses every older entry |
| FirestoreCache.KeyModeField | src/lib/firestoreCache.ts:36 | the mode is the key's last `|` field |
| FirestoreCache.EncodeDocId | src/lib/firestoreCache.ts:26-29 | a document id never holds `%` or `/` |
| FirestoreCache.DocIdRoundTrip | src/lib/firestoreCache.ts:26-29 | for keys without `_`, turning `_` back into `%` and URI-decoding recovers the key |
| FirestoreCache.EncodeDocIdInjective | src/lib/firestoreCache.ts:26-29 | keys without `_` get distinct document ids |
| FirestoreCache.DocIdCollision | src/lib/firestoreCache.ts:28 | with `_` allowed, two keys share a document: `a/` and `a_2F` |
| FirestoreCache.GetCachedVideos | src/lib/firestoreCache.ts:49-73 | a read returns the stored videos iff the store answers, the document exists and now ≤ its expiry; otherwise null |
| FirestoreCache.SetCachedVideos | src/lib/firestoreCache.ts:79-98 | a write stamps the document with now and now + 24 h, touches no other document, and a failing store changes nothing |
| FirestoreCache.WriteThenRead | src/lib/firestoreCache.ts:49-98 | a read after a successful write returns the written videos while it is within 24 hours of the write, and null afterwards |
| FirestoreCache.WriteKeepsOtherKeys | src/lib/firestoreCache.ts:79-98 | a write leaves reads of every other `_`-free key unchanged |
| StableSort.SortCharacterized | src/app/api/random/route.ts:75 | the sort is a permutation, ordered by non-increasing score, and keeps the input order among equal scores |
| StableSort.SortDistinct | src/app/api/random/route.ts:75 | sorting keeps ids distinct |
| RandomPool.DocMode | src/app/api/random/route.ts:36-47 | a document's mode is the last `|` field of its decoded id, and is absent exactly when decoding throws |
| RandomPool.DocModeOfCacheKey | src/app/api/random/route.ts:37-40 | the mode recovered from a cache document's id is the mode its key was built with |
| RandomPool.TagDoc | src/app/api/random/route.ts:30-47 | a document without a video list contributes nothing; otherwise each of its videos is tagged with the document's mode |
| RandomPool.GatherProvenance | src/app/api/random/route.ts:28-49 | every gathered entry is a video of some document, tagged with that document's mode |
| RandomPool.GatherComplete | src/app/api/random/route.ts:28-49 | every video of every document with a list is gathered |
| RandomPool.ScoreVideo | src/app/api/random/route.ts:64-72 | an unrated video scores 0; a rated one scores 5·likes − 10·dislikes |
| RandomPool.BuildPoolProperties | src/app/api/random/route.ts:51-78 | the pool is the top min(300, n) of the stably sorted unique videos, has distinct ids, is sorted, and nothing dropped outscores anything kept |
| RandomPool.Refresh | src/app/api/random/route.ts:21-79 | the pool is kept unless expired or empty; a rebuild fails iff a store read fails, and otherwise stamps the expiry six hours after now |
| RandomPool.RefreshKeepsInvariant | src/app/api/random/route.ts:21-79 | a refresh keeps the pool valid and leaves its expiry no earlier than now |
| RandomPool.PoolForMode | src/app/api/random/route.ts:84 | a video is served for a mode iff its tag equals the mode or it has no usable tag |
| RandomPool.SliceEnd | src/app/api/random/route.ts:92 | `slice(0, count)` keeps min(count, n) for a non-negative count, n + count clipped at 0 for a negative one, and nothing for `NaN` |
| RandomPool.Serve | src/app/api/random/route.ts:91-98 | the response is the first `slice` positions of the shuffled mode pool, each with its mode tag removed |
| RandomPool.Respond | src/app/api/random/route.ts:84-98 | an empty mode pool gives no videos; otherwise the response is the shuffled mode pool cut by `slice(0, count)` with `_mode` removed, so exactly min(count, pool size) videos for a non-negative count, each a stripped pool video that fits the mode |
| RandomPool.ServeDistinct | src/app/api/random/route.ts:91-98 | a shuffle of a pool with distinct ids serves no id twice |
| RandomPool.ModeParam | src/app/api/random/route.ts:18 | the mode is never empty, and a non-empty mode parameter is used as given |
| RandomPool.DefaultMode | src/app/api/random/route.ts:18 | a missing or empty mode becomes `scenic` |
| RandomPool.DefaultCount | src/app/api/random/route.ts:16 | a missing or empty count becomes 10 |
| RandomPool.Get | src/app/api/random/route.ts:14-105 | a store failure gives the 500 response and keeps the state; otherwise the refreshed state is kept, the number of served videos is what `slice(0, count)` keeps of the mode pool (min(count, pool size) for a non-negative count), and every served video is a stripped member of the mode pool |
| RandomPool.GetServesDistinct | src/app/api/random/route.ts:10-105 | starting from a valid pool, no request serves the same video twice and the pool stays valid |
| CountryData.AllCitiesLength | src/lib/countryData.ts:627-638 | `getAllCities` has one entry per city of the catalogue |
| CountryData.AllCitiesIndex | src/lib/countryData.ts:627-638 | each city sits at its area → country → city position and carries its own country's code, flag and region code |
| CountryData.AreaById | src/lib/countryData.ts:640-642 | the lookup gives the first area with that id, and undefined iff no area has it |
| CountryData.PlacementsFlat | src/lib/countryData.ts:662-672 | the nearest-city loop visits the cities in `getAllCities` order |
| CountryData.PlacementsContained | src/lib/countryData.ts:662-672 | every visited city belongs to its country, and that country to its area |
| CountryData.NearestCity | src/lib/countryData.ts:655-685 | throws iff the catalogue has no city; otherwise returns the first visited city at the least distance, with its country and area |
| Destinations.SearchDestinations | src/lib/destinations.ts:52-60 | a destination is found iff the lower-cased query is in its lower-cased English name, French name or search query, or the query as typed is in its Japanese name |
| Destinations.SearchCounts | src/lib/destinations.ts:52-60 | a matching destination is found as many times as it is listed, a non-matching one never |
| Destinations.SearchIsSubsequence | src/lib/destinations.ts:54 | the search keeps the list's order |
| Destinations.EmptySearchReturnsAll | src/lib/destinations.ts:52-60 | the empty query returns every destination |
| Destinations.Candidates | src/lib/destinations.ts:46-48 | a missing or empty `exclude` leaves the list as it is; otherwise exactly the destinations with another name remain |
| Destinations.CandidatesCounts | src/lib/destinations.ts:46-48 | a destination named by a non-empty `exclude` is dropped every time; any other keeps its number of listings |
| Destinations.CandidatesAreSubsequence | src/lib/destinations.ts:46-48 | excluding keeps the list's order |
| Destinations.DrawIndex | src/lib/destinations.ts:49 | `Math.floor(Math.random() * n)` is an index in bounds of a non-empty list |
| Destinations.GetRandomDestination | src/lib/destinations.ts:45-50 | the pick is undefined iff no candidate is left; otherwise it is a listed destination whose name differs from a non-empty `exclude` |
| Destinations.RandomPickAvoidsExclude | src/lib/destinations.ts:45-50 | whenever another destination exists, the pick succeeds and is not the excluded one |
| Destinations.EveryCandidateReachable | src/lib/destinations.ts:49 | every candidate is picked by some draw |

## Left out

- Haversine distance (src/lib/countryData.ts:645-652): floating-point trigonometry is not modelled. `getNearestCity` takes the distance as a function argument, and real numbers stand in for JavaScript doubles.
- Text.ParseInt, Text.ParseIntOfIntToString, YouTubeFormat.FormatViewCount: JavaScript's `parseInt` returns a double, and `String` of a number switches to exponent notation from 1e21 on. The model computes on exact integers, so digit runs above 2^53 parse to their exact value rather than a rounded double, and the round trip through `String` is claimed for every integer. In the source, `"-1000000000000000000000"` renders as `"-1e+21"`, which re-parses to -1.
- Floating-point arithmetic in general: `Math.ceil(maxResults * 1.5)` is computed exactly on integers. Coordinates and zoom levels are reals.
- `toFixed(1)` in `formatViewCount`: the label records which branch applies and the count, not the rounded decimal text.
- `toLowerCase` is modelled on ASCII letters only. Other characters are left as they are.
- `encodeURIComponent` and `decodeURIComponent` on ill-formed UTF-16, such as lone surrogates, are not modelled. Both throw `URIError` there, and Dafny strings hold only Unicode scalar values.
- Network calls, `fetch`, the JSON decoding of responses, `Promise.all` and the Firestore SDK are I/O, so their answers are parameters.
- YouTubeSearch.SearchVideos: when both pages fail, the model states only that the reported status is one of the failing pages'. Which one `Promise.all` rejects with depends on timing.
- YouTubeSearch.SearchVideos: a page item whose id is the name of an `Object.prototype` member, such as `constructor`, would find a non-empty value in `detailsMap`. The model treats the map as a plain dictionary.
- YouTubeSearch.LanguageFromRegion: the object-literal lookup `LANGUAGES[regionCode]` returns an `Object.prototype` member for keys such as `constructor`, `toString`, `__proto__` or `hasOwnProperty`, and `src/app/api/youtube/route.ts:9` passes the region code through unchecked. The model treats the table as a plain map, so its promise that the result is one of the table's languages does not hold of the source for those keys.
- YouTubeSearch.SearchVideos: a `maxResults` that is `NaN` is not modelled, because the model takes an integer.
- Reading the details response is not modelled as failing, because the model takes the parsed list.
- `getVideoRatings` and the rating routes are not part of this model, because their code is not in the repository files modelled here. The ratings map is a parameter.
- RandomPool.Get: `Date.now()` is read once per request. The source reads it once to test the expiry and again to stamp the new one; the difference is the time the rebuild takes.
- RandomPool.Get: the shuffle `sort(() => 0.5 - Math.random())` is a permutation given as input. Its distribution, which is not uniform, is not modelled.
- RandomPool.Get: logging calls are left out.
- RandomPool.Get: requests are modelled one at a time, each as one atomic step from pool state to pool state. In the source, `globalRandomPool` and `poolExpiresAt` are module-level variables (src/app/api/random/route.ts:10-11), and a request awaits the document read (line 25) and the ratings read (line 61) in the middle of a rebuild. Two requests that both find the pool expired or empty both rebuild it, and whichever finishes last overwrites the pool, possibly with an older snapshot. That race is not modelled.
- Firestore's own rules for valid document ids are not modelled, such as the length limit and ids made only of dots.
- The API routes other than the random route are not modelled. These are `src/app/api/youtube/route.ts` and the rate route, and they parse parameters and call the modelled functions.
- The middleware and the UI components are display glue.
- The catalogue constants, the `AREAS` and `DESTINATIONS` lists, are parameters rather than transcribed data.
