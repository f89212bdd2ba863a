/** The persistent search cache: the versioned cache key, its document id,
    and the expiry rules of reads and writes. The document store is a map
    from document id to document, whether the store answers is a parameter,
    and the clock is the `now` parameter (milliseconds). */
module FirestoreCache {
  import opened Wrappers
  import opened Text
  import Uri
  import YouTubeSearch

  type VideoResult = YouTubeSearch.VideoResult

  /** Twenty-four hours in milliseconds. */
  const CACHE_TTL_MS: nat := 24 * 60 * 60 * 1000
  /** Raised whenever the search logic changes, so older entries stop matching. */
  const CACHE_VERSION: nat := 2

  // ---------------------------------------------------------------------
  // Cache key
  // ---------------------------------------------------------------------

  /** `v{version}|{city}|{region}|{mode}`. */
  function VersionedKey(version: nat, city: string, region: string, mode: string): string {
    "v" + NatToString(version) + "|" + city + "|" + region + "|" + mode
  }

  function MakeCacheKey(city: string, region: string, mode: string): string {
    VersionedKey(CACHE_VERSION, city, region, mode)
  }

  /** The key is the `|`-join of its four parts. */
  lemma KeyIsJoin(version: nat, city: string, region: string, mode: string)
    ensures VersionedKey(version, city, region, mode) == Join(["v" + NatToString(version), city, region, mode], "|")
  {
    var tag := "v" + NatToString(version);
    assert [tag, city, region, mode][1..] == [city, region, mode];
    assert [city, region, mode][1..] == [region, mode];
    assert [region, mode][1..] == [mode];
    assert Join([region, mode], "|") == region + "|" + mode;
    assert Join([city, region, mode], "|") == city + "|" + (region + "|" + mode);
    assert Join([tag, city, region, mode], "|") == tag + "|" + (city + "|" + (region + "|" + mode));
  }

  /** The version tag is the key's first `|` field, whatever the components. */
  lemma KeyVersionField(version: nat, city: string, region: string, mode: string)
    ensures Split(VersionedKey(version, city, region, mode), '|')[0] == "v" + NatToString(version)
  {
    var tag := "v" + NatToString(version);
    assert '|' !in tag by {
      assert forall i :: 1 <= i < |tag| ==> tag[i] == NatToString(version)[i - 1];
    }
    assert VersionedKey(version, city, region, mode) == tag + ['|'] + (city + "|" + region + "|" + mode);
    FirstField(tag, '|', city + "|" + region + "|" + mode);
  }

  /** With `|`-free components the key splits back into exactly its parts. */
  lemma KeySplits(version: nat, city: string, region: string, mode: string)
    requires '|' !in city && '|' !in region && '|' !in mode
    ensures Split(VersionedKey(version, city, region, mode), '|') == ["v" + NatToString(version), city, region, mode]
  {
    var tag := "v" + NatToString(version);
    assert '|' !in tag by {
      assert forall i :: 1 <= i < |tag| ==> tag[i] == NatToString(version)[i - 1];
    }
    KeyIsJoin(version, city, region, mode);
    SplitJoin([tag, city, region, mode], '|');
  }

  /** `makeCacheKey` is injective on `|`-free components. */
  lemma MakeCacheKeyInjective(c1: string, r1: string, m1: string, c2: string, r2: string, m2: string)
    requires '|' !in c1 && '|' !in r1 && '|' !in m1
    requires '|' !in c2 && '|' !in r2 && '|' !in m2
    requires MakeCacheKey(c1, r1, m1) == MakeCacheKey(c2, r2, m2)
    ensures c1 == c2 && r1 == r2 && m1 == m2
  {
    KeySplits(CACHE_VERSION, c1, r1, m1);
    KeySplits(CACHE_VERSION, c2, r2, m2);
  }

  /** Keys built under different versions never coincide, whatever the
      components: bumping the version invalidates every older entry. */
  lemma VersionsNeverCollide(v1: nat, c1: string, r1: string, m1: string,
                             v2: nat, c2: string, r2: string, m2: string)
    requires v1 != v2
    ensures VersionedKey(v1, c1, r1, m1) != VersionedKey(v2, c2, r2, m2)
  {
    KeyVersionField(v1, c1, r1, m1);
    KeyVersionField(v2, c2, r2, m2);
    var t1 := "v" + NatToString(v1);
    var t2 := "v" + NatToString(v2);
    assert t1[1..] == NatToString(v1) && t2[1..] == NatToString(v2);
    assert t1 != t2;
  }

  /** The mode is the key's last `|` field when it is `|`-free; the city and
      region may contain anything. */
  lemma KeyModeField(version: nat, city: string, region: string, mode: string)
    requires '|' !in mode
    ensures Last(Split(VersionedKey(version, city, region, mode), '|')) == mode
  {
    var front := "v" + NatToString(version) + "|" + city + "|" + region;
    assert VersionedKey(version, city, region, mode) == front + ['|'] + mode;
    LastField(front, '|', mode);
  }

  // ---------------------------------------------------------------------
  // Document id
  // ---------------------------------------------------------------------

  /** `encodeURIComponent(key)` with every `%` turned into `_`. */
  function EncodeDocId(key: string): (id: string)
    ensures '%' !in id && '/' !in id
  {
    var e := Uri.EncodeComponent(key);
    var id := ReplaceChar(e, '%', '_');
    assert forall i :: 0 <= i < |id| ==> id[i] != '%' && id[i] != '/';
    id
  }

  /** The decoding the random pool applies to a document id: `_` back to
      `%`, then `decodeURIComponent`. */
  function DecodeDocId(id: string): Result<string, Uri.UriError> {
    Uri.DecodeComponent(ReplaceChar(id, '_', '%'))
  }

  /** On keys without `_` the pool's decoding inverts the encoding. */
  lemma DocIdRoundTrip(key: string)
    requires '_' !in key
    ensures DecodeDocId(EncodeDocId(key)) == Success(key)
  {
    var e := Uri.EncodeComponent(key);
    assert forall i :: 0 <= i < |e| ==> e[i] != '_';
    ReplaceCharBack(e, '%', '_');
    Uri.DecodeEncode(key);
  }

  /** Distinct keys without `_` get distinct document ids. */
  lemma EncodeDocIdInjective(k1: string, k2: string)
    requires '_' !in k1 && '_' !in k2
    requires EncodeDocId(k1) == EncodeDocId(k2)
    ensures k1 == k2
  {
    DocIdRoundTrip(k1);
    DocIdRoundTrip(k2);
  }

  /** With `_` allowed, two keys can share a document: `a/` and `a_2F`. */
  lemma DocIdCollision()
    ensures "a/" != "a_2F" && EncodeDocId("a/") == EncodeDocId("a_2F")
  {
    assert Uri.Utf8('/') == [0x2F];
    assert Uri.Escape(0x2F) == "%2F";
    assert Uri.Escapes([0x2F]) == "%2F" + Uri.Escapes([]);
    assert Uri.EncodeComponent("/") == "%2F" + Uri.EncodeComponent("");
    assert Uri.EncodeComponent("a/") == "a" + Uri.EncodeComponent("/");
    assert Uri.EncodeComponent("F") == "F" + Uri.EncodeComponent("");
    assert Uri.EncodeComponent("2F") == "2" + Uri.EncodeComponent("F");
    assert Uri.EncodeComponent("_2F") == "_" + Uri.EncodeComponent("2F");
    assert Uri.EncodeComponent("a_2F") == "a" + Uri.EncodeComponent("_2F");
    assert ReplaceChar("a%2F", '%', '_') == "a_2F";
    assert ReplaceChar("a_2F", '%', '_') == "a_2F";
  }

  // ---------------------------------------------------------------------
  // Reads and writes
  // ---------------------------------------------------------------------

  /** A stored entry; times are milliseconds since the epoch. */
  datatype CacheDoc = CacheDoc(videos: seq<VideoResult>, cachedAt: int, expiresAt: int)

  type DocStore = map<string, CacheDoc>

  /** `getCachedVideos`: the stored videos, or `None` (null) when the store
      fails, the document is missing, or `now` is past its expiry. */
  function GetCachedVideos(store: DocStore, reachable: bool, key: string, now: int): (r: Option<seq<VideoResult>>)
    ensures r.Some? <==> reachable && EncodeDocId(key) in store && now <= store[EncodeDocId(key)].expiresAt
    ensures r.Some? ==> r.value == store[EncodeDocId(key)].videos
  {
    var id := EncodeDocId(key);
    if !reachable then None
    else if id !in store then None
    else if now > store[id].expiresAt then None
    else Some(store[id].videos)
  }

  /** `setCachedVideos`: stamps the entry with `now` and `now` + 24 h under
      the key's document id; a failing store leaves everything as it was. */
  function SetCachedVideos(store: DocStore, reachable: bool, key: string, videos: seq<VideoResult>, now: int): (after: DocStore)
    ensures !reachable ==> after == store
    ensures reachable ==> after.Keys == store.Keys + {EncodeDocId(key)}
    ensures reachable ==> after[EncodeDocId(key)] == CacheDoc(videos, now, now + CACHE_TTL_MS)
    ensures forall id :: id in store && id != EncodeDocId(key) ==> id in after && after[id] == store[id]
  {
    if reachable then store[EncodeDocId(key) := CacheDoc(videos, now, now + CACHE_TTL_MS)] else store
  }

  /** A write at `t` followed by a read at `later` returns the written list
      exactly while `later` ≤ `t` + 24 h, and nothing afterwards. */
  lemma WriteThenRead(store: DocStore, key: string, videos: seq<VideoResult>, t: int, later: int)
    ensures var after := SetCachedVideos(store, true, key, videos, t);
      GetCachedVideos(after, true, key, later) == if later <= t + CACHE_TTL_MS then Some(videos) else None
  {
  }

  /** A write leaves reads of every key with another document id unchanged;
      for keys without `_` that means every other key. */
  lemma WriteKeepsOtherKeys(store: DocStore, key: string, other: string, videos: seq<VideoResult>, t: int, now: int)
    requires '_' !in key && '_' !in other && key != other
    ensures GetCachedVideos(SetCachedVideos(store, true, key, videos, t), true, other, now)
         == GetCachedVideos(store, true, other, now)
  {
    if EncodeDocId(key) == EncodeDocId(other) {
      EncodeDocIdInjective(key, other);
    }
  }
}
