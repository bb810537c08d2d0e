/** The tweet normaliser of extension/utils/parser.ts: `parseTweet` turns
    one intercepted X.com GraphQL response into a flat `ParsedTweet`, or
    null. Every JavaScript exception its body can raise on odd input is
    written out as the point where the result becomes None, which is what the
    surrounding try/catch makes of it. */
module TweetParser {
  import opened JsValue
  import StableSort

  /** The four places a tweet result sits in the responses the hook captures,
      in the order they are tried. */
  const Paths: seq<seq<string>> := [
    ["data", "create_tweet", "tweet_results", "result"],
    ["data", "favorite_tweet", "result"],
    ["data", "create_bookmark", "tweet_results", "result"],
    ["data", "tweetResult", "result"]
  ]

  const DefaultSourceTag := "extension"
  const QuoteTag := "quote"

  datatype Metrics = Metrics(likes: Json, retweets: Json, replies: Json, quotes: Json)

  /** The normalised record. Fields the code copies from the payload without
      looking at their type stay JSON values. */
  datatype ParsedTweet = ParsedTweet(
    tweetId: Json,
    fullText: Json,
    userName: Json,
    userScreenName: Json,
    userAvatar: Json,
    mediaUrls: seq<Json>,
    videoUrl: Option<Json>,
    createdAt: string,
    metrics: Metrics,
    isQuoted: bool,
    quotedTweet: Option<ParsedTweet>,
    source: string,
    capturedAt: string)

  /** The clock the parser reads: the ISO-8601 text of "now", and
      `new Date(x).toISOString()`, which is None where that throws a
      RangeError (an unparsable date). */
  datatype Clock = Clock(now: string, toIso: Json -> Option<string>)

  // ---------------------------------------------------------------------
  // Locating the tweet result

  /** One step of `get`'s reduce: `(acc && acc[key] !== undefined) ? acc[key] : undefined`. */
  function Step(acc: Option<Json>, key: string): Option<Json> {
    if TruthyOpt(acc) then Prop(acc.value, key) else None
  }

  /** `get(path, obj)` */
  function Get(path: seq<string>, acc: Option<Json>): Option<Json>
    decreases |path|
  {
    if path == [] then acc else Get(path[1..], Step(acc, path[0]))
  }

  /** The value `get` finds along `Paths[i]`, and whether it is truthy. */
  function Candidate(raw: Json, i: nat): Option<Json>
    requires i < |Paths|
  {
    Get(Paths[i], Some(raw))
  }

  predicate Found(raw: Json, i: nat)
    requires i < |Paths|
  {
    TruthyOpt(Candidate(raw, i))
  }

  /** `if (result && result.tweet) result = result.tweet`: one level only. */
  function Unwrap(found: Json): Json {
    var inner := Prop(found, "tweet");
    if TruthyOpt(inner) then inner.value else found
  }

  /** What the path loop leaves in `result`, starting at path `i`. */
  function ResolveFrom(raw: Json, i: nat): Option<Json>
    requires i <= |Paths|
    decreases |Paths| - i
  {
    if i == |Paths| then None
    else if Found(raw, i) then Some(Unwrap(Candidate(raw, i).value))
    else ResolveFrom(raw, i + 1)
  }

  function Resolve(raw: Json): Option<Json> {
    ResolveFrom(raw, 0)
  }

  /** The path loop of parseTweet, as written: the first truthy `get` wins,
      is unwrapped once, and the loop breaks. */
  method ResolveRoot(raw: Json) returns (result: Option<Json>)
    ensures result == Resolve(raw)
  {
    result := None;
    var i := 0;
    while i < |Paths|
      invariant 0 <= i <= |Paths|
      invariant ResolveFrom(raw, i) == Resolve(raw)
    {
      var found := Get(Paths[i], Some(raw));
      if TruthyOpt(found) {
        result := found;
        var inner := Prop(result.value, "tweet");
        if TruthyOpt(inner) {
          result := inner;
        }
        return;
      }
      i := i + 1;
    }
  }

  lemma {:induction false} ResolveFromFirst(raw: Json, k: nat, i: nat)
    requires k <= i < |Paths|
    requires Found(raw, i)
    requires forall j :: k <= j < i ==> !Found(raw, j)
    ensures ResolveFrom(raw, k) == Some(Unwrap(Candidate(raw, i).value))
    decreases i - k
  {
    if k < i {
      ResolveFromFirst(raw, k + 1, i);
    }
  }

  lemma {:induction false} ResolveFromNone(raw: Json, k: nat)
    requires k <= |Paths|
    ensures ResolveFrom(raw, k).None? <==> forall j :: k <= j < |Paths| ==> !Found(raw, j)
    decreases |Paths| - k
  {
    if k < |Paths| {
      ResolveFromNone(raw, k + 1);
    }
  }

  /** The paths are tried in their fixed order and the first one that yields
      a truthy value wins, unwrapped once if it has a truthy `tweet`. */
  lemma ResolveFirstTruthyWins(raw: Json, i: nat)
    requires i < |Paths|
    requires Found(raw, i)
    requires forall j :: 0 <= j < i ==> !Found(raw, j)
    ensures Resolve(raw) == Some(Unwrap(Candidate(raw, i).value))
  {
    ResolveFromFirst(raw, 0, i);
  }

  /** Nothing is resolved exactly when no path yields a truthy value. */
  lemma ResolveNoneIff(raw: Json)
    ensures Resolve(raw).None? <==> forall j :: 0 <= j < |Paths| ==> !Found(raw, j)
  {
    ResolveFromNone(raw, 0);
  }

  /** The unwrap peels one `tweet` layer and no more: a result that is
      itself wrapped again is kept as it is. */
  lemma UnwrapOnce(raw: Json, i: nat, inner: Json)
    requires i < |Paths|
    requires Found(raw, i)
    requires forall j :: 0 <= j < i ==> !Found(raw, j)
    requires Prop(Candidate(raw, i).value, "tweet") == Some(inner) && Truthy(inner)
    ensures Resolve(raw) == Some(inner)
  {
    ResolveFirstTruthyWins(raw, i);
  }

  lemma {:induction false} GetOfNone(path: seq<string>)
    ensures Get(path, None) == None
    decreases |path|
  {
    if path != [] {
      GetOfNone(path[1..]);
    }
  }

  lemma {:induction false} GetSmaller(path: seq<string>, v: Json)
    requires Get(path, Some(v)).Some?
    ensures Size(Get(path, Some(v)).value) + |path| <= Size(v)
    decreases |path|
  {
    if path != [] {
      var next := Step(Some(v), path[0]);
      if next.None? {
        GetOfNone(path[1..]);
      } else {
        PropSmaller(v, path[0]);
        GetSmaller(path[1..], next.value);
      }
    }
  }

  lemma UnwrapSmaller(found: Json)
    ensures Size(Unwrap(found)) <= Size(found)
  {
    if TruthyOpt(Prop(found, "tweet")) {
      PropSmaller(found, "tweet");
    }
  }

  lemma {:induction false} ResolveFromSmaller(raw: Json, k: nat)
    requires k <= |Paths|
    requires ResolveFrom(raw, k).Some?
    ensures Size(ResolveFrom(raw, k).value) + 3 <= Size(raw)
    decreases |Paths| - k
  {
    if Found(raw, k) {
      GetSmaller(Paths[k], raw);
      UnwrapSmaller(Candidate(raw, k).value);
    } else {
      ResolveFromSmaller(raw, k + 1);
    }
  }

  // ---------------------------------------------------------------------
  // Media

  /** What the media forEach has built so far. */
  datatype MediaAcc = MediaAcc(urls: seq<Json>, video: Option<Json>)

  /** `v.bitrate !== undefined`, for a variant that is not null. */
  predicate HasBitrate(v: Json) {
    Prop(v, "bitrate").Some?
  }

  /** The number the comparator `(b.bitrate || 0) - (a.bitrate || 0)` reads:
      a number is itself, `true` is 1, every falsy value is 0. */
  function BitrateKey(v: Json): int {
    match Prop(v, "bitrate")
    case Some(JNum(n)) => n
    case Some(JBool(true)) => 1
    case _ => 0
  }

  /** `variants.filter(v => v.bitrate !== undefined)`; None when an entry is
      null (`null.bitrate` throws). */
  function WithBitrate(vs: seq<Json>): (r: Option<seq<Json>>)
    ensures r.None? <==> JNull in vs
    ensures r.Some? ==> forall v :: v in r.value <==> v in vs && HasBitrate(v)
  {
    if vs == [] then Some([])
    else
      match WithBitrate(vs[..|vs| - 1])
      case None => None
      case Some(kept) =>
        var v := vs[|vs| - 1];
        assert vs == vs[..|vs| - 1] + [v];
        if v == JNull then None
        else if HasBitrate(v) then Some(kept + [v])
        else Some(kept)
  }

  /** `variants.filter(...).sort(...)[0]`: Some(None) when nothing declares a
      bitrate, None when the filter throws (not an array, or a null entry). */
  function BestVariant(variants: Json): Option<Option<Json>> {
    if !variants.JArr? then None
    else
      match WithBitrate(variants.items)
      case None => None
      case Some(kept) =>
        if kept == [] then Some(None)
        else Some(Some(StableSort.SortDesc(kept, BitrateKey)[0]))
  }

  /** The forEach callback for one media entity; None when it throws. */
  function MediaStep(acc: MediaAcc, m: Json): Option<MediaAcc> {
    if m == JNull then None
    else
      var ty := Prop(m, "type");
      var url := Prop(m, "media_url_https");
      if ty == Some(JStr("photo")) && TruthyOpt(url) then
        Some(MediaAcc(acc.urls + [url.value], acc.video))
      else if ty == Some(JStr("video")) || ty == Some(JStr("animated_gif")) then
        var urls := if TruthyOpt(url) then acc.urls + [url.value] else acc.urls;
        var variants := OptProp(Prop(m, "video_info"), "variants");
        if !TruthyOpt(variants) then Some(MediaAcc(urls, acc.video))
        else
          match BestVariant(variants.value)
          case None => None
          case Some(best) =>
            var bestUrl := OptProp(best, "url");
            Some(MediaAcc(urls, if TruthyOpt(bestUrl) then bestUrl else acc.video))
      else Some(acc)
  }

  /** The forEach over the entities seen so far. */
  function MediaFold(ms: seq<Json>): Option<MediaAcc>
    decreases |ms|
  {
    if ms == [] then Some(MediaAcc([], None))
    else
      match MediaFold(ms[..|ms| - 1])
      case None => None
      case Some(acc) => MediaStep(acc, ms[|ms| - 1])
  }

  /** Once an entity has thrown, the rest of the forEach never runs. */
  lemma {:induction false} MediaFoldThrown(ms: seq<Json>, i: nat)
    requires i <= |ms|
    requires MediaFold(ms[..i]).None?
    ensures MediaFold(ms).None?
    decreases |ms| - i
  {
    if i < |ms| {
      assert ms[..i + 1][..i] == ms[..i];
      MediaFoldThrown(ms, i + 1);
    } else {
      assert ms[..i] == ms;
    }
  }

  /** `legacy.entities?.media`, and the forEach over it when it is truthy
      (which throws unless it is an array). */
  function EntitiesMedia(legacy: Json): Option<Json> {
    OptProp(Prop(legacy, "entities"), "media")
  }

  function ExtractMedia(legacy: Json): Option<MediaAcc> {
    var media := EntitiesMedia(legacy);
    if !TruthyOpt(media) then Some(MediaAcc([], None))
    else if !media.value.JArr? then None
    else MediaFold(media.value.items)
  }

  /** The media block of parseTweet, as written: a loop that pushes URLs and
      reassigns the video URL. */
  method CollectMedia(legacy: Json) returns (r: Option<MediaAcc>)
    ensures r == ExtractMedia(legacy)
  {
    var media := EntitiesMedia(legacy);
    if !TruthyOpt(media) {
      return Some(MediaAcc([], None));
    }
    if !media.value.JArr? {
      return None;
    }
    var ms := media.value.items;
    var mediaUrls: seq<Json> := [];
    var videoUrl: Option<Json> := None;
    var i := 0;
    while i < |ms|
      invariant 0 <= i <= |ms|
      invariant MediaFold(ms[..i]) == Some(MediaAcc(mediaUrls, videoUrl))
    {
      assert ms[..i + 1][..i] == ms[..i];
      var next := MediaStep(MediaAcc(mediaUrls, videoUrl), ms[i]);
      if next.None? {
        MediaFoldThrown(ms, i + 1);
        return None;
      }
      mediaUrls, videoUrl := next.value.urls, next.value.video;
      i := i + 1;
    }
    assert ms[..i] == ms;
    r := Some(MediaAcc(mediaUrls, videoUrl));
  }

  /** The URL one entity contributes to `media_urls`. */
  function EntityUrls(m: Json): (r: seq<Json>)
    ensures |r| <= 1
  {
    var ty := Prop(m, "type");
    var url := Prop(m, "media_url_https");
    if (ty == Some(JStr("photo")) || ty == Some(JStr("video")) || ty == Some(JStr("animated_gif")))
       && TruthyOpt(url)
    then [url.value]
    else []
  }

  /** Every entity's contribution, in entity order. */
  function AllEntityUrls(ms: seq<Json>): seq<Json>
    decreases |ms|
  {
    if ms == [] then [] else AllEntityUrls(ms[..|ms| - 1]) + EntityUrls(ms[|ms| - 1])
  }

  /** The video URL one entity would set, if any. */
  function EntityVideo(m: Json): Option<Json> {
    var ty := Prop(m, "type");
    if ty != Some(JStr("video")) && ty != Some(JStr("animated_gif")) then None
    else
      var variants := OptProp(Prop(m, "video_info"), "variants");
      if !TruthyOpt(variants) then None
      else
        match BestVariant(variants.value)
        case Some(Some(best)) =>
          var bestUrl := OptProp(Some(best), "url");
          if TruthyOpt(bestUrl) then bestUrl else None
        case _ => None
  }

  /** The video URL of the LAST entity that sets one. */
  function LastVideo(ms: seq<Json>): Option<Json>
    decreases |ms|
  {
    if ms == [] then None
    else if EntityVideo(ms[|ms| - 1]).Some? then EntityVideo(ms[|ms| - 1])
    else LastVideo(ms[..|ms| - 1])
  }

  /** An entity on which the callback throws. */
  predicate EntityThrows(m: Json) {
    m == JNull ||
    ((Prop(m, "type") == Some(JStr("video")) || Prop(m, "type") == Some(JStr("animated_gif"))) &&
     TruthyOpt(OptProp(Prop(m, "video_info"), "variants")) &&
     BestVariant(OptProp(Prop(m, "video_info"), "variants").value).None?)
  }

  lemma MediaStepSpec(acc: MediaAcc, m: Json)
    ensures MediaStep(acc, m).None? <==> EntityThrows(m)
    ensures MediaStep(acc, m).Some? ==>
      MediaStep(acc, m).value.urls == acc.urls + EntityUrls(m) &&
      MediaStep(acc, m).value.video == (if EntityVideo(m).Some? then EntityVideo(m) else acc.video)
  {
    var ty := Prop(m, "type");
    if m != JNull && ty == Some(JStr("photo")) {
      assert EntityVideo(m).None?;
    }
    if m != JNull && ty != Some(JStr("photo")) && ty != Some(JStr("video")) && ty != Some(JStr("animated_gif")) {
      assert acc.urls + [] == acc.urls;
    }
    if m != JNull && (ty == Some(JStr("video")) || ty == Some(JStr("animated_gif"))) {
      if !TruthyOpt(Prop(m, "media_url_https")) {
        assert acc.urls + [] == acc.urls;
      }
    }
  }

  /** `media_urls` holds, in entity order, exactly the URLs of the photos,
      videos and GIFs that have one; the video URL is the one the last video
      with a usable best variant set; and the forEach throws exactly when
      some entity makes its callback throw. */
  lemma {:induction false} MediaFoldSpec(ms: seq<Json>)
    ensures MediaFold(ms).None? <==> exists i :: 0 <= i < |ms| && EntityThrows(ms[i])
    ensures MediaFold(ms).Some? ==>
      MediaFold(ms).value.urls == AllEntityUrls(ms) &&
      MediaFold(ms).value.video == LastVideo(ms)
    decreases |ms|
  {
    if ms != [] {
      var init := ms[..|ms| - 1];
      MediaFoldSpec(init);
      if MediaFold(init).Some? {
        MediaStepSpec(MediaFold(init).value, ms[|ms| - 1]);
      }
      forall i | 0 <= i < |init| ensures init[i] == ms[i] { }
      if MediaFold(init).None? {
        var i :| 0 <= i < |init| && EntityThrows(init[i]);
        assert EntityThrows(ms[i]);
      }
      if MediaFold(ms).None? && MediaFold(init).Some? {
        assert EntityThrows(ms[|ms| - 1]);
      }
      if MediaFold(ms).Some? {
        assert MediaFold(init).Some?;
        forall i | 0 <= i < |ms| ensures !EntityThrows(ms[i]) {
          if i == |ms| - 1 {
          } else {
            assert init[i] == ms[i];
          }
        }
      }
    }
  }

  lemma {:induction false} AllEntityUrlsBound(ms: seq<Json>)
    ensures |AllEntityUrls(ms)| <= |ms|
    decreases |ms|
  {
    if ms != [] {
      AllEntityUrlsBound(ms[..|ms| - 1]);
    }
  }

  /** Only photos, videos and GIFs with a URL add to `media_urls`, at most
      one URL each. */
  lemma MediaUrlsBound(legacy: Json)
    requires ExtractMedia(legacy).Some?
    ensures |ExtractMedia(legacy).value.urls| <= |if EntitiesMedia(legacy).Some? && EntitiesMedia(legacy).value.JArr? then EntitiesMedia(legacy).value.items else []|
  {
    var media := EntitiesMedia(legacy);
    if TruthyOpt(media) {
      MediaFoldSpec(media.value.items);
      AllEntityUrlsBound(media.value.items);
    }
  }

  /** Variant `i` declares a bitrate, no variant that declares one has a
      greater one, and every variant before it that declares one has a
      smaller one. */
  ghost predicate EarliestGreatest(vs: seq<Json>, i: int) {
    && 0 <= i < |vs|
    && HasBitrate(vs[i])
    && (forall j :: 0 <= j < |vs| && HasBitrate(vs[j]) ==> BitrateKey(vs[j]) <= BitrateKey(vs[i]))
    && (forall j :: 0 <= j < i && HasBitrate(vs[j]) ==> BitrateKey(vs[j]) < BitrateKey(vs[i]))
  }

  /** Where the `k`-th kept variant sits in the input: at some `i` such that
      every earlier variant with a bitrate was kept before position `k`. */
  ghost predicate KeptAt(vs: seq<Json>, kept: seq<Json>, k: nat, i: int) {
    && k < |kept|
    && 0 <= i < |vs|
    && vs[i] == kept[k]
    && (forall j :: 0 <= j < i && HasBitrate(vs[j]) ==> vs[j] in kept[..k])
  }

  lemma {:induction false} WithBitrateIndex(vs: seq<Json>, k: nat)
    requires WithBitrate(vs).Some?
    requires k < |WithBitrate(vs).value|
    ensures exists i :: KeptAt(vs, WithBitrate(vs).value, k, i)
    decreases |vs|
  {
    var init := vs[..|vs| - 1];
    var kept := WithBitrate(init).value;
    var v := vs[|vs| - 1];
    var all := WithBitrate(vs).value;
    if k < |kept| {
      WithBitrateIndex(init, k);
      var i :| KeptAt(init, kept, k, i);
      assert all[..k] == kept[..k];
      assert vs[i] == all[k];
      forall j | 0 <= j < i && HasBitrate(vs[j]) ensures vs[j] in all[..k] {
        assert init[j] == vs[j];
      }
      assert KeptAt(vs, all, k, i);
    } else {
      assert all == kept + [v] && k == |kept|;
      var i := |vs| - 1;
      assert all[..k] == kept;
      forall j | 0 <= j < i && HasBitrate(vs[j]) ensures vs[j] in all[..k] {
        assert init[j] == vs[j];
        assert vs[j] in init;
      }
      assert KeptAt(vs, all, k, i);
    }
  }

  lemma KeyBelowFirstMax(kept: seq<Json>, x: Json)
    requires kept != [] && x in kept
    ensures BitrateKey(x) <= BitrateKey(kept[StableSort.FirstMaxIndex(kept, BitrateKey)])
  {
    var m :| 0 <= m < |kept| && kept[m] == x;
  }

  lemma KeyBelowFirstMaxStrict(kept: seq<Json>, k: nat, x: Json)
    requires kept != [] && k == StableSort.FirstMaxIndex(kept, BitrateKey)
    requires x in kept[..k]
    ensures BitrateKey(x) < BitrateKey(kept[k])
  {
    var m :| 0 <= m < k && kept[..k][m] == x;
    assert kept[m] == x;
  }

  /** The chosen variant is the earliest of those with the greatest bitrate:
      the sort is stable, so ties keep the first. */
  lemma BestVariantIsFirstMax(vs: seq<Json>, best: Json)
    requires BestVariant(JArr(vs)) == Some(Some(best))
    ensures exists i :: EarliestGreatest(vs, i) && vs[i] == best
  {
    var kept := WithBitrate(vs).value;
    StableSort.SortDescHead(kept, BitrateKey);
    var k := StableSort.FirstMaxIndex(kept, BitrateKey);
    assert best == kept[k];
    WithBitrateIndex(vs, k);
    var i :| KeptAt(vs, kept, k, i);
    assert HasBitrate(best) by {
      assert best in kept;
    }
    forall j | 0 <= j < |vs| && HasBitrate(vs[j]) ensures BitrateKey(vs[j]) <= BitrateKey(best) {
      assert vs[j] != JNull;
      assert vs[j] in kept;
      KeyBelowFirstMax(kept, vs[j]);
    }
    forall j | 0 <= j < i && HasBitrate(vs[j]) ensures BitrateKey(vs[j]) < BitrateKey(best) {
      KeyBelowFirstMaxStrict(kept, k, vs[j]);
    }
    assert EarliestGreatest(vs, i);
  }

  /** When every variant is an object with a bitrate, the filter keeps them
      all. */
  lemma {:induction false} WithBitrateKeepsAll(vs: seq<Json>)
    requires forall j :: 0 <= j < |vs| ==> vs[j] != JNull && HasBitrate(vs[j])
    ensures WithBitrate(vs) == Some(vs)
    decreases |vs|
  {
    if vs != [] {
      var init, last := vs[..|vs| - 1], vs[|vs| - 1];
      assert forall j :: 0 <= j < |init| ==> init[j] == vs[j];
      WithBitrateKeepsAll(init);
      assert last != JNull && HasBitrate(last);
      assert init + [last] == vs;
    }
  }

  /** A variant `{ bitrate: n, url: u }` has the key n. */
  lemma VariantKey(n: int, u: string)
    ensures var v := JObj([Field("bitrate", JNum(n)), Field("url", JStr(u))]);
      HasBitrate(v) && BitrateKey(v) == n && OptProp(Some(v), "url") == Some(JStr(u))
  {
    var v := JObj([Field("bitrate", JNum(n)), Field("url", JStr(u))]);
    LookupAt(v.fields, "bitrate", 0);
  }

  /** The case of bitrates 300, 1200 and 800: the 1200 variant is chosen. */
  lemma BestOfThreeVariants(a: Json, b: Json, c: Json)
    requires a == JObj([Field("bitrate", JNum(300)), Field("url", JStr("low"))])
    requires b == JObj([Field("bitrate", JNum(1200)), Field("url", JStr("high"))])
    requires c == JObj([Field("bitrate", JNum(800)), Field("url", JStr("mid"))])
    ensures BestVariant(JArr([a, b, c])) == Some(Some(b))
  {
    var vs := [a, b, c];
    VariantKey(300, "low");
    VariantKey(1200, "high");
    VariantKey(800, "mid");
    BestOfKept(vs);
    SecondIsFirstMax(vs, BitrateKey);
  }

  /** When every variant has a bitrate, the earliest greatest one is chosen. */
  lemma BestOfKept(vs: seq<Json>)
    requires vs != []
    requires forall j :: 0 <= j < |vs| ==> vs[j] != JNull && HasBitrate(vs[j])
    ensures BestVariant(JArr(vs)) == Some(Some(vs[StableSort.FirstMaxIndex(vs, BitrateKey)]))
  {
    WithBitrateKeepsAll(vs);
    StableSort.SortDescHead(vs, BitrateKey);
  }

  lemma SecondIsFirstMax<T>(vs: seq<T>, key: T -> int)
    requires |vs| == 3 && key(vs[0]) < key(vs[1]) && key(vs[2]) <= key(vs[1])
    ensures StableSort.FirstMaxIndex(vs, key) == 1
  {
    var k := StableSort.FirstMaxIndex(vs, key);
    assert key(vs[1]) <= key(vs[k]);
  }

  // ---------------------------------------------------------------------
  // The record

  /** `{ data: { tweetResult: { result: q } } }`, the wrapper the quoted tweet
      is re-parsed under. */
  function QuoteWrapper(q: Json): (r: Json)
    ensures Size(r) == Size(q) + 3
  {
    Obj1("data", Obj1("tweetResult", Obj1("result", q)))
  }

  /** `result.core?.user_results?.result?.legacy` */
  function UserOf(result: Json): Option<Json> {
    OptChain(Prop(result, "core"), ["user_results", "result", "legacy"])
  }

  /** `result.quoted_status_result?.result` */
  function QuotedResultOf(result: Json): Option<Json> {
    OptProp(Prop(result, "quoted_status_result"), "result")
  }

  /** The `created_at` the record carries: the re-serialised creation time,
      or now when there is none; None when the date cannot be re-serialised. */
  function CreatedAt(legacy: Json, clock: Clock): Option<string> {
    var created := Prop(legacy, "created_at");
    if TruthyOpt(created) then clock.toIso(created.value) else Some(clock.now)
  }

  function MetricsOf(legacy: Json): Metrics {
    Metrics(
      Or(Prop(legacy, "favorite_count"), JNum(0)),
      Or(Prop(legacy, "retweet_count"), JNum(0)),
      Or(Prop(legacy, "reply_count"), JNum(0)),
      Or(Prop(legacy, "quote_count"), JNum(0)))
  }

  /** `parseTweet(rawData, sourceTag)`; None stands for the null it returns,
      both after the explicit checks and after a caught exception. */
  function Parse(raw: Json, sourceTag: string, clock: Clock): Option<ParsedTweet>
    decreases Size(raw)
  {
    match Resolve(raw)
    case None => None
    case Some(result) =>
      var legacy := Prop(result, "legacy");
      if !TruthyOpt(legacy) then None
      else
        match ExtractMedia(legacy.value)
        case None => None
        case Some(media) =>
          var q := QuotedResultOf(result);
          var quoted :=
            if TruthyOpt(Prop(legacy.value, "is_quote_status")) && TruthyOpt(q) then
              ResolveFromSmaller(raw, 0);
              PropSmaller(result, "quoted_status_result");
              OptPropSmaller(Prop(result, "quoted_status_result"), "result");
              Parse(QuoteWrapper(q.value), QuoteTag, clock)
            else None;
          match CreatedAt(legacy.value, clock)
          case None => None
          case Some(created) =>
            var user := UserOf(result);
            Some(ParsedTweet(
              tweetId := Or(Prop(result, "rest_id"), JStr("unknown")),
              fullText := Or(Prop(legacy.value, "full_text"), JStr("")),
              userName := Or(OptProp(user, "name"), JStr("Unknown")),
              userScreenName := Or(OptProp(user, "screen_name"), JStr("unknown")),
              userAvatar := Or(OptProp(user, "profile_image_url_https"), JStr("")),
              mediaUrls := media.urls,
              videoUrl := media.video,
              createdAt := created,
              metrics := MetricsOf(legacy.value),
              isQuoted := sourceTag == QuoteTag,
              quotedTweet := quoted,
              source := sourceTag,
              capturedAt := clock.now))
  }

  /** `parseTweet(rawData)` with the default tag. */
  function ParseDefault(raw: Json, clock: Clock): Option<ParsedTweet> {
    Parse(raw, DefaultSourceTag, clock)
  }

  /** parseTweet as written: the path loop, the media loop and the recursive
      call for the quoted tweet, each early return standing for the `return
      null` or the caught exception at that point. */
  method ParseTweet(raw: Json, sourceTag: string, clock: Clock) returns (r: Option<ParsedTweet>)
    ensures r == Parse(raw, sourceTag, clock)
    decreases Size(raw)
  {
    var result := ResolveRoot(raw);
    if result.None? {
      return None;
    }
    var legacy := Prop(result.value, "legacy");
    if !TruthyOpt(legacy) {
      return None;
    }
    var media := CollectMedia(legacy.value);
    if media.None? {
      return None;
    }
    var quotedTweet: Option<ParsedTweet> := None;
    var q := QuotedResultOf(result.value);
    if TruthyOpt(Prop(legacy.value, "is_quote_status")) && TruthyOpt(q) {
      ResolveFromSmaller(raw, 0);
      PropSmaller(result.value, "quoted_status_result");
      OptPropSmaller(Prop(result.value, "quoted_status_result"), "result");
      var parsed := ParseTweet(QuoteWrapper(q.value), QuoteTag, clock);
      if parsed.Some? {
        quotedTweet := parsed;
      }
    }
    var created := CreatedAt(legacy.value, clock);
    if created.None? {
      return None;
    }
    var user := UserOf(result.value);
    r := Some(ParsedTweet(
      tweetId := Or(Prop(result.value, "rest_id"), JStr("unknown")),
      fullText := Or(Prop(legacy.value, "full_text"), JStr("")),
      userName := Or(OptProp(user, "name"), JStr("Unknown")),
      userScreenName := Or(OptProp(user, "screen_name"), JStr("unknown")),
      userAvatar := Or(OptProp(user, "profile_image_url_https"), JStr("")),
      mediaUrls := media.value.urls,
      videoUrl := media.value.video,
      createdAt := created.value,
      metrics := MetricsOf(legacy.value),
      isQuoted := sourceTag == QuoteTag,
      quotedTweet := quotedTweet,
      source := sourceTag,
      capturedAt := clock.now));
  }

  // ---------------------------------------------------------------------
  // Properties of Parse

  /** null when no path resolves ... */
  lemma ParseNullWithoutPath(raw: Json, sourceTag: string, clock: Clock)
    requires forall j :: 0 <= j < |Paths| ==> !Found(raw, j)
    ensures Parse(raw, sourceTag, clock) == None
  {
    ResolveNoneIff(raw);
  }

  /** ... when the resolved node has no truthy `legacy` ... */
  lemma ParseNullWithoutLegacy(raw: Json, sourceTag: string, clock: Clock)
    requires Resolve(raw).Some? && !TruthyOpt(Prop(Resolve(raw).value, "legacy"))
    ensures Parse(raw, sourceTag, clock) == None
  {
  }

  lemma ParseNullOnMediaThrow(raw: Json, sourceTag: string, clock: Clock)
    requires Resolve(raw).Some? && TruthyOpt(Prop(Resolve(raw).value, "legacy"))
    requires ExtractMedia(Prop(Resolve(raw).value, "legacy").value).None?
    ensures Parse(raw, sourceTag, clock) == None
  {
  }

  /** ... when `toISOString` throws on the creation date ... */
  lemma ParseNullOnBadDate(raw: Json, sourceTag: string, clock: Clock)
    requires Resolve(raw).Some? && TruthyOpt(Prop(Resolve(raw).value, "legacy"))
    requires TruthyOpt(Prop(Prop(Resolve(raw).value, "legacy").value, "created_at"))
    requires clock.toIso(Prop(Prop(Resolve(raw).value, "legacy").value, "created_at").value).None?
    ensures Parse(raw, sourceTag, clock) == None
  {
  }

  /** ... and when some media entity makes the forEach throw. */
  lemma ParseNullOnThrowingEntity(raw: Json, sourceTag: string, clock: Clock, i: nat)
    requires Resolve(raw).Some? && TruthyOpt(Prop(Resolve(raw).value, "legacy"))
    requires EntitiesMedia(Prop(Resolve(raw).value, "legacy").value).Some?
    requires EntitiesMedia(Prop(Resolve(raw).value, "legacy").value).value.JArr?
    requires i < |EntitiesMedia(Prop(Resolve(raw).value, "legacy").value).value.items|
    requires EntityThrows(EntitiesMedia(Prop(Resolve(raw).value, "legacy").value).value.items[i])
    ensures Parse(raw, sourceTag, clock) == None
  {
    var legacy := Prop(Resolve(raw).value, "legacy").value;
    ExtractMediaThrows(legacy, i);
    ParseNullOnMediaThrow(raw, sourceTag, clock);
  }

  lemma ExtractMediaThrows(legacy: Json, i: nat)
    requires EntitiesMedia(legacy).Some? && EntitiesMedia(legacy).value.JArr?
    requires i < |EntitiesMedia(legacy).value.items|
    requires EntityThrows(EntitiesMedia(legacy).value.items[i])
    ensures ExtractMedia(legacy).None?
  {
    MediaFoldSpec(EntitiesMedia(legacy).value.items);
  }

  /** A successful parse comes from a resolved node with a truthy `legacy`,
      its media and video are those of the entity list, and the provenance
      fields follow the tag: `is_quoted` exactly when the tag is "quote",
      `source` always the tag, `captured_at` always now. */
  lemma ParseSuccess(raw: Json, sourceTag: string, clock: Clock)
    requires Parse(raw, sourceTag, clock).Some?
    ensures Resolve(raw).Some?
    ensures TruthyOpt(Prop(Resolve(raw).value, "legacy"))
    ensures var t := Parse(raw, sourceTag, clock).value;
      var legacy := Prop(Resolve(raw).value, "legacy").value;
      && t.isQuoted == (sourceTag == "quote")
      && t.source == sourceTag
      && t.capturedAt == clock.now
      && (EntitiesMedia(legacy).Some? && EntitiesMedia(legacy).value.JArr? && Truthy(EntitiesMedia(legacy).value) ==>
            t.mediaUrls == AllEntityUrls(EntitiesMedia(legacy).value.items) &&
            t.videoUrl == LastVideo(EntitiesMedia(legacy).value.items))
      && (!TruthyOpt(EntitiesMedia(legacy)) ==> t.mediaUrls == [] && t.videoUrl == None)
  {
    var legacy := Prop(Resolve(raw).value, "legacy").value;
    if TruthyOpt(EntitiesMedia(legacy)) {
      MediaFoldSpec(EntitiesMedia(legacy).value.items);
    }
  }

  /** Missing or falsy fields take their literal defaults, present truthy
      ones are copied: "unknown" id, "" text, "Unknown" name, "unknown"
      screen name, "" avatar, 0 for each metric, and now for the creation
      time, which is otherwise re-serialised. */
  lemma ParseDefaults(raw: Json, sourceTag: string, clock: Clock)
    requires Parse(raw, sourceTag, clock).Some?
    ensures var t := Parse(raw, sourceTag, clock).value;
      var result := Resolve(raw).value;
      var legacy := Prop(result, "legacy").value;
      var user := UserOf(result);
      && t.tweetId == (if TruthyOpt(Prop(result, "rest_id")) then Prop(result, "rest_id").value else JStr("unknown"))
      && t.fullText == (if TruthyOpt(Prop(legacy, "full_text")) then Prop(legacy, "full_text").value else JStr(""))
      && t.userName == (if TruthyOpt(OptProp(user, "name")) then OptProp(user, "name").value else JStr("Unknown"))
      && t.userScreenName == (if TruthyOpt(OptProp(user, "screen_name")) then OptProp(user, "screen_name").value else JStr("unknown"))
      && t.userAvatar == (if TruthyOpt(OptProp(user, "profile_image_url_https")) then OptProp(user, "profile_image_url_https").value else JStr(""))
      && t.metrics.likes == (if TruthyOpt(Prop(legacy, "favorite_count")) then Prop(legacy, "favorite_count").value else JNum(0))
      && t.metrics.retweets == (if TruthyOpt(Prop(legacy, "retweet_count")) then Prop(legacy, "retweet_count").value else JNum(0))
      && t.metrics.replies == (if TruthyOpt(Prop(legacy, "reply_count")) then Prop(legacy, "reply_count").value else JNum(0))
      && t.metrics.quotes == (if TruthyOpt(Prop(legacy, "quote_count")) then Prop(legacy, "quote_count").value else JNum(0))
      && t.createdAt == (if TruthyOpt(Prop(legacy, "created_at")) then clock.toIso(Prop(legacy, "created_at").value).value else clock.now)
      && Truthy(t.tweetId) && Truthy(t.userName) && Truthy(t.userScreenName)
  {
  }

  /** With no tag the source is "extension" and the record is not a quote. */
  lemma ParseDefaultTag(raw: Json, clock: Clock)
    requires ParseDefault(raw, clock).Some?
    ensures ParseDefault(raw, clock).value.source == "extension"
    ensures !ParseDefault(raw, clock).value.isQuoted
  {
  }

  /** The quote wrapper resolves through the fourth path to the quoted
      result (unwrapped once). */
  lemma QuoteWrapperResolves(q: Json)
    requires Truthy(q)
    ensures Resolve(QuoteWrapper(q)) == Some(Unwrap(q))
  {
    var w := QuoteWrapper(q);
    forall j | 0 <= j < 3 ensures !Found(w, j) {
      assert Prop(Prop(w, "data").value, "tweetResult").Some?;
    }
    assert Candidate(w, 3) == Some(q);
    ResolveFirstTruthyWins(w, 3);
  }

  /** `quoted_tweet` is set exactly when `is_quote_status` is truthy, a quoted
      result is present and its own parse under the "quote" tag succeeds;
      it is then that parse, so it is marked as a quote. */
  lemma QuotedTweetIff(raw: Json, sourceTag: string, clock: Clock)
    requires Parse(raw, sourceTag, clock).Some?
    ensures var t := Parse(raw, sourceTag, clock).value;
      var result := Resolve(raw).value;
      var q := QuotedResultOf(result);
      && (t.quotedTweet.Some? <==>
            TruthyOpt(Prop(Prop(result, "legacy").value, "is_quote_status")) && TruthyOpt(q) &&
            Parse(QuoteWrapper(q.value), "quote", clock).Some?)
      && (t.quotedTweet.Some? ==>
            t.quotedTweet == Parse(QuoteWrapper(q.value), "quote", clock) &&
            t.quotedTweet.value.isQuoted && t.quotedTweet.value.source == "quote")
  {
    var t := Parse(raw, sourceTag, clock).value;
    if t.quotedTweet.Some? {
      var q := QuotedResultOf(Resolve(raw).value);
      ParseSuccess(QuoteWrapper(q.value), "quote", clock);
    }
  }

  // The favorite payload of extension/simulate_test.js, with the parts it
  // computes from the clock (rest_id, text and creation date) as parameters,
  // and the author's `legacy` object as a parameter too (the test's own is
  // SimulatedUser); the lemmas below hold for any author.

  function SimulatedUser(): Json {
    JObj([
      Field("name", JStr("APEX Tester")),
      Field("screen_name", JStr("apex_test_bot")),
      Field("profile_image_url_https", JStr("https://abs.twimg.com/sticky/default_profile_images/default_profile_normal.png"))])
  }

  function SimulatedLegacy(text: string, createdAt: string): Json {
    JObj([
      Field("full_text", JStr(text)),
      Field("created_at", JStr(createdAt)),
      Field("favorite_count", JNum(42)),
      Field("retweet_count", JNum(7)),
      Field("reply_count", JNum(3)),
      Field("quote_count", JNum(1)),
      Field("entities", Obj1("media", JArr([])))])
  }

  function SimulatedResult(restId: string, text: string, createdAt: string, user: Json): Json {
    JObj([
      Field("__typename", JStr("Tweet")),
      Field("rest_id", JStr(restId)),
      Field("legacy", SimulatedLegacy(text, createdAt)),
      Field("core", Obj1("user_results", Obj1("result", Obj1("legacy", user))))])
  }

  function SimulatedPayload(restId: string, text: string, createdAt: string, user: Json): Json {
    Obj1("data", Obj1("favorite_tweet", Obj1("result", SimulatedResult(restId, text, createdAt, user))))
  }

  /** The favorite payload of extension/simulate_test.js resolves through the
      favorite_tweet path (the create_tweet path is absent). */
  lemma SimulatedResolves(restId: string, text: string, createdAt: string, user: Json)
    ensures Resolve(SimulatedPayload(restId, text, createdAt, user)) == Some(SimulatedResult(restId, text, createdAt, user))
  {
    var raw := SimulatedPayload(restId, text, createdAt, user);
    var result := SimulatedResult(restId, text, createdAt, user);
    assert !Found(raw, 0);
    assert Candidate(raw, 1) == Some(result);
    ResolveFirstTruthyWins(raw, 1);
    assert Prop(result, "tweet") == None;
  }

  /** Its `rest_id` is the one the record is keyed by. */
  lemma SimulatedRestId(restId: string, text: string, createdAt: string, user: Json)
    ensures Prop(SimulatedResult(restId, text, createdAt, user), "rest_id") == Some(JStr(restId))
  {
    LookupAt(SimulatedResult(restId, text, createdAt, user).fields, "rest_id", 1);
  }
}
