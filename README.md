# APEX capture and analytics core in Dafny

APEX is a browser extension plus a dashboard for X.com. The extension
intercepts the GraphQL traffic of the X.com web app, turns liked,
bookmarked and viewed tweets into flat records, and uploads them. The
dashboard ("apex-hub") aggregates the stored tweets into statistics,
topic clusters and an activity heatmap. This project models that core in
Dafny and proves what each part promises:

- `json.dfy` (`JsValue`): the parsed JSON values the extension sees, with
  JavaScript truthiness, `v[key]`, `v?.key` and `||`.
- `parser.dfy` (`TweetParser`): `parseTweet`. It covers the four result
  paths with their one-level `tweet` unwrap, the media `forEach` with the
  best-bitrate video variant, the recursive parse of a quoted tweet, the
  literal defaults, and every exception that the try/catch turns into
  `null`.
- `hook.dfy` (`Hook`): the page hook. It covers the `ct0` CSRF-cookie scan,
  URL classification into capture actions, and the messages the patched
  `fetch` and `XMLHttpRequest` post. The class `PageHook` holds
  `lastCapturedApiUrl` and the window's message queue.
- `storage.dfy` (`Storage`): the IndexedDB buffer `apex-cache` as a class
  `Database`. It has one auto-increment object store with a unique
  `by-tweet-id` index, and `saveTweet`'s key fallback.
- `background.dfy` (`Background`): the service worker's `APEX_UPLOAD`
  filter and the row its upload handler builds.
- `stats.dfy` (`Stats`): `fetchQuantifiedStats`. It covers the total, the
  seven-day velocity buckets, week over week growth, the top five authors
  (Object.entries order included) and the media split.
- `clusters.dfy` (`Clusters`): `fetchNeuralClusters`. It covers
  tokenizing, the stop-word filter, counting, the stable sort by frequency,
  and the nodes weighted 1 to 5.
- `analytics.dfy` (`Analytics`): `fetchActivityHeatmap`, the count of
  captures per UTC day.
- `png.dfy` (`Png`): `make_png` of the icon generator. It builds the PNG
  signature and the IHDR, IDAT and IEND chunks, with big-endian 32-bit
  fields and masked checksums.
- Shared pieces:
  - `counting.dfy`: counting with a test.
  - `keycount.dfy`: a plain object used as a counter, kept in insertion
    order.
  - `stable_sort.dfy`: `Array.prototype.sort`, which is stable, by a
    descending key, and `slice(0, n)`.
  - `rounding.dfy`: `Math.round` of an exact quotient.
  - `decimal.dfy`: decimal text of naturals.

The loops of the source are methods with loop invariants: the path loop,
the media `forEach`, the cookie scan, the capture, author and media loops
of the statistics, the word count and the heatmap count. Each is proved
equal to a function, and the lemmas state what the source promises about
that function. The code is followed where the documentation disagrees
with it:
- the background handler reads `favorite_tweet.rest_id`, where the parser
  reads `favorite_tweet.result`;
- `saveTweet` reads `rest_id`, which a parsed record does not have.

Lemmas show what each of these leads to.

Inputs from outside are parameters:
- the clock (`Date.now()`, `new Date()`, `subDays`, a date's calendar day);
- `new Date(x).toISOString()` for a given text;
- `document.cookie`;
- the XHR's `_apexUrl`;
- the body of a response, as parsed JSON or None when it does not parse;
- the rows a Supabase query returns;
- `zlib.crc32` and `zlib.compress`.

## Model

| member | source | states |
|---|---|---|
| JsValue.Lookup | extension/utils/parser.ts:80 | a property read finds a field with that key exactly when the object has one, and yields that field's value |
| JsValue.LookupAt | extension/utils/parser.ts:80 | a repeated key reads as its last occurrence |
| TweetParser.ResolveRoot | extension/utils/parser.ts:73-92 | the path loop yields the resolved result: the first truthy path, unwrapped once through `tweet` |
| TweetParser.ResolveFirstTruthyWins | extension/utils/parser.ts:83-92 | when path i is the first one that yields a truthy value, the result is that value, unwrapped once |
| TweetParser.ResolveNoneIff | extension/utils/parser.ts:83-94 | there is no result exactly when none of the four paths yields a truthy value |
| TweetParser.UnwrapOnce | extension/utils/parser.ts:87-89 | a found value with a truthy `tweet` member resolves to that member |
| TweetParser.GetOfNone | extension/utils/parser.ts:80 | `get` over an undefined start stays undefined along any path |
| TweetParser.GetSmaller | extension/utils/parser.ts:80 | every step of a path descends into a strictly smaller value |
| TweetParser.ResolveFromSmaller | extension/utils/parser.ts:83-92 | a resolved result is at least three levels smaller than the payload, so the quoted-tweet recursion ends |
| TweetParser.QuoteWrapper | extension/utils/parser.ts:123 | the quote wrapper adds exactly three levels around the quoted result |
| TweetParser.WithBitrate | extension/utils/parser.ts:112 | the filter throws exactly when a variant is null; otherwise it keeps exactly the variants that declare a bitrate |
| TweetParser.WithBitrateKeepsAll | extension/utils/parser.ts:112 | when every variant declares a bitrate, the filter keeps all of them in order |
| TweetParser.WithBitrateIndex | extension/utils/parser.ts:112 | each kept variant comes from a position of the input, and the kept ones stay in input order |
| TweetParser.BestVariantIsFirstMax | extension/utils/parser.ts:111-113 | the chosen variant has the greatest bitrate among those that declare one, and it is the earliest such variant |
| TweetParser.BestOfKept | extension/utils/parser.ts:111-113 | when all variants declare a bitrate, the choice is the first one of greatest bitrate |
| TweetParser.BestOfThreeVariants | extension/utils/parser.ts:111-114 | given variants of 300, 1200 and 800, the 1200 one is chosen |
| TweetParser.MediaStepSpec | extension/utils/parser.ts:105-117 | one media entity throws exactly when it is null or is a video whose variants are unusable; otherwise it appends its URL and may replace the video URL |
| TweetParser.MediaFoldSpec | extension/utils/parser.ts:104-118 | the media loop throws exactly when some entity throws; otherwise `media_urls` lists the entities' URLs in order, and the video URL is the one that the last video with a usable best variant sets |
| TweetParser.MediaFoldThrown | extension/utils/parser.ts:105-117 | an exception partway through the loop ends the whole loop |
| TweetParser.CollectMedia | extension/utils/parser.ts:101-118 | the media loop as written computes the media of the entities |
| TweetParser.MediaUrlsBound | extension/utils/parser.ts:101-118 | at most one URL per media entity |
| TweetParser.ParseTweet | extension/utils/parser.ts:70-153 | parseTweet as written, with its path loop, media loop and quoted recursion, computes Parse |
| TweetParser.ParseNullWithoutPath | extension/utils/parser.ts:94 | null when no path resolves |
| TweetParser.ParseNullWithoutLegacy | extension/utils/parser.ts:94 | null when the result has no truthy `legacy` |
| TweetParser.ParseNullOnMediaThrow | extension/utils/parser.ts:104-118 | null when the media loop throws; the catch turns the exception into null |
| TweetParser.ParseNullOnThrowingEntity | extension/utils/parser.ts:105-117 | a single throwing media entity makes the whole parse null |
| TweetParser.ExtractMediaThrows | extension/utils/parser.ts:105-117 | a single throwing entity makes the media extraction fail |
| TweetParser.ParseSuccess | extension/utils/parser.ts:128-147 | a successful parse starts from a resolved result with a truthy `legacy`; `is_quoted` is set exactly for the "quote" tag; the source tag and capture time are copied; the media lists are those of the entities, or empty without any |
| TweetParser.ParseDefaults | extension/utils/parser.ts:129-142 | the id, text, name, screen name and avatar are the payload's values when truthy and otherwise "unknown", "", "Unknown", "unknown" and ""; each metric is the payload's count when truthy and otherwise 0; `created_at` is the re-serialised creation date when one is given and otherwise now |
| TweetParser.ParseNullOnBadDate | extension/utils/parser.ts:136-152 | a creation date that `toISOString` refuses makes the parse null; the catch turns the RangeError into null |
| TweetParser.ParseDefaultTag | extension/utils/parser.ts:70 | without a tag the source is "extension" and the record is not a quote |
| TweetParser.QuoteWrapperResolves | extension/utils/parser.ts:123-124 | the wrapper built for a quoted tweet resolves, through the fourth path, to that quoted result |
| TweetParser.QuotedTweetIff | extension/utils/parser.ts:121-126 | `quoted_tweet` is present exactly when `is_quote_status` is truthy, a quoted result exists and its own parse succeeds; it is then that parse, marked as a quote |
| TweetParser.SimulatedResolves | extension/simulate_test.js:8-39 | the simulated favorite payload resolves through the second path to its result object |
| TweetParser.SimulatedRestId | extension/simulate_test.js:11-13 | the simulated result carries the generated rest id |
| Hook.SplitPieces | extension/contents/hook.ts:18 | no piece of a split contains the separator |
| Hook.JoinSplit | extension/contents/hook.ts:18 | splitting loses nothing: joining the pieces with the separator gives back the text |
| Hook.SplitAt | extension/contents/hook.ts:20 | the text before the first separator is the first piece |
| Hook.Trim | extension/contents/hook.ts:20 | the result is a slice of the cookie with only white space outside it, and it neither starts nor ends with white space: exactly the leading and trailing white space is removed |
| Hook.TrimLeading | extension/contents/hook.ts:18-20 | the white space that `split(';')` leaves before a cookie's name is all that trimming removes |
| Hook.TrimmedUnchanged | extension/contents/hook.ts:20 | trimming leaves text with no white space at its ends unchanged |
| Hook.CookieValue | extension/contents/hook.ts:20 | the destructured value is a token or undefined, never null |
| Hook.CookieValueCut | extension/contents/hook.ts:20-22 | in `ct0=v=rest`, after any leading white space, the name is `ct0` and the value is `v`, the second piece only |
| Hook.CookieValueWhole | extension/contents/hook.ts:20-22 | `ct0=v`, after any leading white space such as `; ` leaves, gives the token `v` |
| Hook.CookieWithoutValue | extension/contents/hook.ts:20-22 | a bare `ct0` yields an undefined value |
| Hook.CsrfNullIff | extension/contents/hook.ts:14-24 | the token stays null exactly when no cookie is named `ct0` |
| Hook.CsrfLastWins | extension/contents/hook.ts:19-24 | the last cookie named `ct0` gives the token |
| Hook.ExtractAuthFromCookies | extension/contents/hook.ts:14-30 | the loop as written yields the fixed public bearer and the token taken from the cookies |
| Hook.ActionTag | extension/contents/hook.ts:87-91 | the tag is "view" exactly for the view action |
| Hook.ActionTagInjective | extension/contents/hook.ts:87-91 | different actions have different tags |
| Hook.ClassifyAction | extension/contents/hook.ts:87-91 | the chain of `if` statements, with later ones overriding earlier ones, yields the URL's action |
| Hook.FetchViewIff | extension/contents/hook.ts:79-91 | a fetch capture is a "view" exactly when the URL mentions TweetDetail and no like, bookmark or timeline operation |
| Hook.XhrNeverView | extension/contents/hook.ts:131-142 | an XHR capture never gets the "view" action |
| Hook.XhrWithinFetch | extension/contents/hook.ts:131-137 | every URL the XHR path captures is captured by fetch as well; the URLs only fetch captures are exactly its views |
| Hook.AuthRequestIsTimelineCapture | extension/contents/hook.ts:121 | a request that triggers the auth send is itself captured, as a likes or bookmarks timeline |
| Hook.PageHook.constructor | extension/contents/hook.ts:33 | no API URL is recorded and nothing has been posted |
| Hook.PageHook.SendAuthWithApiUrl | extension/contents/hook.ts:36-64 | with a token, one auth update carrying the token and URL is posted and the URL is recorded; without one, nothing changes |
| Hook.PageHook.OnFetchResponse | extension/contents/hook.ts:69-105 | the response is returned unchanged; a GraphQL capture posts its message; the recorded URL is untouched |
| Hook.PageHook.OnXhrSend | extension/contents/hook.ts:116-126 | the URL is `_apexUrl` or ""; the body is passed on unchanged; auth is sent exactly for a Likes or Bookmarks API request that has a token |
| Hook.PageHook.OnXhrLoad | extension/contents/hook.ts:127-153 | on load, a GraphQL capture posts its message, and a body that does not parse posts nothing |
| Storage.Add | extension/storage.ts:41-46 | the add fails exactly when the unique index already holds the key; otherwise it appends one record and keeps the others |
| Storage.AddRecord | extension/storage.ts:41-46 | the new record carries the generated id, the key, the data, the time and `synced: false`, and the generator moves on |
| Storage.AddValid | extension/storage.ts:22-28 | adding keeps the store invariant: increasing primary keys below the generator, and a unique index |
| Storage.AddDuplicate | extension/storage.ts:27 | a second record with an indexed key is refused |
| Storage.TweetKey | extension/storage.ts:39 | the key is the truthy `rest_id`, else the truthy `tweet.rest_id`, else the current time in decimal, so it is always truthy |
| Storage.EmptyRestIdFallsThrough | extension/storage.ts:39 | an empty `rest_id` is skipped in favour of the time |
| Storage.ParsedTweetKeyedByTime | extension/storage.ts:39 | a parsed record, which has `tweet_id` and no `rest_id`, is keyed by the time |
| Storage.Database.constructor | extension/storage.ts:16-17 | the database starts without a store |
| Storage.Database.InitDB | extension/storage.ts:19-31 | the upgrade creates an empty store only when none exists, and keeps the invariant |
| Storage.Database.SaveTweet | extension/storage.ts:33-51 | the store gains the record when the add succeeds and is left as initDB left it when the add fails |
| Storage.SaveTwice | extension/storage.ts:33-51 | saving the same tweet twice stores it once when its key does not depend on the time (a truthy `rest_id` or `tweet.rest_id`) |
| Background.UploadRowOf | extension/background.ts:17-36 | the row's id is the created tweet's rest id, else `favorite_tweet.rest_id`, else the time; the text is the created tweet's, else "No text found"; the source and capture time are fixed |
| Background.CreatedTweetKeyed | extension/background.ts:20 | a created tweet is keyed by its own rest id |
| Background.FavoriteResultKeyedByTime | extension/background.ts:20-22 | a favorite payload shaped as the parser expects it is keyed by the time |
| Stats.VelocityOfNone | apex-hub/src/lib/stats.ts:36-39 | seven zero buckets when nothing was captured |
| Stats.AddToBuckets | apex-hub/src/lib/stats.ts:52-56 | a capture raises exactly the bucket of its day |
| Stats.TallyCaptures | apex-hub/src/lib/stats.ts:44-64 | the capture loop rejects exactly on an unreadable date; otherwise it yields the velocity buckets and the two weekly counts |
| Stats.BucketsOfOneRow | apex-hub/src/lib/stats.ts:52-56 | a row falls in exactly one bucket when it is in the seven-day window, and in none otherwise |
| Stats.VelocitySum | apex-hub/src/lib/stats.ts:52-56 | the buckets add up to the captures of the last seven days |
| Stats.WeeksSplit | apex-hub/src/lib/stats.ts:59-63 | no row counts in both weeks; together the weeks count the captures of the last fourteen days, at most all captures |
| Stats.WeekOverWeek | apex-hub/src/lib/stats.ts:69-71 | without a previous week, the current count times 100; otherwise the percentage change, rounded half up |
| Stats.WeekOverWeekCases | apex-hub/src/lib/stats.ts:69-71 | an equal week gives 0, a doubled week 100, an empty week -100 |
| Stats.CountVisual | apex-hub/src/lib/stats.ts:91-96 | the loop counts the rows whose media list is a non-empty array |
| Stats.VisualPct | apex-hub/src/lib/stats.ts:98 | a percentage from 0 to 100, rounded half up, and 0 when there are no rows |
| Stats.BuildAuthorMap | apex-hub/src/lib/stats.ts:75-82 | the loop builds the author table |
| Stats.TallyStepEntry | apex-hub/src/lib/stats.ts:77-81 | one row creates its author with count 1 and its avatar, or increments it, and leaves the other authors alone |
| Stats.TallyEntry | apex-hub/src/lib/stats.ts:75-82 | each author appears once, exactly when some row names them; with the number of rows naming them and the avatar of the first such row |
| Stats.EntryOfMember | apex-hub/src/lib/stats.ts:75-82 | each entry's name finds that entry |
| Stats.ObjectEntries | apex-hub/src/lib/stats.ts:84 | Object.entries lists every entry exactly once |
| Stats.ObjectEntriesIndexFirst | apex-hub/src/lib/stats.ts:84 | in Object.entries, names that are array indices come first, in increasing numeric order |
| Stats.TopOfSorted | apex-hub/src/lib/stats.ts:84-87 | at most five authors, as many as exist up to five, in non-increasing count |
| Stats.TopAuthorEntry | apex-hub/src/lib/stats.ts:75-87 | each top author has the count and avatar of the rows naming them, and at least one row |
| Stats.TopAuthorsBound | apex-hub/src/lib/stats.ts:84-87 | an author left out of the top five has no more rows than the fifth |
| Stats.FetchQuantifiedStats | apex-hub/src/lib/stats.ts:15-111 | the function as written computes the statistics, its three loops included |
| Stats.StatsSpec | apex-hub/src/lib/stats.ts:98-110 | one total per row, seven buckets, a media split summing to 100, and no rows giving 100% text |
| Stats.StatsFailures | apex-hub/src/lib/stats.ts:21-29 | an error or missing data gives the zero statistics; an unreadable date rejects |
| Clusters.Content | apex-hub/src/lib/clusters.ts:42 | a null text renders as "null " |
| Clusters.ToLower | apex-hub/src/lib/clusters.ts:42 | on ASCII text, each character in its place becomes its lower case; on any text, no upper-case ASCII letter remains and none is dropped |
| Clusters.ToLowerAppend | apex-hub/src/lib/clusters.ts:42 | lowering works character by character: the lower case of a + b is that of a followed by that of b |
| Clusters.KeepWordAndSpace | apex-hub/src/lib/clusters.ts:44 | only word characters and white space remain; a text made of them is kept whole, and a text with none of them vanishes |
| Clusters.KeepAppend | apex-hub/src/lib/clusters.ts:44 | removal works piece by piece, so each character of the text stays, in order, exactly when it is a word or white-space character |
| Clusters.SplitSpace | apex-hub/src/lib/clusters.ts:44 | no piece contains white space, and there is always at least one piece |
| Clusters.SplitSpaceNoSpace | apex-hub/src/lib/clusters.ts:44 | a text without white space is a single piece |
| Clusters.SplitSpaceRun | apex-hub/src/lib/clusters.ts:44 | a trailing white-space run ends the last piece and leaves an empty piece after it |
| Clusters.SplitSpaceCut | apex-hub/src/lib/clusters.ts:44 | a white-space run between a and b cuts the text there: the pieces are those of a followed by those of b |
| Clusters.SplitSpaceKeepsText | apex-hub/src/lib/clusters.ts:44 | the pieces together hold exactly the text's characters that are not white space |
| Clusters.WordsAreLowerWordChars | apex-hub/src/lib/clusters.ts:42-44 | every word consists of lower-case word characters |
| Clusters.Kept | apex-hub/src/lib/clusters.ts:47 | every kept word passes the filter |
| Clusters.KeptCount | apex-hub/src/lib/clusters.ts:46-50 | a word that passes the filter is kept as often as it occurs; any other word never is |
| Clusters.CountInto | apex-hub/src/lib/clusters.ts:46-50 | the inner loop adds one tweet's words to the counter |
| Clusters.CountWords | apex-hub/src/lib/clusters.ts:40-51 | the outer loop counts the kept words of all tweets |
| Clusters.MaxCount | apex-hub/src/lib/clusters.ts:59 | the divisor is at least 1, and for counts sorted in non-increasing order no count exceeds it |
| Clusters.NodeIdInjective | apex-hub/src/lib/clusters.ts:62 | node ids differ for different positions |
| Clusters.Weight | apex-hub/src/lib/clusters.ts:64 | one plus four times count over max, rounded half up |
| Clusters.FetchNeuralClusters | apex-hub/src/lib/clusters.ts:9-66 | the function as written computes the nodes from the rows |
| Clusters.TopWordsSorted | apex-hub/src/lib/clusters.ts:54-56 | at most twenty words, as many as exist up to twenty, in non-increasing count |
| Clusters.TopWordEntry | apex-hub/src/lib/clusters.ts:46-56 | each top word passes the filter and carries its number of occurrences |
| Clusters.TopWordsBound | apex-hub/src/lib/clusters.ts:54-56 | a word left out of the top twenty has no more occurrences than the twentieth |
| Clusters.WeightsInRange | apex-hub/src/lib/clusters.ts:59-65 | weights run from 1 to 5, the first is 5, and they never increase |
| Clusters.NoTweetsNoNodes | apex-hub/src/lib/clusters.ts:35 | no rows or no data give no nodes |
| Clusters.ClustersShape | apex-hub/src/lib/clusters.ts:54-65 | at most twenty nodes, numbered in order, weighted 1 to 5 from 5 downwards |
| Clusters.ClusterLabel | apex-hub/src/lib/clusters.ts:61-65 | each node's word occurs, and its weight is its frequency against the first word's |
| Clusters.ClusterLabelsDistinct | apex-hub/src/lib/clusters.ts:54-63 | no word labels two nodes |
| Clusters.ClusterTopBound | apex-hub/src/lib/clusters.ts:54-56 | a counted word without a node occurs no more often than the twentieth node's word |
| KeyCount.TallyEntry | apex-hub/src/lib/analytics.ts:30 | the counter holds each key once, exactly when it occurred, with its number of occurrences |
| KeyCount.TallyTotal | apex-hub/src/lib/analytics.ts:30 | the counts add up to the number of keys counted |
| KeyCount.EntryOfMember | apex-hub/src/lib/clusters.ts:48 | every entry counts its key's occurrences, at least one |
| Analytics.BeforeFirst | apex-hub/src/lib/analytics.ts:29 | `split('T')[0]` is the prefix before the first `T`, or the whole text |
| Analytics.BeforeFirstOf | apex-hub/src/lib/analytics.ts:29 | cutting the ISO text at `T` gives exactly its date part |
| Analytics.DateKey | apex-hub/src/lib/analytics.ts:29 | the key is the UTC date "YYYY-MM-DD" |
| Analytics.DateText | apex-hub/src/lib/analytics.ts:29 | the date text holds a '-' and no 'T' |
| Analytics.FetchActivityHeatmap | apex-hub/src/lib/analytics.ts:8-38 | the function as written computes the heatmap, rejecting on an unreadable date |
| Analytics.DatesCount | apex-hub/src/lib/analytics.ts:26-31 | each captured row gives one key, under its date |
| Analytics.HeatmapEntry | apex-hub/src/lib/analytics.ts:24-37 | the dates are distinct, each date with captures appears exactly once, and its count is its number of rows |
| Analytics.HeatmapTotal | apex-hub/src/lib/analytics.ts:26-31 | the counts add up to the captured rows |
| Analytics.HeatmapFailures | apex-hub/src/lib/analytics.ts:16-21 | an error or no data gives an empty list; an unreadable date rejects |
| StableSort.SortDesc | apex-hub/src/lib/stats.ts:86 | the sort is a permutation |
| StableSort.SortDescSorted | apex-hub/src/lib/stats.ts:86 | the sort yields non-increasing keys |
| StableSort.SortDescHead | extension/utils/parser.ts:113 | the sort's first element is the earliest element of greatest key, as a stable sort gives it |
| StableSort.FirstMaxIndex | extension/utils/parser.ts:113 | the position of the greatest key, earliest among equals |
| StableSort.SortDescStable | apex-hub/src/lib/stats.ts:86 | the sort is stable: the elements of any one key keep their input order |
| StableSort.TopStable | apex-hub/src/lib/stats.ts:86-87 | what `slice(0, n)` keeps of one key is that key's first elements in input order |
| StableSort.TopBound | apex-hub/src/lib/stats.ts:86-87 | what the slice drops has keys no greater than the last one kept |
| StableSort.Take | apex-hub/src/lib/stats.ts:87 | `slice(0, n)` keeps the first n elements, or all |
| Rounding.RoundDiv | apex-hub/src/lib/stats.ts:71 | `Math.round` of a quotient: the nearest integer, with halves rounded up |
| Rounding.RoundDivUnique | apex-hub/src/lib/clusters.ts:64 | that integer is the only one within a half of the quotient |
| Rounding.RoundDivMono | apex-hub/src/lib/clusters.ts:64 | rounding keeps order |
| Decimal.ParseNatToString | extension/storage.ts:39 | `Date.now().toString()` reads back as the same number |
| Decimal.NatToStringInjective | apex-hub/src/lib/clusters.ts:62 | different numbers give different decimal texts |
| Png.Mask | extension/generate_icon.py:10 | `& 0xffffffff` yields a 32-bit value and keeps any value that is already one |
| Png.PackU32 | extension/generate_icon.py:11 | `struct.pack('!I', n)` succeeds exactly for 32-bit n, and its four bytes read back big-endian as n |
| Png.ReadU32Inverse | extension/generate_icon.py:11 | the four bytes read back as the number |
| Png.U32Injective | extension/generate_icon.py:11 | different numbers pack differently |
| Png.IhdrData | extension/generate_icon.py:9 | IHDR data exists exactly for 32-bit width and height; its 13 bytes read back as the width, the height, and depth 8, colour type 2 and three zeros |
| Png.Chunk | extension/generate_icon.py:19-20 | a chunk is built exactly when its data length fits in 32 bits, and its size is 8 plus the lengths of its kind and data |
| Png.ChunkFields | extension/generate_icon.py:19-20 | a chunk reads back as its length, kind, data and masked checksum over kind and data |
| Png.IhdrChunk | extension/generate_icon.py:9-11 | the IHDR chunk is length 13, "IHDR", its data and its checksum |
| Png.IendChunk | extension/generate_icon.py:23-25 | the IEND chunk is length 0, "IEND" and the checksum of "IEND" |
| Png.Scanline | extension/generate_icon.py:15-16 | a scan line is `1 + 3 * width` bytes |
| Png.Repeat | extension/generate_icon.py:17 | repeating a line n times gives n times its length |
| Png.ScanlinesAt | extension/generate_icon.py:15-17 | every line starts with filter byte 0 and every pixel is green: 00 FF 00 |
| Png.MakePngFails | extension/generate_icon.py:4-27 | make_png raises exactly when the width, the height or the compressed length does not fit in 32 bits |
| Png.MakePngLayout | extension/generate_icon.py:27 | the file is the signature followed by the IHDR, IDAT and IEND chunks, and its size is 57 plus the compressed length |
| Png.MakePngHeader | extension/generate_icon.py:6-11 | the file decodes as a PNG header: the signature, an IHDR of length 13, the width and height, and the five settings |

## Left out

- JavaScript numbers are modelled as integers. JSON numbers with a fraction or an exponent are not represented, and neither is floating-point rounding. `Math.round` is applied to the exact quotient (`Rounding.RoundDiv`), so a quotient that lies within a rounding error of a half may round the other way in the browser.
- TweetParser.BitrateKey: a bitrate that is a string, an array or an object is read as 0. In the browser, `-` converts such a value to a number: "500" and [500] give 500, [] gives 0, and "abc", [1,2] and {} give NaN, which makes the comparator's result unspecified. Only numbers, booleans and falsy values are read exactly.
- TweetParser.Parse: a quoted tweet's own quote is parsed again with no depth bound, as the code does. Termination follows from the payload getting smaller. Payloads whose objects share structure, or are cyclic, cannot come from JSON.parse and are not modelled.
- TweetParser.Clock: `new Date().toISOString()` is one text for both reads in a call, and `new Date(s).toISOString()` is a parameter. Date parsing itself is left out.
- TweetParser.SimulatedResolves: the rest id, text and creation date of the simulated payload depend on the clock, so they are parameters. The author's `legacy` object is a parameter too, so the lemma holds for every author, the test's own included.
- Hook.Message: the auth update does not carry the bearer text or `navigator.userAgent`. The bearer is a constant (`Hook.Bearer`), and the user agent is browser state.
- Hook.PageHook: the patching of `window.fetch` and `XMLHttpRequest.prototype`, the promise chain of `clone().json()`, event listeners and logging are not modelled. Each handler is the step it runs once its input is there. The window's message queue is the list `posted`.
- Clusters.LowerChar: `toLowerCase` maps the ASCII capitals and the two non-ASCII characters whose lower case holds an ASCII letter. Every other character is kept as it is. This is exact for the words the filter produces, since `[^\w\s]` removes all other non-ASCII characters anyway. Full Unicode case mapping is not modelled. The white space of `trim` and `\s` is the full ECMAScript set (JsValue.IsJsSpace).
- Storage.Database: the asynchronous open, version change events, transactions and the records' `synced` updates by other parts of the extension are not modelled. Both `Date.now()` reads in saveTweet are the same `nowMs`.
- Background: the Supabase client and `upsert` with its `onConflict: 'tweet_id'` merge are foreign calls. The model stops at the row handed to upsert, because the handler only logs the outcome.
- Stats.Captured: how `new Date(captured_at)` reads a text, local time zones and date-fns' `format`, `subDays` and `isAfter` are given as already-interpreted values: an instant, a day number and the clock's instants.
- Stats.WeeksSplit: requires the clock's instant of two weeks ago to be no later than that of one week ago, which `subDays` guarantees but which the model's clock does not enforce.
- Stats.Tallied: a user name equal to an Object.prototype name never gets an entry. The model leaves it out, which is what Object.entries shows; the NaN count the code writes onto the prototype's function is not modelled.
- Clusters.Counted: the word "constructor" is left out of the count. In the code, `wordMap["constructor"]` starts as Object's constructor function, so the count becomes a string, which the sort compares as NaN.
- Clusters: the query of the `tags` table at the start of fetchNeuralClusters is not used by the result and is not modelled. Neither is the query's `order` and `limit`; the rows are a parameter.
- Logging: the `console.log` and `console.error` calls have no effect on results and are not modelled. This covers the catch of parseTweet, saveTweet's success and error messages, and the query errors of the dashboard functions.
- Analytics.Instant: a valid Date is given by its UTC calendar date and the rest of its ISO text. The conversion from milliseconds is not modelled.
- Png: `zlib.crc32` and `zlib.compress` are parameters. Writing `assets/icon.png` and the final print of generate_icon.py are I/O.
- The processor, the content script relay, the popup and the dashboard pages are outside the core and are not part of this model. So is the Python enrichment code.
