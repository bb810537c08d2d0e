/** The background service worker's upload handler: the message filter and
    the fixed-shape row handleUpload builds for the `tweets` table. Sending
    the row (the Supabase upsert, which merges rows on `tweet_id`) is
    outside the model; its error and any
    exception are only logged, so the handler's outcome is the row alone. */
module Background {
  import opened JsValue
  import Decimal

  const UploadType := "APEX_UPLOAD"
  const UploadSource := "extension_capture"
  const TextFallback := "No text found"

  /** The row handed to `upsert`. */
  datatype UploadRow = UploadRow(tweetId: Json, fullText: Json, source: string, capturedAt: string)

  /** `message.type === "APEX_UPLOAD"` */
  predicate IsUpload(message: Json) {
    Prop(message, "type") == Some(JStr(UploadType))
  }

  /** `data?.data?.create_tweet?.tweet_results?.result` */
  function CreatedResult(data: Json): Option<Json> {
    OptChain(Some(data), ["data", "create_tweet", "tweet_results", "result"])
  }

  /** `data?.data?.favorite_tweet?.rest_id` */
  function FavoriteRestId(data: Json): Option<Json> {
    OptChain(Some(data), ["data", "favorite_tweet", "rest_id"])
  }

  /** handleUpload's row: the created tweet's id, else the favorite's
      `rest_id`, else the time; the created tweet's text, else a fixed text. */
  function UploadRowOf(data: Json, nowMs: nat, nowIso: string): (row: UploadRow)
    ensures Truthy(row.tweetId) && Truthy(row.fullText)
    ensures row.source == UploadSource && row.capturedAt == nowIso
    ensures TruthyOpt(OptProp(CreatedResult(data), "rest_id")) ==> row.tweetId == OptProp(CreatedResult(data), "rest_id").value
    ensures !TruthyOpt(OptProp(CreatedResult(data), "rest_id")) && TruthyOpt(FavoriteRestId(data)) ==>
      row.tweetId == FavoriteRestId(data).value
    ensures !TruthyOpt(OptProp(CreatedResult(data), "rest_id")) && !TruthyOpt(FavoriteRestId(data)) ==>
      row.tweetId == JStr(Decimal.NatToString(nowMs))
    ensures row.fullText == if TruthyOpt(OptChain(CreatedResult(data), ["legacy", "full_text"]))
      then OptChain(CreatedResult(data), ["legacy", "full_text"]).value else JStr(TextFallback)
  {
    var tweetId := Or(OptProp(CreatedResult(data), "rest_id"), Or(FavoriteRestId(data), JStr(Decimal.NatToString(nowMs))));
    var tweetText := Or(OptChain(CreatedResult(data), ["legacy", "full_text"]), JStr(TextFallback));
    UploadRow(tweetId, tweetText, UploadSource, nowIso)
  }

  /** The onMessage listener: an upload row for APEX_UPLOAD messages and
      nothing for any other. */
  function OnMessage(message: Json, nowMs: nat, nowIso: string): (r: Option<UploadRow>)
    ensures r.Some? <==> IsUpload(message)
    ensures r.Some? ==> r.value == UploadRowOf(OptOr(Prop(message, "payload")), nowMs, nowIso)
  {
    if IsUpload(message) then Some(UploadRowOf(OptOr(Prop(message, "payload")), nowMs, nowIso)) else None
  }

  /** A missing payload reads as null: every `?.` then yields undefined. */
  function OptOr(v: Option<Json>): Json {
    if v.Some? then v.value else JNull
  }

  /** A created tweet's payload is uploaded under its own id. */
  lemma CreatedTweetKeyed(data: Json, restId: string, nowMs: nat, nowIso: string)
    requires OptProp(CreatedResult(data), "rest_id") == Some(JStr(restId)) && restId != ""
    ensures UploadRowOf(data, nowMs, nowIso).tweetId == JStr(restId)
  {
  }

  /** A favorite payload shaped as the parser reads it, with the id under
      `favorite_tweet.result`, has no `favorite_tweet.rest_id` and is uploaded
      under the time. */
  lemma FavoriteResultKeyedByTime(result: Json, nowMs: nat, nowIso: string)
    ensures var data := Obj1("data", Obj1("favorite_tweet", Obj1("result", result)));
      UploadRowOf(data, nowMs, nowIso).tweetId == JStr(Decimal.NatToString(nowMs))
  {
    var data := Obj1("data", Obj1("favorite_tweet", Obj1("result", result)));
    var fav := Obj1("favorite_tweet", Obj1("result", result));
    assert OptProp(Some(data), "data") == Some(fav);
    assert Prop(fav, "create_tweet") == None;
    assert Prop(Obj1("result", result), "rest_id") == None;
  }
}
