/** The local buffer of captured tweets: the IndexedDB database "apex-cache"
    (version 1) with its one object store "pending_tweets", whose primary
    keys come from an auto-increment generator and whose "by-tweet-id"
    index over `tweet_id` is unique. The clock is a parameter. */
module Storage {
  import opened JsValue
  import Decimal

  const DbName := "apex-cache"
  const DbVersion := 1
  const StoreName := "pending_tweets"
  const IndexName := "by-tweet-id"

  /** One stored record; `id` is the generated primary key. */
  datatype Record = Record(id: nat, tweetId: Json, data: Json, timestamp: int, synced: bool)

  /** The object store: its records in key order and the next key the
      generator hands out. */
  datatype Store = Store(records: seq<Record>, nextId: nat)

  /** A freshly created store: no records, and the generator starts at 1. */
  const EmptyStore := Store([], 1)

  /** The values IndexedDB accepts as keys, among those JSON yields: numbers,
      strings and arrays of keys. A record whose `tweet_id` is not a key is
      stored but left out of the index. */
  predicate IsValidKey(v: Json) {
    match v
    case JNum(_) => true
    case JStr(_) => true
    case JArr(items) => forall k :: 0 <= k < |items| ==> IsValidKey(items[k])
    case _ => false
  }

  /** Some record has this index key. */
  predicate Indexed(st: Store, key: Json) {
    IsValidKey(key) && exists k :: 0 <= k < |st.records| && st.records[k].tweetId == key
  }

  /** The store invariant: keys increase and stay below the generator, and
      no index key occurs twice. */
  ghost predicate ValidStore(st: Store) {
    && st.nextId >= 1
    && (forall i, j :: 0 <= i < j < |st.records| ==> st.records[i].id < st.records[j].id)
    && (forall i :: 0 <= i < |st.records| ==> 0 < st.records[i].id < st.nextId)
    && (forall i, j :: 0 <= i < j < |st.records| && IsValidKey(st.records[i].tweetId) ==>
          st.records[i].tweetId != st.records[j].tweetId)
  }

  /** `store.add(value)`: None for the ConstraintError of the unique index,
      which aborts the transaction and rolls the generator back. */
  function Add(st: Store, tweetId: Json, data: Json, now: int): (r: Option<Store>)
    ensures r.None? <==> Indexed(st, tweetId)
    ensures r.Some? ==> |r.value.records| == |st.records| + 1 && r.value.records[..|st.records|] == st.records
  {
    if Indexed(st, tweetId) then None
    else
      assert (st.records + [Record(st.nextId, tweetId, data, now, false)])[..|st.records|] == st.records;
      Some(Store(st.records + [Record(st.nextId, tweetId, data, now, false)], st.nextId + 1))
  }

  /** A successful add appends an unsynced record holding the input as it
      is, under a key no other record has. */
  lemma AddRecord(st: Store, tweetId: Json, data: Json, now: int)
    requires ValidStore(st)
    requires Add(st, tweetId, data, now).Some?
    ensures var r := Add(st, tweetId, data, now).value;
      && r.records[|st.records|] == Record(st.nextId, tweetId, data, now, false)
      && r.nextId == st.nextId + 1
      && forall k :: 0 <= k < |st.records| ==> r.records[|st.records|].id != st.records[k].id
  {
  }

  /** Adding keeps the store invariant. */
  lemma AddValid(st: Store, tweetId: Json, data: Json, now: int)
    requires ValidStore(st)
    requires Add(st, tweetId, data, now).Some?
    ensures ValidStore(Add(st, tweetId, data, now).value)
  {
    var r := Add(st, tweetId, data, now).value;
    forall i, j | 0 <= i < j < |r.records| && IsValidKey(r.records[i].tweetId)
      ensures r.records[i].tweetId != r.records[j].tweetId
    {
      if j == |st.records| {
        assert r.records[i] == st.records[i];
      }
    }
  }

  /** Adding a record whose index key is already stored fails. */
  lemma AddDuplicate(st: Store, tweetId: Json, data: Json, now: int, k: nat)
    requires IsValidKey(tweetId)
    requires k < |st.records| && st.records[k].tweetId == tweetId
    ensures Add(st, tweetId, data, now) == None
  {
  }

  /** `tweetData?.rest_id || tweetData?.tweet?.rest_id || Date.now().toString()` */
  function TweetKey(tweetData: Json, nowMs: nat): (key: Json)
    ensures Truthy(key)
    ensures TruthyOpt(OptProp(Some(tweetData), "rest_id")) ==> key == OptProp(Some(tweetData), "rest_id").value
    ensures !TruthyOpt(OptProp(Some(tweetData), "rest_id")) && TruthyOpt(OptChain(Some(tweetData), ["tweet", "rest_id"])) ==>
      key == OptChain(Some(tweetData), ["tweet", "rest_id"]).value
    ensures !TruthyOpt(OptProp(Some(tweetData), "rest_id")) && !TruthyOpt(OptChain(Some(tweetData), ["tweet", "rest_id"])) ==>
      key == JStr(Decimal.NatToString(nowMs))
  {
    Or(OptProp(Some(tweetData), "rest_id"),
      Or(OptChain(Some(tweetData), ["tweet", "rest_id"]), JStr(Decimal.NatToString(nowMs))))
  }

  /** An empty rest_id is falsy and falls through to the next choice. */
  lemma EmptyRestIdFallsThrough(tweetData: Json, nowMs: nat)
    requires OptProp(Some(tweetData), "rest_id") == Some(JStr(""))
    requires !TruthyOpt(OptChain(Some(tweetData), ["tweet", "rest_id"]))
    ensures TweetKey(tweetData, nowMs) == JStr(Decimal.NatToString(nowMs))
  {
  }

  /** The keys of the object parseTweet returns. */
  const ParsedTweetKeys := ["tweet_id", "full_text", "user_name", "user_screen_name", "user_avatar",
    "media_urls", "video_url", "created_at", "metrics", "is_quoted", "quoted_tweet", "source", "captured_at"]

  lemma {:induction false} LookupAbsent(fields: seq<Field>, key: string)
    requires forall k :: 0 <= k < |fields| ==> fields[k].key != key
    ensures Lookup(fields, key) == None
  {
  }

  /** An object with only parseTweet's keys, such as the tweet the
      processor saves, has neither `rest_id` nor `tweet`: it is keyed by the
      time, not by its `tweet_id`. */
  lemma ParsedTweetKeyedByTime(fields: seq<Field>, nowMs: nat)
    requires forall k :: 0 <= k < |fields| ==> fields[k].key in ParsedTweetKeys
    ensures TweetKey(JObj(fields), nowMs) == JStr(Decimal.NatToString(nowMs))
  {
    assert "rest_id" !in ParsedTweetKeys && "tweet" !in ParsedTweetKeys;
    LookupAbsent(fields, "rest_id");
    LookupAbsent(fields, "tweet");
  }

  /** The database as the content script sees it: absent until the first
      initDB, then one store. */
  class Database {
    var store: Option<Store>

    ghost predicate Valid()
      reads this
    {
      store.Some? ==> ValidStore(store.value)
    }

    constructor ()
      ensures store == None && Valid()
    {
      store := None;
    }

    /** initDB: the upgrade creates the store and its unique index only when
        the store is absent; an existing store is left as it is. */
    method InitDB()
      modifies this
      requires Valid()
      ensures Valid()
      ensures store == Some(if old(store).Some? then old(store).value else EmptyStore)
    {
      if store.None? {
        store := Some(EmptyStore);
      }
    }

    /** saveTweet: open the database, derive the key and add the record; a
        failed add is caught, so the store is then as initDB left it. */
    method SaveTweet(tweetData: Json, nowMs: nat)
      modifies this
      requires Valid()
      ensures Valid()
      ensures var st := if old(store).Some? then old(store).value else EmptyStore;
        var r := Add(st, TweetKey(tweetData, nowMs), tweetData, nowMs);
        store == Some(if r.Some? then r.value else st)
    {
      InitDB();
      var tweetId := TweetKey(tweetData, nowMs);
      var added := Add(store.value, tweetId, tweetData, nowMs);
      if added.Some? {
        AddValid(store.value, tweetId, tweetData, nowMs);
        store := added;
      }
    }
  }

  /** Saving the same tweet twice stores it once when its key does not
      depend on the time (a truthy `rest_id` or `tweet.rest_id`): the second
      add meets the unique index. */
  method SaveTwice(db: Database, tweetData: Json, nowMs: nat, laterMs: nat)
    modifies db
    requires db.Valid()
    requires IsValidKey(TweetKey(tweetData, nowMs)) && TweetKey(tweetData, laterMs) == TweetKey(tweetData, nowMs)
    ensures db.Valid()
    ensures var st := if old(db.store).Some? then old(db.store).value else EmptyStore;
      db.store == Some(if Add(st, TweetKey(tweetData, nowMs), tweetData, nowMs).Some?
        then Add(st, TweetKey(tweetData, nowMs), tweetData, nowMs).value else st)
  {
    db.SaveTweet(tweetData, nowMs);
    ghost var once := db.store.value;
    assert Indexed(once, TweetKey(tweetData, nowMs)) by {
      var st := if old(db.store).Some? then old(db.store).value else EmptyStore;
      var key := TweetKey(tweetData, nowMs);
      if Add(st, key, tweetData, nowMs).Some? {
        assert once.records[|st.records|].tweetId == key;
      } else {
        assert Indexed(st, key);
        var k :| 0 <= k < |st.records| && st.records[k].tweetId == key;
        assert once.records[k].tweetId == key;
      }
    }
    db.SaveTweet(tweetData, laterMs);
  }
}
