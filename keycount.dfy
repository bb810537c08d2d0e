/** A plain object used as a counter, `map[key] = (map[key] || 0) + 1`,
    for keys that are neither array indices nor Object.prototype names:
    its own entries in insertion order, each with its count. */
module KeyCount {
  import opened JsValue
  import opened Counting

  datatype Entry<K> = Entry(key: K, count: nat)

  function IsKey<K(==)>(k: K): K -> bool {
    (x: K) => x == k
  }

  /** Position of the entry for `k`. */
  function Find<K(==)>(entries: seq<Entry<K>>, k: K): (r: Option<nat>)
    ensures r.Some? ==> r.value < |entries| && entries[r.value].key == k
    ensures r.None? ==> forall i :: 0 <= i < |entries| ==> entries[i].key != k
  {
    if entries == [] then None
    else if entries[0].key == k then Some(0)
    else
      match Find(entries[1..], k)
      case None => None
      case Some(i) => Some(i + 1)
  }

  /** `map[k] = (map[k] || 0) + 1`: a new key enters at the end with 1. */
  function Step<K(==)>(entries: seq<Entry<K>>, k: K): seq<Entry<K>> {
    match Find(entries, k)
    case None => entries + [Entry(k, 1)]
    case Some(i) => entries[i := Entry(k, entries[i].count + 1)]
  }

  /** The counter after counting `ks` in order. */
  function Tally<K(==)>(ks: seq<K>): seq<Entry<K>> {
    if ks == [] then [] else Step(Tally(ks[..|ks| - 1]), ks[|ks| - 1])
  }

  /** `map[k]` */
  function EntryOf<K(==)>(entries: seq<Entry<K>>, k: K): (r: Option<Entry<K>>)
    ensures r.Some? ==> r.value.key == k && r.value in entries
    ensures r.None? ==> forall i :: 0 <= i < |entries| ==> entries[i].key != k
  {
    match Find(entries, k)
    case None => None
    case Some(i) => Some(entries[i])
  }

  ghost predicate DistinctKeys<K>(entries: seq<Entry<K>>) {
    forall i, j :: 0 <= i < j < |entries| ==> entries[i].key != entries[j].key
  }

  lemma FindDistinct<K>(entries: seq<Entry<K>>, i: nat)
    requires DistinctKeys(entries) && i < |entries|
    ensures Find(entries, entries[i].key) == Some(i)
  {
  }

  lemma {:induction false} FindSameKeys<K>(t: seq<Entry<K>>, u: seq<Entry<K>>, k: K)
    requires |t| == |u| && forall i :: 0 <= i < |t| ==> t[i].key == u[i].key
    ensures Find(t, k) == Find(u, k)
  {
    if t != [] {
      FindSameKeys(t[1..], u[1..], k);
    }
  }

  /** What counting `x` does to the entry of each key. */
  lemma StepEntry<K>(t: seq<Entry<K>>, x: K, k: K)
    requires DistinctKeys(t)
    ensures DistinctKeys(Step(t, x))
    ensures EntryOf(Step(t, x), k) ==
      if x != k then EntryOf(t, k)
      else if EntryOf(t, k).None? then Some(Entry(k, 1))
      else Some(Entry(k, EntryOf(t, k).value.count + 1))
  {
    var u := Step(t, x);
    match Find(t, x)
    case None =>
      assert DistinctKeys(u);
      if k == x {
        FindDistinct(u, |t|);
      } else if Find(t, k).Some? {
        FindDistinct(u, Find(t, k).value);
      }
    case Some(i) =>
      FindSameKeys(t, u, k);
  }

  /** The counter against an independent definition: the keys are
      distinct, and a key has an entry exactly when it occurs; the entry
      holds its number of occurrences. */
  lemma {:induction false} TallyEntry<K>(ks: seq<K>, k: K)
    ensures DistinctKeys(Tally(ks))
    ensures EntryOf(Tally(ks), k) ==
      if CountIf(ks, IsKey(k)) > 0 then Some(Entry(k, CountIf(ks, IsKey(k)))) else None
  {
    if ks != [] {
      var init := ks[..|ks| - 1];
      TallyEntry(init, k);
      StepEntry(Tally(init), ks[|ks| - 1], k);
    }
  }

  /** Every entry is a key with its occurrences, at least one. */
  lemma EntryOfMember<K>(ks: seq<K>, e: Entry<K>)
    requires e in Tally(ks)
    ensures e.count == CountIf(ks, IsKey(e.key)) && e.count >= 1
    ensures EntryOf(Tally(ks), e.key) == Some(e)
  {
    TallyEntry(ks, e.key);
    var i :| 0 <= i < |Tally(ks)| && Tally(ks)[i] == e;
    FindDistinct(Tally(ks), i);
  }

  lemma TallyAppend<K>(ks: seq<K>, k: K)
    ensures Tally(ks + [k]) == Step(Tally(ks), k)
  {
    assert (ks + [k])[..|ks|] == ks;
  }

  /** The counts added up. */
  function Total<K>(entries: seq<Entry<K>>): nat {
    if entries == [] then 0 else Total(entries[..|entries| - 1]) + entries[|entries| - 1].count
  }

  lemma {:induction false} TotalUpdate<K>(t: seq<Entry<K>>, i: nat, e: Entry<K>)
    requires i < |t|
    ensures Total(t[i := e]) == Total(t) - t[i].count + e.count
  {
    var n := |t| - 1;
    assert t[i := e][..n] == if i == n then t[..n] else t[..n][i := e];
    if i < n {
      TotalUpdate(t[..n], i, e);
    }
  }

  /** Every key counted is counted once: the counts add up to the number
      of keys. */
  lemma {:induction false} TallyTotal<K>(ks: seq<K>)
    ensures Total(Tally(ks)) == |ks|
  {
    if ks != [] {
      var t := Tally(ks[..|ks| - 1]);
      TallyTotal(ks[..|ks| - 1]);
      match Find(t, ks[|ks| - 1])
      case None =>
        assert (t + [Entry(ks[|ks| - 1], 1)])[..|t|] == t;
      case Some(i) =>
        TotalUpdate(t, i, Entry(ks[|ks| - 1], t[i].count + 1));
    }
  }
}
