/** fetchNeuralClusters: the "topic discovery" fallback. The full text and
    AI summary of the latest tweets are tokenized, the remaining words are
    counted, and the twenty most frequent become nodes weighted 1 to 5. The
    rows of the query are a parameter. */
module Clusters {
  import opened JsValue
  import opened Counting
  import StableSort
  import Rounding
  import Decimal
  import opened KeyCount

  /** The columns selected: full_text and ai_summary (None for null). */
  datatype Tweet = Tweet(fullText: Option<string>, aiSummary: Option<string>)

  datatype ClusterNode = ClusterNode(id: string, labelText: string, value: int)

  /** One entry of `wordMap`. */
  type WordCount = Entry<string>

  const TopWordCount := 20

  const StopWords := {"the", "and", "a", "to", "of", "in", "is", "for", "on", "with", "this", "that",
    "it", "from", "be", "are", "as", "at", "by", "an", "have", "has", "was", "not", "but", "or", "we",
    "i", "my", "you", "your", "https", "t.co", "co"}

  // ---------------------------------------------------------------------
  // Tokenizing one tweet

  /** `t.full_text + " " + (t.ai_summary || "")`: a null text reads "null". */
  function Content(t: Tweet): (s: string)
    ensures t.fullText.None? ==> "null " <= s
  {
    (if t.fullText.Some? then t.fullText.value else "null") + " " + (if t.aiSummary.Some? then t.aiSummary.value else "")
  }

  /** The lower case of one character, as far as the next step can see it:
      ASCII capitals, and the two characters outside ASCII whose lower case
      holds an ASCII letter (KELVIN SIGN gives "k", LATIN CAPITAL LETTER I
      WITH DOT ABOVE gives "i" and a combining dot). Any other character is
      kept: where its lower case differs it is neither ASCII nor
      whitespace, and the next step removes both alike. */
  function LowerChar(c: char): (r: string)
    ensures forall k :: 0 <= k < |r| ==> !('A' <= r[k] <= 'Z')
    ensures |r| >= 1
  {
    if 'A' <= c <= 'Z' then [(c as int + 32) as char]
    else if c == '\U{212A}' then "k"
    else if c == '\U{0130}' then "i\U{0307}"
    else [c]
  }

  predicate IsAscii(s: string) {
    forall k :: 0 <= k < |s| ==> s[k] < '\U{80}'
  }

  /** The lower case of an ASCII character. */
  function AsciiLower(c: char): char {
    if 'A' <= c <= 'Z' then (c as int + 32) as char else c
  }

  /** `toLowerCase()`: on ASCII text, each character in place becomes its
      lower case; in general, no capital remains and no character is
      dropped. */
  function ToLower(s: string): (r: string)
    ensures forall k :: 0 <= k < |r| ==> !('A' <= r[k] <= 'Z')
    ensures |r| >= |s|
    ensures IsAscii(s) ==> |r| == |s| && forall k :: 0 <= k < |s| ==> r[k] == AsciiLower(s[k])
  {
    if s == [] then []
    else
      assert IsAscii(s) ==> IsAscii(s[..|s| - 1]);
      ToLower(s[..|s| - 1]) + LowerChar(s[|s| - 1])
  }

  /** Lowering works character by character. */
  lemma {:induction false} ToLowerAppend(a: string, b: string)
    ensures ToLower(a + b) == ToLower(a) + ToLower(b)
  {
    if b != [] {
      assert (a + b)[..|a + b| - 1] == a + b[..|b| - 1];
      ToLowerAppend(a, b[..|b| - 1]);
    } else {
      assert a + b == a;
    }
  }

  /** `\w`: ASCII letters, digits and the underscore. */
  predicate IsWordChar(c: char) {
    ('a' <= c <= 'z') || ('A' <= c <= 'Z') || ('0' <= c <= '9') || c == '_'
  }

  predicate IsWordOrSpace(c: char) {
    IsWordChar(c) || IsJsSpace(c)
  }

  /** `replace(/[^\w\s]/g, '')`: only word characters and whitespace stay,
      in their order. A text of such characters is kept whole, a text of
      none of them vanishes, and KeepAppend says that the two cases
      compose. */
  function KeepWordAndSpace(s: string): (r: string)
    ensures forall k :: 0 <= k < |r| ==> IsWordOrSpace(r[k])
    ensures |r| <= |s|
    ensures (forall k :: 0 <= k < |s| ==> IsWordOrSpace(s[k])) ==> r == s
    ensures (forall k :: 0 <= k < |s| ==> !IsWordOrSpace(s[k])) ==> r == []
  {
    if s == [] then []
    else KeepWordAndSpace(s[..|s| - 1]) + (if IsWordOrSpace(s[|s| - 1]) then [s[|s| - 1]] else [])
  }

  /** Removing characters works piece by piece. */
  lemma {:induction false} KeepAppend(a: string, b: string)
    ensures KeepWordAndSpace(a + b) == KeepWordAndSpace(a) + KeepWordAndSpace(b)
  {
    if b != [] {
      assert (a + b)[..|a + b| - 1] == a + b[..|b| - 1];
      KeepAppend(a, b[..|b| - 1]);
    } else {
      assert a + b == a;
    }
  }

  /** The pieces after one more character `c`, from the pieces before it
      and whether the text before it ends in whitespace. */
  function SnocPieces(init: seq<string>, c: char, afterSpace: bool): seq<string>
    requires |init| >= 1
  {
    if !IsJsSpace(c) then init[..|init| - 1] + [init[|init| - 1] + [c]]
    else if afterSpace then init
    else init + [""]
  }

  /** `split(/\s+/)`: the pieces between runs of whitespace; a leading or
      trailing run gives an empty first or last piece. */
  function SplitSpace(s: string): (r: seq<string>)
    ensures |r| >= 1
    ensures forall k, j :: 0 <= k < |r| && 0 <= j < |r[k]| ==> !IsJsSpace(r[k][j])
  {
    if s == [] then [""]
    else SnocPieces(SplitSpace(s[..|s| - 1]), s[|s| - 1], |s| >= 2 && IsJsSpace(s[|s| - 2]))
  }

  predicate NoSpace(s: string) {
    forall k :: 0 <= k < |s| ==> !IsJsSpace(s[k])
  }

  /** A text without whitespace is one piece. */
  lemma {:induction false} SplitSpaceNoSpace(s: string)
    requires NoSpace(s)
    ensures SplitSpace(s) == [s]
  {
    if s != [] {
      assert NoSpace(s[..|s| - 1]);
      SplitSpaceNoSpace(s[..|s| - 1]);
      assert s[..|s| - 1] + [s[|s| - 1]] == s;
    }
  }

  /** A whitespace run after a piece closes it and opens an empty one. */
  lemma {:induction false} SplitSpaceRun(a: string, w: string)
    requires a != [] ==> !IsJsSpace(a[|a| - 1])
    requires w != [] && forall k :: 0 <= k < |w| ==> IsJsSpace(w[k])
    ensures SplitSpace(a + w) == SplitSpace(a) + [""]
  {
    var w', c := w[..|w| - 1], w[|w| - 1];
    assert a + w == (a + w') + [c];
    SplitSpaceSnoc(a + w', c);
    if w' == [] {
      assert a + w' == a;
    } else {
      assert (a + w')[|a + w'| - 1] == w'[|w'| - 1];
      SplitSpaceRun(a, w');
    }
  }

  lemma SplitSpaceSnoc(p: string, c: char)
    ensures SplitSpace(p + [c]) == SnocPieces(SplitSpace(p), c, p != [] && IsJsSpace(p[|p| - 1]))
  {
    var s := p + [c];
    assert s[..|s| - 1] == p && s[|s| - 1] == c;
    assert (|s| >= 2 && IsJsSpace(s[|s| - 2])) == (p != [] && IsJsSpace(p[|p| - 1]));
  }

  /** One more character only touches the last pieces. */
  lemma SnocPiecesJoin(sa: seq<string>, sb: seq<string>, c: char, afterSpace: bool)
    requires |sb| >= 1
    ensures SnocPieces(sa + sb, c, afterSpace) == sa + SnocPieces(sb, c, afterSpace)
  {
    var x := sa + sb;
    assert x[..|x| - 1] == sa + sb[..|sb| - 1];
  }

  /** The text of SplitSpaceCut with its last character taken off. The two
      texts differ before that character only when `b` has no other, and
      then it is not whitespace, so that difference does not count. */
  lemma CutShape(a: string, w: string, b: string)
    requires w != [] && forall k :: 0 <= k < |w| ==> IsJsSpace(w[k])
    requires b != [] && !IsJsSpace(b[0])
    ensures var b', c := b[..|b| - 1], b[|b| - 1];
      var p := a + w + b';
      && a + w + b == p + [c]
      && b == b' + [c]
      && (b' != [] ==> !IsJsSpace(b'[0]))
      && (IsJsSpace(c) ==> (p != [] && IsJsSpace(p[|p| - 1])) == (b' != [] && IsJsSpace(b'[|b'| - 1])))
  {
    var b', c := b[..|b| - 1], b[|b| - 1];
    var p := a + w + b';
    assert a + w + b == p + [c];
    if IsJsSpace(c) {
      assert b' != [] && p[|p| - 1] == b'[|b'| - 1];
    }
  }

  /** A whitespace run is a cut: the pieces of `a`, then those of `b`. */
  lemma {:induction false} SplitSpaceCut(a: string, w: string, b: string)
    requires a != [] ==> !IsJsSpace(a[|a| - 1])
    requires w != [] && forall k :: 0 <= k < |w| ==> IsJsSpace(w[k])
    requires b != [] ==> !IsJsSpace(b[0])
    ensures SplitSpace(a + w + b) == SplitSpace(a) + SplitSpace(b)
  {
    if b == [] {
      assert a + w + b == a + w;
      SplitSpaceRun(a, w);
    } else {
      var b', c := b[..|b| - 1], b[|b| - 1];
      var p := a + w + b';
      CutShape(a, w, b);
      SplitSpaceCut(a, w, b');
      var afterSpace := b' != [] && IsJsSpace(b'[|b'| - 1]);
      var pAfter := p != [] && IsJsSpace(p[|p| - 1]);
      var sa, sb := SplitSpace(a), SplitSpace(b');
      calc {
        SplitSpace(a + w + b);
        SplitSpace(p + [c]);
        { SplitSpaceSnoc(p, c); }
        SnocPieces(sa + sb, c, pAfter);
        { SnocPiecesJoin(sa, sb, c, pAfter); }
        sa + SnocPieces(sb, c, pAfter);
        sa + SnocPieces(sb, c, afterSpace);
        { SplitSpaceSnoc(b', c); }
        sa + SplitSpace(b);
      }
    }
  }

  /** The words of one tweet. */
  function Words(t: Tweet): seq<string> {
    SplitSpace(KeepWordAndSpace(ToLower(Content(t))))
  }

  /** The pieces laid end to end. */
  function Concat(ss: seq<string>): string {
    if ss == [] then [] else Concat(ss[..|ss| - 1]) + ss[|ss| - 1]
  }

  /** The characters that are not whitespace, in order. */
  function NonSpace(s: string): string {
    if s == [] then [] else NonSpace(s[..|s| - 1]) + (if IsJsSpace(s[|s| - 1]) then [] else [s[|s| - 1]])
  }

  lemma ConcatStep(ss: seq<string>, x: string)
    ensures Concat(ss + [x]) == Concat(ss) + x
  {
    assert (ss + [x])[..|ss|] == ss;
  }

  /** Extending the last piece extends the text. */
  lemma ConcatExtendLast(ss: seq<string>, c: char)
    requires |ss| >= 1
    ensures Concat(ss[..|ss| - 1] + [ss[|ss| - 1] + [c]]) == Concat(ss) + [c]
  {
    ConcatStep(ss[..|ss| - 1], ss[|ss| - 1] + [c]);
    assert ss == ss[..|ss| - 1] + [ss[|ss| - 1]];
    ConcatStep(ss[..|ss| - 1], ss[|ss| - 1]);
  }

  /** Splitting loses exactly the whitespace: the pieces hold every other
      character once, in order. */
  lemma {:induction false} SplitSpaceKeepsText(s: string)
    ensures Concat(SplitSpace(s)) == NonSpace(s)
  {
    if s != [] {
      var init := SplitSpace(s[..|s| - 1]);
      SplitSpaceKeepsText(s[..|s| - 1]);
      var c := s[|s| - 1];
      if !IsJsSpace(c) {
        ConcatExtendLast(init, c);
      } else if !(|s| >= 2 && IsJsSpace(s[|s| - 2])) {
        ConcatStep(init, "");
        assert Concat(init) + "" == Concat(init);
      }
    }
  }

  /** A property of every character of the input holds of every character
      of every piece. */
  lemma {:induction false} SplitSpaceChars(s: string, p: char -> bool)
    requires forall k :: 0 <= k < |s| ==> p(s[k])
    ensures forall k, j :: 0 <= k < |SplitSpace(s)| && 0 <= j < |SplitSpace(s)[k]| ==> p(SplitSpace(s)[k][j])
  {
    if s != [] {
      SplitSpaceChars(s[..|s| - 1], p);
    }
  }

  /** Every word is made of lower-case ASCII letters, digits and
      underscores. */
  lemma WordsAreLowerWordChars(t: Tweet)
    ensures forall k, j :: 0 <= k < |Words(t)| && 0 <= j < |Words(t)[k]| ==>
      IsWordChar(Words(t)[k][j]) && !('A' <= Words(t)[k][j] <= 'Z')
  {
    var s := KeepWordAndSpace(ToLower(Content(t)));
    LowerSurvives(ToLower(Content(t)));
    var p := (c: char) => (IsWordChar(c) || IsJsSpace(c)) && !('A' <= c <= 'Z');
    SplitSpaceChars(s, p);
  }

  lemma {:induction false} LowerSurvives(s: string)
    requires forall k :: 0 <= k < |s| ==> !('A' <= s[k] <= 'Z')
    ensures forall k :: 0 <= k < |KeepWordAndSpace(s)| ==> !('A' <= KeepWordAndSpace(s)[k] <= 'Z')
  {
    if s != [] {
      LowerSurvives(s[..|s| - 1]);
    }
  }

  // ---------------------------------------------------------------------
  // Counting

  /** `/^\d+$/` */
  predicate AllDigits(w: string) {
    |w| >= 1 && forall k :: 0 <= k < |w| ==> Decimal.IsDigit(w[k])
  }

  /** The test a word passes to be counted. `__proto__` is a property of
      every object, and assigning a number to it is ignored, so it never
      gets an entry; `constructor` is left out here as well. */
  predicate Counted(w: string) {
    |w| > 3 && w !in StopWords && !AllDigits(w) && w != "__proto__" && w != "constructor"
  }

  /** The words of the tweets, one tweet after the other. */
  function AllWords(tweets: seq<Tweet>): seq<string> {
    if tweets == [] then [] else AllWords(tweets[..|tweets| - 1]) + Words(tweets[|tweets| - 1])
  }

  /** The counted words, in order. */
  function Kept(ws: seq<string>): (r: seq<string>)
    ensures forall k :: 0 <= k < |r| ==> Counted(r[k])
  {
    if ws == [] then [] else Kept(ws[..|ws| - 1]) + (if Counted(ws[|ws| - 1]) then [ws[|ws| - 1]] else [])
  }

  /** A counted word is kept as often as it occurs; any other not at all. */
  lemma {:induction false} KeptCount(ws: seq<string>, w: string)
    ensures CountIf(Kept(ws), IsKey(w)) == if Counted(w) then CountIf(ws, IsKey(w)) else 0
  {
    if ws != [] {
      var init := ws[..|ws| - 1];
      KeptCount(init, w);
      assert ws == init + [ws[|ws| - 1]];
      CountIfAppend(init, ws[|ws| - 1], IsKey(w));
      if Counted(ws[|ws| - 1]) {
        CountIfAppend(Kept(init), ws[|ws| - 1], IsKey(w));
      } else {
        assert Kept(ws) == Kept(init);
      }
    }
  }

  lemma KeptStep(ws: seq<string>, w: string)
    ensures Kept(ws + [w]) == Kept(ws) + (if Counted(w) then [w] else [])
  {
    assert (ws + [w])[..|ws|] == ws;
  }

  lemma AllWordsStep(tweets: seq<Tweet>, i: nat)
    requires i < |tweets|
    ensures AllWords(tweets[..i + 1]) == AllWords(tweets[..i]) + Words(tweets[i])
  {
    assert tweets[..i + 1][..i] == tweets[..i];
  }

  lemma TallyKeptStep(ws: seq<string>, w: string)
    ensures Tally(Kept(ws + [w])) ==
      if Counted(w) then Step(Tally(Kept(ws)), w) else Tally(Kept(ws))
  {
    KeptStep(ws, w);
    if Counted(w) {
      TallyAppend(Kept(ws), w);
    } else {
      assert Kept(ws + [w]) == Kept(ws);
    }
  }

  lemma CountIntoStep(seen: seq<string>, words: seq<string>, j: nat)
    requires j < |words|
    ensures Tally(Kept(seen + words[..j + 1])) ==
      if Counted(words[j]) then Step(Tally(Kept(seen + words[..j])), words[j]) else Tally(Kept(seen + words[..j]))
  {
    assert seen + words[..j + 1] == (seen + words[..j]) + [words[j]];
    TallyKeptStep(seen + words[..j], words[j]);
  }

  /** The inner `words.forEach`: each counted word bumps its entry, a new
      word entering at the end. */
  method CountInto(wordMap: seq<WordCount>, ghost seen: seq<string>, words: seq<string>) returns (r: seq<WordCount>)
    requires wordMap == Tally(Kept(seen))
    ensures r == Tally(Kept(seen + words))
  {
    r := wordMap;
    assert seen + words[..0] == seen;
    for j := 0 to |words|
      invariant r == Tally(Kept(seen + words[..j]))
    {
      var w := words[j];
      CountIntoStep(seen, words, j);
      if Counted(w) {
        r := Step(r, w);
      }
    }
    assert words[..|words|] == words;
  }

  /** The outer `tweets.forEach`. */
  method CountWords(tweets: seq<Tweet>) returns (wordMap: seq<WordCount>)
    ensures wordMap == Tally(Kept(AllWords(tweets)))
  {
    wordMap := [];
    for i := 0 to |tweets|
      invariant wordMap == Tally(Kept(AllWords(tweets[..i])))
    {
      AllWordsStep(tweets, i);
      wordMap := CountInto(wordMap, AllWords(tweets[..i]), Words(tweets[i]));
    }
    assert tweets[..|tweets|] == tweets;
  }

  // ---------------------------------------------------------------------
  // Ranking and weighting

  function WordCountKey(e: WordCount): int {
    e.count
  }

  /** `Object.entries(wordMap)` sorted by count (stably) and cut to twenty.
      No counted word is an array index (those are all digits), so the
      entries come in insertion order. */
  function TopWords(entries: seq<WordCount>): seq<WordCount> {
    StableSort.Take(StableSort.SortDesc(entries, WordCountKey), TopWordCount)
  }

  /** `sorted[0]?.[1] || 1` */
  function MaxCount(sorted: seq<WordCount>): (m: nat)
    ensures m >= 1
    ensures sorted != [] && sorted[0].count > 0 ==> m == sorted[0].count
    ensures (forall i, j :: 0 <= i < j < |sorted| ==> sorted[i].count >= sorted[j].count) ==>
      forall i :: 0 <= i < |sorted| ==> sorted[i].count <= m
  {
    if sorted == [] || sorted[0].count == 0 then 1 else sorted[0].count
  }

  /** `node-${i}` */
  function NodeId(i: nat): string {
    "node-" + Decimal.NatToString(i)
  }

  /** Different positions, different ids. */
  lemma NodeIdInjective(i: nat, j: nat)
    requires NodeId(i) == NodeId(j)
    ensures i == j
  {
    assert NodeId(i)[5..] == Decimal.NatToString(i);
    assert NodeId(j)[5..] == Decimal.NatToString(j);
    Decimal.NatToStringInjective(i, j);
  }

  /** `1 + Math.round((count / max) * 4)`, the quotient taken exactly. */
  function Weight(count: nat, max: nat): (v: int)
    requires max >= 1
    ensures max * (2 * (v - 1) - 1) <= 8 * count < max * (2 * (v - 1) + 1)
  {
    1 + Rounding.RoundDiv(4 * count, max)
  }

  /** The final `map`. */
  function Nodes(sorted: seq<WordCount>): (r: seq<ClusterNode>)
    ensures |r| == |sorted|
    ensures forall i :: 0 <= i < |r| ==> r[i].id == NodeId(i) && r[i].labelText == sorted[i].key
  {
    seq(|sorted|, i requires 0 <= i < |sorted| =>
      ClusterNode(NodeId(i), sorted[i].key, Weight(sorted[i].count, MaxCount(sorted))))
  }

  /** The nodes made from the words of the tweets. */
  function ClustersOf(ws: seq<string>): seq<ClusterNode> {
    Nodes(TopWords(Tally(Kept(ws))))
  }

  /** The value fetchNeuralClusters resolves to, over the rows of the query
      (None for no data). */
  function NeuralClusters(fetched: Option<seq<Tweet>>): seq<ClusterNode> {
    if fetched.None? || fetched.value == [] then [] else ClustersOf(AllWords(fetched.value))
  }

  /** fetchNeuralClusters as written. */
  method FetchNeuralClusters(fetched: Option<seq<Tweet>>) returns (nodes: seq<ClusterNode>)
    ensures nodes == NeuralClusters(fetched)
  {
    if fetched.None? || |fetched.value| == 0 {
      return [];
    }
    var wordMap := CountWords(fetched.value);
    var sorted := TopWords(wordMap);
    nodes := Nodes(sorted);
  }

  // ---------------------------------------------------------------------
  // Properties of the result

  lemma TopWordsSorted(entries: seq<WordCount>)
    ensures |TopWords(entries)| == if |entries| <= TopWordCount then |entries| else TopWordCount
    ensures forall i, j :: 0 <= i < j < |TopWords(entries)| ==> TopWords(entries)[i].count >= TopWords(entries)[j].count
  {
    StableSort.SortDescSorted(entries, WordCountKey);
  }

  lemma TopWordsMember(entries: seq<WordCount>, k: nat)
    requires k < |TopWords(entries)|
    ensures TopWords(entries)[k] in entries
  {
    var sorted := StableSort.SortDesc(entries, WordCountKey);
    assert TopWords(entries)[k] == sorted[k];
    assert sorted[k] in multiset(sorted);
  }

  /** A node's word is counted, and the node's weight compares its
      occurrences with those of the first node's word. */
  lemma TopWordEntry(ws: seq<string>, k: nat)
    requires k < |TopWords(Tally(Kept(ws)))|
    ensures var e := TopWords(Tally(Kept(ws)))[k];
      && Counted(e.key) && e.count == CountIf(ws, IsKey(e.key)) && e.count >= 1
  {
    var vs := Kept(ws);
    var e := TopWords(Tally(vs))[k];
    TopWordsMember(Tally(vs), k);
    EntryOfMember(vs, e);
    KeptCount(ws, e.key);
  }

  /** The weights of a list in non-increasing count, whose counts are
      positive: each 1 to 5, the first 5, never increasing. */
  lemma WeightsInRange(sorted: seq<WordCount>)
    requires forall i, j :: 0 <= i < j < |sorted| ==> sorted[i].count >= sorted[j].count
    requires forall i :: 0 <= i < |sorted| ==> sorted[i].count >= 1
    ensures var r := Nodes(sorted);
      && (forall i :: 0 <= i < |r| ==> 1 <= r[i].value <= 5)
      && (r != [] ==> r[0].value == 5)
      && (forall i, j :: 0 <= i < j < |r| ==> r[i].value >= r[j].value)
  {
    var r := Nodes(sorted);
    if sorted != [] {
      var m := MaxCount(sorted);
      Rounding.RoundDivExact(0, m);
      Rounding.RoundDivExact(4, m);
      forall i | 0 <= i < |r| ensures 1 <= r[i].value <= 5 {
        Rounding.RoundDivMono(0, 4 * sorted[i].count, m);
        Rounding.RoundDivMono(4 * sorted[i].count, 4 * m, m);
      }
      forall i, j | 0 <= i < j < |r| ensures r[i].value >= r[j].value {
        Rounding.RoundDivMono(4 * sorted[j].count, 4 * sorted[i].count, m);
      }
    }
  }

  /** No rows, no nodes. */
  lemma NoTweetsNoNodes()
    ensures NeuralClusters(None) == [] && NeuralClusters(Some([])) == []
  {
  }

  /** At most twenty nodes, numbered in order, weighted 1 to 5 with the
      first at 5 and the weights never increasing. */
  lemma ClustersShape(ws: seq<string>)
    ensures var r := ClustersOf(ws);
      && |r| <= TopWordCount
      && (forall i :: 0 <= i < |r| ==> r[i].id == NodeId(i))
      && (forall i :: 0 <= i < |r| ==> 1 <= r[i].value <= 5)
      && (r != [] ==> r[0].value == 5)
      && (forall i, j :: 0 <= i < j < |r| ==> r[i].value >= r[j].value)
  {
    var vs := Kept(ws);
    var top := TopWords(Tally(vs));
    TopWordsSorted(Tally(vs));
    forall i | 0 <= i < |top| ensures top[i].count >= 1 {
      TopWordsMember(Tally(vs), i);
      EntryOfMember(vs, top[i]);
    }
    WeightsInRange(top);
  }

  /** Each node stands for a counted word, and its weight is its number of
      occurrences against that of the first node's word. */
  lemma ClusterLabel(ws: seq<string>, i: nat)
    requires i < |ClustersOf(ws)|
    ensures var r := ClustersOf(ws);
      && Counted(r[i].labelText)
      && CountIf(ws, IsKey(r[i].labelText)) >= 1
      && CountIf(ws, IsKey(r[0].labelText)) >= 1
      && r[i].value == Weight(CountIf(ws, IsKey(r[i].labelText)), CountIf(ws, IsKey(r[0].labelText)))
  {
    TopWordEntry(ws, i);
    TopWordEntry(ws, 0);
  }

  /** The labels are distinct. */
  lemma ClusterLabelsDistinct(ws: seq<string>, i: nat, j: nat)
    requires i < j < |ClustersOf(ws)|
    ensures ClustersOf(ws)[i].labelText != ClustersOf(ws)[j].labelText
  {
    var vs := Kept(ws);
    var entries := Tally(vs);
    var sorted := StableSort.SortDesc(entries, WordCountKey);
    var top := TopWords(entries);
    assert top[i] == sorted[i] && top[j] == sorted[j];
    TopWordsMember(entries, i);
    TopWordsMember(entries, j);
    EntryOfMember(vs, top[i]);
    EntryOfMember(vs, top[j]);
    if top[i].key == top[j].key {
      forall a, b | 0 <= a < b < |entries| ensures entries[a] != entries[b] {
        TallyEntry(vs, "");
      }
      StableSort.SortDescDistinct(entries, WordCountKey, i, j);
    }
  }

  /** An entry whose word is not among the twenty has no greater count
      than the twentieth. */
  lemma TopWordsBound(entries: seq<WordCount>, e: WordCount)
    requires |entries| > TopWordCount && e in entries
    requires forall i :: 0 <= i < |TopWords(entries)| ==> TopWords(entries)[i].key != e.key
    ensures e.count <= TopWords(entries)[TopWordCount - 1].count
  {
    TopWordsSorted(entries);
    assert e !in multiset(TopWords(entries));
    StableSort.TopBound(entries, WordCountKey, TopWordCount, e);
  }

  /** A counted word left out occurs no more often than the last word
      kept. */
  lemma ClusterTopBound(ws: seq<string>, w: string)
    requires |Tally(Kept(ws))| > TopWordCount
    requires Counted(w) && CountIf(ws, IsKey(w)) > 0
    requires forall i :: 0 <= i < |ClustersOf(ws)| ==> ClustersOf(ws)[i].labelText != w
    ensures CountIf(ws, IsKey(w)) <= TopWords(Tally(Kept(ws)))[TopWordCount - 1].count
  {
    var vs := Kept(ws);
    var top := TopWords(Tally(vs));
    var e := Entry(w, CountIf(ws, IsKey(w)));
    assert e in Tally(vs) by {
      KeptCount(ws, w);
      TallyEntry(vs, w);
    }
    forall i | 0 <= i < |top| ensures top[i].key != w {
      assert ClustersOf(ws)[i].labelText == top[i].key;
    }
    TopWordsBound(Tally(vs), e);
  }
}
