/** The decisions of the page hook: reading the CSRF cookie, sending the
    credentials with the last Likes/Bookmarks API URL, and choosing which
    GraphQL responses to forward and under which action tag. The patching
    of `fetch` and `XMLHttpRequest` is reduced to the handlers below, each
    given the URL, the parsed body and the cookie string it would read. */
module Hook {
  import opened JsValue

  // ---------------------------------------------------------------------
  // Strings: `includes`, `split` and `trim` as JavaScript defines them.

  /** `sub` occurs in `s` at index i. */
  predicate OccursAt(s: string, sub: string, i: int) {
    0 <= i <= |s| - |sub| && s[i..i + |sub|] == sub
  }

  /** `s.includes(sub)` */
  predicate Contains(s: string, sub: string) {
    exists i :: 0 <= i <= |s| - |sub| && OccursAt(s, sub, i)
  }

  /** A string contains whatever any string it contains contains. */
  lemma ContainsTrans(s: string, mid: string, sub: string)
    requires Contains(s, mid) && Contains(mid, sub)
    ensures Contains(s, sub)
  {
    var i :| 0 <= i <= |s| - |mid| && OccursAt(s, mid, i);
    var j :| 0 <= j <= |mid| - |sub| && OccursAt(mid, sub, j);
    forall k | 0 <= k < |sub|
      ensures s[i + j..i + j + |sub|][k] == sub[k]
    {
      assert s[i + j + k] == s[i..i + |mid|][j + k] == mid[j + k] == mid[j..j + |sub|][k];
    }
    assert s[i + j..i + j + |sub|] == sub;
    assert OccursAt(s, sub, i + j);
  }

  /** `s.split(sep)` for a one-character separator: the pieces between
      separators, an empty piece at each end or between adjacent ones. */
  function Split(s: string, sep: char): (r: seq<string>)
    ensures |r| >= 1
  {
    if s == [] then [""]
    else
      var rest := Split(s[1..], sep);
      if s[0] == sep then [""] + rest
      else [[s[0]] + rest[0]] + rest[1..]
  }

  /** No piece contains the separator. */
  lemma {:induction false} SplitPieces(s: string, sep: char)
    ensures forall k :: 0 <= k < |Split(s, sep)| ==> sep !in Split(s, sep)[k]
  {
    if s != [] {
      SplitPieces(s[1..], sep);
    }
  }

  /** `parts.join(sep)`, the inverse of Split. */
  function Join(parts: seq<string>, sep: char): string
    requires |parts| >= 1
  {
    if |parts| == 1 then parts[0] else parts[0] + [sep] + Join(parts[1..], sep)
  }

  lemma {:induction false} JoinSplit(s: string, sep: char)
    ensures Join(Split(s, sep), sep) == s
  {
    if s != [] {
      JoinSplit(s[1..], sep);
      if s[0] == sep {
        JoinSplitAtSep(s, sep);
      } else {
        JoinSplitAtChar(s, sep);
      }
    }
  }

  lemma JoinSplitAtSep(s: string, sep: char)
    requires s != [] && s[0] == sep
    requires Join(Split(s[1..], sep), sep) == s[1..]
    ensures Join(Split(s, sep), sep) == s
  {
    var rest := Split(s[1..], sep);
    var r := Split(s, sep);
    assert r == [""] + rest;
    assert r[1..] == rest;
    assert Join(r, sep) == "" + [sep] + Join(rest, sep);
    assert s == [s[0]] + s[1..];
  }

  lemma JoinSplitAtChar(s: string, sep: char)
    requires s != [] && s[0] != sep
    requires Join(Split(s[1..], sep), sep) == s[1..]
    ensures Join(Split(s, sep), sep) == s
  {
    var rest := Split(s[1..], sep);
    assert Split(s, sep) == [[s[0]] + rest[0]] + rest[1..];
    JoinExtendFirst([s[0]], rest, sep);
    assert s == [s[0]] + s[1..];
  }

  /** Lengthening the first piece at its start lengthens the joined text. */
  lemma JoinExtendFirst(a: string, parts: seq<string>, sep: char)
    requires |parts| >= 1
    ensures Join([a + parts[0]] + parts[1..], sep) == a + Join(parts, sep)
  {
    var r := [a + parts[0]] + parts[1..];
    if |parts| > 1 {
      assert r[1..] == parts[1..];
      assert Join(r, sep) == a + parts[0] + [sep] + Join(parts[1..], sep);
    }
  }

  /** A separator-free start ends the first piece at the first separator. */
  lemma {:induction false} SplitAt(a: string, sep: char, b: string)
    requires sep !in a
    ensures Split(a + [sep] + b, sep) == [a] + Split(b, sep)
  {
    if a == [] {
      assert [sep] + b == [sep] + b;
      assert ([sep] + b)[1..] == b;
    } else {
      SplitAt(a[1..], sep, b);
      assert (a + [sep] + b)[1..] == a[1..] + [sep] + b;
      assert [a[0]] + a[1..] == a;
    }
  }

  /** A string without the separator is one piece. */
  lemma {:induction false} SplitNone(a: string, sep: char)
    requires sep !in a
    ensures Split(a, sep) == [a]
  {
    if a != [] {
      SplitNone(a[1..], sep);
      assert [a[0]] + a[1..] == a;
    }
  }

  /** The number of white-space characters `s` starts with. */
  function LeadingSpaces(s: string): (k: nat)
    ensures k <= |s|
    ensures forall j :: 0 <= j < k ==> IsJsSpace(s[j])
    ensures k < |s| ==> !IsJsSpace(s[k])
  {
    if s != [] && IsJsSpace(s[0]) then 1 + LeadingSpaces(s[1..]) else 0
  }

  /** The number of white-space characters `s` ends with. */
  function TrailingSpaces(s: string): (k: nat)
    ensures k <= |s|
    ensures forall j :: |s| - k <= j < |s| ==> IsJsSpace(s[j])
    ensures k < |s| ==> !IsJsSpace(s[|s| - 1 - k])
  {
    if s != [] && IsJsSpace(s[|s| - 1]) then 1 + TrailingSpaces(s[..|s| - 1]) else 0
  }

  /** `s.trim()`: both ends stripped of JavaScript white space. The result
      is a slice of `s` outside which there is only white space, and it
      neither starts nor ends with white space, so exactly the leading and
      trailing white space is removed. */
  function Trim(s: string): (r: string)
    ensures r != [] ==> !IsJsSpace(r[0]) && !IsJsSpace(r[|r| - 1])
    ensures exists i, j ::
      && 0 <= i <= j <= |s| && r == s[i..j]
      && forall k :: (0 <= k < i || j <= k < |s|) ==> IsJsSpace(s[k])
  {
    var i := LeadingSpaces(s);
    var t := s[i..];
    var r := t[..|t| - TrailingSpaces(t)];
    assert r != [] ==> r[0] == t[0] && r[|r| - 1] == t[|t| - 1 - TrailingSpaces(t)];
    TrimBounds(s);
    r
  }

  /** The slice Trim takes has only white space outside it. */
  lemma TrimBounds(s: string)
    ensures var i := LeadingSpaces(s);
      var j := |s| - TrailingSpaces(s[i..]);
      && i <= j
      && s[i..][..|s[i..]| - TrailingSpaces(s[i..])] == s[i..j]
      && forall k :: j <= k < |s| ==> IsJsSpace(s[k])
  {
    var i := LeadingSpaces(s);
    var t := s[i..];
    var n := TrailingSpaces(t);
    assert t[..|t| - n] == s[i..|s| - n];
    forall k | |s| - n <= k < |s| ensures IsJsSpace(s[k]) {
      assert s[k] == t[k - i];
    }
  }

  /** White space before a trimmed text is all that trimming removes. */
  lemma {:induction false} TrimLeading(ws: string, s: string)
    requires forall k :: 0 <= k < |ws| ==> IsJsSpace(ws[k])
    requires s != [] && !IsJsSpace(s[0]) && !IsJsSpace(s[|s| - 1])
    ensures Trim(ws + s) == s
  {
    LeadingAfter(ws, s);
    assert (ws + s)[|ws|..] == s;
    assert TrailingSpaces(s) == 0;
  }

  lemma {:induction false} LeadingAfter(ws: string, s: string)
    requires forall k :: 0 <= k < |ws| ==> IsJsSpace(ws[k])
    requires s != [] && !IsJsSpace(s[0])
    ensures LeadingSpaces(ws + s) == |ws|
  {
    if ws != [] {
      assert (ws + s)[1..] == ws[1..] + s;
      LeadingAfter(ws[1..], s);
    }
  }

  /** Trimming leaves a string without white space at its ends as it is. */
  lemma TrimmedUnchanged(s: string)
    requires s != [] ==> !IsJsSpace(s[0]) && !IsJsSpace(s[|s| - 1])
    ensures Trim(s) == s
  {
    assert LeadingSpaces(s) == 0;
    assert TrailingSpaces(s) == 0;
  }

  // ---------------------------------------------------------------------
  // extractAuthFromCookies

  /** X's public web-client bearer token. */
  const Bearer := "Bearer AAAAAAAAAAAAAAAAAAAAANRILgAAAAAAnNwIzUejRCOuH5E6I8xnZz4puTs%3D1Zv7ttfk8LF81IUq16cHjhLTvJu4FA33AGWWjCpTnA"

  const CsrfCookie := "ct0"

  /** The CSRF token: null when no cookie is named ct0, undefined when the
      last such cookie has no `=`, else its value. */
  datatype Csrf = Null | Undefined | Token(value: string)

  datatype Auth = Auth(authorization: string, csrfToken: Csrf)

  /** `const [name, value] = cookie.trim().split('=')` */
  function CookieName(cookie: string): string {
    Split(Trim(cookie), '=')[0]
  }

  function CookieValue(cookie: string): (v: Csrf)
    ensures v != Null
  {
    var parts := Split(Trim(cookie), '=');
    if |parts| >= 2 then Token(parts[1]) else Undefined
  }

  /** The token once `cookies` have been read in order, each by `name` and
      `value`: null without a ct0 cookie, else the value of the last one. */
  function LastCsrf<T>(cookies: seq<T>, name: T -> string, value: T -> Csrf): Csrf {
    if cookies == [] then Null
    else if name(cookies[|cookies| - 1]) == CsrfCookie then value(cookies[|cookies| - 1])
    else LastCsrf(cookies[..|cookies| - 1], name, value)
  }

  lemma {:induction false} LastCsrfNullIff<T>(cookies: seq<T>, name: T -> string, value: T -> Csrf)
    requires forall c :: value(c) != Null
    ensures LastCsrf(cookies, name, value) == Null <==> forall k :: 0 <= k < |cookies| ==> name(cookies[k]) != CsrfCookie
  {
    if cookies != [] {
      var init := cookies[..|cookies| - 1];
      LastCsrfNullIff(init, name, value);
      assert forall k :: 0 <= k < |init| ==> init[k] == cookies[k];
    }
  }

  lemma {:induction false} LastCsrfWins<T>(cookies: seq<T>, name: T -> string, value: T -> Csrf, i: nat)
    requires i < |cookies| && name(cookies[i]) == CsrfCookie
    requires forall k :: i < k < |cookies| ==> name(cookies[k]) != CsrfCookie
    ensures LastCsrf(cookies, name, value) == value(cookies[i])
  {
    if i < |cookies| - 1 {
      LastCsrfWins(cookies[..|cookies| - 1], name, value, i);
    }
  }

  /** The token of the cookie string: the cookies as `document.cookie`
      lists them, read by `trim().split('=')`. */
  function CsrfOf(cookies: seq<string>): Csrf {
    LastCsrf(cookies, CookieName, CookieValue)
  }

  /** The token is null exactly when no cookie is named ct0. */
  lemma CsrfNullIff(cookies: seq<string>)
    ensures CsrfOf(cookies) == Null <==> forall k :: 0 <= k < |cookies| ==> CookieName(cookies[k]) != CsrfCookie
  {
    LastCsrfNullIff(cookies, CookieName, CookieValue);
  }

  /** The loop step: the next cookie overwrites the token when it is ct0. */
  lemma CsrfOfStep(cookies: seq<string>, i: nat)
    requires i < |cookies|
    ensures CsrfOf(cookies[..i + 1]) ==
      if CookieName(cookies[i]) == CsrfCookie then CookieValue(cookies[i]) else CsrfOf(cookies[..i])
  {
    assert cookies[..i + 1][..i] == cookies[..i];
  }

  /** The value of the last cookie named ct0 is the token. */
  lemma CsrfLastWins(cookies: seq<string>, i: nat)
    requires i < |cookies| && CookieName(cookies[i]) == CsrfCookie
    requires forall k :: i < k < |cookies| ==> CookieName(cookies[k]) != CsrfCookie
    ensures CsrfOf(cookies) == CookieValue(cookies[i])
  {
    LastCsrfWins(cookies, CookieName, CookieValue, i);
  }

  /** A cookie reads the same after the white space `split(';')` leaves. */
  lemma CookieAfterSpace(ws: string, c: string)
    requires forall k :: 0 <= k < |ws| ==> IsJsSpace(ws[k])
    requires c != [] && !IsJsSpace(c[0]) && !IsJsSpace(c[|c| - 1])
    ensures CookieName(ws + c) == CookieName(c) && CookieValue(ws + c) == CookieValue(c)
  {
    TrimLeading(ws, c);
    TrimmedUnchanged(c);
  }

  /** `ct0=v=w` yields v: the value is cut at a second `=`. Any white
      space before the name, as `document.cookie` puts after each `;`, is
      trimmed away. */
  lemma CookieValueCut(ws: string, v: string, rest: string)
    requires forall k :: 0 <= k < |ws| ==> IsJsSpace(ws[k])
    requires '=' !in v
    requires rest != [] ==> !IsJsSpace(rest[|rest| - 1])
    ensures var c := "ct0=" + v + "=" + rest;
      CookieName(ws + c) == CsrfCookie && CookieValue(ws + c) == Token(v)
  {
    var c := "ct0=" + v + "=" + rest;
    SplitCut(v, rest);
    assert c[0] == 'c';
    assert c[|c| - 1] == if rest == [] then '=' else rest[|rest| - 1];
    CookieAfterSpace(ws, c);
  }

  lemma SplitCut(v: string, rest: string)
    requires '=' !in v
    requires rest != [] ==> !IsJsSpace(rest[|rest| - 1])
    ensures CookieName("ct0=" + v + "=" + rest) == CsrfCookie
    ensures CookieValue("ct0=" + v + "=" + rest) == Token(v)
  {
    var c := "ct0=" + v + "=" + rest;
    TrimmedUnchanged(c);
    assert c == "ct0" + ['='] + (v + ['='] + rest);
    SplitAt("ct0", '=', v + ['='] + rest);
    SplitAt(v, '=', rest);
  }

  /** `ct0=v` yields v, after any leading white space. */
  lemma CookieValueWhole(ws: string, v: string)
    requires forall k :: 0 <= k < |ws| ==> IsJsSpace(ws[k])
    requires '=' !in v
    requires v != [] ==> !IsJsSpace(v[|v| - 1])
    ensures var c := "ct0=" + v;
      CookieName(ws + c) == CsrfCookie && CookieValue(ws + c) == Token(v)
  {
    var c := "ct0=" + v;
    SplitWhole(v);
    assert c[0] == 'c';
    assert c[|c| - 1] == if v == [] then '=' else v[|v| - 1];
    CookieAfterSpace(ws, c);
  }

  lemma SplitWhole(v: string)
    requires '=' !in v
    requires v != [] ==> !IsJsSpace(v[|v| - 1])
    ensures CookieName("ct0=" + v) == CsrfCookie && CookieValue("ct0=" + v) == Token(v)
  {
    var c := "ct0=" + v;
    assert c[0] == 'c';
    assert c[|c| - 1] == if v == [] then '=' else v[|v| - 1];
    TrimmedUnchanged(c);
    assert c == "ct0" + ['='] + v;
    SplitAt("ct0", '=', v);
    SplitNone(v, '=');
    assert Split(Trim(c), '=') == ["ct0", v];
  }

  /** A bare `ct0` yields undefined. */
  lemma CookieWithoutValue()
    ensures CookieName(CsrfCookie) == CsrfCookie && CookieValue(CsrfCookie) == Undefined
  {
    TrimmedUnchanged(CsrfCookie);
    SplitNone(CsrfCookie, '=');
  }

  /** extractAuthFromCookies, as written: one split of `document.cookie`
      and a loop in which each ct0 cookie overwrites the token. */
  method ExtractAuthFromCookies(documentCookie: string) returns (auth: Auth)
    ensures auth.authorization == Bearer
    ensures auth.csrfToken == CsrfOf(Split(documentCookie, ';'))
  {
    var csrfToken := Null;
    var cookies := Split(documentCookie, ';');
    var i := 0;
    while i < |cookies|
      invariant 0 <= i <= |cookies|
      invariant csrfToken == CsrfOf(cookies[..i])
    {
      var name, value := CookieName(cookies[i]), CookieValue(cookies[i]);
      CsrfOfStep(cookies, i);
      if name == CsrfCookie {
        csrfToken := value;
      }
      i := i + 1;
    }
    assert cookies[..i] == cookies;
    auth := Auth(Bearer, csrfToken);
  }

  /** `!csrfToken` is false only for a non-empty value. */
  predicate HasToken(t: Csrf) {
    t.Token? && t.value != ""
  }

  // ---------------------------------------------------------------------
  // Classification of intercepted URLs

  datatype Action = View | Like | Bookmark | LikesTimeline | BookmarksTimeline

  /** The tag posted with a capture. */
  function ActionTag(a: Action): (t: string)
    ensures a == View <==> t == "view"
  {
    match a
    case View => "view"
    case Like => "like"
    case Bookmark => "bookmark"
    case LikesTimeline => "likes_timeline"
    case BookmarksTimeline => "bookmarks_timeline"
  }

  /** The tag is one of five distinct strings, so it determines the action. */
  lemma ActionTagInjective(a: Action, b: Action)
    requires ActionTag(a) == ActionTag(b)
    ensures a == b
  {
  }

  predicate IsGraphql(url: string) {
    Contains(url, "/graphql/")
  }

  /** The operations the XHR handler captures. */
  predicate MentionsXhrOperation(url: string) {
    Contains(url, "CreateLike") || Contains(url, "FavoriteTweet") || Contains(url, "CreateBookmark")
    || Contains(url, "Likes") || Contains(url, "Bookmarks")
  }

  /** The operations the fetch handler captures: those and TweetDetail. */
  predicate MentionsFetchOperation(url: string) {
    MentionsXhrOperation(url) || Contains(url, "TweetDetail")
  }

  predicate IsFetchCapture(url: string) {
    IsGraphql(url) && MentionsFetchOperation(url)
  }

  predicate IsXhrCapture(url: string) {
    IsGraphql(url) && MentionsXhrOperation(url)
  }

  /** The XHR request whose credentials are sent. */
  predicate ShouldSendAuth(url: string) {
    Contains(url, "/i/api/graphql/") && (Contains(url, "Likes") || Contains(url, "Bookmarks"))
  }

  /** The action as a priority list, highest first: Bookmarks, Likes,
      CreateBookmark, CreateLike or FavoriteTweet, otherwise view. */
  function ActionFor(url: string): Action {
    if Contains(url, "Bookmarks") then BookmarksTimeline
    else if Contains(url, "Likes") then LikesTimeline
    else if Contains(url, "CreateBookmark") then Bookmark
    else if Contains(url, "CreateLike") || Contains(url, "FavoriteTweet") then Like
    else View
  }

  /** The action as the handlers compute it: "view", then each matching test
      in turn overwrites it. */
  method ClassifyAction(url: string) returns (action: Action)
    ensures action == ActionFor(url)
  {
    action := View;
    if Contains(url, "CreateLike") || Contains(url, "FavoriteTweet") {
      action := Like;
    }
    if Contains(url, "CreateBookmark") {
      action := Bookmark;
    }
    if Contains(url, "Likes") {
      action := LikesTimeline;
    }
    if Contains(url, "Bookmarks") {
      action := BookmarksTimeline;
    }
  }

  /** A fetch capture is tagged "view" exactly when TweetDetail is the only
      operation its URL names. */
  lemma FetchViewIff(url: string)
    requires IsFetchCapture(url)
    ensures ActionFor(url) == View <==> Contains(url, "TweetDetail") && !MentionsXhrOperation(url)
  {
  }

  /** An XHR capture is never tagged "view". */
  lemma XhrNeverView(url: string)
    requires IsXhrCapture(url)
    ensures ActionFor(url) != View
  {
  }

  /** Every XHR capture would be captured by the fetch handler too, under
      the same tag; the fetch handler captures more exactly the TweetDetail
      views. */
  lemma XhrWithinFetch(url: string)
    ensures IsXhrCapture(url) ==> IsFetchCapture(url)
    ensures IsFetchCapture(url) && !IsXhrCapture(url) <==> IsFetchCapture(url) && ActionFor(url) == View
  {
  }

  /** A request whose credentials are sent is also captured, as a timeline. */
  lemma AuthRequestIsTimelineCapture(url: string)
    requires ShouldSendAuth(url)
    ensures IsXhrCapture(url)
    ensures ActionFor(url) == LikesTimeline || ActionFor(url) == BookmarksTimeline
  {
    var inner := "/i/api/graphql/";
    var a, b := "/i/api", "/graphql/";
    assert inner == a + b;
    assert (a + b)[|a|..|a| + |b|] == b;
    assert OccursAt(inner, b, 6);
    ContainsTrans(url, inner, "/graphql/");
  }

  // ---------------------------------------------------------------------
  // The messages the hook posts and its one piece of state

  const HookSource := "hook"

  /** A `window.postMessage` from the hook; `source` is always "hook". The
      `authorization` of MINER_AUTH_UPDATE is always the bearer constant (see
      ExtractAuthFromCookies), so it is not stored; its user agent is not
      modelled. */
  datatype Message =
    | AuthUpdate(csrfToken: string, url: string)
    | RawCapture(payload: Json, action: string)

  function MessageType(m: Message): string {
    match m
    case AuthUpdate(_, _) => "MINER_AUTH_UPDATE"
    case RawCapture(_, _) => "APEX_RAW_CAPTURE"
  }

  /** The messages a handler posts for one parsed response: none when the
      body did not parse (the swallowed rejection) or the URL is not a
      capture, else one capture with the classified tag. */
  function Captures(isCapture: bool, url: string, parsed: Option<Json>): (r: seq<Message>)
    ensures |r| <= 1
    ensures r != [] <==> isCapture && parsed.Some?
    ensures r != [] ==> r[0] == RawCapture(parsed.value, ActionTag(ActionFor(url)))
  {
    if isCapture && parsed.Some? then [RawCapture(parsed.value, ActionTag(ActionFor(url)))] else []
  }

  /** The main-world hook: `lastCapturedApiUrl` and the messages posted so far. */
  class PageHook {
    var lastCapturedApiUrl: Option<string>
    var posted: seq<Message>

    constructor ()
      ensures lastCapturedApiUrl == None && posted == []
    {
      lastCapturedApiUrl := None;
      posted := [];
    }

    /** sendAuthWithApiUrl: without a token nothing happens; with one, one
        MINER_AUTH_UPDATE carrying the API URL is posted and the URL is
        remembered. */
    method SendAuthWithApiUrl(documentCookie: string, apiUrl: string)
      modifies this
      ensures var t := CsrfOf(Split(documentCookie, ';'));
        if HasToken(t) then
          posted == old(posted) + [AuthUpdate(t.value, apiUrl)] && lastCapturedApiUrl == Some(apiUrl)
        else
          posted == old(posted) && lastCapturedApiUrl == old(lastCapturedApiUrl)
    {
      var auth := ExtractAuthFromCookies(documentCookie);
      if HasToken(auth.csrfToken) {
        posted := posted + [AuthUpdate(auth.csrfToken.value, apiUrl)];
        lastCapturedApiUrl := Some(apiUrl);
      }
    }

    /** The patched `fetch` once the original has answered: the response is
        returned as it came, and the parsed clone (None when `json()`
        rejects) may be forwarded. */
    method OnFetchResponse<R>(url: string, response: R, parsed: Option<Json>) returns (r: R)
      modifies this
      ensures r == response
      ensures posted == old(posted) + (if IsGraphql(url) then Captures(IsFetchCapture(url), url, parsed) else [])
      ensures lastCapturedApiUrl == old(lastCapturedApiUrl)
    {
      if IsGraphql(url) {
        if parsed.Some? {
          if IsFetchCapture(url) {
            var action := ClassifyAction(url);
            posted := posted + [RawCapture(parsed.value, ActionTag(action))];
          }
        }
      }
      return response;
    }

    /** The patched `send`: the URL recorded by `open` (or "" without one)
        decides whether credentials are sent; the body goes on unchanged. */
    method OnXhrSend<B>(documentCookie: string, apexUrl: Option<string>, body: B) returns (url: string, sent: B)
      modifies this
      ensures url == (if apexUrl.Some? && apexUrl.value != "" then apexUrl.value else "")
      ensures sent == body
      ensures var t := CsrfOf(Split(documentCookie, ';'));
        if ShouldSendAuth(url) && HasToken(t) then
          posted == old(posted) + [AuthUpdate(t.value, url)] && lastCapturedApiUrl == Some(url)
        else
          posted == old(posted) && lastCapturedApiUrl == old(lastCapturedApiUrl)
    {
      url := if apexUrl.Some? && apexUrl.value != "" then apexUrl.value else "";
      if ShouldSendAuth(url) {
        SendAuthWithApiUrl(documentCookie, url);
      }
      sent := body;
    }

    /** The load listener: `JSON.parse` of the response text (None when it
        throws, which is swallowed) and the XHR capture rule. The caller
        passes as `url` the value OnXhrSend returned for the same request,
        which the listener's closure captures. */
    method OnXhrLoad(url: string, parsed: Option<Json>)
      modifies this
      ensures posted == old(posted) + (if IsGraphql(url) then Captures(IsXhrCapture(url), url, parsed) else [])
      ensures lastCapturedApiUrl == old(lastCapturedApiUrl)
    {
      if IsGraphql(url) && parsed.Some? && IsXhrCapture(url) {
        var action := ClassifyAction(url);
        posted := posted + [RawCapture(parsed.value, ActionTag(action))];
      }
    }
  }
}
