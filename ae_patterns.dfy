/** The string logic of the request object `AstroEmpires.AE`: how a page URL
    becomes the topics its response is published under, how a response is
    recognised as the login page, the login form, and the pages fetched by
    `getData()`. The two regular expressions are evaluated the way
    `RegExp.prototype.exec` backtracks: start positions from left to right,
    greedy quantifiers from longest to shortest, `.` never matching a line
    terminator, and the `i` flag matching an ASCII letter in either case. */
module AePatterns {
  import opened Js

  predicate IsLineTerminator(c: char) {
    c == '\n' || c == '\r' || c == '\U{2028}' || c == '\U{2029}'
  }

  predicate IsAsciiLetter(c: char) {
    'a' <= c <= 'z' || 'A' <= c <= 'Z'
  }

  /** Pattern character p, written in lower case, matches c under the `i` flag. */
  predicate CharMatchesCI(c: char, p: char) {
    c == p || ('a' <= p <= 'z' && c as int == p as int - 32)
  }

  /** The literal lit (lower case) matches s at position i under the `i` flag. */
  predicate MatchesAt(s: string, i: nat, lit: string) {
    i + |lit| <= |s| && forall j | 0 <= j < |lit| :: CharMatchesCI(s[i + j], lit[j])
  }

  /** How far `.*` can run from p: the first line terminator at or after p. */
  function LineEnd(s: string, p: nat): (r: nat)
    requires p <= |s|
    ensures p <= r <= |s|
    ensures forall j | p <= j < r :: !IsLineTerminator(s[j])
    ensures r < |s| ==> IsLineTerminator(s[r])
    decreases |s| - p
  {
    if p == |s| || IsLineTerminator(s[p]) then p else LineEnd(s, p + 1)
  }

  /** How far `[^\.]+` can run from p: the first dot at or after p. */
  function FirstDot(s: string, p: nat): (r: nat)
    requires p <= |s|
    ensures p <= r <= |s|
    ensures forall j | p <= j < r :: s[j] != '.'
    ensures r < |s| ==> s[r] == '.'
    decreases |s| - p
  {
    if p == |s| || s[p] == '.' then p else FirstDot(s, p + 1)
  }

  // ---------------------------------------------------------------------
  // /.*\/([^\.]+)\.aspx(.+view=([a-z]+))?/i

  /** A `/` at e after which `([^\.]+)\.aspx` matches: the page name is
      everything up to the next dot, it is not empty, and that dot opens
      `.aspx` in any case. A shorter page name would be followed by a
      character other than a dot, so it is the only candidate. */
  predicate PageAt(s: string, e: nat) {
    e < |s| && s[e] == '/' && var d := FirstDot(s, e + 1); d > e + 1 && MatchesAt(s, d, ".aspx")
  }

  /** The greedy `.*\/` at a fixed start: the last e in [lo, hi) with PageAt. */
  function LastPageSlash(s: string, lo: nat, hi: nat): (r: Option<nat>)
    requires hi <= |s|
    ensures r.Some? ==> lo <= r.value < hi && PageAt(s, r.value)
    ensures r.Some? ==> forall e | r.value < e < hi :: !PageAt(s, e)
    ensures r.None? ==> forall e | lo <= e < hi :: !PageAt(s, e)
    decreases hi
  {
    if hi <= lo then None
    else if PageAt(s, hi - 1) then Some(hi - 1)
    else LastPageSlash(s, lo, hi - 1)
  }

  /** `exec` tries the start positions p, p + 1, …; from p, `.*` cannot pass
      the end of p's line. The result is the `/` the match uses. */
  function ExecSlash(s: string, p: nat): (r: Option<nat>)
    requires p <= |s|
    ensures r.Some? ==> p <= r.value && PageAt(s, r.value)
    ensures r.None? <==> forall e | p <= e < |s| :: !PageAt(s, e)
    decreases |s| - p
  {
    match LastPageSlash(s, p, LineEnd(s, p))
    case Some(e) => Some(e)
    case None => if p == |s| then None else ExecSlash(s, p + 1)
  }

  /** `view=` (any case) at g, followed by at least one letter. */
  predicate ViewAt(s: string, g: nat) {
    MatchesAt(s, g, "view=") && g + 5 < |s| && IsAsciiLetter(s[g + 5])
  }

  /** The greedy `.+` before `view=`: the last g in [lo, hi) with ViewAt. */
  function LastViewAt(s: string, lo: nat, hi: nat): (r: Option<nat>)
    requires hi <= |s|
    ensures r.Some? ==> lo <= r.value < hi && ViewAt(s, r.value)
    ensures r.Some? ==> forall g | r.value < g < hi :: !ViewAt(s, g)
    ensures r.None? ==> forall g | lo <= g < hi :: !ViewAt(s, g)
    decreases hi
  {
    if hi <= lo then None
    else if ViewAt(s, hi - 1) then Some(hi - 1)
    else LastViewAt(s, lo, hi - 1)
  }

  /** The end of the run of letters starting at i: the greedy `([a-z]+)`. */
  function LetterRunEnd(s: string, i: nat): (r: nat)
    requires i <= |s|
    ensures i <= r <= |s|
    ensures forall j | i <= j < r :: IsAsciiLetter(s[j])
    ensures r < |s| ==> !IsAsciiLetter(s[r])
    decreases |s| - i
  {
    if i == |s| || !IsAsciiLetter(s[i]) then i else LetterRunEnd(s, i + 1)
  }

  /** The optional group `(.+view=([a-z]+))?` against the text t after
      `.aspx`: `.+` takes at least one character and stays on the line;
      when no `view=` fits, the group is skipped and the match still
      succeeds. */
  function ViewIn(t: string): Option<string> {
    match LastViewAt(t, 1, LineEnd(t, 0))
    case None => None
    case Some(g) => Some(t[g + 5 .. LetterRunEnd(t, g + 5)])
  }

  /** What the match yields: `match[1]`, and `match[3]` when the optional group matched. */
  datatype UrlMatch = UrlMatch(page: string, view: Option<string>)

  /** `/.*\/([^\.]+)\.aspx(.+view=([a-z]+))?/i.exec(url)`. */
  function MatchUrl(url: string): Option<UrlMatch> {
    match ExecSlash(url, 0)
    case None => None
    case Some(e) =>
      var d := FirstDot(url, e + 1);
      Some(UrlMatch(url[e + 1 .. d], ViewIn(url[d + 5 ..])))
  }

  /** The match fails exactly when no `/` in the URL is followed by a page
      name and `.aspx`; a page name is never empty and holds no dot. */
  lemma MatchUrlFailsIff(url: string)
    ensures MatchUrl(url).None? <==> forall e | 0 <= e < |url| :: !PageAt(url, e)
    ensures MatchUrl(url).Some? ==> MatchUrl(url).value.page != [] && '.' !in MatchUrl(url).value.page
  {
    match ExecSlash(url, 0)
    case None =>
    case Some(e) =>
      var d := FirstDot(url, e + 1);
      var page := url[e + 1 .. d];
      assert forall j | 0 <= j < |page| :: page[j] == url[e + 1 + j];
  }

  /** `page + view` in processData: `_<page>` and, when a view matched, `_<view>`. */
  function TopicSuffix(m: UrlMatch): string {
    "_" + m.page + (if m.view.Some? then "_" + m.view.value else "")
  }

  function UrlTopic(m: UrlMatch): string {
    "url" + TopicSuffix(m)
  }

  function SkinTopic(skin: JsValue, m: UrlMatch): string {
    "skin_" + ToStr(skin) + TopicSuffix(m)
  }

  /** The topics processData publishes a response under, in order: the URL
      topic, then the skin topic when a skin is set. None: the URL does not
      match and processData throws instead. */
  function TopicsFor(url: string, skin: JsValue): Option<seq<string>> {
    match MatchUrl(url)
    case None => None
    case Some(m) => Some([UrlTopic(m)] + (if Truthy(skin) then [SkinTopic(skin, m)] else []))
  }

  predicate NoLineTerminator(s: string) {
    forall j | 0 <= j < |s| :: !IsLineTerminator(s[j])
  }

  predicate IsPageName(page: string) {
    page != [] && forall j | 0 <= j < |page| :: page[j] != '/' && page[j] != '.'
  }

  predicate IsLetters(v: string) {
    v != [] && forall j | 0 <= j < |v| :: IsAsciiLetter(v[j])
  }

  lemma FirstDotIs(s: string, p: nat, d: nat)
    requires p <= d < |s| && s[d] == '.'
    requires forall j | p <= j < d :: s[j] != '.'
    ensures FirstDot(s, p) == d
  {
  }

  /** The match uses the `/` at e when it opens a page name ending at the
      dot d, no `/` comes after it, and no line ends before it. */
  lemma {:induction false} ExecSlashIs(url: string, e: nat, d: nat)
    requires e + 1 < d <= |url| && url[e] == '/' && MatchesAt(url, d, ".aspx")
    requires forall j | 0 <= j < e :: !IsLineTerminator(url[j])
    requires forall j | e < j < d :: url[j] != '.'
    requires forall j | e < j < |url| :: url[j] != '/'
    ensures ExecSlash(url, 0) == Some(e) && FirstDot(url, e + 1) == d
  {
    assert CharMatchesCI(url[d], ".aspx"[0]);
    FirstDotIs(url, e + 1, d);
    assert PageAt(url, e);
    var hi := LineEnd(url, 0);
    assert e < hi;
    var r := LastPageSlash(url, 0, hi);
    assert r == Some(e);
  }

  /** In `prefix/<page><rest>` the match takes the page name after the last
      `/`, when rest starts with `.aspx` and holds no `/`; the view is
      looked for in what follows `.aspx`. */
  lemma PageNameMatched(url: string, prefix: string, page: string, rest: string)
    requires url == prefix + "/" + page + rest
    requires NoLineTerminator(prefix) && IsPageName(page)
    requires forall j | 0 <= j < |rest| :: rest[j] != '/'
    requires MatchesAt(rest, 0, ".aspx")
    ensures MatchUrl(url) == Some(UrlMatch(page, ViewIn(rest[5..])))
  {
    var e := |prefix|;
    var d := e + 1 + |page|;
    assert forall j | 0 <= j < e :: url[j] == prefix[j];
    assert forall j | e < j < d :: url[j] == page[j - e - 1];
    assert forall j | d <= j < |url| :: url[j] == rest[j - d];
    assert MatchesAt(url, d, ".aspx") by {
      forall j | 0 <= j < 5 ensures CharMatchesCI(url[d + j], ".aspx"[j]) {
        assert url[d + j] == rest[j];
      }
    }
    ExecSlashIs(url, e, d);
    assert url[e + 1 .. d] == page;
    assert url[d + 5 ..] == rest[5..];
    MatchAtSlash(url, e, d);
  }

  /** The match found at the `/` e with the page name ending at the dot d. */
  lemma MatchAtSlash(url: string, e: nat, d: nat)
    requires ExecSlash(url, 0) == Some(e) && FirstDot(url, e + 1) == d
    ensures d + 5 <= |url|
    ensures MatchUrl(url) == Some(UrlMatch(url[e + 1 .. d], ViewIn(url[d + 5 ..])))
  {
  }

  /** `…/<page>.aspx` is published under `url_<page>`, and under
      `skin_<skin>_<page>` as well when a skin is set. */
  lemma PlainPageTopics(url: string, prefix: string, page: string, skin: JsValue)
    requires url == prefix + "/" + page + ".aspx"
    requires NoLineTerminator(prefix) && IsPageName(page)
    ensures MatchUrl(url) == Some(UrlMatch(page, None))
    ensures TopicsFor(url, skin) ==
      Some(["url_" + page] + (if Truthy(skin) then ["skin_" + ToStr(skin) + "_" + page] else []))
  {
    assert MatchesAt(".aspx", 0, ".aspx");
    PageNameMatched(url, prefix, page, ".aspx");
    assert ".aspx"[5..] == "";
    assert ViewIn("") == None;
    var m := UrlMatch(page, None);
    assert TopicSuffix(m) == "_" + page;
    assert UrlTopic(m) == "url_" + page;
    assert SkinTopic(skin, m) == "skin_" + ToStr(skin) + "_" + page;
  }

  /** `…/<page>.aspx?view=<letters>` is published under
      `url_<page>_<letters>`, and under `skin_<skin>_<page>_<letters>` as
      well when a skin is set. */
  lemma ViewPageTopics(url: string, prefix: string, page: string, view: string, skin: JsValue)
    requires url == prefix + "/" + page + ".aspx" + "?view=" + view
    requires NoLineTerminator(prefix) && IsPageName(page) && IsLetters(view)
    ensures MatchUrl(url) == Some(UrlMatch(page, Some(view)))
    ensures TopicsFor(url, skin) ==
      Some(["url_" + page + "_" + view]
           + (if Truthy(skin) then ["skin_" + ToStr(skin) + "_" + page + "_" + view] else []))
  {
    ViewPageMatch(url, prefix, page, view);
    ViewPageTopicNames(url, page, view, skin);
  }

  lemma ViewPageMatch(url: string, prefix: string, page: string, view: string)
    requires url == prefix + "/" + page + ".aspx" + "?view=" + view
    requires NoLineTerminator(prefix) && IsPageName(page) && IsLetters(view)
    ensures MatchUrl(url) == Some(UrlMatch(page, Some(view)))
  {
    var query := "?view=" + view;
    var rest := ".aspx" + query;
    assert url == prefix + "/" + page + rest;
    assert MatchesAt(rest, 0, ".aspx") by {
      assert forall j | 0 <= j < 5 :: rest[j] == ".aspx"[j];
    }
    forall j | 0 <= j < |rest| ensures rest[j] != '/' {
      if j >= 11 { assert rest[j] == view[j - 11]; }
    }
    PageNameMatched(url, prefix, page, rest);
    assert rest[5..] == query;
    ViewQuery(view);
  }

  lemma ViewPageTopicNames(url: string, page: string, view: string, skin: JsValue)
    requires MatchUrl(url) == Some(UrlMatch(page, Some(view)))
    ensures TopicsFor(url, skin) ==
      Some(["url_" + page + "_" + view]
           + (if Truthy(skin) then ["skin_" + ToStr(skin) + "_" + page + "_" + view] else []))
  {
    var m := UrlMatch(page, Some(view));
    assert TopicSuffix(m) == "_" + page + "_" + view;
    assert UrlTopic(m) == "url_" + page + "_" + view;
    assert SkinTopic(skin, m) == "skin_" + ToStr(skin) + "_" + page + "_" + view;
  }

  /** The query `?view=<letters>` after `.aspx` yields the letters. */
  lemma ViewQuery(view: string)
    requires IsLetters(view)
    ensures ViewIn("?view=" + view) == Some(view)
  {
    var t := "?view=" + view;
    assert forall j | 0 <= j < |view| :: t[6 + j] == view[j];
    assert LineEnd(t, 0) == |t|;
    assert MatchesAt(t, 1, "view=") by {
      forall j | 0 <= j < 5 ensures CharMatchesCI(t[1 + j], "view="[j]) {
      }
    }
    assert ViewAt(t, 1);
    forall g | 1 < g < |t| ensures !ViewAt(t, g) {
      if g + 5 < |t| {
        assert t[g + 4] == view[g - 2];
        assert !CharMatchesCI(t[g + 4], "view="[4]);
      }
    }
    assert LastViewAt(t, 1, |t|) == Some(1);
    assert LetterRunEnd(t, 6) == |t|;
    assert t[6 .. |t|] == view;
  }

  /** A URL with no `.aspx` in it, in any case, matches nothing. */
  lemma NoAspxNoMatch(url: string)
    requires forall i | 0 <= i <= |url| :: !MatchesAt(url, i, ".aspx")
    ensures MatchUrl(url).None? && TopicsFor(url, Bool(true)).None?
  {
    MatchUrlFailsIff(url);
  }

  /** The URL topic comes first and does not depend on the skin; the skin
      topic follows exactly when the skin is truthy, with the same suffix. */
  lemma SkinTopicIffTruthy(url: string, skin: JsValue)
    ensures TopicsFor(url, skin).Some? <==> TopicsFor(url, Bool(false)).Some?
    ensures TopicsFor(url, skin).Some? ==>
      var ts := TopicsFor(url, skin).value;
      && 1 <= |ts| <= 2
      && ts[0] == TopicsFor(url, Bool(false)).value[0]
      && (|ts| == 2 <==> Truthy(skin))
      && (|ts| == 2 ==> ts[1] == "skin_" + ToStr(skin) + ts[0][3..])
  {
    match MatchUrl(url)
    case None =>
    case Some(m) =>
      assert UrlTopic(m)[3..] == TopicSuffix(m);
  }

  /** Each page `getData()` fetches is one processData accepts: its match
      is the corresponding entry of BatchMatches. */
  lemma BatchPagesMatch(server: JsValue, build: Build)
    requires NoLineTerminator(ToStr(server))
    ensures |BatchMatches(build)| == |BatchPages(build)|
    ensures forall i | 0 <= i < |BatchPages(build)| ::
      MatchUrl(PageUrl(server, BatchPages(build)[i])) == Some(BatchMatches(build)[i])
  {
    forall i | 0 <= i < |BatchPages(build)|
      ensures MatchUrl(PageUrl(server, BatchPages(build)[i])) == Some(BatchMatches(build)[i])
    {
      BatchPageMatch(server, build, i);
    }
  }

  lemma BatchPageMatch(server: JsValue, build: Build, i: nat)
    requires NoLineTerminator(ToStr(server)) && i < |BatchPages(build)|
    ensures i < |BatchMatches(build)|
    ensures MatchUrl(PageUrl(server, BatchPages(build)[i])) == Some(BatchMatches(build)[i])
  {
    var page := BatchPages(build)[i];
    if i == 0 {
      assert page == "account.aspx?view=display";
      AccountDisplayMatch(server);
    } else if i == 1 {
      assert page == "account.aspx";
      PlainBatchPageMatch(server, "account", "account.aspx");
    } else if i == 2 {
      assert page == "board.aspx";
      PlainBatchPageMatch(server, "board", "board.aspx");
    } else {
      assert page == "messages.aspx";
      PlainBatchPageMatch(server, "messages", "messages.aspx");
    }
  }

  lemma AccountDisplayMatch(server: JsValue)
    requires NoLineTerminator(ToStr(server))
    ensures MatchUrl(PageUrl(server, "account.aspx?view=display")) == Some(UrlMatch("account", Some("display")))
  {
    assert "account.aspx?view=display" == "account" + ".aspx" + "?view=" + "display";
    ServerViewPageMatch(server, "account", "display");
  }

  lemma PlainBatchPageMatch(server: JsValue, page: string, path: string)
    requires NoLineTerminator(ToStr(server)) && IsPageName(page) && path == page + ".aspx"
    ensures MatchUrl(PageUrl(server, path)) == Some(UrlMatch(page, None))
  {
    ServerPlainPageMatch(server, page);
  }

  /** The URL topics of the batch: `url_account_display`, `url_account`,
      `url_board` and, in the current build, `url_messages`. */
  lemma BatchUrlTopics(build: Build)
    ensures |BatchMatches(build)| == |BatchPages(build)|
    ensures forall i | 0 <= i < |BatchMatches(build)| :: UrlTopic(BatchMatches(build)[i]) == BatchTopics(build)[i]
  {
    var ms := BatchMatches(build);
    assert UrlTopic(ms[0]) == "url_account_display";
    assert UrlTopic(ms[1]) == "url_account";
    assert UrlTopic(ms[2]) == "url_board";
    if build == Current {
      assert UrlTopic(ms[3]) == "url_messages";
    }
  }

  /** A matched URL's first topic is its URL topic, whatever the skin. */
  lemma FirstTopic(url: string, m: UrlMatch, skin: JsValue)
    requires MatchUrl(url) == Some(m)
    ensures TopicsFor(url, skin).Some? && TopicsFor(url, skin).value[0] == UrlTopic(m)
  {
  }

  lemma ServerPrefix(server: JsValue)
    requires NoLineTerminator(ToStr(server))
    ensures NoLineTerminator("http://" + ToStr(server))
  {
    var prefix := "http://" + ToStr(server);
    assert forall j | 7 <= j < |prefix| :: prefix[j] == ToStr(server)[j - 7];
  }

  lemma ServerPlainPageMatch(server: JsValue, page: string)
    requires NoLineTerminator(ToStr(server)) && IsPageName(page)
    ensures MatchUrl(PageUrl(server, page + ".aspx")) == Some(UrlMatch(page, None))
  {
    var prefix := "http://" + ToStr(server);
    ServerPrefix(server);
    var url := prefix + "/" + page + ".aspx";
    assert PageUrl(server, page + ".aspx") == url;
    PlainPageTopics(url, prefix, page, Bool(false));
  }

  lemma ServerViewPageMatch(server: JsValue, page: string, view: string)
    requires NoLineTerminator(ToStr(server)) && IsPageName(page) && IsLetters(view)
    ensures MatchUrl(PageUrl(server, page + ".aspx" + "?view=" + view)) == Some(UrlMatch(page, Some(view)))
  {
    var prefix := "http://" + ToStr(server);
    ServerPrefix(server);
    var url := prefix + "/" + page + ".aspx" + "?view=" + view;
    assert PageUrl(server, page + ".aspx" + "?view=" + view) == url;
    ViewPageMatch(url, prefix, page, view);
  }

  function BatchMatches(build: Build): seq<UrlMatch> {
    [UrlMatch("account", Some("display")), UrlMatch("account", None), UrlMatch("board", None)]
      + (if build == Current then [UrlMatch("messages", None)] else [])
  }

  function BatchTopics(build: Build): seq<string> {
    ["url_account_display", "url_account", "url_board"]
      + (if build == Current then ["url_messages"] else [])
  }

  // ---------------------------------------------------------------------
  // /<title>Login.*?<\/title>/i

  /** The lazy `.*?<\/title>` from j: the closing tag before the line ends. */
  function TitleCloseFrom(s: string, j: nat): bool
    requires j <= |s|
    decreases |s| - j
  {
    if MatchesAt(s, j, "</title>") then true
    else if j == |s| || IsLineTerminator(s[j]) then false
    else TitleCloseFrom(s, j + 1)
  }

  /** The search from start position i onward. */
  function LoginTitleFrom(s: string, i: nat): bool
    requires i <= |s|
    decreases |s| - i
  {
    if i == |s| then false
    else (MatchesAt(s, i, "<title>login") && TitleCloseFrom(s, i + 12)) || LoginTitleFrom(s, i + 1)
  }

  /** `responseText.match(/<title>Login.*?<\/title>/i)` is truthy. */
  predicate HasLoginTitle(body: string) {
    LoginTitleFrom(body, 0)
  }

  lemma {:induction false} LoginTitleFromBefore(s: string, i: nat, w: nat)
    requires i <= w < |s| && MatchesAt(s, w, "<title>login") && TitleCloseFrom(s, w + 12)
    ensures LoginTitleFrom(s, i)
    decreases w - i
  {
    if i < w {
      LoginTitleFromBefore(s, i + 1, w);
    }
  }

  /** A body holding `<title>Login</title>` anywhere is the login page. */
  lemma LoginTitleDetected(before: string, after: string)
    ensures HasLoginTitle(before + "<title>Login</title>" + after)
  {
    var s := before + "<title>Login</title>" + after;
    var w := |before|;
    assert forall j | 0 <= j < 20 :: s[w + j] == "<title>Login</title>"[j];
    assert MatchesAt(s, w, "<title>login");
    assert MatchesAt(s, w + 12, "</title>");
    LoginTitleFromBefore(s, 0, w);
  }

  /** Without `<title>login` (any case) the body is never taken for the login page. */
  lemma {:induction false} NoTitleNoLogin(body: string, i: nat)
    requires i <= |body|
    requires forall k | i <= k < |body| :: !MatchesAt(body, k, "<title>login")
    ensures !LoginTitleFrom(body, i)
    decreases |body| - i
  {
    if i < |body| {
      NoTitleNoLogin(body, i + 1);
    }
  }

  /** The three ways the completion handler treats a finished request. */
  datatype Disposition =
    | Failed   // status other than 200: logged
    | Relogin  // 200 with the login page: log in, then fetch the URL again
    | Deliver  // 200 with any other page: processData

  function Classify(status: int, body: string): Disposition {
    if status != 200 then Failed
    else if HasLoginTitle(body) then Relogin
    else Deliver
  }

  /** Any status other than 200 is a failure whatever the body; a 200
      response holding `<title>Login</title>` triggers a login; a 200
      response without `<title>login` (any case) is handed on. */
  lemma ClassifyCases(status: int, before: string, after: string, body: string)
    ensures status != 200 ==> Classify(status, body) == Failed
    ensures Classify(200, before + "<title>Login</title>" + after) == Relogin
    ensures (forall k | 0 <= k < |body| :: !MatchesAt(body, k, "<title>login")) ==> Classify(200, body) == Deliver
  {
    LoginTitleDetected(before, after);
    if forall k | 0 <= k < |body| :: !MatchesAt(body, k, "<title>login") {
      NoTitleNoLogin(body, 0);
    }
  }

  /** The lazy `.*?` does not cross a line end: a title closed on the next
      line is not the login page. */
  lemma TitleOnTwoLines()
    ensures !HasLoginTitle("<title>Login\n</title>")
  {
    var s := "<title>Login\n</title>";
    assert !TitleCloseFrom(s, 12) by {
      assert s[12] == '\n' && !CharMatchesCI(s[12], "</title>"[0]);
      assert IsLineTerminator(s[12]);
    }
    forall k | 1 <= k < |s| ensures !MatchesAt(s, k, "<title>login") {
      assert "<title>login"[0] == '<';
      assert !CharMatchesCI(s[k], '<') || k + 12 > |s|;
    }
    NoTitleNoLogin(s, 1);
  }

  // ---------------------------------------------------------------------
  // Requests

  /** `'http://' + server + '/' + path`. */
  function PageUrl(server: JsValue, path: string): string {
    "http://" + ToStr(server) + "/" + path
  }

  function LoginUrl(server: JsValue): string {
    PageUrl(server, "login.aspx")
  }

  /** The login page itself is a page name processData accepts. */
  lemma LoginUrlMatch(server: JsValue)
    requires NoLineTerminator(ToStr(server))
    ensures MatchUrl(LoginUrl(server)) == Some(UrlMatch("login", None))
  {
    assert "login.aspx" == "login" + ".aspx";
    ServerPlainPageMatch(server, "login");
  }

  /** A response of the login page that is not recognised as the login
      form is published under `url_login`. */
  lemma LoginUrlTopic(server: JsValue)
    requires NoLineTerminator(ToStr(server))
    ensures TopicsFor(LoginUrl(server), Bool(false)) == Some(["url_login"])
  {
    LoginUrlMatch(server);
    LoginTopicName();
    NoSkinOneTopic(LoginUrl(server), UrlMatch("login", None));
  }

  lemma LoginTopicName()
    ensures UrlTopic(UrlMatch("login", None)) == "url_login"
  {
  }

  /** Without a skin, a matched URL has its URL topic alone. */
  lemma NoSkinOneTopic(url: string, m: UrlMatch)
    requires MatchUrl(url) == Some(m)
    ensures TopicsFor(url, Bool(false)) == Some([UrlTopic(m)])
  {
    assert [UrlTopic(m)] + [] == [UrlTopic(m)];
  }

  /** The two builds of the request object: ae.js, and the single-file
      astro-empires-1.0.0.js that preceded it. */
  datatype Build = Current | Release100

  /** The pages `getData()` fetches, in order. */
  function BatchPages(build: Build): seq<string> {
    ["account.aspx?view=display", "account.aspx", "board.aspx"]
      + (if build == Current then ["messages.aspx"] else [])
  }
}
