/** The request object `AstroEmpires.AE`: it announces and issues page
    requests, decides what to do with each finished response, publishes
    accepted responses under topics derived from their URL, and holds the
    user's skin and language. The transport is not modelled: a request is
    recorded in `requests`, and a response is handed to `Complete`. */
module Ae {
  import opened Js
  import opened AePatterns
  import opened LoginForm

  /** What `xhr.open(type, url)` and `xhr.send(params)` are given. A request
      made without params carries `undefined`. */
  datatype Request = Request(verb: string, url: string, params: JsValue)

  /** What the object publishes. */
  datatype AeEvent =
    | AjaxAnnounced(url: string, verb: string, params: JsValue)      // topic 'ajax'
    | PagePublished(topic: string, data: string, url: string)        // a url_ or skin_ topic

  /** The request `login()` issues. */
  function LoginRequest(server: JsValue, email: JsValue, pass: JsValue): Request {
    Request("POST", LoginUrl(server), Str(LoginParams(email, pass, server)))
  }

  /** The requests `getData(url)` issues: the URL alone when it is not empty,
      the build's batch of pages otherwise. */
  function GetDataRequests(server: JsValue, build: Build, url: string): (r: seq<Request>)
    ensures url != "" ==> r == [Request("GET", url, Undefined)]
    ensures url == "" ==> |r| == |BatchPages(build)|
    ensures url == "" ==> forall i | 0 <= i < |r| :: r[i] == Request("GET", PageUrl(server, BatchPages(build)[i]), Undefined)
  {
    if url != "" then [Request("GET", url, Undefined)]
    else seq(|BatchPages(build)|, i requires 0 <= i < |BatchPages(build)| =>
               Request("GET", PageUrl(server, BatchPages(build)[i]), Undefined))
  }

  /** The announcements that go with a list of requests, one each, in order. */
  function Announcements(rs: seq<Request>): (r: seq<AeEvent>)
    ensures |r| == |rs|
    ensures forall i | 0 <= i < |rs| :: r[i] == AjaxAnnounced(rs[i].url, rs[i].verb, rs[i].params)
  {
    if rs == [] then [] else [AjaxAnnounced(rs[0].url, rs[0].verb, rs[0].params)] + Announcements(rs[1..])
  }

  /** Publications of one response under each of its topics, in order. */
  function Deliveries(topics: seq<string>, data: string, url: string): (r: seq<AeEvent>)
    ensures |r| == |topics|
    ensures forall i | 0 <= i < |topics| :: r[i] == PagePublished(topics[i], data, url)
  {
    if topics == [] then [] else [PagePublished(topics[0], data, url)] + Deliveries(topics[1..], data, url)
  }

  /** What processData throws for a URL it cannot read: a string in ae.js;
      in astro-empires-1.0.0.js the call of the undeclared `exception()`
      throws a ReferenceError before anything is thrown explicitly. */
  function UrlError(build: Build, url: string): JsError {
    match build
    case Current => ThrownString("url is not of the correct pattern: " + url)
    case Release100 => ReferenceError("exception")
  }

  /** The login request is a POST to the login page. When no credential
      holds `&`, a server reads its body back as the six login fields with
      each credential percent-decoded, so it finds the credentials as given
      exactly when none holds `+` or `%` and two hex digits. */
  lemma LoginRequestForm(server: JsValue, email: JsValue, pass: JsValue)
    requires '&' !in ToStr(email) && '&' !in ToStr(pass) && '&' !in ToStr(server)
    ensures LoginRequest(server, email, pass).verb == "POST"
    ensures LoginRequest(server, email, pass).url == LoginUrl(server)
    ensures LoginRequest(server, email, pass).params.Str?
    ensures FormDecode(LoginRequest(server, email, pass).params.s) == UnescapeFields(LoginFields(email, pass, server))
    ensures FormDecode(LoginRequest(server, email, pass).params.s) == LoginFields(email, pass, server)
        <==> !Escapes(ToStr(email)) && !Escapes(ToStr(pass)) && !Escapes(ToStr(server))
  {
    LoginParamsRoundTrip(email, pass, server);
  }

  /** In ae.js the error names the URL that failed, so different URLs give
      different errors; in astro-empires-1.0.0.js every URL gives the same
      ReferenceError, and the two builds never throw the same thing. */
  lemma UrlErrorIdentifiesUrl(u1: string, u2: string)
    ensures UrlError(Current, u1) == UrlError(Current, u2) <==> u1 == u2
    ensures UrlError(Release100, u1) == UrlError(Release100, u2)
    ensures UrlError(Current, u1) != UrlError(Release100, u2)
  {
    var prefix := "url is not of the correct pattern: ";
    if UrlError(Current, u1) == UrlError(Current, u2) {
      assert (prefix + u1)[|prefix|..] == u1;
      assert (prefix + u2)[|prefix|..] == u2;
    }
  }

  class AE {
    const build: Build
    // `this.user`: the credentials, and the skin and language set later.
    const server: JsValue
    const email: JsValue
    const pass: JsValue
    var skin: JsValue
    var language: JsValue
    /** Everything published, oldest first. */
    ghost var published: seq<AeEvent>
    /** Every request handed to the transport, oldest first. */
    ghost var requests: seq<Request>
    /** Every line written to the console. */
    ghost var console: seq<string>

    constructor (build: Build, server: JsValue, email: JsValue, pass: JsValue)
      ensures this.build == build && this.server == server && this.email == email && this.pass == pass
      ensures skin == Bool(false) && language == Bool(false)
      ensures published == [] && requests == [] && console == []
    {
      this.build := build;
      this.server, this.email, this.pass := server, email, pass;
      skin, language := Bool(false), Bool(false);
      published, requests, console := [], [], [];
    }

    /** Announces the request on topic 'ajax', then issues it. */
    method Ajax(url: string, verb: string, params: JsValue)
      modifies this`published, this`requests
      ensures published == old(published) + [AjaxAnnounced(url, verb, params)]
      ensures requests == old(requests) + [Request(verb, url, params)]
    {
      published := published + [AjaxAnnounced(url, verb, params)];
      requests := requests + [Request(verb, url, params)];
    }

    /** Posts the credentials to the login page. */
    method Login()
      modifies this`published, this`requests
      ensures requests == old(requests) + [LoginRequest(server, email, pass)]
      ensures published == old(published) + Announcements([LoginRequest(server, email, pass)])
    {
      var params := LoginParams(email, pass, server);
      Ajax(LoginUrl(server), "POST", Str(params));
    }

    /** Fetches one page, or, given the empty URL, the whole batch. */
    method GetData(url: string)
      modifies this`published, this`requests
      ensures requests == old(requests) + GetDataRequests(server, build, url)
      ensures published == old(published) + Announcements(GetDataRequests(server, build, url))
    {
      if url != "" {
        Ajax(url, "GET", Undefined);
      } else {
        Ajax(PageUrl(server, "account.aspx?view=display"), "GET", Undefined);
        Ajax(PageUrl(server, "account.aspx"), "GET", Undefined);
        Ajax(PageUrl(server, "board.aspx"), "GET", Undefined);
        if build == Current {
          Ajax(PageUrl(server, "messages.aspx"), "GET", Undefined);
        }
      }
    }

    /** Publishes a response under its URL topic and, when a skin is set,
        its skin topic; a URL that does not match throws before anything is
        published. */
    method ProcessData(url: string, data: string) returns (error: Option<JsError>)
      modifies this`published
      ensures TopicsFor(url, skin).None? ==> error == Some(UrlError(build, url)) && published == old(published)
      ensures TopicsFor(url, skin).Some? ==>
        error == None && published == old(published) + Deliveries(TopicsFor(url, skin).value, data, url)
    {
      match MatchUrl(url)
      case None =>
        error := Some(UrlError(build, url));
      case Some(m) =>
        published := published + [PagePublished(UrlTopic(m), data, url)];
        if Truthy(skin) {
          published := published + [PagePublished(SkinTopic(skin, m), data, url)];
        }
        error := None;
    }

    /** The completion handler of a request for url: a status other than
        200 is logged; the login page triggers a login and a fresh GET of
        url; any other page goes to ProcessData, whose error escapes. */
    method Complete(url: string, status: int, body: string) returns (error: Option<JsError>)
      modifies this`published, this`requests, this`console
      ensures Classify(status, body) == Failed ==>
        && error == None
        && console == old(console) + ["Failed to open " + url]
        && published == old(published) && requests == old(requests)
      ensures Classify(status, body) == Relogin ==>
        && error == None
        && console == old(console)
        && requests == old(requests) + [LoginRequest(server, email, pass)] + GetDataRequests(server, build, url)
        && published == old(published) + Announcements([LoginRequest(server, email, pass)])
                                       + Announcements(GetDataRequests(server, build, url))
      ensures Classify(status, body) == Deliver ==>
        && console == old(console) && requests == old(requests)
        && (TopicsFor(url, skin).None? ==> error == Some(UrlError(build, url)) && published == old(published))
        && (TopicsFor(url, skin).Some? ==>
              error == None && published == old(published) + Deliveries(TopicsFor(url, skin).value, body, url))
    {
      match Classify(status, body)
      case Failed =>
        console := console + ["Failed to open " + url];
        error := None;
      case Relogin =>
        Reauthenticate(url);
        error := None;
      case Deliver =>
        error := ProcessData(url, body);
    }

    /** Logs in, then fetches url again with a GET. */
    method Reauthenticate(url: string)
      modifies this`published, this`requests
      ensures requests == old(requests) + [LoginRequest(server, email, pass)] + GetDataRequests(server, build, url)
      ensures published == old(published) + Announcements([LoginRequest(server, email, pass)])
                                          + Announcements(GetDataRequests(server, build, url))
    {
      Login();
      GetData(url);
    }

    method SetUserLanguage(language: JsValue) returns (ok: bool)
      modifies this`language
      ensures this.language == language && ok
    {
      this.language := language;
      ok := true;
    }

    method GetUserLanguage() returns (language: JsValue)
      ensures language == this.language
    {
      language := this.language;
    }

    method SetUserSkin(skin: JsValue) returns (ok: bool)
      modifies this`skin
      ensures this.skin == skin && ok
    {
      this.skin := skin;
      ok := true;
    }

    method GetUserSkin() returns (skin: JsValue)
      ensures skin == this.skin
    {
      skin := this.skin;
    }
  }

  /** The pages `getData()` fetches are all accepted by processData; their
      responses are published first under `url_account_display`,
      `url_account`, `url_board` and, in the current build, `url_messages`. */
  lemma BatchRequestTopics(server: JsValue, build: Build, skin: JsValue)
    requires NoLineTerminator(ToStr(server))
    ensures |GetDataRequests(server, build, "")| == |BatchTopics(build)|
    ensures forall i | 0 <= i < |BatchTopics(build)| ::
      var ts := TopicsFor(GetDataRequests(server, build, "")[i].url, skin);
      ts.Some? && ts.value[0] == BatchTopics(build)[i]
  {
    var rs := GetDataRequests(server, build, "");
    BatchPagesMatch(server, build);
    BatchUrlTopics(build);
    forall i | 0 <= i < |BatchTopics(build)|
      ensures TopicsFor(rs[i].url, skin).Some? && TopicsFor(rs[i].url, skin).value[0] == BatchTopics(build)[i]
    {
      FirstTopic(rs[i].url, BatchMatches(build)[i], skin);
    }
  }
}
