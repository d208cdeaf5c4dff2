/** The request helpers tests drive the host with (Extensions.cs, Get / PostForm): the path is resolved
    against the host's URL, the request goes out with the client's cookies, and the response's Set-Cookie
    values are applied to the client. */
module Host {
  import opened Outcomes
  import opened Text
  import opened CookieJar
  import opened SetCookies
  import opened NameValues
  import opened Forms

  /** What the helpers use of the test host: its URL with the trailing slash already ensured, the
      client's Cookie header values, and the host's clock (UtcNow). */
  datatype Host = Host(url: string, jar: Jar, now: int)

  datatype Verb = GET | POST

  /** A request as the client sends it: every Cookie header value of the client goes with it. */
  datatype Request = Request(verb: Verb, url: string, cookies: Jar, body: Option<string>)

  /** The in-memory server: the response it gives a request. */
  type Transport = Request -> Response

  /** The host after a response and the response itself. */
  datatype Exchange = Exchange(host: Host, response: Response)

  /** A path counts as absolute when it starts with "http", compared ordinally. */
  predicate Absolute(path: string)
    ensures Absolute(path) <==>
      |path| >= 4 && path[0] == 'h' && path[1] == 't' && path[2] == 't' && path[3] == 'p'
  {
    assert "http"[0] == 'h' && "http"[1] == 't' && "http"[2] == 't' && "http"[3] == 'p';
    StartsWith(path, "http")
  }

  /** The URL Get and PostForm request: an absolute path as it is, any other path after the host's URL. */
  function ResolveUrl(base: string, path: string): (url: string)
    ensures url == path || url == base + path
    ensures |path| <= |url| && url[|url| - |path|..] == path
    ensures url == path <==> Absolute(path) || |base| == 0
    ensures Absolute(base) ==> Absolute(url)
  {
    if Absolute(path) then path else base + path
  }

  /** The prefix test is on the text "http", not on a scheme: a relative path that happens to start
      with those letters is requested as it is. */
  lemma HttpLookingPathNotResolved()
    ensures ResolveUrl("https://server/", "httpbin") == "httpbin"
    ensures ResolveUrl("https://server/", "callback") == "https://server/callback"
  {
    assert "httpbin"[..4] == "http";
    assert "callback"[0] != "http"[0];
  }

  /** The host once a response has been received: its Set-Cookie values applied to the jar at the host's
      clock. */
  function Receive(h: Host, resp: Response, parse: Parser): (r: Host)
    ensures r.url == h.url && r.now == h.now
    ensures resp.setCookie.None? ==> r == h
    ensures r.jar == Without(h.jar, ExpiredNames(GetCookies(resp, parse), h.now))
                     + Contributed(GetCookies(resp, parse), h.now)
  {
    h.(jar := ProcessCookies(h.jar, resp, parse, h.now))
  }

  /** Get: sends a GET for the resolved path with the client's cookies and processes the response's
      cookies. */
  function Get(h: Host, path: string, send: Transport, parse: Parser): (x: Exchange)
    ensures x.response == send(Request(GET, ResolveUrl(h.url, path), h.jar, None))
    ensures x.host.url == h.url && x.host.now == h.now
    ensures x.response.setCookie.None? ==> x.host == h
    ensures x.host.jar == Without(h.jar, ExpiredNames(GetCookies(x.response, parse), h.now))
                          + Contributed(GetCookies(x.response, parse), h.now)
  {
    var resp := send(Request(GET, ResolveUrl(h.url, path), h.jar, None));
    Exchange(Receive(h, resp, parse), resp)
  }

  /** The POST request PostForm sends: the form built by Map, encoded by ToFormBody. */
  function PostFormRequest(h: Host, path: string, value: FormSource, xsrf: Option<AntiForgery>): (req: Request)
    ensures req.verb == POST && req.url == ResolveUrl(h.url, path) && req.cookies == h.jar
    ensures req.body.Some? && (req.body.value == "" <==> |Map(value, xsrf).keys| == 0)
  {
    Request(POST, ResolveUrl(h.url, path), h.jar, Some(FormBody(Map(value, xsrf))))
  }

  /** PostForm: maps the value to a form, encodes it, posts it and processes the response's cookies. */
  method PostForm(h: Host, path: string, value: FormSource, xsrf: Option<AntiForgery>, send: Transport, parse: Parser)
    returns (x: Exchange)
    ensures x.response == send(PostFormRequest(h, path, value, xsrf))
    ensures x.host.url == h.url && x.host.now == h.now
    ensures x.response.setCookie.None? ==> x.host == h
    ensures x.host.jar == Without(h.jar, ExpiredNames(GetCookies(x.response, parse), h.now))
                          + Contributed(GetCookies(x.response, parse), h.now)
  {
    var url := ResolveUrl(h.url, path);
    var form := Map(value, xsrf);
    var body := ToFormBody(form);
    var resp := send(Request(POST, url, h.jar, Some(body)));
    x := Exchange(Receive(h, resp, parse), resp);
  }

  /** The body PostForm sends for a record with safe names and values reads back as the record's
      properties, null as "", followed by the token. */
  lemma PostFormBodyReadsBack(h: Host, path: string, fields: seq<(string, Option<string>)>, xsrf: Option<AntiForgery>)
    requires SafePairs(FieldPairs(fields, xsrf))
    ensures ParseForm(PostFormRequest(h, path, Record(fields), xsrf).body.value) == FieldPairs(fields, xsrf)
  {
    MapThenEncodeRoundTrip(fields, xsrf);
  }

  /** A cookie a response sets is sent with the next request, unless a later Set-Cookie value of the
      same response expires it. */
  lemma CookieSentWithNextRequest(h: Host, resp: Response, parse: Parser, i: nat, s: CookieState)
    requires i < |GetCookies(resp, parse)|
    requires !Expired(GetCookies(resp, parse)[i], h.now) && s in GetCookies(resp, parse)[i].cookies
    requires forall j :: i < j < |GetCookies(resp, parse)| && Expired(GetCookies(resp, parse)[j], h.now) ==>
      !IsForAny(Render(s), NamesOf(GetCookies(resp, parse)[j]))
    ensures Render(s) in Receive(h, resp, parse).jar
  {
    SetCookiePresentAfter(h.jar, GetCookies(resp, parse), h.now, i, s);
  }

  /** A Cookie value the client holds is still sent after a response unless an expired Set-Cookie value of
      the response names it. */
  lemma UnrelatedCookieSurvives(h: Host, resp: Response, parse: Parser, e: string)
    requires e in h.jar
    requires forall j :: 0 <= j < |GetCookies(resp, parse)| && Expired(GetCookies(resp, parse)[j], h.now) ==>
      !IsForAny(e, NamesOf(GetCookies(resp, parse)[j]))
    ensures e in Receive(h, resp, parse).jar
  {
    UnrelatedEntryKept(h.jar, GetCookies(resp, parse), h.now, e);
  }

}
