/** Response-side cookie handling: extracting Set-Cookie values, asserting a cookie was set, and applying
    a response to the jar (Extensions.cs, GetCookies / AssertCookie / ProcessCookies / WriteMessageToCookie). */
module SetCookies {
  import opened Outcomes
  import opened Text
  import opened CookieJar

  /** A parsed Set-Cookie header value: the cookies it carries and its optional expiry, as a clock reading. */
  datatype SetCookie = SetCookie(cookies: seq<CookieState>, expires: Option<int>)

  /** The one part of an HTTP response the cookie helpers read: its Set-Cookie header values, None when
      the response has no Set-Cookie header. */
  datatype Response = Response(setCookie: Option<seq<string>>)

  /** The Set-Cookie parser (CookieHeaderValue.TryParse): a parsed value, or None when the text is malformed. */
  type Parser = string -> Option<SetCookie>

  /** The Set-Cookie header values of a response; none when the header is absent. */
  function SetCookieValues(resp: Response): seq<string> {
    resp.setCookie.GetOr([])
  }

  /** The values that parse, parsed, in header order; the ones that do not parse are skipped. */
  function ParseAll(values: seq<string>, parse: Parser): (r: seq<SetCookie>)
    ensures |r| <= |values|
    ensures forall c :: c in r ==> exists v :: v in values && parse(v) == Some(c)
    ensures forall v :: v in values && parse(v).Some? ==> parse(v).value in r
    ensures |r| == |values| <==> forall v :: v in values ==> parse(v).Some?
  {
    if |values| == 0 then []
    else
      (match parse(values[0]) case Some(c) => [c] case None => []) + ParseAll(values[1..], parse)
  }

  /** Parsing keeps header order: the parse of two runs of values is the two parses one after the other. */
  lemma {:induction false} ParseAllAppend(a: seq<string>, b: seq<string>, parse: Parser)
    ensures ParseAll(a + b, parse) == ParseAll(a, parse) + ParseAll(b, parse)
    decreases |a|
  {
    if |a| == 0 {
      assert a + b == b;
    } else {
      var head := match parse(a[0]) case Some(c) => [c] case None => [];
      assert (a + b)[0] == a[0];
      assert (a + b)[1..] == a[1..] + b;
      ParseAllAppend(a[1..], b, parse);
      assert ParseAll(a + b, parse) == head + ParseAll(a[1..] + b, parse);
      AppendAssoc(head, ParseAll(a[1..], parse), ParseAll(b, parse));
    }
  }

  /** GetCookies: every Set-Cookie value of the response that parses, in header order. */
  function GetCookies(resp: Response, parse: Parser): (r: seq<SetCookie>)
    ensures resp.setCookie.None? ==> r == []
    ensures |r| <= |SetCookieValues(resp)|
    ensures forall c :: c in r ==> exists v :: v in SetCookieValues(resp) && parse(v) == Some(c)
    ensures forall v :: v in SetCookieValues(resp) && parse(v).Some? ==> parse(v).value in r
  {
    match resp.setCookie
    case None => []
    case Some(values) => ParseAll(values, parse)
  }

  /** A parsed Set-Cookie value carries a cookie called `name` (the `Any` of AssertCookie's filter). */
  predicate Carries(c: SetCookie, name: string) {
    HasCookie(c.cookies, name)
  }

  /** Some cookie of `cookies` is called `name`, searched from the front. */
  predicate HasCookie(cookies: seq<CookieState>, name: string) {
    |cookies| > 0 && (cookies[0].name == name || HasCookie(cookies[1..], name))
  }

  /** None of `cs` carries a cookie called `name`. */
  predicate NoneCarry(cs: seq<SetCookie>, name: string) {
    forall i :: 0 <= i < |cs| ==> !Carries(cs[i], name)
  }

  /** Exactly one of `cs` carries a cookie called `name`. */
  ghost predicate ExactlyOne(cs: seq<SetCookie>, name: string) {
    exists i :: 0 <= i < |cs| && Carries(cs[i], name) && NoneCarry(cs[..i], name) && NoneCarry(cs[i + 1..], name)
  }

  /** Two distinct elements of `cs` carry a cookie called `name`. */
  ghost predicate TwoCarry(cs: seq<SetCookie>, name: string) {
    exists i, j :: 0 <= i < j < |cs| && Carries(cs[i], name) && Carries(cs[j], name)
  }

  /** How many of `cs` carry a cookie called `name`. */
  function CountCarrying(cs: seq<SetCookie>, name: string): (n: nat)
    ensures n <= |cs|
    ensures n == 0 <==> NoneCarry(cs, name)
  {
    if |cs| == 0 then 0
    else (if Carries(cs[0], name) then 1 else 0) + CountCarrying(cs[1..], name)
  }

  /** A leading carrier is the only one exactly when no later element carries the name. */
  lemma ExactlyOneLeading(cs: seq<SetCookie>, name: string)
    requires |cs| > 0 && Carries(cs[0], name)
    ensures ExactlyOne(cs, name) <==> NoneCarry(cs[1..], name)
  {
  }

  /** No carrier in a concatenation means none in either part. */
  lemma NoneCarryAppend(a: seq<SetCookie>, b: seq<SetCookie>, name: string)
    ensures NoneCarry(a + b, name) <==> NoneCarry(a, name) && NoneCarry(b, name)
  {
    if NoneCarry(a + b, name) {
      forall k | 0 <= k < |a| ensures !Carries(a[k], name) {
        assert (a + b)[k] == a[k];
      }
      forall k | 0 <= k < |b| ensures !Carries(b[k], name) {
        assert (a + b)[|a| + k] == b[k];
      }
    }
    if NoneCarry(a, name) && NoneCarry(b, name) {
      forall k | 0 <= k < |a + b| ensures !Carries((a + b)[k], name) {
        if k < |a| {
          assert (a + b)[k] == a[k];
        } else {
          assert (a + b)[k] == b[k - |a|];
        }
      }
    }
  }

  /** Past a leading non-carrier, exactly one carrier in the whole is exactly one in the rest. */
  lemma ExactlyOneAfterNonCarrier(cs: seq<SetCookie>, name: string)
    requires |cs| > 0 && !Carries(cs[0], name)
    ensures ExactlyOne(cs, name) <==> ExactlyOne(cs[1..], name)
  {
    if ExactlyOne(cs, name) {
      ExactlyOneShiftsDown(cs, name);
    }
    if ExactlyOne(cs[1..], name) {
      ExactlyOneShiftsUp(cs, name);
    }
  }

  /** Dropping a leading non-carrier keeps a single carrier single. */
  lemma ExactlyOneShiftsDown(cs: seq<SetCookie>, name: string)
    requires |cs| > 0 && !Carries(cs[0], name) && ExactlyOne(cs, name)
    ensures ExactlyOne(cs[1..], name)
  {
    var rest := cs[1..];
    var i :| 0 <= i < |cs| && Carries(cs[i], name) && NoneCarry(cs[..i], name) && NoneCarry(cs[i + 1..], name);
    var before := rest[..i - 1];
    forall k | 0 <= k < |before|
      ensures !Carries(before[k], name)
    {
      assert before[k] == cs[..i][k + 1];
    }
    assert rest[i..] == cs[i + 1..];
    assert rest[i - 1] == cs[i];
  }

  /** Prepending a non-carrier keeps a single carrier single. */
  lemma ExactlyOneShiftsUp(cs: seq<SetCookie>, name: string)
    requires |cs| > 0 && !Carries(cs[0], name) && ExactlyOne(cs[1..], name)
    ensures ExactlyOne(cs, name)
  {
    var rest := cs[1..];
    var i :| 0 <= i < |rest| && Carries(rest[i], name) && NoneCarry(rest[..i], name) && NoneCarry(rest[i + 1..], name);
    var before := cs[..i + 1];
    forall k | 0 <= k < |before|
      ensures !Carries(before[k], name)
    {
      if k > 0 {
        assert before[k] == rest[..i][k - 1];
      }
    }
    assert cs[i + 2..] == rest[i + 1..];
    assert cs[i + 1] == rest[i];
  }

  /** A count of one means exactly one carrier, and conversely. */
  lemma {:induction false} CountOneIffExactlyOne(cs: seq<SetCookie>, name: string)
    ensures CountCarrying(cs, name) == 1 <==> ExactlyOne(cs, name)
    decreases |cs|
  {
    if |cs| > 0 {
      CountOneIffExactlyOne(cs[1..], name);
      if Carries(cs[0], name) {
        ExactlyOneLeading(cs, name);
      } else {
        ExactlyOneAfterNonCarrier(cs, name);
      }
    }
  }

  /** Two carriers in `cs` are either the first element and one of the rest, or two of the rest. */
  lemma TwoCarryDown(cs: seq<SetCookie>, name: string)
    requires |cs| > 0 && TwoCarry(cs, name)
    ensures (Carries(cs[0], name) && !NoneCarry(cs[1..], name)) || TwoCarry(cs[1..], name)
  {
  }

  /** A carrying first element and one carrier of the rest, or two carriers of the rest, are two carriers. */
  lemma TwoCarryUp(cs: seq<SetCookie>, name: string)
    requires |cs| > 0
    requires (Carries(cs[0], name) && !NoneCarry(cs[1..], name)) || TwoCarry(cs[1..], name)
    ensures TwoCarry(cs, name)
  {
  }

  /** A count of two or more means two distinct carriers, and conversely. */
  lemma {:induction false} CountTwoIffTwoCarry(cs: seq<SetCookie>, name: string)
    ensures CountCarrying(cs, name) >= 2 <==> TwoCarry(cs, name)
    decreases |cs|
  {
    if |cs| > 0 {
      CountTwoIffTwoCarry(cs[1..], name);
      if TwoCarry(cs, name) {
        TwoCarryDown(cs, name);
      }
      if CountCarrying(cs, name) >= 2 {
        TwoCarryUp(cs, name);
      }
    }
  }

  /** Why AssertCookie fails: no Set-Cookie carries the name (NotBeNull fails), or more than one does
      (SingleOrDefault throws). */
  datatype CookieCheckError = NoSuchCookie | AmbiguousCookie

  /** The SingleOrDefault search over parsed values followed by NotBeNull: passes when exactly one of
      `cs` carries `name`. */
  function SingleCarrier(cs: seq<SetCookie>, name: string): (r: Outcome<CookieCheckError>)
    ensures r == Pass <==> ExactlyOne(cs, name)
    ensures r == Fail(NoSuchCookie) <==> NoneCarry(cs, name)
    ensures r == Fail(AmbiguousCookie) <==> TwoCarry(cs, name)
  {
    CountOneIffExactlyOne(cs, name);
    CountTwoIffTwoCarry(cs, name);
    var n := CountCarrying(cs, name);
    if n == 0 then Fail(NoSuchCookie)
    else if n == 1 then Pass
    else Fail(AmbiguousCookie)
  }

  /** AssertCookie: passes when exactly one parsed Set-Cookie value of the response carries `name`. */
  function AssertCookie(resp: Response, parse: Parser, name: string): (r: Outcome<CookieCheckError>)
    ensures r == Pass <==> ExactlyOne(GetCookies(resp, parse), name)
    ensures r == Fail(NoSuchCookie) <==> NoneCarry(GetCookies(resp, parse), name)
    ensures r == Fail(AmbiguousCookie) <==> TwoCarry(GetCookies(resp, parse), name)
  {
    SingleCarrier(GetCookies(resp, parse), name)
  }

  /** A Set-Cookie value is a deletion when it carries an expiry strictly before the clock reading `now`. */
  predicate Expired(c: SetCookie, now: int) {
    c.expires.Some? && c.expires.value < now
  }

  /** A value without an expiry never deletes, one expiring exactly now does not yet, and one that deletes
      at some clock reading deletes at every later one. */
  lemma ExpiryBoundary(c: SetCookie, now: int)
    ensures c.expires.None? ==> !Expired(c, now)
    ensures c.expires == Some(now) ==> !Expired(c, now)
    ensures c.expires == Some(now - 1) ==> Expired(c, now)
    ensures Expired(c, now) ==> forall later :: now <= later ==> Expired(c, later)
  {
  }

  /** The names of the cookies a Set-Cookie value carries, in order. */
  function NamesOf(c: SetCookie): (names: seq<string>)
    ensures |names| == |c.cookies|
    ensures forall i :: 0 <= i < |names| ==> names[i] == c.cookies[i].name
  {
    Names(c.cookies)
  }

  /** The names of `cookies`, in order. */
  function Names(cookies: seq<CookieState>): (names: seq<string>)
    ensures |names| == |cookies|
    ensures forall i :: 0 <= i < |names| ==> names[i] == cookies[i].name
  {
    if |cookies| == 0 then [] else [cookies[0].name] + Names(cookies[1..])
  }

  /** The front-to-back search finds `name` exactly when it is among the cookies' names. */
  lemma {:induction false} HasCookieIffNamed(cookies: seq<CookieState>, name: string)
    ensures HasCookie(cookies, name) <==> name in Names(cookies)
    decreases |cookies|
  {
    if |cookies| > 0 {
      HasCookieIffNamed(cookies[1..], name);
      assert Names(cookies) == [cookies[0].name] + Names(cookies[1..]);
    }
  }

  /** A Set-Cookie value carries `name` exactly when one of its cookies is called `name`. */
  lemma CarriesIffNamed(c: SetCookie, name: string)
    ensures Carries(c, name) <==> name in NamesOf(c)
    ensures Carries(c, name) <==> exists k :: 0 <= k < |c.cookies| && c.cookies[k].name == name
  {
    HasCookieIffNamed(c.cookies, name);
  }

  /** One iteration of ProcessCookies: an expired value removes every entry for its names and keeps the
      rest; any other value appends its cookies. */
  function ApplySetCookie(jar: Jar, c: SetCookie, now: int): (r: Jar)
    ensures Expired(c, now) ==> forall e :: e in r ==> !IsForAny(e, NamesOf(c))
    ensures Expired(c, now) ==> forall e :: e in r <==> e in jar && !IsForAny(e, NamesOf(c))
    ensures Expired(c, now) ==> r == Without(jar, NamesOf(c))
    ensures !Expired(c, now) ==> r == jar + RenderAll(c.cookies)
  {
    if Expired(c, now) then RemoveCookies(jar, NamesOf(c))
    else AddCookies(jar, c.cookies)
  }

  /** The loop of ProcessCookies: the parsed values are applied in response order. The old entries that no
      expired value names survive in order, followed by what the other values add and no later expired
      value deletes. */
  function ApplySetCookies(jar: Jar, cs: seq<SetCookie>, now: int): (r: Jar)
    ensures r == Without(jar, ExpiredNames(cs, now)) + Contributed(cs, now)
    decreases |cs|
  {
    if |cs| == 0 then
      WithoutNothing(jar);
      jar
    else
      ShapeStep(jar, cs, now);
      ApplySetCookies(ApplySetCookie(jar, cs[0], now), cs[1..], now)
  }

  /** ProcessCookies: applies the response's parsed Set-Cookie values to the jar. The old entries that no
      expired value names survive in order, followed by what the other values add and no later expired
      value deletes. */
  function ProcessCookies(jar: Jar, resp: Response, parse: Parser, now: int): (r: Jar)
    ensures resp.setCookie.None? ==> r == jar
    ensures r == Without(jar, ExpiredNames(GetCookies(resp, parse), now)) + Contributed(GetCookies(resp, parse), now)
  {
    ApplySetCookies(jar, GetCookies(resp, parse), now)
  }

  /** All names that expired values in `cs` delete. */
  function ExpiredNames(cs: seq<SetCookie>, now: int): seq<string>
  {
    if |cs| == 0 then []
    else (if Expired(cs[0], now) then NamesOf(cs[0]) else []) + ExpiredNames(cs[1..], now)
  }

  /** The entries the non-expired values of `cs` append that no later expired value deletes, in order. */
  function Contributed(cs: seq<SetCookie>, now: int): seq<string>
  {
    if |cs| == 0 then []
    else
      (if Expired(cs[0], now) then [] else Without(RenderAll(cs[0].cookies), ExpiredNames(cs[1..], now)))
      + Contributed(cs[1..], now)
  }

  /** Applying one value keeps the shape of ApplySetCookies: the shape of the rest after it is the shape of
      the whole before it. */
  lemma ShapeStep(jar: Jar, cs: seq<SetCookie>, now: int)
    requires |cs| > 0
    ensures Without(ApplySetCookie(jar, cs[0], now), ExpiredNames(cs[1..], now)) + Contributed(cs[1..], now)
      == Without(jar, ExpiredNames(cs, now)) + Contributed(cs, now)
  {
    if Expired(cs[0], now) {
      ShapeStepExpired(jar, cs, now);
    } else {
      ShapeStepFresh(jar, cs, now);
    }
  }

  /** The step of ApplySetCookies for an expired leading value. */
  lemma ShapeStepExpired(jar: Jar, cs: seq<SetCookie>, now: int)
    requires |cs| > 0 && Expired(cs[0], now)
    ensures Without(Without(jar, NamesOf(cs[0])), ExpiredNames(cs[1..], now)) + Contributed(cs[1..], now)
      == Without(jar, ExpiredNames(cs, now)) + Contributed(cs, now)
  {
    var later := ExpiredNames(cs[1..], now);
    var names := NamesOf(cs[0]);
    assert ExpiredNames(cs, now) == names + later;
    assert Contributed(cs, now) == Contributed(cs[1..], now) by {
      assert Contributed(cs, now) == [] + Contributed(cs[1..], now);
    }
    WithoutTwice(jar, names, later);
  }

  /** The step of ApplySetCookies for a leading value that is not expired. */
  lemma ShapeStepFresh(jar: Jar, cs: seq<SetCookie>, now: int)
    requires |cs| > 0 && !Expired(cs[0], now)
    ensures Without(jar + RenderAll(cs[0].cookies), ExpiredNames(cs[1..], now)) + Contributed(cs[1..], now)
      == Without(jar, ExpiredNames(cs, now)) + Contributed(cs, now)
  {
    var later := ExpiredNames(cs[1..], now);
    var added := Without(RenderAll(cs[0].cookies), later);
    assert ExpiredNames(cs, now) == later by {
      assert ExpiredNames(cs, now) == [] + later;
      assert [] + later == later;
    }
    assert Contributed(cs, now) == added + Contributed(cs[1..], now);
    WithoutAppend(jar, RenderAll(cs[0].cookies), later);
    AppendAssoc(Without(jar, later), added, Contributed(cs[1..], now));
  }

  /** An entry belongs to some expired name of `cs` exactly when some expired value of `cs` names it. */
  lemma {:induction false} ExpiredNamesCover(cs: seq<SetCookie>, now: int, e: string)
    ensures IsForAny(e, ExpiredNames(cs, now)) <==>
      exists j :: 0 <= j < |cs| && Expired(cs[j], now) && IsForAny(e, NamesOf(cs[j]))
    decreases |cs|
  {
    if |cs| > 0 {
      var rest := cs[1..];
      var head := if Expired(cs[0], now) then NamesOf(cs[0]) else [];
      ExpiredNamesCover(rest, now, e);
      if IsForAny(e, ExpiredNames(cs, now)) {
        var n :| n in head + ExpiredNames(rest, now) && IsFor(e, n);
        if n in head {
          assert IsForAny(e, NamesOf(cs[0]));
        } else {
          assert IsForAny(e, ExpiredNames(rest, now));
          var j :| 0 <= j < |rest| && Expired(rest[j], now) && IsForAny(e, NamesOf(rest[j]));
          assert rest[j] == cs[j + 1];
        }
      }
      if exists j :: 0 <= j < |cs| && Expired(cs[j], now) && IsForAny(e, NamesOf(cs[j])) {
        var j :| 0 <= j < |cs| && Expired(cs[j], now) && IsForAny(e, NamesOf(cs[j]));
        var n :| n in NamesOf(cs[j]) && IsFor(e, n);
        if j == 0 {
          assert n in head + ExpiredNames(rest, now);
        } else {
          assert cs[j] == rest[j - 1];
          assert IsForAny(e, ExpiredNames(rest, now));
          var m :| m in ExpiredNames(rest, now) && IsFor(e, m);
          assert m in head + ExpiredNames(rest, now);
        }
      }
    }
  }

  /** When no later non-expired value of `cs` appends an entry for `n`, nothing contributed is for `n`. */
  lemma {:induction false} ContributedNoneFor(cs: seq<SetCookie>, now: int, n: string)
    requires forall j, s :: 0 <= j < |cs| && !Expired(cs[j], now) && s in cs[j].cookies ==> !IsFor(Render(s), n)
    ensures forall e :: e in Contributed(cs, now) ==> !IsFor(e, n)
    decreases |cs|
  {
    if |cs| > 0 {
      var rest := cs[1..];
      forall j, s | 0 <= j < |rest| && !Expired(rest[j], now) && s in rest[j].cookies
        ensures !IsFor(Render(s), n)
      {
        assert rest[j] == cs[j + 1];
      }
      ContributedNoneFor(rest, now, n);
      if !Expired(cs[0], now) {
        forall e | e in Without(RenderAll(cs[0].cookies), ExpiredNames(rest, now))
          ensures !IsFor(e, n)
        {
          var k :| 0 <= k < |cs[0].cookies| && RenderAll(cs[0].cookies)[k] == e;
          assert cs[0].cookies[k] in cs[0].cookies;
        }
      }
    }
  }

  /** The expired value `cs[i]` removes `n` from everything contributed before it, and nothing after it
      brings `n` back. */
  lemma {:induction false} ContributedAvoids(cs: seq<SetCookie>, now: int, i: nat, n: string)
    requires i < |cs| && Expired(cs[i], now) && n in NamesOf(cs[i])
    requires forall j, s :: i < j < |cs| && !Expired(cs[j], now) && s in cs[j].cookies ==> !IsFor(Render(s), n)
    ensures forall e :: e in Contributed(cs, now) ==> !IsFor(e, n)
    decreases i
  {
    var rest := cs[1..];
    if i == 0 {
      forall j, s | 0 <= j < |rest| && !Expired(rest[j], now) && s in rest[j].cookies
        ensures !IsFor(Render(s), n)
      {
        assert rest[j] == cs[j + 1];
      }
      ContributedNoneFor(rest, now, n);
    } else {
      assert rest[i - 1] == cs[i];
      forall j, s | i - 1 < j < |rest| && !Expired(rest[j], now) && s in rest[j].cookies
        ensures !IsFor(Render(s), n)
      {
        assert rest[j] == cs[j + 1];
      }
      ContributedAvoids(rest, now, i - 1, n);
      if !Expired(cs[0], now) {
        forall e | IsFor(e, n)
          ensures IsForAny(e, ExpiredNames(rest, now))
        {
          ExpiredNamesCover(rest, now, e);
          assert IsForAny(e, NamesOf(rest[i - 1]));
        }
      }
    }
  }

  /** An expired Set-Cookie value deletes its cookies for good unless a later value sets them again. */
  lemma ExpiredCookieStaysRemoved(jar: Jar, cs: seq<SetCookie>, now: int, i: nat, n: string)
    requires i < |cs| && Expired(cs[i], now) && n in NamesOf(cs[i])
    requires forall j, s :: i < j < |cs| && !Expired(cs[j], now) && s in cs[j].cookies ==> !IsFor(Render(s), n)
    ensures forall e :: e in ApplySetCookies(jar, cs, now) ==> !IsFor(e, n)
  {
    ContributedAvoids(cs, now, i, n);
    forall e | IsFor(e, n)
      ensures IsForAny(e, ExpiredNames(cs, now))
    {
      ExpiredNamesCover(cs, now, e);
      assert IsForAny(e, NamesOf(cs[i]));
    }
  }

  /** A cookie set by a non-expired value is in the jar afterwards unless a later expired value deletes it. */
  lemma {:induction false} SetCookieKept(cs: seq<SetCookie>, now: int, i: nat, s: CookieState)
    requires i < |cs| && !Expired(cs[i], now) && s in cs[i].cookies
    requires forall j :: i < j < |cs| && Expired(cs[j], now) ==> !IsForAny(Render(s), NamesOf(cs[j]))
    ensures Render(s) in Contributed(cs, now)
    decreases i
  {
    var rest := cs[1..];
    if i == 0 {
      ExpiredNamesCover(rest, now, Render(s));
      forall j | 0 <= j < |rest| && Expired(rest[j], now)
        ensures !IsForAny(Render(s), NamesOf(rest[j]))
      {
        assert rest[j] == cs[j + 1];
      }
      var k :| 0 <= k < |cs[0].cookies| && cs[0].cookies[k] == s;
      assert RenderAll(cs[0].cookies)[k] == Render(s);
    } else {
      assert rest[i - 1] == cs[i];
      forall j | i - 1 < j < |rest| && Expired(rest[j], now)
        ensures !IsForAny(Render(s), NamesOf(rest[j]))
      {
        assert rest[j] == cs[j + 1];
      }
      SetCookieKept(rest, now, i - 1, s);
    }
  }

  /** The latest applied value of a cookie is present after the response is processed. */
  lemma SetCookiePresentAfter(jar: Jar, cs: seq<SetCookie>, now: int, i: nat, s: CookieState)
    requires i < |cs| && !Expired(cs[i], now) && s in cs[i].cookies
    requires forall j :: i < j < |cs| && Expired(cs[j], now) ==> !IsForAny(Render(s), NamesOf(cs[j]))
    ensures Render(s) in ApplySetCookies(jar, cs, now)
  {
    SetCookieKept(cs, now, i, s);
  }

  /** An entry no expired value of the response names survives processing. */
  lemma UnrelatedEntryKept(jar: Jar, cs: seq<SetCookie>, now: int, e: string)
    requires e in jar
    requires forall j :: 0 <= j < |cs| && Expired(cs[j], now) ==> !IsForAny(e, NamesOf(cs[j]))
    ensures e in ApplySetCookies(jar, cs, now)
  {
    ExpiredNamesCover(cs, now, e);
  }

  /** Why WriteMessageToCookie fails: the protect call wrote no Set-Cookie value (the header lookup or
      First() throws), or the first one does not parse. */
  datatype IssueError = NoSetCookieIssued | SetCookieUnparseable

  /** WriteMessageToCookie after the protect call: the first Set-Cookie value it wrote (`issued`, None when
      it wrote no Set-Cookie header) is parsed and its cookies appended to the jar, expiry or not. */
  function IssueMessageCookie(jar: Jar, issued: Option<seq<string>>, parse: Parser): (r: Result<Jar, IssueError>)
    ensures r == Failure(NoSetCookieIssued) <==> issued.None? || |issued.value| == 0
    ensures r == Failure(SetCookieUnparseable) <==>
      issued.Some? && |issued.value| > 0 && parse(issued.value[0]).None?
    ensures r.Success? ==>
      issued.Some? && |issued.value| > 0 && parse(issued.value[0]).Some? &&
      r.value == jar + RenderAll(parse(issued.value[0]).value.cookies)
  {
    match issued
    case None => Failure(NoSetCookieIssued)
    case Some(values) =>
      if |values| == 0 then Failure(NoSetCookieIssued)
      else
        match parse(values[0])
        case None => Failure(SetCookieUnparseable)
        case Some(c) => Success(AddCookies(jar, c.cookies))
  }
}
