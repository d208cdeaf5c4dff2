# Conformance test helpers: cookie jar, forms and embedded model

This project models the helper extensions that IdentityServer3's conformance tests use to drive an
in-memory host (`source/Tests/UnitTests/Conformance/Extensions.cs`), and proves properties of that model:

- **Cookie jar** (`cookie_jar.dfy`, module `CookieJar`). The client's `Cookie` default request header
  values are a sequence of strings.
  - `AddCookies` appends each value, or each `CookieState` rendered as `name=value`.
  - `RemoveCookie` clears the header and adds back every value not starting with `name=`.
  - `RemoveCookies` does that for each name in turn.
- **Response cookies** (`set_cookies.dfy`, module `SetCookies`):
  - `GetCookies` keeps the Set-Cookie values that parse, in header order.
  - `AssertCookie` passes when exactly one parsed value carries the name. It fails in two distinct ways:
    none carries it, or several do.
  - `ProcessCookies` applies the parsed values to the jar in order. A value whose expiry is strictly
    before the host's clock removes its names; any other value appends its cookies.
  - `WriteMessageToCookie` is modelled after the protect step: the first Set-Cookie value it wrote is
    parsed, and its cookies are appended.
- **Forms** (`name_values.dfy` and `forms.dfy`, modules `NameValues` and `Forms`):
  - A `NameValueCollection` is keys in first-added order plus a table of values per key. `Add` merges
    values under a repeated key, and the indexer comma-joins them.
  - `Map` turns a record (its properties in declaration order, null read as `""`) plus an optional
    anti-forgery token into a collection. A collection passed in is returned as it is.
  - `ToFormBody` writes `k1=v1&k2=v2…` with no encoding. Safe pairs are proved to read back.
- **Embedded model** (`model_json.dfy`, module `ModelJson`). `GetModel` cuts out the text between the
  first `<script id='modelJson' type='application/json'>` and the first `</script>` after it. The two
  exceptions of the cut, and a deserialization failure, become error results.
- **Host** (`host.dfy`, module `Host`):
  - `Get` and `PostForm` resolve a path that does not start with `http` against the host's URL.
  - They send the request with the jar's cookies.
  - They apply the response's cookies to the jar.
- `text.dfy` (module `Text`) has the ordinal string operations used throughout: `StartsWith`,
  `IndexOf`, `Join` and `Split`. `outcomes.dfy` (module `Outcomes`) has `Option`, `Result` and `Outcome`.

External pieces become parameters:
- the Set-Cookie parser (`CookieHeaderValue.TryParse`), as `Parser`;
- the server behind the `HttpClient`, as `Transport`;
- `HttpUtility.HtmlDecode` and the JSON deserializer, as functions given to `GetModel`;
- the host's clock, as the `now` field of `Host`.

## Model

| member | source | states |
|---|---|---|
| CookieJar.AddValues | source/Tests/UnitTests/Conformance/Extensions.cs:231-237 | the jar grows by exactly the given values, which follow the old entries unchanged and in input order |
| CookieJar.AddCookies | source/Tests/UnitTests/Conformance/Extensions.cs:239-245 | every cookie is appended as `name=value` in input order, the old entries are kept as they were, and the length grows by the number of cookies (no de-duplication or replacement) |
| CookieJar.Render | source/Tests/UnitTests/Conformance/Extensions.cs:243 | a cookie's header form is its name, then `=`, then its value, and nothing else |
| CookieJar.RenderAll | source/Tests/UnitTests/Conformance/Extensions.cs:243 | each cookie's header form is `name=value`, position by position |
| CookieJar.IsFor | source/Tests/UnitTests/Conformance/Extensions.cs:260 | an entry is for a name exactly when it is longer than the name, starts with it, and has `=` right after it |
| CookieJar.Without | source/Tests/UnitTests/Conformance/Extensions.cs:260 | the filter keeps exactly the entries that start with none of the `name=` prefixes, and never lengthens the jar |
| CookieJar.RemoveCookie | source/Tests/UnitTests/Conformance/Extensions.cs:255-262 | afterwards no entry starts with `name=`, every other entry is still there, and the result is the order-preserving filter |
| CookieJar.RemoveCookies | source/Tests/UnitTests/Conformance/Extensions.cs:247-253 | removing the names one after another equals one filter by all the names |
| CookieJar.RemoveCookiesStep | source/Tests/UnitTests/Conformance/Extensions.cs:249-252 | one loop iteration followed by the rest of the names is the filter by all the names |
| CookieJar.WithoutNothing | source/Tests/UnitTests/Conformance/Extensions.cs:247-253 | removing no names leaves the jar as it was |
| CookieJar.WithoutAppend | source/Tests/UnitTests/Conformance/Extensions.cs:259-261 | the filter distributes over concatenation, so the surviving entries keep their relative order |
| CookieJar.WithoutTwice | source/Tests/UnitTests/Conformance/Extensions.cs:247-262 | removing one set of names and then another equals removing both at once |
| CookieJar.IsForAnyAppend | source/Tests/UnitTests/Conformance/Extensions.cs:247-253 | an entry belongs to one of two name lists together exactly when it belongs to one of either |
| CookieJar.RemoveCookieIdempotent | source/Tests/UnitTests/Conformance/Extensions.cs:255-262 | removing a cookie twice gives the same jar as removing it once |
| CookieJar.WithoutSameNames | source/Tests/UnitTests/Conformance/Extensions.cs:260 | two name lists that select the same entries filter the jar identically |
| CookieJar.RemoveCookieSparesLongerName | source/Tests/UnitTests/Conformance/Extensions.cs:260 | the prefix is `name=`: `ab=1` survives removing `a`, while `a=1` goes and `b=2` stays |
| CookieJar.RenderIsFor | source/Tests/UnitTests/Conformance/Extensions.cs:260 | for names without `=`, a rendered cookie matches the removal prefix of a name exactly when it is that cookie |
| CookieJar.RenderForNameHasName | source/Tests/UnitTests/Conformance/Extensions.cs:260 | a rendered cookie that starts with `name=` has that name, when neither name contains `=` |
| SetCookies.ParseAll | source/Tests/UnitTests/Conformance/Extensions.cs:269-278 | at most one result per header value; every result is the parse of some value and every value that parses contributes; nothing is dropped exactly when all values parse |
| SetCookies.ParseAllAppend | source/Tests/UnitTests/Conformance/Extensions.cs:270-277 | parsing keeps header order: the parse of two runs of values is their parses concatenated |
| SetCookies.GetCookies | source/Tests/UnitTests/Conformance/Extensions.cs:264-281 | no Set-Cookie header gives an empty result; otherwise the successfully parsed values, failures skipped without error, at most one per header value |
| SetCookies.HasCookieIffNamed | source/Tests/UnitTests/Conformance/Extensions.cs:227 | the front-to-back search over a value's cookies finds a name exactly when it is among their names |
| SetCookies.CarriesIffNamed | source/Tests/UnitTests/Conformance/Extensions.cs:227 | a parsed value passes AssertCookie's filter exactly when one of its cookies has the name |
| SetCookies.CountCarrying | source/Tests/UnitTests/Conformance/Extensions.cs:227 | the count of carriers is zero exactly when no parsed value carries the name |
| SetCookies.ExactlyOneLeading | source/Tests/UnitTests/Conformance/Extensions.cs:227 | a carrier at the front is the single one exactly when none of the rest carries the name |
| SetCookies.NoneCarryAppend | source/Tests/UnitTests/Conformance/Extensions.cs:227 | two runs of values carry no such cookie exactly when neither does |
| SetCookies.ExactlyOneAfterNonCarrier | source/Tests/UnitTests/Conformance/Extensions.cs:227 | a leading non-carrier does not change whether the carrier is unique |
| SetCookies.ExactlyOneShiftsDown | source/Tests/UnitTests/Conformance/Extensions.cs:227 | dropping a leading non-carrier keeps a unique carrier unique |
| SetCookies.ExactlyOneShiftsUp | source/Tests/UnitTests/Conformance/Extensions.cs:227 | prepending a non-carrier keeps a unique carrier unique |
| SetCookies.CountOneIffExactlyOne | source/Tests/UnitTests/Conformance/Extensions.cs:227 | a count of one means exactly one carrier, and conversely |
| SetCookies.TwoCarryDown | source/Tests/UnitTests/Conformance/Extensions.cs:227 | two carriers are the first value and one of the rest, or two of the rest |
| SetCookies.TwoCarryUp | source/Tests/UnitTests/Conformance/Extensions.cs:227 | the first value and one of the rest carrying, or two of the rest, make two carriers |
| SetCookies.CountTwoIffTwoCarry | source/Tests/UnitTests/Conformance/Extensions.cs:227 | a count of two or more means two distinct carriers (SingleOrDefault throws), and conversely |
| SetCookies.SingleCarrier | source/Tests/UnitTests/Conformance/Extensions.cs:227-228 | the search over parsed values passes iff exactly one carries the name; it finds none iff none does, and is ambiguous iff two or more do |
| SetCookies.AssertCookie | source/Tests/UnitTests/Conformance/Extensions.cs:224-229 | passes iff exactly one parsed value carries the name; fails as missing iff none does, and as ambiguous iff two or more do |
| SetCookies.ExpiryBoundary | source/Tests/UnitTests/Conformance/Extensions.cs:165 | the expiry test is strict: no expiry never deletes, an expiry equal to the clock does not delete, one tick earlier does, and a value that deletes at one clock reading deletes at every later one |
| SetCookies.NamesOf | source/Tests/UnitTests/Conformance/Extensions.cs:167 | the names an expired value removes are its cookies' names, in order |
| SetCookies.Names | source/Tests/UnitTests/Conformance/Extensions.cs:167 | one name per cookie, position by position |
| SetCookies.ApplySetCookie | source/Tests/UnitTests/Conformance/Extensions.cs:163-173 | an expired value (expiry present and strictly before now) leaves no entry for its names and keeps exactly the others, in their order and with repeats, as the removal filter does; any other value appends its cookies |
| SetCookies.ProcessCookies | source/Tests/UnitTests/Conformance/Extensions.cs:160-175 | no Set-Cookie header leaves the jar as it was; otherwise the jar is the old entries no expired value names, in order, followed by the cookies the other values add that no later expired value removes |
| SetCookies.ApplySetCookies | source/Tests/UnitTests/Conformance/Extensions.cs:162-174 | applying the values in response order gives the old entries no expired value names, in order, followed by the cookies the other values add that no later expired value removes |
| SetCookies.ShapeStep | source/Tests/UnitTests/Conformance/Extensions.cs:163-173 | one iteration keeps that shape: the shape of the remaining values after it is the shape of all of them before it |
| SetCookies.ShapeStepExpired | source/Tests/UnitTests/Conformance/Extensions.cs:164-168 | the shape is kept across an expired value |
| SetCookies.ShapeStepFresh | source/Tests/UnitTests/Conformance/Extensions.cs:169-172 | the shape is kept across a value that is not expired |
| SetCookies.ExpiredNamesCover | source/Tests/UnitTests/Conformance/Extensions.cs:164-168 | an entry matches some expired name of the response exactly when it matches a name of one of its expired values |
| SetCookies.ContributedNoneFor | source/Tests/UnitTests/Conformance/Extensions.cs:162-174 | when no non-expired value sets a cookie for a name, nothing the values add is for that name |
| SetCookies.ContributedAvoids | source/Tests/UnitTests/Conformance/Extensions.cs:162-174 | when an expired value names a cookie and no later non-expired value sets it again, nothing the values add is for that name |
| SetCookies.ExpiredCookieStaysRemoved | source/Tests/UnitTests/Conformance/Extensions.cs:160-175 | once an expired value names a cookie, no entry for it remains unless a later value sets it again |
| SetCookies.SetCookieKept | source/Tests/UnitTests/Conformance/Extensions.cs:169-172 | a cookie a non-expired value sets is among the added entries unless a later expired value names it |
| SetCookies.SetCookiePresentAfter | source/Tests/UnitTests/Conformance/Extensions.cs:160-175 | such a cookie is in the jar after processing |
| SetCookies.UnrelatedEntryKept | source/Tests/UnitTests/Conformance/Extensions.cs:160-175 | an entry no expired value names survives processing |
| SetCookies.IssueMessageCookie | source/Tests/UnitTests/Conformance/Extensions.cs:78-84 | fails iff no Set-Cookie value was written, or iff the first one does not parse; otherwise exactly that value's cookies are appended, whatever its expiry |
| NameValues.Add | source/Tests/UnitTests/Conformance/Extensions.cs:116-121 | Add keeps the collection well formed; a new key is listed last, a known key keeps the key order; the value is appended to that key's values and no other key changes |
| NameValues.AddAll | source/Tests/UnitTests/Conformance/Extensions.cs:112-122 | a run of Add calls keeps the collection well formed |
| NameValues.AddAllLookup | source/Tests/UnitTests/Conformance/Extensions.cs:112-122 | each key ends up with its old values followed by the values the pairs gave it, in order (merged, never overwritten) |
| NameValues.FromPairs | source/Tests/UnitTests/Conformance/Extensions.cs:111-122 | the collection built from an empty one is well formed |
| NameValues.FromPairsLookup | source/Tests/UnitTests/Conformance/Extensions.cs:111-122 | every key holds exactly the values the pairs gave it, in order |
| NameValues.PairKeys | source/Tests/UnitTests/Conformance/Extensions.cs:116 | one key per pair, position by position |
| NameValues.AddAllFreshKeys | source/Tests/UnitTests/Conformance/Extensions.cs:112-122 | new distinct keys are listed after the existing ones, in the order added |
| NameValues.ValuesOfDistinct | source/Tests/UnitTests/Conformance/Extensions.cs:116 | with distinct keys, a key holds only its own pair's value |
| NameValues.ValuesOfAbsent | source/Tests/UnitTests/Conformance/Extensions.cs:116 | a key no pair carries has no values |
| NameValues.FromDistinctPairs | source/Tests/UnitTests/Conformance/Extensions.cs:111-122 | with distinct keys, the keys are listed in pair order and each holds exactly its own value |
| Forms.FieldsOfDistinctPairs | source/Tests/UnitTests/Conformance/Extensions.cs:130-137 | with distinct keys, the fields are the pairs written `key=value`, in pair order |
| Forms.FieldPairs | source/Tests/UnitTests/Conformance/Extensions.cs:112-122 | one pair per property in declaration order with null as `""`, then the token's pair last; with no token, as many pairs as properties |
| Forms.Map | source/Tests/UnitTests/Conformance/Extensions.cs:106-125 | a collection passed in is returned unchanged and the token is not added; a record gives a well-formed collection whose values per key are exactly those of its properties and token, in order |
| Forms.MapRecordOrder | source/Tests/UnitTests/Conformance/Extensions.cs:106-125 | with distinct names, the keys are the properties in declaration order, each holding its one value (null as `""`), then the token's name last with its value |
| Forms.Field | source/Tests/UnitTests/Conformance/Extensions.cs:136 | a field is the key, then `=`, then the key's values comma-joined as the collection's indexer gives them |
| Forms.Fields | source/Tests/UnitTests/Conformance/Extensions.cs:130-137 | one `key=values` field per key, in key order |
| Forms.ToFormBody | source/Tests/UnitTests/Conformance/Extensions.cs:127-139 | the loop writes the fields joined by single `&`, with none leading or trailing; the body is empty exactly when the collection has no keys |
| Forms.ParseFieldRoundTrip | source/Tests/UnitTests/Conformance/Extensions.cs:136 | a field written from a key without `=` reads back as that key and value |
| Forms.FormRoundTrip | source/Tests/UnitTests/Conformance/Extensions.cs:127-139 | for distinct keys free of `&` and `=` and values free of `&`, splitting the body on `&` and then `=` recovers the pairs in order |
| Forms.MapThenEncodeRoundTrip | source/Tests/UnitTests/Conformance/Extensions.cs:145-146 | a record mapped and encoded reads back as its properties (null as `""`) followed by the token |
| Text.IndexOf | source/Tests/UnitTests/Conformance/Extensions.cs:201-202 | the search gives -1 exactly when there is no occurrence from the start index on, and otherwise the first occurrence at or after it |
| Text.IndexOfFinds | source/Tests/UnitTests/Conformance/Extensions.cs:201-202 | an occurrence with none before it from the start index is exactly what the search returns |
| Text.Join | source/Tests/UnitTests/Conformance/Extensions.cs:133-136 | the joined text is at least as long as its first element |
| Text.Split | source/Tests/UnitTests/Conformance/Extensions.cs:127-139 | splitting gives at least one piece, and no piece holds the separator |
| Text.JoinSnoc | source/Tests/UnitTests/Conformance/Extensions.cs:133-136 | appending one more field adds exactly one separator and the field |
| Text.SplitThenJoin | source/Tests/UnitTests/Conformance/Extensions.cs:127-139 | joining the pieces of a split gives back the text |
| Text.SplitWithoutSeparator | source/Tests/UnitTests/Conformance/Extensions.cs:127-139 | a text without the separator splits into itself |
| Text.SplitAtFirst | source/Tests/UnitTests/Conformance/Extensions.cs:136 | a separator-free prefix ending at the first separator is the first piece |
| Text.JoinThenSplit | source/Tests/UnitTests/Conformance/Extensions.cs:127-139 | splitting the join of separator-free pieces gives back the pieces |
| ModelJson.NoCloseInsideMarker | source/Tests/UnitTests/Conformance/Extensions.cs:200-202 | no `</script>` can start inside an occurrence of the marker |
| ModelJson.MarkerSearch | source/Tests/UnitTests/Conformance/Extensions.cs:201 | the search for the marker fails exactly when the page does not contain it |
| ModelJson.ExtractModelJson | source/Tests/UnitTests/Conformance/Extensions.cs:198-203 | fails as missing iff the marker is absent, and as unterminated iff no `</script>` follows any marker; otherwise the text strictly between the end of the first marker and the first `</script>` after it |
| ModelJson.NoCloseAfter | source/Tests/UnitTests/Conformance/Extensions.cs:201-203 | when the Substring length is negative, no `</script>` follows any marker |
| ModelJson.CutIsFramed | source/Tests/UnitTests/Conformance/Extensions.cs:201-203 | when the Substring length is not negative, the cut text sits between the first marker and the first `</script>` after it |
| ModelJson.FramedExtracts | source/Tests/UnitTests/Conformance/Extensions.cs:198-203 | a page framed around some content yields exactly that content |
| ModelJson.FirstMarkerAfter | source/Tests/UnitTests/Conformance/Extensions.cs:201 | text without the marker put before a marker adds no earlier marker, even one straddling the boundary |
| ModelJson.NoCloseBeforeEnd | source/Tests/UnitTests/Conformance/Extensions.cs:202 | in the marker, content without `</script>` and then `</script>`, the first `</script>` is the one after the content |
| ModelJson.FramedAtStart | source/Tests/UnitTests/Conformance/Extensions.cs:201-203 | such a page is framed around the content at position 0 |
| ModelJson.FramedShift | source/Tests/UnitTests/Conformance/Extensions.cs:201-203 | a framing is kept, shifted, when text that adds no earlier marker is put in front |
| ModelJson.ExtractFromPage | source/Tests/UnitTests/Conformance/Extensions.cs:198-203 | text without a marker, then the marker, content without `</script>`, `</script>` and anything after yields exactly the content |
| ModelJson.GetModel | source/Tests/UnitTests/Conformance/Extensions.cs:198-206 | succeeds iff the text is cut out and its decoded form deserializes, giving that model; the missing and unterminated failures are exactly those of the cut |
| Host.Absolute | source/Tests/UnitTests/Conformance/Extensions.cs:91 | a path is taken as it is exactly when its first four characters are `h`, `t`, `t`, `p` |
| Host.ResolveUrl | source/Tests/UnitTests/Conformance/Extensions.cs:91 | the URL is the path, or the host's URL followed by it; it is the path itself iff the path starts with `http` or the host's URL is empty |
| Host.HttpLookingPathNotResolved | source/Tests/UnitTests/Conformance/Extensions.cs:143 | the test is on the letters `http`: `httpbin` is sent as it is, while `callback` is put after the host's URL |
| Host.Receive | source/Tests/UnitTests/Conformance/Extensions.cs:94 | receiving a response changes only the jar, as ProcessCookies does at the host's clock |
| Host.Get | source/Tests/UnitTests/Conformance/Extensions.cs:89-97 | a GET goes to the resolved URL with the jar's cookies; afterwards only the jar has changed, to the old entries no expired value of the response names followed by the cookies its other values add |
| Host.PostFormRequest | source/Tests/UnitTests/Conformance/Extensions.cs:141-149 | the POST goes to the resolved URL with the jar's cookies and a form body that is empty iff the form has no keys |
| Host.PostForm | source/Tests/UnitTests/Conformance/Extensions.cs:141-153 | the posted request carries the encoded form; afterwards only the jar has changed, as for Get |
| Host.PostFormBodyReadsBack | source/Tests/UnitTests/Conformance/Extensions.cs:141-149 | the body posted for a record with safe names and values reads back as its properties and the token |
| Host.CookieSentWithNextRequest | source/Tests/UnitTests/Conformance/Extensions.cs:94 | a cookie a response to Get or PostForm sets goes with the next request, unless a later Set-Cookie value of that response expires it |
| Host.UnrelatedCookieSurvives | source/Tests/UnitTests/Conformance/Extensions.cs:94 | a cookie the client holds still goes with the next request unless an expired value of the response names it |

## Left out

- `Login`, `GetLoginPage`, `GetLoginUrl` and the other URL builders. They sequence calls and concatenate route constants from `Constants.RoutePaths`, which is not part of this model.
- `EnsureTrailingSlash` is not part of this model. The host's URL is taken with its trailing slash already ensured.
- `Get<T>`, `GetModel<T>(HttpResponseMessage)`, `PostJson` and `AssertPage`:
  - they do JSON content negotiation, FluentAssertions checks on status and headers, and .NET `Regex` matching;
  - they have no logic of their own over the modelled state.
- `HttpClient`, its async calls and `.Result`. The server is the `Transport` parameter, a pure function of the request, so requests are modelled as sequential.
- `WriteMessageToCookie`: the OWIN environment and `MessageCookie<T>.Write` are not modelled. Their output is the Set-Cookie header values passed to `SetCookies.IssueMessageCookie`. The returned message id is not modelled.
- The internals of `CookieHeaderValue.TryParse`, `HttpUtility.HtmlDecode` and `JsonConvert.DeserializeObject`. They are function parameters.
- `TypeDescriptor` reflection in `Map`. A record is given as its property names and values in declaration order, with `None` for null and `ToString` already applied.
- `NameValues.Add`: keys are compared exactly. The .NET `NameValueCollection` compares keys case-insensitively by default.
- `Text.IndexOf` and `Text.StartsWith` compare ordinally. `String.StartsWith(string)` and `String.IndexOf(string)` are culture-sensitive in .NET, and the code relies on them behaving ordinally for ASCII text.
- Null arguments and the `NullReferenceException`s they raise, and a null `Set-Cookie` value.
- `CookieState.ToString` is modelled as `name=value`, without the encoding `CookieState` applies to special characters.
- The expiry and the host's clock are integers. `DateTimeOffset` comparison is only a total order.
- Response status codes and bodies: the cookie helpers never read them, so a response is its Set-Cookie values only.
- Header-name case: the jar stands for the `Cookie` values only, and a response's `Set-Cookie` values are given directly.
- `Forms.ToFormBody` and `Forms.FormRoundTrip`: the body is not percent-encoded, as in the code. The round trip therefore holds only for keys free of `&` and `=` and values free of `&`.
- `Text.Join`: the contract states only a length bound. Its content is pinned down by `Text.JoinSnoc`, `Text.SplitThenJoin` and `Text.JoinThenSplit`.
- `ModelJson.ExtractModelJson`: `IndexOf(match)` with no start index is the search from 0. `IndexOf("</script>", -1)` throws when the marker is missing, and this is reported as the missing-marker error.
