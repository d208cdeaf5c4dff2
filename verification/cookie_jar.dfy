/** The client's outgoing cookie jar: the ordered `Cookie` request-header values
    (Extensions.cs, AddCookies / RemoveCookie / RemoveCookies). */
module CookieJar {
  import opened Text

  /** One cookie of a Cookie or Set-Cookie header: its name and its serialized value. */
  datatype CookieState = CookieState(name: string, value: string)

  /** The `Cookie` header values attached to every outgoing request, in the order they were added. */
  type Jar = seq<string>

  /** The header form of one cookie, `name=value` (CookieState.ToString). */
  function Render(c: CookieState): (r: string)
    ensures |r| == |c.name| + 1 + |c.value|
    ensures r[..|c.name|] == c.name && r[|c.name|] == '=' && r[|c.name| + 1..] == c.value
  {
    c.name + "=" + c.value
  }

  /** A jar entry belongs to cookie `name` when it starts with `name=`. */
  predicate IsFor(entry: string, name: string)
    ensures IsFor(entry, name) <==> |name| < |entry| && entry[..|name|] == name && entry[|name|] == '='
  {
    assert (name + "=")[..|name|] == name;
    StartsWith(entry, name + "=")
  }

  /** A jar entry belongs to one of `names`. */
  predicate IsForAny(entry: string, names: seq<string>) {
    exists n :: n in names && IsFor(entry, n)
  }

  /** Every cookie in header form, in order. */
  function RenderAll(cookies: seq<CookieState>): (r: seq<string>)
    ensures |r| == |cookies|
    ensures forall i :: 0 <= i < |cookies| ==> r[i] == Render(cookies[i])
  {
    seq(|cookies|, i requires 0 <= i < |cookies| => Render(cookies[i]))
  }

  /** AddCookies over raw header values: each is appended, in order, as its own entry. */
  function AddValues(jar: Jar, values: seq<string>): (r: Jar)
    ensures |r| == |jar| + |values|
    ensures forall i :: 0 <= i < |jar| ==> r[i] == jar[i]
    ensures forall i :: 0 <= i < |values| ==> r[|jar| + i] == values[i]
  {
    jar + values
  }

  /** AddCookies over parsed cookies: each is appended, rendered `name=value`, in order; nothing already
      in the jar is replaced or de-duplicated. */
  function AddCookies(jar: Jar, cookies: seq<CookieState>): (r: Jar)
    ensures |r| == |jar| + |cookies|
    ensures forall i :: 0 <= i < |jar| ==> r[i] == jar[i]
    ensures forall i :: 0 <= i < |cookies| ==> r[|jar| + i] == Render(cookies[i])
    ensures r == jar + RenderAll(cookies)
    decreases |cookies|
  {
    if |cookies| == 0 then jar
    else AddCookies(jar + [Render(cookies[0])], cookies[1..])
  }

  /** The entries of `jar` that belong to none of `names`, in their original order. */
  function Without(jar: Jar, names: seq<string>): (r: Jar)
    ensures |r| <= |jar|
    ensures forall e :: e in r <==> e in jar && !IsForAny(e, names)
  {
    if |jar| == 0 then []
    else
      (if IsForAny(jar[0], names) then [] else [jar[0]]) + Without(jar[1..], names)
  }

  /** RemoveCookie: the header is cleared and the entries not starting with `name=` are added back. */
  function RemoveCookie(jar: Jar, name: string): (r: Jar)
    ensures forall e :: e in r ==> !IsFor(e, name)
    ensures forall e :: e in jar && !IsFor(e, name) ==> e in r
    ensures r == Without(jar, [name])
  {
    assert forall e :: IsForAny(e, [name]) <==> IsFor(e, name) by {
      forall e ensures IsForAny(e, [name]) <==> IsFor(e, name) {
        if IsFor(e, name) { assert name in [name]; }
      }
    }
    AddValues([], Without(jar, [name]))
  }

  /** RemoveCookies: RemoveCookie for each name in turn. */
  function RemoveCookies(jar: Jar, names: seq<string>): (r: Jar)
    ensures r == Without(jar, names)
    decreases |names|
  {
    if |names| == 0 then
      WithoutNothing(jar);
      jar
    else
      RemoveCookiesStep(jar, names);
      RemoveCookies(RemoveCookie(jar, names[0]), names[1..])
  }

  /** One step of RemoveCookies: removing the first name, then filtering by the rest, filters by all. */
  lemma RemoveCookiesStep(jar: Jar, names: seq<string>)
    requires |names| > 0
    ensures Without(RemoveCookie(jar, names[0]), names[1..]) == Without(jar, names)
  {
    var first := [names[0]];
    assert first + names[1..] == names;
    assert RemoveCookie(jar, names[0]) == Without(jar, first);
    WithoutTwice(jar, first, names[1..]);
  }

  /** Filtering by no names keeps the whole jar. */
  lemma {:induction false} WithoutNothing(jar: Jar)
    ensures Without(jar, []) == jar
    decreases |jar|
  {
    if |jar| > 0 {
      WithoutNothing(jar[1..]);
      assert [jar[0]] + jar[1..] == jar;
    }
  }

  /** Filtering distributes over concatenation, so relative order is preserved. */
  lemma {:induction false} WithoutAppend(a: Jar, b: Jar, names: seq<string>)
    ensures Without(a + b, names) == Without(a, names) + Without(b, names)
    decreases |a|
  {
    if |a| == 0 {
      assert a + b == b;
    } else {
      var head := if IsForAny(a[0], names) then [] else [a[0]];
      assert (a + b)[0] == a[0];
      assert (a + b)[1..] == a[1..] + b;
      WithoutAppend(a[1..], b, names);
      AppendAssoc(head, Without(a[1..], names), Without(b, names));
    }
  }

  /** An entry belongs to one of two name lists together exactly when it belongs to one of either. */
  lemma IsForAnyAppend(e: string, n1: seq<string>, n2: seq<string>)
    ensures IsForAny(e, n1 + n2) <==> IsForAny(e, n1) || IsForAny(e, n2)
  {
  }

  /** Filtering a single entry keeps it exactly when it belongs to none of the names. */
  lemma WithoutSingle(e: string, names: seq<string>)
    ensures Without([e], names) == if IsForAny(e, names) then [] else [e]
  {
  }

  /** Filtering by `n1` and then by `n2` is filtering by both at once. */
  lemma {:induction false} WithoutTwice(jar: Jar, n1: seq<string>, n2: seq<string>)
    ensures Without(Without(jar, n1), n2) == Without(jar, n1 + n2)
    decreases |jar|
  {
    if |jar| > 0 {
      var e := jar[0];
      IsForAnyAppend(e, n1, n2);
      WithoutTwice(jar[1..], n1, n2);
      var head := if IsForAny(e, n1) then [] else [e];
      WithoutAppend(head, Without(jar[1..], n1), n2);
      if !IsForAny(e, n1) {
        WithoutSingle(e, n2);
      }
    }
  }

  /** Removing a cookie twice is the same as removing it once. */
  lemma RemoveCookieIdempotent(jar: Jar, name: string)
    ensures RemoveCookie(RemoveCookie(jar, name), name) == RemoveCookie(jar, name)
  {
    var once := Without(jar, [name]);
    assert RemoveCookie(jar, name) == once;
    WithoutTwice(jar, [name], [name]);
    forall e ensures IsForAny(e, [name] + [name]) <==> IsForAny(e, [name]) {
      if IsForAny(e, [name]) { assert name in [name] + [name]; }
    }
    WithoutSameNames(jar, [name] + [name], [name]);
  }

  /** Filtering depends only on which entries the names select. */
  lemma {:induction false} WithoutSameNames(jar: Jar, n1: seq<string>, n2: seq<string>)
    requires forall e :: IsForAny(e, n1) <==> IsForAny(e, n2)
    ensures Without(jar, n1) == Without(jar, n2)
    decreases |jar|
  {
    if |jar| > 0 {
      WithoutSameNames(jar[1..], n1, n2);
    }
  }

  /** An entry for cookie `ab` survives removing cookie `a`: the match is on `name=`, not on `name`. */
  lemma RemoveCookieSparesLongerName()
    ensures RemoveCookie(["ab=1"], "a") == ["ab=1"]
    ensures RemoveCookie(["a=1", "b=2"], "a") == ["b=2"]
  {
    assert !IsFor("ab=1", "a") by { assert "ab=1"[1] != "a="[1]; }
    assert IsFor("a=1", "a") by { assert "a=1"[..2] == "a="; }
    assert !IsFor("b=2", "a") by { assert "b=2"[0] != "a="[0]; }
    assert Without(["ab=1"], [ "a" ]) == ["ab=1"] by {
      assert !IsForAny("ab=1", ["a"]);
      assert ["ab=1"][1..] == [];
    }
    assert Without(["a=1", "b=2"], ["a"]) == ["b=2"] by {
      assert IsForAny("a=1", ["a"]);
      assert !IsForAny("b=2", ["a"]);
      assert ["a=1", "b=2"][1..] == ["b=2"];
      assert ["b=2"][1..] == [];
    }
  }

  /** For names without `=`, a rendered cookie is for `name` exactly when it carries that name. */
  lemma RenderIsFor(c: CookieState, name: string)
    requires '=' !in c.name && '=' !in name
    ensures IsFor(Render(c), name) <==> c.name == name
  {
    if c.name == name {
      assert Render(c)[..|name| + 1] == name + "=";
    }
    if IsFor(Render(c), name) {
      RenderForNameHasName(c, name);
    }
  }

  /** The first `=` of a rendered cookie ends its name, so a matching `name=` prefix pins the name down. */
  lemma RenderForNameHasName(c: CookieState, name: string)
    requires '=' !in c.name && '=' !in name
    requires IsFor(Render(c), name)
    ensures c.name == name
  {
    var r := Render(c);
    var p := name + "=";
    assert r[..|p|] == p;
    assert forall i :: 0 <= i < |c.name| ==> r[i] == c.name[i] && r[i] != '=';
    assert r[|c.name|] == '=';
    assert forall i :: 0 <= i < |name| ==> r[i] == name[i] && r[i] != '=';
    assert r[|name|] == '=';
    assert |name| == |c.name|;
    assert r[..|name|] == c.name;
    assert p[..|name|] == name;
  }
}
