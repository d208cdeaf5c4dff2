/** Building and encoding the form a test posts (Extensions.cs, Map / ToFormBody), and the parse that
    recovers the pairs from the body. */
module Forms {
  import opened Outcomes
  import opened Text
  import opened NameValues

  /** The anti-forgery token a login page hands out: the form field name and value to echo back. */
  datatype AntiForgery = AntiForgery(name: string, value: string)

  /** What Map is given: an already built NameValueCollection, or a record's public properties in
      declaration order, each with its value (None for null). */
  datatype FormSource =
    | Prebuilt(coll: Collection)
    | Record(fields: seq<(string, Option<string>)>)

  /** The Add calls Map makes for a record, in order: each property with null written as "", then the
      anti-forgery pair when there is one. */
  function FieldPairs(fields: seq<(string, Option<string>)>, xsrf: Option<AntiForgery>): (ps: seq<(string, string)>)
    ensures |ps| == |fields| + (if xsrf.Some? then 1 else 0)
    ensures forall i :: 0 <= i < |fields| ==> ps[i] == (fields[i].0, fields[i].1.GetOr(""))
    ensures xsrf.Some? ==> ps[|ps| - 1] == (xsrf.value.name, xsrf.value.value)
  {
    seq(|fields|, i requires 0 <= i < |fields| => (fields[i].0, fields[i].1.GetOr("")))
      + (match xsrf case Some(t) => [(t.name, t.value)] case None => [])
  }

  /** Map: a prebuilt collection is returned as it is (the token is not added to it); a record becomes a
      fresh collection of its properties followed by the token. */
  function Map(value: FormSource, xsrf: Option<AntiForgery>): (r: Collection)
    ensures value.Prebuilt? ==> r == value.coll
    ensures value.Record? ==> Valid(r)
    ensures value.Record? ==> forall k :: Lookup(r, k) == ValuesOf(FieldPairs(value.fields, xsrf), k)
  {
    match value
    case Prebuilt(c) => c
    case Record(fields) =>
      var ps := FieldPairs(fields, xsrf);
      assert forall k :: Lookup(FromPairs(ps), k) == ValuesOf(ps, k) by {
        forall k ensures Lookup(FromPairs(ps), k) == ValuesOf(ps, k) {
          FromPairsLookup(ps, k);
        }
      }
      FromPairs(ps)
  }

  /** With distinct names, a record's form lists its properties in declaration order, each with its one
      value (null as ""), and then the token, last. */
  lemma MapRecordOrder(fields: seq<(string, Option<string>)>, xsrf: Option<AntiForgery>)
    requires DistinctPairKeys(FieldPairs(fields, xsrf))
    ensures |Map(Record(fields), xsrf).keys| == |fields| + (if xsrf.Some? then 1 else 0)
    ensures forall i :: 0 <= i < |fields| ==>
      Map(Record(fields), xsrf).keys[i] == fields[i].0 &&
      Lookup(Map(Record(fields), xsrf), fields[i].0) == [fields[i].1.GetOr("")]
    ensures xsrf.Some? ==>
      Map(Record(fields), xsrf).keys[|fields|] == xsrf.value.name &&
      Lookup(Map(Record(fields), xsrf), xsrf.value.name) == [xsrf.value.value]
  {
    var ps := FieldPairs(fields, xsrf);
    FromDistinctPairs(ps);
    if xsrf.Some? {
      assert ps[|fields|] == (xsrf.value.name, xsrf.value.value);
    }
  }

  /** One form field as ToFormBody writes it: `key=values`, the values comma-joined (the collection's
      indexer). */
  function Field(c: Collection, k: string): (f: string)
    ensures |k| < |f| && f[..|k|] == k && f[|k|] == '='
    ensures f[|k| + 1..] == Join(Lookup(c, k), ",")
  {
    k + "=" + Join(Lookup(c, k), ",")
  }

  /** The fields of `c`, in key order. */
  function Fields(c: Collection): (fs: seq<string>)
    ensures |fs| == |c.keys|
    ensures forall i :: 0 <= i < |fs| ==> fs[i] == Field(c, c.keys[i])
  {
    seq(|c.keys|, i requires 0 <= i < |c.keys| => Field(c, c.keys[i]))
  }

  /** The form body: the fields joined with `&`, with no percent-encoding. */
  function FormBody(c: Collection): string {
    Join(Fields(c), "&")
  }

  /** ToFormBody: appends `&` before a field whenever the builder already holds text, then the field. */
  method ToFormBody(c: Collection) returns (body: string)
    ensures body == FormBody(c)
    ensures body == "" <==> |c.keys| == 0
  {
    var fs := Fields(c);
    body := "";
    var i := 0;
    while i < |c.keys|
      invariant 0 <= i <= |c.keys|
      invariant body == Join(fs[..i], "&")
      invariant |body| == 0 <==> i == 0
    {
      if |body| > 0 {
        body := body + "&";
      }
      body := body + Field(c, c.keys[i]);
      assert fs[..i + 1] == fs[..i] + [fs[i]];
      if i > 0 {
        JoinSnoc(fs[..i], fs[i], "&");
      }
      i := i + 1;
    }
    assert fs[..i] == fs;
  }

  /** Reads one field back: the text before its first `=` and everything after it. */
  function ParseField(f: string): (string, string) {
    var parts := Split(f, '=');
    (parts[0], Join(parts[1..], "="))
  }

  /** Reads a form body back into its pairs: no pairs for an empty body, else one per `&`-separated field. */
  function ParseForm(body: string): seq<(string, string)> {
    if body == "" then []
    else
      var fs := Split(body, '&');
      seq(|fs|, i requires 0 <= i < |fs| => ParseField(fs[i]))
  }

  /** A key free of `=` followed by `=` and a value reads back as that key and value. */
  lemma ParseFieldRoundTrip(k: string, v: string)
    requires '=' !in k
    ensures ParseField(k + "=" + v) == (k, v)
  {
    assert k + "=" + v == k + ['='] + v;
    SplitAtFirst(k, v, '=');
    SplitThenJoin(v, '=');
  }

  /** The pairs a form safe to write unencoded is written from: keys distinct and free of `&` and `=`,
      values free of `&`. */
  predicate SafePairs(ps: seq<(string, string)>) {
    && DistinctPairKeys(ps)
    && forall i :: 0 <= i < |ps| ==> '&' !in ps[i].0 && '=' !in ps[i].0 && '&' !in ps[i].1
  }

  /** With distinct keys, the fields of the built collection are the pairs written `key=value`, in order. */
  lemma FieldsOfDistinctPairs(ps: seq<(string, string)>)
    requires DistinctPairKeys(ps)
    ensures |Fields(FromPairs(ps))| == |ps|
    ensures forall i :: 0 <= i < |ps| ==> Fields(FromPairs(ps))[i] == ps[i].0 + "=" + ps[i].1
  {
    var c := FromPairs(ps);
    FromDistinctPairs(ps);
    forall i | 0 <= i < |ps|
      ensures Fields(c)[i] == ps[i].0 + "=" + ps[i].1
    {
      assert c.keys[i] == ps[i].0;
      assert Lookup(c, ps[i].0) == [ps[i].1];
    }
  }

  /** A field written from a key and a value free of `&` is free of `&`. */
  lemma FieldWithoutAmpersand(k: string, v: string)
    requires '&' !in k && '&' !in v
    ensures '&' !in k + "=" + v
  {
  }

  /** Encoding safe pairs and reading the body back gives the same pairs in the same order. */
  lemma FormRoundTrip(ps: seq<(string, string)>)
    requires SafePairs(ps)
    ensures ParseForm(FormBody(FromPairs(ps))) == ps
  {
    var fs := Fields(FromPairs(ps));
    FieldsOfDistinctPairs(ps);
    if |ps| > 0 {
      forall i | 0 <= i < |fs|
        ensures '&' !in fs[i]
      {
        FieldWithoutAmpersand(ps[i].0, ps[i].1);
      }
      JoinThenSplit(fs, '&');
      assert |fs[0]| > 0;
      assert FormBody(FromPairs(ps)) != "";
      forall i | 0 <= i < |ps|
        ensures ParseField(fs[i]) == ps[i]
      {
        ParseFieldRoundTrip(ps[i].0, ps[i].1);
      }
    }
  }

  /** Mapping a record with safe names and values and encoding it reads back as its properties, null as
      "", followed by the token. */
  lemma MapThenEncodeRoundTrip(fields: seq<(string, Option<string>)>, xsrf: Option<AntiForgery>)
    requires SafePairs(FieldPairs(fields, xsrf))
    ensures ParseForm(FormBody(Map(Record(fields), xsrf))) == FieldPairs(fields, xsrf)
  {
    FormRoundTrip(FieldPairs(fields, xsrf));
  }
}
