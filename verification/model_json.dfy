/** Extracting the JSON view model a server-rendered page embeds (Extensions.cs, GetModel). */
module ModelJson {
  import opened Outcomes
  import opened Text

  /** The element that opens the embedded model, `<script id='modelJson' type='application/json'>`,
      written in short pieces so that the verifier can see each of its characters. */
  const Marker: string := "<" + "script" + " id=" + "'model" + "Json'" + " type=" + "'appli" + "cation" + "/json'" + ">"

  /** The tag that closes it, `</script>`. */
  const Close: string := "<" + "/" + "script" + ">"

  /** Why GetModel fails: the marker is absent (IndexOf gives -1 and the second IndexOf throws), no
      `</script>` follows it (Substring is given a negative length and throws), or the JSON does not
      deserialize. */
  datatype ModelError = MarkerMissing | Unterminated | MalformedJson

  /** A `</script>` occurs at or after some occurrence of the marker. */
  predicate ClosedAfterMarker(html: string) {
    exists i, j :: 0 <= i <= j <= |html| && OccursAt(html, Marker, i) && OccursAt(html, Close, j)
  }

  /** `html` is framed around `content` at `k`: the first marker starts at `k`, `content` follows it,
      and the first `</script>` from `k` on comes right after `content`. */
  predicate Framed(html: string, k: int, content: string) {
    && 0 <= k && k + |Marker| + |content| + |Close| <= |html|
    && OccursAt(html, Marker, k)
    && html[k + |Marker| .. k + |Marker| + |content|] == content
    && OccursAt(html, Close, k + |Marker| + |content|)
    && (forall i :: 0 <= i < k ==> !OccursAt(html, Marker, i))
    && (forall j :: k <= j < k + |Marker| + |content| ==> !OccursAt(html, Close, j))
  }

  /** `<` opens the marker and appears nowhere else in it. */
  lemma MarkerShape()
    ensures |Marker| == 47 && Marker[0] == '<' && Marker[1] == 's'
    ensures forall t :: 0 < t < |Marker| ==> Marker[t] != '<'
  {
  }

  /** `<` opens the closing tag and appears nowhere else in it. */
  lemma CloseShape()
    ensures |Close| == 9 && Close[0] == '<' && Close[1] == '/'
    ensures forall t :: 0 < t < |Close| ==> Close[t] != '<'
  {
  }

  /** No `</script>` starts inside an occurrence of the marker. */
  lemma NoCloseInsideMarker(html: string, k: int, j: int)
    requires OccursAt(html, Marker, k) && k <= j < k + |Marker|
    ensures !OccursAt(html, Close, j)
  {
    MarkerShape();
    CloseShape();
    assert html[k + 1] == Marker[1];
    if j + |Close| <= |html| {
      assert html[j] == Marker[j - k];
      if j == k {
        assert html[j..j + |Close|][1] == html[k + 1];
      } else {
        assert html[j..j + |Close|][0] == html[j];
      }
    }
  }

  /** The marker is missing exactly when the search for it from the start fails. */
  lemma MarkerSearch(html: string)
    ensures IndexOf(html, Marker, 0) == -1 <==> !Contains(html, Marker)
  {
  }

  /** The model text as GetModel cuts it out of `html`: between the end of the first marker and the
      first `</script>` at or after the marker's start. */
  function ExtractModelJson(html: string): (r: Result<string, ModelError>)
    ensures r == Failure(MarkerMissing) <==> !Contains(html, Marker)
    ensures r == Failure(Unterminated) <==> Contains(html, Marker) && !ClosedAfterMarker(html)
    ensures r != Failure(MalformedJson)
    ensures r.Success? ==> Framed(html, IndexOf(html, Marker, 0), r.value)
  {
    MarkerSearch(html);
    var start := IndexOf(html, Marker, 0);
    if start < 0 then Failure(MarkerMissing)
    else
      var end := IndexOf(html, Close, start);
      var length := end - start - |Marker|;
      if length < 0 then
        NoCloseAfter(html, start);
        Failure(Unterminated)
      else
        CutIsFramed(html, start, end);
        Success(html[start + |Marker| .. end])
  }

  /** When the first `</script>` search from the first marker fails or lands inside the marker, none
      follows any marker. */
  lemma NoCloseAfter(html: string, start: nat)
    requires start <= |html| && IndexOf(html, Marker, 0) == start
    requires IndexOf(html, Close, start) - start - |Marker| < 0
    ensures !ClosedAfterMarker(html)
  {
    var end := IndexOf(html, Close, start);
    if end != -1 {
      NoCloseInsideMarker(html, start, end);
    }
    forall i, j | 0 <= i <= j <= |html| && OccursAt(html, Marker, i)
      ensures !OccursAt(html, Close, j)
    {
    }
  }

  /** When the `</script>` search from the first marker lands past the marker, the text between them is
      framed there, and a `</script>` follows a marker. */
  lemma CutIsFramed(html: string, start: nat, end: int)
    requires start <= |html| && IndexOf(html, Marker, 0) == start
    requires end == IndexOf(html, Close, start) && end - start - |Marker| >= 0
    ensures Framed(html, start, html[start + |Marker| .. end])
    ensures ClosedAfterMarker(html)
  {
  }

  /** A framing pins down the extracted text: GetModel cuts out exactly the framed content. */
  lemma FramedExtracts(html: string, k: int, content: string)
    requires Framed(html, k, content)
    ensures ExtractModelJson(html) == Success(content)
  {
    var e := k + |Marker| + |content|;
    IndexOfFinds(html, Marker, 0, k);
    IndexOfFinds(html, Close, k, e);
    assert html[k + |Marker| .. e] == content;
  }

  /** In a page made of text without the marker followed by the marker, the first marker is the one after
      that text. */
  lemma FirstMarkerAfter(pre: string, rest: string)
    requires !Contains(pre, Marker) && StartsWith(rest, Marker)
    ensures forall i :: 0 <= i < |pre| ==> !OccursAt(pre + rest, Marker, i)
  {
    var html := pre + rest;
    var k := |pre|;
    MarkerShape();
    assert html[k] == rest[0] == '<';
    forall i | 0 <= i < k
      ensures !OccursAt(html, Marker, i)
    {
      if i + |Marker| <= k {
        assert html[i..i + |Marker|] == pre[i..i + |Marker|];
        assert !OccursAt(pre, Marker, i);
      } else if i + |Marker| <= |html| {
        assert html[i..i + |Marker|][k - i] == html[k];
        assert Marker[k - i] != '<';
      }
    }
  }

  /** In the marker, then content without `</script>`, then `</script>`, no `</script>` starts before the
      one after the content. */
  lemma NoCloseBeforeEnd(content: string, rest: string)
    requires !Contains(content, Close) && StartsWith(rest, Close)
    ensures forall j :: 0 <= j < |Marker| + |content| ==> !OccursAt(Marker + content + rest, Close, j)
  {
    var html := Marker + content + rest;
    var m := |Marker|;
    var e := m + |content|;
    CloseShape();
    assert OccursAt(html, Marker, 0) by {
      assert html[0..m] == Marker;
    }
    assert html[e] == rest[0] == '<';
    forall j | 0 <= j < e
      ensures !OccursAt(html, Close, j)
    {
      if j < m {
        NoCloseInsideMarker(html, 0, j);
      } else if j + |Close| <= e {
        assert html[j..j + |Close|] == content[j - m..j - m + |Close|];
        assert !OccursAt(content, Close, j - m);
      } else if j + |Close| <= |html| {
        assert html[j..j + |Close|][e - j] == html[e];
        assert Close[e - j] != '<';
      }
    }
  }

  /** Shifting a text right by a prefix shifts every occurrence in it by the prefix's length. */
  lemma OccursShifted(pre: string, s: string, p: string, j: int)
    requires 0 <= j
    ensures OccursAt(pre + s, p, |pre| + j) <==> OccursAt(s, p, j)
  {
  }

  /** The marker, content without `</script>`, then `</script>` and anything: framed at the start. */
  lemma FramedAtStart(content: string, tail: string)
    requires !Contains(content, Close) && StartsWith(tail, Close)
    ensures Framed(Marker + content + tail, 0, content)
  {
    var html := Marker + content + tail;
    var e := |Marker| + |content|;
    NoCloseBeforeEnd(content, tail);
    assert html[..|Marker|] == Marker;
    assert html[|Marker|..e] == content;
    assert html[e..e + |Close|] == tail[..|Close|];
  }

  /** A framing survives putting text without an earlier marker in front of it. */
  lemma FramedShift(pre: string, rest: string, content: string)
    requires Framed(rest, 0, content)
    requires forall i :: 0 <= i < |pre| ==> !OccursAt(pre + rest, Marker, i)
    ensures Framed(pre + rest, |pre|, content)
  {
    var html := pre + rest;
    var k := |pre|;
    var e := |Marker| + |content|;
    OccursShifted(pre, rest, Marker, 0);
    OccursShifted(pre, rest, Close, e);
    assert html[k + |Marker|..k + e] == rest[|Marker|..e];
    forall j | k <= j < k + e
      ensures !OccursAt(html, Close, j)
    {
      OccursShifted(pre, rest, Close, j - k);
    }
  }

  /** A page whose text before the marker holds no marker, and whose model text holds no `</script>`,
      yields exactly that model text. */
  lemma ExtractFromPage(pre: string, content: string, post: string)
    requires !Contains(pre, Marker) && !Contains(content, Close)
    ensures ExtractModelJson(pre + Marker + content + Close + post) == Success(content)
  {
    var tail := Close + post;
    var rest := Marker + content + tail;
    assert pre + Marker + content + Close + post == pre + rest;
    assert StartsWith(tail, Close) by {
      assert tail[..|Close|] == Close;
    }
    assert StartsWith(rest, Marker) by {
      assert rest[..|Marker|] == Marker;
    }
    FramedAtStart(content, tail);
    FirstMarkerAfter(pre, rest);
    FramedShift(pre, rest, content);
    FramedExtracts(pre + rest, |pre|, content);
  }

  /** GetModel: the model text is HTML-decoded and deserialized; both are parameters here. */
  function GetModel<T>(html: string, htmlDecode: string -> string, deserialize: string -> Option<T>): (r: Result<T, ModelError>)
    ensures r.Success? <==>
      ExtractModelJson(html).Success? && deserialize(htmlDecode(ExtractModelJson(html).value)).Some?
    ensures r.Success? ==> r.value == deserialize(htmlDecode(ExtractModelJson(html).value)).value
    ensures r == Failure(MarkerMissing) <==> !Contains(html, Marker)
    ensures r == Failure(Unterminated) <==> Contains(html, Marker) && !ClosedAfterMarker(html)
  {
    match ExtractModelJson(html)
    case Failure(e) => Failure(e)
    case Success(content) =>
      match deserialize(htmlDecode(content))
      case None => Failure(MalformedJson)
      case Some(model) => Success(model)
  }
}
