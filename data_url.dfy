/**
 * The image envelope of services/geminiService.ts: `fileToGenerativePart` matches a string
 * against `^data:(.+);base64,(.+)$` (the base64 form of a data URL, RFC 2397 section 3), and
 * the response path writes `data:<mime>;base64,<data>` back.
 *
 * In that regular expression `.` matches any character except a line terminator, and the
 * first group is greedy: the split falls at the LAST `;base64,` that still leaves a
 * non-empty second group.
 */
module DataUrl {
  import opened Wrappers

  const Scheme := "data:"
  const Marker := ";base64,"
  const InvalidDataUrlMessage := "Invalid base64 data URL"

  /** `{ inlineData: { data, mimeType } }` */
  datatype InlineData = InlineData(mimeType: string, data: string)

  /** The characters `.` does not match. */
  predicate IsLineTerminator(ch: char) {
    ch == '\n' || ch == '\r' || ch == '\U{2028}' || ch == '\U{2029}'
  }

  predicate SingleLine(s: string) {
    forall i :: 0 <= i < |s| ==> !IsLineTerminator(s[i])
  }

  /** Line 102: `data:${mimeType};base64,${data}`. */
  function Envelope(mimeType: string, data: string): string {
    Scheme + mimeType + Marker + data
  }

  /** `;base64,` starts at offset k of s. */
  predicate MarkerAt(s: string, k: int) {
    0 <= k && k + |Marker| <= |s| && s[k..k + |Marker|] == Marker
  }

  /** No `;base64,` in s is followed by at least one more character. */
  predicate NoInnerMarker(s: string) {
    forall k :: 0 <= k < |s| - |Marker| ==> !MarkerAt(s, k)
  }

  /** Offset p can end group 1 of a string that starts with `data:`: both groups are non-empty. */
  predicate IsSplit(s: string, p: int) {
    |Scheme| < p && p + |Marker| < |s| && MarkerAt(s, p)
  }

  /** The greedy search: the largest split offset not above p. */
  function LastSplit(s: string, p: int): (r: Option<nat>)
    ensures r.Some? ==> IsSplit(s, r.value) && r.value <= p
    ensures r.Some? ==> forall q :: r.value < q <= p ==> !IsSplit(s, q)
    ensures r.None? ==> forall q :: q <= p ==> !IsSplit(s, q)
    decreases p
  {
    if p <= |Scheme| then None
    else if IsSplit(s, p) then Some(p)
    else LastSplit(s, p - 1)
  }

  /**
   * `fileToGenerativePart`: the MIME type and payload of a base64 data URL, or the error it
   * throws.
   */
  function ParseDataUrl(s: string): (r: Result<InlineData, string>)
    ensures r.Failure? ==> r.error == InvalidDataUrlMessage
  {
    if |s| < |Scheme| || s[..|Scheme|] != Scheme || !SingleLine(s) then Failure(InvalidDataUrlMessage)
    else
      match LastSplit(s, |s| - |Marker| - 1)
      case None => Failure(InvalidDataUrlMessage)
      case Some(p) => Success(InlineData(s[|Scheme|..p], s[p + |Marker|..]))
  }

  /** A successful parse cuts s into the envelope of two non-empty parts. */
  lemma ParseDataUrlCorrect(s: string)
    ensures ParseDataUrl(s).Success? ==>
              var v := ParseDataUrl(s).value;
              s == Envelope(v.mimeType, v.data) && v.mimeType != [] && v.data != []
  {
    if ParseDataUrl(s).Success? {
      var p := LastSplit(s, |s| - |Marker| - 1).value;
      assert s == s[..|Scheme|] + s[|Scheme|..p] + s[p..p + |Marker|] + s[p + |Marker|..];
    }
  }

  /** The pieces of an envelope sit at fixed offsets. */
  lemma EnvelopeParts(m: string, d: string)
    ensures |Envelope(m, d)| == |Scheme| + |m| + |Marker| + |d|
    ensures Envelope(m, d)[..|Scheme|] == Scheme
    ensures Envelope(m, d)[|Scheme|..|Scheme| + |m|] == m
    ensures Envelope(m, d)[|Scheme| + |m|..|Scheme| + |m| + |Marker|] == Marker
    ensures Envelope(m, d)[|Scheme| + |m| + |Marker|..] == d
  {
  }

  lemma EnvelopeSingleLine(m: string, d: string)
    ensures SingleLine(Envelope(m, d)) <==> SingleLine(m) && SingleLine(d)
  {
    var s := Envelope(m, d);
    EnvelopeParts(m, d);
    if SingleLine(m) && SingleLine(d) {
      forall i | 0 <= i < |s| ensures !IsLineTerminator(s[i]) {
        if i < |Scheme| {
          assert s[i] == Scheme[i];
        } else if i < |Scheme| + |m| {
          assert s[i] == m[i - |Scheme|];
        } else if i < |Scheme| + |m| + |Marker| {
          assert s[i] == Marker[i - |Scheme| - |m|];
        } else {
          assert s[i] == d[i - |Scheme| - |m| - |Marker|];
        }
      }
    }
    if SingleLine(s) {
      forall i | 0 <= i < |m| ensures !IsLineTerminator(m[i]) {
        assert m[i] == s[|Scheme| + i];
      }
      forall i | 0 <= i < |d| ensures !IsLineTerminator(d[i]) {
        assert d[i] == s[|Scheme| + |m| + |Marker| + i];
      }
    }
  }

  /** A marker inside the payload of an envelope is a marker of the envelope, and back. */
  lemma MarkerInPayload(m: string, d: string, k: int)
    requires 0 <= k
    ensures MarkerAt(d, k) <==> MarkerAt(Envelope(m, d), |Scheme| + |m| + |Marker| + k)
  {
    var s := Envelope(m, d);
    var o := |Scheme| + |m| + |Marker|;
    EnvelopeParts(m, d);
    if k + |Marker| <= |d| {
      assert s[o + k..o + k + |Marker|] == d[k..k + |Marker|];
    }
  }

  /**
   * The parser accepts exactly the strings `data:<m>;base64,<d>` with non-empty,
   * single-line m and d.
   */
  lemma ParseAcceptsEnvelopes(s: string)
    ensures ParseDataUrl(s).Success? <==>
            exists m, d :: s == Envelope(m, d) && m != [] && d != [] && SingleLine(m) && SingleLine(d)
  {
    ParseDataUrlCorrect(s);
    if ParseDataUrl(s).Success? {
      var v := ParseDataUrl(s).value;
      EnvelopeSingleLine(v.mimeType, v.data);
    }
    if exists m, d :: s == Envelope(m, d) && m != [] && d != [] && SingleLine(m) && SingleLine(d) {
      var m, d :| s == Envelope(m, d) && m != [] && d != [] && SingleLine(m) && SingleLine(d);
      EnvelopeParts(m, d);
      EnvelopeSingleLine(m, d);
      assert IsSplit(s, |Scheme| + |m|);
    }
  }

  /**
   * A successful parse splits at the last `;base64,` that leaves a payload: the payload it
   * returns holds no further marker with anything after it.
   */
  lemma ParseSplitsAtLastMarker(s: string)
    requires ParseDataUrl(s).Success?
    ensures SingleLine(ParseDataUrl(s).value.mimeType) && SingleLine(ParseDataUrl(s).value.data)
    ensures NoInnerMarker(ParseDataUrl(s).value.data)
  {
    ParseDataUrlCorrect(s);
    var v := ParseDataUrl(s).value;
    var m, d := v.mimeType, v.data;
    EnvelopeSingleLine(m, d);
    EnvelopeParts(m, d);
    var p := |Scheme| + |m|;
    forall k | 0 <= k < |d| - |Marker| ensures !MarkerAt(d, k) {
      MarkerInPayload(m, d, k);
      assert !IsSplit(s, p + |Marker| + k);
    }
  }

  /** No shift of `;base64,` by 1 to 7 places overlaps itself into another copy. */
  lemma MarkerNoSelfOverlap(s: string, p: int, q: int)
    requires MarkerAt(s, p) && p < q < p + |Marker|
    ensures !MarkerAt(s, q)
  {
    assert s[q] == s[p..p + |Marker|][q - p] == Marker[q - p];
    assert Marker[q - p] != ';' && Marker[0] == ';';
    assert q + |Marker| <= |s| ==> s[q..q + |Marker|][0] == s[q];
  }

  /**
   * Parsing the envelope written at line 102 gives back its MIME type and payload, for
   * non-empty single-line parts whose payload holds no inner `;base64,`; outside those
   * conditions the round trip fails.
   */
  lemma EnvelopeRoundTrip(m: string, d: string)
    ensures ParseDataUrl(Envelope(m, d)) == Success(InlineData(m, d)) <==>
            m != [] && d != [] && SingleLine(m) && SingleLine(d) && NoInnerMarker(d)
  {
    var s := Envelope(m, d);
    EnvelopeParts(m, d);
    EnvelopeSingleLine(m, d);
    if ParseDataUrl(s) == Success(InlineData(m, d)) {
      ParseSplitsAtLastMarker(s);
    }
    if m != [] && d != [] && SingleLine(m) && SingleLine(d) && NoInnerMarker(d) {
      var p := |Scheme| + |m|;
      assert IsSplit(s, p);
      forall q | p < q <= |s| - |Marker| - 1 ensures !IsSplit(s, q) {
        if q < p + |Marker| {
          MarkerNoSelfOverlap(s, p, q);
        } else {
          MarkerInPayload(m, d, q - p - |Marker|);
        }
      }
    }
  }
}
