/** The three regular expressions of the multipart decoder, written out as explicit
    leftmost-match searches:
      - `/boundary=(.+)$/` on the content-type header (no `m` flag, so `$` is the end of input);
      - `/name="(.+?)"/` and `/filename="(.+?)"/` on a part's header block.
    In both, `.` matches any character except a line terminator. */
module Patterns {
  import opened Wrappers
  import opened JsString

  const BoundaryKey: string := "boundary="
  const NameKey: string := "name=\""
  const FilenameKey: string := "filename=\""

  // ---------------------------------------------------------------- /boundary=(.+)$/

  /** `/boundary=(.+)$/` can match starting at `i`: the key is there and the rest of the
      header after it is non-empty and free of line terminators. */
  predicate BoundaryAt(s: string, i: int) {
    OccursAt(s, BoundaryKey, i) && i + |BoundaryKey| < |s| && NoLineTerminator(s[i + |BoundaryKey|..])
  }

  /** The leftmost position at or after `from` where `/boundary=(.+)$/` matches. */
  function BoundaryFrom(s: string, from: nat): (r: Option<nat>)
    ensures r.Some? ==> from <= r.value && BoundaryAt(s, r.value)
    ensures r.Some? ==> forall i :: from <= i < r.value ==> !BoundaryAt(s, i)
    ensures r.None? ==> forall i :: from <= i ==> !BoundaryAt(s, i)
    decreases |s| - from
  {
    if from + |BoundaryKey| >= |s| then None
    else if BoundaryAt(s, from) then Some(from)
    else BoundaryFrom(s, from + 1)
  }

  /** The capture group of `contentType.match(/boundary=(.+)$/)`: the whole rest of the
      header after the leftmost `boundary=` that is followed by a non-empty, single-line
      remainder; nothing when there is no such `boundary=`. */
  function BoundaryToken(contentType: string): (r: Option<string>)
    ensures r.None? <==> forall i :: !BoundaryAt(contentType, i)
    ensures r.Some? ==>
      var i := |contentType| - |r.value| - |BoundaryKey|;
      && r.value != []
      && NoLineTerminator(r.value)
      && BoundaryAt(contentType, i)
      && r.value == contentType[i + |BoundaryKey|..]
      && forall i' :: 0 <= i' < i ==> !BoundaryAt(contentType, i')
  {
    match BoundaryFrom(contentType, 0)
    case None => None
    case Some(i) => Some(contentType[i + |BoundaryKey|..])
  }

  /** When the first `boundary=` of a header is followed by a non-empty single-line
      remainder, the token is exactly that remainder, taken verbatim (quotes and any
      further parameters included). */
  lemma BoundaryAfterFirstKey(contentType: string, i: nat)
    requires IndexOf(contentType, BoundaryKey, 0) == Some(i)
    requires i + |BoundaryKey| < |contentType| && NoLineTerminator(contentType[i + |BoundaryKey|..])
    ensures BoundaryToken(contentType) == Some(contentType[i + |BoundaryKey|..])
  {
    assert BoundaryFrom(contentType, 0) == Some(i) by {
      assert BoundaryAt(contentType, i);
      forall i' | 0 <= i' < i
        ensures !BoundaryAt(contentType, i')
      {
        assert !OccursAt(contentType, BoundaryKey, i');
      }
    }
  }

  // ---------------------------------------------------------------- /KEY(.+?)"/

  /** The lazy group `(.+?)"` started at `j` can close at the quote at `k`: every character
      from `j` up to `k` is on one line and at least one of them is captured. */
  predicate ClosesAt(s: string, j: int, k: int) {
    0 <= j < k < |s| && s[k] == '"' && NoLineTerminator(s[j..k])
  }

  /** The least closing quote at or after `k`, given that `s[j..k]` is on one line. */
  function CloseFrom(s: string, j: nat, k: nat): (r: Option<nat>)
    requires j < k <= |s|
    requires NoLineTerminator(s[j..k])
    ensures r.Some? ==> k <= r.value && ClosesAt(s, j, r.value)
    ensures r.Some? ==> forall k' :: k <= k' < r.value ==> !ClosesAt(s, j, k')
    ensures r.None? ==> forall k' :: k <= k' ==> !ClosesAt(s, j, k')
    decreases |s| - k
  {
    if k == |s| then None
    else if s[k] == '"' then Some(k)
    else if IsLineTerminator(s[k]) then
      assert forall k' :: k < k' < |s| ==> s[j..k'][k - j] == s[k];
      None
    else
      assert s[j..k + 1] == s[j..k] + [s[k]];
      CloseFrom(s, j, k + 1)
  }

  /** Where the lazy group `(.+?)"` started at `j` ends: the least closing quote. */
  function CaptureEnd(s: string, j: nat): (r: Option<nat>)
    requires j <= |s|
    ensures r.Some? ==> ClosesAt(s, j, r.value)
    ensures r.Some? ==> forall k :: k < r.value ==> !ClosesAt(s, j, k)
    ensures r.None? ==> forall k :: !ClosesAt(s, j, k)
  {
    if j == |s| then None
    else if IsLineTerminator(s[j]) then
      assert forall k :: j < k < |s| ==> s[j..k][0] == s[j];
      None
    else
      assert s[j..j + 1] == [s[j]];
      CloseFrom(s, j, j + 1)
  }

  /** `/KEY(.+?)"/` matches starting at `i`. */
  predicate QuotedAt(s: string, key: string, i: int) {
    OccursAt(s, key, i) && CaptureEnd(s, i + |key|).Some?
  }

  /** The leftmost position at or after `from` where `/KEY(.+?)"/` matches. */
  function QuotedFrom(s: string, key: string, from: nat): (r: Option<nat>)
    ensures r.Some? ==> from <= r.value && QuotedAt(s, key, r.value)
    ensures r.Some? ==> forall i :: from <= i < r.value ==> !QuotedAt(s, key, i)
    ensures r.None? ==> forall i :: from <= i ==> !QuotedAt(s, key, i)
    decreases |s| - from
  {
    if from + |key| > |s| then None
    else if QuotedAt(s, key, from) then Some(from)
    else QuotedFrom(s, key, from + 1)
  }

  /** The capture group of `header.match(/KEY(.+?)"/)`: the text between the leftmost
      `KEY` that is followed by a same-line closing quote and that quote. */
  function QuotedValue(s: string, key: string): (r: Option<string>)
    ensures r.None? <==> forall i :: !QuotedAt(s, key, i)
    ensures r.Some? ==> exists i ::
      && QuotedAt(s, key, i)
      && (forall i' :: 0 <= i' < i ==> !QuotedAt(s, key, i'))
      && ClosesAt(s, i + |key|, i + |key| + |r.value|)
      && r.value == s[i + |key|..i + |key| + |r.value|]
    ensures r.Some? ==>
      && r.value != []
      && NoLineTerminator(r.value)
      && forall m :: 0 < m < |r.value| ==> r.value[m] != '"'
  {
    match QuotedFrom(s, key, 0)
    case None => None
    case Some(i) =>
      var j := i + |key|;
      var k := CaptureEnd(s, j).value;
      forall m | 0 < m < k - j
        ensures s[j..k][m] != '"'
      {
        assert s[j..j + m] == s[j..k][..m];
        assert !ClosesAt(s, j, j + m);
      }
      Some(s[j..k])
  }

  /** `filename="` contains `name="`, so a header where `/filename="(.+?)"/` matches also
      matches `/name="(.+?)"/`, no later than four characters into the filename match. */
  lemma {:induction false} FilenameImpliesName(header: string)
    requires QuotedValue(header, FilenameKey).Some?
    ensures QuotedValue(header, NameKey).Some?
    ensures QuotedFrom(header, NameKey, 0).value <= QuotedFrom(header, FilenameKey, 0).value + 4
  {
    var i := QuotedFrom(header, FilenameKey, 0).value;
    assert header[i + 4..i + |FilenameKey|] == header[i..i + |FilenameKey|][4..];
    assert OccursAt(header, NameKey, i + 4);
    assert QuotedAt(header, NameKey, i + 4);
  }

  /** When the leftmost `name="…"` match is the one inside the leftmost `filename="…"`
      match, both captures are the same text: the file's field name is its file name. */
  lemma NameInsideFilename(header: string)
    requires QuotedValue(header, FilenameKey).Some?
    requires QuotedFrom(header, NameKey, 0).Some?
    requires QuotedFrom(header, NameKey, 0).value == QuotedFrom(header, FilenameKey, 0).value + 4
    ensures QuotedValue(header, NameKey) == QuotedValue(header, FilenameKey)
  {
    assert |FilenameKey| == 4 + |NameKey|;
  }

  /** A same-line run `v` free of quotes, followed by a quote, is exactly what the lazy
      group captures. */
  lemma CaptureOfQuoted(s: string, j: nat, v: string)
    requires v != [] && NoLineTerminator(v)
    requires forall m :: 0 <= m < |v| ==> v[m] != '"'
    requires j + |v| < |s| && s[j..j + |v|] == v && s[j + |v|] == '"'
    ensures CaptureEnd(s, j) == Some(j + |v|)
  {
    var k := j + |v|;
    assert ClosesAt(s, j, k);
    forall k' | k' < k
      ensures !ClosesAt(s, j, k')
    {
      if j < k' {
        assert s[k'] == v[k' - j];
      }
    }
  }

  /** A header that opens with `filename="v"` has `v` as its `name="…"` capture too, whatever
      follows (a later `name="f"` included): `filename="` itself contains `name="`. */
  lemma LeadingFilenameNamesField(v: string, tail: string)
    requires v != [] && NoLineTerminator(v)
    requires forall m :: 0 <= m < |v| ==> v[m] != '"'
    ensures var header := FilenameKey + v + "\"" + tail;
      && QuotedValue(header, FilenameKey) == Some(v)
      && QuotedValue(header, NameKey) == Some(v)
  {
    var header := FilenameKey + v + "\"" + tail;
    var j := |FilenameKey|;
    var k := j + |v|;
    assert QuotedFrom(header, FilenameKey, 0) == Some(0) by {
      assert header[j..k] == v;
      assert header[k] == '"';
      CaptureOfQuoted(header, j, v);
      assert header[0..j] == FilenameKey;
    }
    assert QuotedValue(header, FilenameKey) == Some(v) by {
      assert header[j..k] == v;
      assert header[k] == '"';
      CaptureOfQuoted(header, j, v);
    }
    FilenameImpliesName(header);
    assert QuotedFrom(header, NameKey, 0).value == 4 by {
      var n := QuotedFrom(header, NameKey, 0).value;
      if n < 4 {
        assert header[n] == FilenameKey[n];
        MismatchAt(header, NameKey, n, 0);
        assert false;
      }
    }
    NameInsideFilename(header);
  }
}
