/** The multipart/form-data middleware: the request body (already assembled into one
    string, each byte one character) and the content-type header are decoded into a
    field map and a list of uploaded files.  A simplified subset of the multipart syntax
    of section 5.1.1 of RFC 2046 with the `name` and `filename` parameters of RFC 7578. */
module FormData {
  import opened Wrappers
  import opened JsString
  import opened Patterns

  /** The blank line between a part's header block and its content. */
  const BlankLine: string := "\r\n\r\n"

  /** What a segment reads after the closing delimiter `--boundary--`. */
  const CloseMarker: string := "--"

  datatype UploadedFile = UploadedFile(fieldname: string, originalname: string, content: string)

  /** The decoder's two accumulators: the field map `body` and the file list `files`. */
  datatype Decoded = Decoded(fields: map<string, string>, files: seq<UploadedFile>)

  const NoData: Decoded := Decoded(map[], [])

  function Lookup(m: map<string, string>, k: string): Option<string> {
    if k in m then Some(m[k]) else None
  }

  // ---------------------------------------------------------------- assembling the body

  /** `Buffer.concat(buffers)`: the chunks in delivery order, back to back. */
  function Assemble(chunks: seq<string>): string {
    if chunks == [] then "" else chunks[0] + Assemble(chunks[1..])
  }

  /** Assembling is compositional: the chunks of two deliveries assemble to the two bodies
      one after the other. */
  lemma {:induction false} AssembleAppend(a: seq<string>, b: seq<string>)
    ensures Assemble(a + b) == Assemble(a) + Assemble(b)
    ensures |Assemble(a + b)| == |Assemble(a)| + |Assemble(b)|
  {
    if a != [] {
      assert (a + b)[1..] == a[1..] + b;
      AssembleAppend(a[1..], b);
    } else {
      assert a + b == b;
    }
  }

  // ---------------------------------------------------------------- delimiter and parts

  /** The content-type request header; a missing header reads as the empty string. */
  function ContentTypeOf(header: Option<string>): string {
    header.GetOr("")
  }

  /** `"--" + boundaryMatch[1]`, or nothing when the header has no usable `boundary=`. */
  function Delimiter(contentType: string): (r: Option<string>)
    ensures r.None? <==> forall i :: !BoundaryAt(contentType, i)
    ensures r.Some? ==>
      && |r.value| > |CloseMarker|
      && r.value[..2] == "--"
      && r.value[2..] == BoundaryToken(contentType).value
      && contentType == contentType[..|contentType| - |r.value[2..]|] + r.value[2..]
  {
    match BoundaryToken(contentType)
    case None => None
    case Some(token) => Some("--" + token)
  }

  /** The filter of the source: a segment is kept unless it trims to "" or to "--". */
  predicate Retained(segment: string) {
    Trim(segment) != "" && Trim(segment) != CloseMarker
  }

  /** The retained segments, in order. */
  function KeepRetained(segments: seq<string>): (r: seq<string>)
    ensures |r| <= |segments|
    ensures forall k :: 0 <= k < |r| ==> Retained(r[k]) && r[k] in segments
    ensures forall k :: 0 <= k < |segments| && Retained(segments[k]) ==> segments[k] in r
  {
    if segments == [] then []
    else
      var rest := KeepRetained(segments[1..]);
      assert forall k :: 1 <= k < |segments| ==> segments[k] == segments[1..][k - 1];
      if Retained(segments[0]) then [segments[0]] + rest else rest
  }

  /** Filtering keeps relative order: segments earlier in the body give parts earlier in the list. */
  lemma {:induction false} KeepRetainedAppend(a: seq<string>, b: seq<string>)
    ensures KeepRetained(a + b) == KeepRetained(a) + KeepRetained(b)
  {
    if a != [] {
      assert (a + b)[1..] == a[1..] + b;
      KeepRetainedAppend(a[1..], b);
    } else {
      assert a + b == b;
    }
  }

  /** `rawData.split(boundary).filter(...)`. */
  function Parts(body: string, delimiter: string): seq<string>
    requires |delimiter| > 0
  {
    KeepRetained(Split(body, delimiter))
  }

  // ---------------------------------------------------------------- one part

  datatype PartSplit = PartSplit(header: string, content: string)

  /** A part split at CRLF CRLF into its header (the first piece) and its content (the
      other pieces re-joined with CRLF CRLF, trailing whitespace cut by `trimEnd`). */
  function SplitPart(part: string): (r: PartSplit)
    ensures IndexOf(part, BlankLine, 0).None? ==> r == PartSplit(part, "")
    ensures IndexOf(part, BlankLine, 0).Some? ==>
      var j := IndexOf(part, BlankLine, 0).value;
      r.header == part[..j] && r.content == TrimEnd(part[j + |BlankLine|..])
  {
    var pieces := Split(part, BlankLine);
    SplitAtFirst(part, BlankLine);
    PartSplit(pieces[0], TrimEnd(Join(pieces[1..], BlankLine)))
  }

  /** Content that does not end in whitespace or a line break is taken verbatim, however
      many blank lines it holds; content that does loses that trailing run, file or not. */
  lemma ContentAfterBlankLine(part: string, j: nat)
    requires IndexOf(part, BlankLine, 0) == Some(j)
    ensures var rest := part[j + |BlankLine|..];
      && SplitPart(part).content <= rest
      && AllTrimmable(rest[|SplitPart(part).content|..])
      && (rest == [] || !IsTrimmable(rest[|rest| - 1]) ==> SplitPart(part).content == rest)
  {
  }

  /** The three outcomes of the loop body for one part. */
  datatype Classified =
    | FileItem(file: UploadedFile)
    | FieldItem(name: string, value: string)
    | Skipped

  /** What one part contributes: a file when `filename="…"` matches its header block
      (its field name taken from `name="…"`, which then always matches too), else a field
      when `name="…"` matches, else nothing. */
  function Classify(part: string): (r: Classified)
    ensures var h := SplitPart(part).header;
      && (r.FileItem? <==> QuotedValue(h, FilenameKey).Some?)
      && (r.Skipped? <==> QuotedValue(h, NameKey).None?)
    ensures var h := SplitPart(part).header;
      r.FileItem? ==> r.file == UploadedFile(QuotedValue(h, NameKey).value,
                                             QuotedValue(h, FilenameKey).value,
                                             SplitPart(part).content)
    ensures var h := SplitPart(part).header;
      r.FieldItem? ==> r.name == QuotedValue(h, NameKey).value && r.value == SplitPart(part).content
  {
    var PartSplit(header, content) := SplitPart(part);
    var nameMatch := QuotedValue(header, NameKey);
    var filenameMatch := QuotedValue(header, FilenameKey);
    if filenameMatch.Some? then
      FilenameImpliesName(header);
      FileItem(UploadedFile(nameMatch.value, filenameMatch.value, content))
    else if nameMatch.Some? then
      FieldItem(nameMatch.value, content)
    else
      Skipped
  }

  // ---------------------------------------------------------------- the loop over parts

  /** One iteration of the loop over the parts. */
  function Step(acc: Decoded, part: string): Decoded {
    match Classify(part)
    case FileItem(f) => acc.(files := acc.files + [f])
    case FieldItem(n, v) => acc.(fields := acc.fields[n := v])
    case Skipped => acc
  }

  /** The loop: the parts in order, threaded through the accumulators. */
  function DecodeParts(acc: Decoded, parts: seq<string>): Decoded
    decreases |parts|
  {
    if parts == [] then acc else DecodeParts(Step(acc, parts[0]), parts[1..])
  }

  /** The decoder proper, for the assembled body and the content-type header. */
  function Decode(contentType: string, body: string): (r: Decoded)
    ensures Delimiter(contentType).None? ==> r == NoData
    ensures Delimiter(contentType).Some? ==> |r.files| <= |Parts(body, Delimiter(contentType).value)|
  {
    match Delimiter(contentType)
    case None => NoData
    case Some(d) =>
      var parts := Parts(body, d);
      DecodePartsFiles(NoData, parts);
      DecodeParts(NoData, parts)
  }

  // ---------------------------------------------------------------- reference definitions

  /** The file one part contributes: one entry when its header matches `filename="…"`. */
  function FileOf(part: string): (r: seq<UploadedFile>)
    ensures |r| <= 1
    ensures Classify(part).FileItem? <==> r != []
    ensures Classify(part).FileItem? ==>
      var h := SplitPart(part).header;
      r == [UploadedFile(QuotedValue(h, NameKey).value, QuotedValue(h, FilenameKey).value,
                         SplitPart(part).content)]
  {
    match Classify(part)
    case FileItem(f) => [f]
    case _ => []
  }

  /** The files of a list of parts, one per part whose header matches `filename="…"`, in order. */
  function FilesOf(parts: seq<string>): (r: seq<UploadedFile>)
    ensures |r| <= |parts|
    ensures forall k :: 0 <= k < |parts| && Classify(parts[k]).FileItem? ==> Classify(parts[k]).file in r
  {
    if parts == [] then []
    else
      var rest := FilesOf(parts[1..]);
      assert forall k :: 1 <= k < |parts| ==> parts[k] == parts[1..][k - 1];
      FileOf(parts[0]) + rest
  }

  /** File lists of consecutive runs of parts concatenate. */
  lemma {:induction false} FilesOfAppend(a: seq<string>, b: seq<string>)
    ensures FilesOf(a + b) == FilesOf(a) + FilesOf(b)
  {
    if a != [] {
      assert (a + b)[1..] == a[1..] + b;
      assert FilesOf(a + b) == FileOf(a[0]) + FilesOf(a[1..] + b);
      FilesOfAppend(a[1..], b);
      AppendAssoc(FileOf(a[0]), FilesOf(a[1..]), FilesOf(b));
    } else {
      assert a + b == b;
    }
  }

  /** The value of the last field part named `name`, searching from the end. */
  function LastFieldValue(parts: seq<string>, name: string): Option<string>
    decreases |parts|
  {
    if parts == [] then None
    else
      match Classify(parts[|parts| - 1])
      case FieldItem(n, v) =>
        if n == name then Some(v) else LastFieldValue(parts[..|parts| - 1], name)
      case _ => LastFieldValue(parts[..|parts| - 1], name)
  }

  /** Prepending a part only matters for a name no later part defines. */
  lemma {:induction false} LastFieldValueCons(p: string, rest: seq<string>, name: string)
    ensures LastFieldValue([p] + rest, name) ==
      if LastFieldValue(rest, name).Some? then LastFieldValue(rest, name)
      else if Classify(p).FieldItem? && Classify(p).name == name then Some(Classify(p).value)
      else None
    decreases |rest|
  {
    if rest != [] {
      var init := rest[..|rest| - 1];
      assert ([p] + rest)[..|[p] + rest| - 1] == [p] + init;
      LastFieldValueCons(p, init, name);
    }
  }

  // ---------------------------------------------------------------- properties of the loop

  /** The loop over `a + b` is the loop over `a` followed by the loop over `b`. */
  lemma {:induction false} DecodePartsAppend(acc: Decoded, a: seq<string>, b: seq<string>)
    ensures DecodeParts(acc, a + b) == DecodeParts(DecodeParts(acc, a), b)
    decreases |a|
  {
    if a != [] {
      assert (a + b)[1..] == a[1..] + b;
      DecodePartsAppend(Step(acc, a[0]), a[1..], b);
    } else {
      assert a + b == b;
    }
  }

  /** The loop appends exactly the reference file list: one entry per `filename` part,
      in part order, duplicates kept. */
  lemma {:induction false} DecodePartsFiles(acc: Decoded, parts: seq<string>)
    ensures DecodeParts(acc, parts).files == acc.files + FilesOf(parts)
    decreases |parts|
  {
    if parts != [] {
      var p := parts[0];
      DecodePartsFiles(Step(acc, p), parts[1..]);
      assert Step(acc, p).files == acc.files + FileOf(p);
      assert FilesOf(parts) == FileOf(p) + FilesOf(parts[1..]);
      AppendAssoc(acc.files, FileOf(p), FilesOf(parts[1..]));
    } else {
      assert acc.files + [] == acc.files;
    }
  }

  /** Last write wins: after the loop, a name maps to the content of the last field part
      with that name, and keeps its earlier value when no part defines it. */
  lemma {:induction false} DecodePartsFields(acc: Decoded, parts: seq<string>, name: string)
    ensures Lookup(DecodeParts(acc, parts).fields, name) ==
      if LastFieldValue(parts, name).Some? then LastFieldValue(parts, name) else Lookup(acc.fields, name)
    decreases |parts|
  {
    if parts != [] {
      var p, rest := parts[0], parts[1..];
      assert parts == [p] + rest;
      DecodePartsFields(Step(acc, p), rest, name);
      LastFieldValueCons(p, rest, name);
    }
  }

  /** A part that matches neither pattern can be removed from anywhere without changing
      the fields or the files. */
  lemma SkippedPartIsInert(acc: Decoded, a: seq<string>, p: string, b: seq<string>)
    requires Classify(p).Skipped?
    ensures DecodeParts(acc, a + [p] + b) == DecodeParts(acc, a + b)
  {
    DecodePartsAppend(acc, a + [p], b);
    DecodePartsAppend(acc, a, [p]);
    DecodePartsAppend(acc, a, b);
  }

  /** The decoder against the reference definitions: the files are the `filename` parts in
      order, and every name maps to its last field part. */
  lemma DecodeSpec(contentType: string, body: string, name: string)
    requires Delimiter(contentType).Some?
    ensures var parts := Parts(body, Delimiter(contentType).value);
      && Decode(contentType, body).files == FilesOf(parts)
      && Lookup(Decode(contentType, body).fields, name) == LastFieldValue(parts, name)
  {
    var parts := Parts(body, Delimiter(contentType).value);
    DecodePartsFiles(NoData, parts);
    DecodePartsFields(NoData, parts, name);
  }

  // ---------------------------------------------------------------- what the middleware publishes

  /** The assignments the middleware makes to the request: `req.body` (None when it is
      left unassigned) and `req.files`. */
  datatype Published = Published(body: Option<map<string, string>>, files: seq<UploadedFile>)

  /** The middleware as written: on the boundary path only `req.files` is assigned. */
  function PublishAsWritten(contentType: Option<string>, chunks: seq<string>): (r: Published)
    ensures r.files == Decode(ContentTypeOf(contentType), Assemble(chunks)).files
    ensures r.body.Some? <==> Delimiter(ContentTypeOf(contentType)).None?
    ensures r.body.Some? ==> r.body.value == map[] && r.files == []
  {
    var ct := ContentTypeOf(contentType);
    match Delimiter(ct)
    case None => Published(Some(map[]), [])
    case Some(_) => Published(None, Decode(ct, Assemble(chunks)).files)
  }

  /** The middleware as evidently intended: the decoded fields are published as `req.body`
      on both paths. */
  function Publish(contentType: Option<string>, chunks: seq<string>): (r: Published)
    ensures r.body.Some?
    ensures var d := Decode(ContentTypeOf(contentType), Assemble(chunks));
      r.body.value == d.fields && r.files == d.files
    ensures r.files == PublishAsWritten(contentType, chunks).files
    ensures Delimiter(ContentTypeOf(contentType)).None? ==> r == PublishAsWritten(contentType, chunks)
  {
    var d := Decode(ContentTypeOf(contentType), Assemble(chunks));
    Published(Some(d.fields), d.files)
  }
}
