/** The `/import-file` route: the first uploaded file's text is pushed through a line
    transform whose only state is the `isFirstLine` flag, shared by all chunks of one
    import.  Each chunk is split on "\n" by itself; every trimmed non-blank line after the
    first one of the whole stream is read as `title;description`. */
module LineImport {
  import opened Wrappers
  import opened JsString
  import FormData

  const LineFeed: string := "\n"
  const FieldSeparator: string := ";"

  datatype TaskRecord = TaskRecord(title: string, description: string)

  /** The transform's state: the `isFirstLine` flag and the records pushed so far. */
  datatype LineState = LineState(isFirstLine: bool, out: seq<TaskRecord>)

  /** The state of a fresh import: the header line still to come, nothing pushed. */
  const Start: LineState := LineState(true, [])

  // ---------------------------------------------------------------- one line

  /** A data line split on `;`: the first piece is the title and the second, if any, the
      description; a record is pushed only when the untrimmed title is non-empty. */
  function RecordOf(line: string): Option<TaskRecord> {
    var pieces := Split(line, FieldSeparator);
    var title := pieces[0];
    var description := if |pieces| > 1 then pieces[1] else "";
    if title != "" then Some(TaskRecord(Trim(title), Trim(description))) else None
  }

  /** The record of a line, as searches: the title is the text before the first ";", the
      description the text between the first and the second ";" (or "" when there is no
      ";"), both trimmed; there is no record when the untrimmed title is empty. */
  lemma RecordOfSpec(line: string)
    ensures IndexOf(line, FieldSeparator, 0).None? ==>
      RecordOf(line) == (if line == "" then None else Some(TaskRecord(Trim(line), "")))
    ensures IndexOf(line, FieldSeparator, 0).Some? ==>
      var cut := IndexOf(line, FieldSeparator, 0).value;
      var end := IndexOf(line, FieldSeparator, cut + 1).GetOr(|line|);
      && cut + 1 <= end <= |line|
      && RecordOf(line) == (if cut == 0 then None else Some(TaskRecord(Trim(line[..cut]), Trim(line[cut + 1..end]))))
  {
    SplitFirstTwo(line, FieldSeparator);
  }

  /** On a line that is already trimmed, the untrimmed title is non-empty exactly when the
      trimmed one is, so every pushed record has a non-empty title. */
  lemma TrimmedLineTitle(line: string)
    requires IsTrimmed(line)
    ensures RecordOf(line).Some? ==> RecordOf(line).value.title != ""
  {
    if RecordOf(line).Some? {
      var title := Split(line, FieldSeparator)[0];
      SplitFirstTwo(line, FieldSeparator);
      assert title != "" && title[0] == line[0];
      assert !IsTrimmable(title[0]);
    }
  }

  /** The loop body for one line of a chunk. */
  function ProcessLine(st: LineState, raw: string): (r: LineState)
    ensures Trim(raw) == "" ==> r == st
    ensures Trim(raw) != "" ==> !r.isFirstLine
    ensures st.isFirstLine ==> r.out == st.out
    ensures st.out <= r.out && |r.out| <= |st.out| + 1
  {
    var line := Trim(raw);
    if line == "" then st
    else if st.isFirstLine then st.(isFirstLine := false)
    else
      match RecordOf(line)
      case None => st
      case Some(rec) => st.(out := st.out + [rec])
  }

  /** The loop over the lines of one chunk. */
  function ProcessLines(st: LineState, lines: seq<string>): LineState
    decreases |lines|
  {
    if lines == [] then st else ProcessLines(ProcessLine(st, lines[0]), lines[1..])
  }

  /** The `transform` callback for one chunk: `chunk.toString().split("\n")`, then the loop. */
  function Transform(st: LineState, chunk: string): LineState {
    ProcessLines(st, Split(chunk, LineFeed))
  }

  /** The whole stream: every chunk in delivery order, the flag threaded through. */
  function ProcessStream(st: LineState, chunks: seq<string>): LineState
    decreases |chunks|
  {
    if chunks == [] then st else ProcessStream(Transform(st, chunks[0]), chunks[1..])
  }

  // ---------------------------------------------------------------- reference definitions

  /** The lines of a stream as the transform sees them: each chunk split on its own. */
  function LinesOf(chunks: seq<string>): seq<string> {
    if chunks == [] then [] else Split(chunks[0], LineFeed) + LinesOf(chunks[1..])
  }

  /** The trimmed non-blank lines, in order. */
  function Payload(lines: seq<string>): (r: seq<string>)
    ensures |r| <= |lines|
    ensures forall k :: 0 <= k < |r| ==> r[k] != "" && IsTrimmed(r[k])
  {
    if lines == [] then []
    else
      PayloadOf(lines[0]) + Payload(lines[1..])
  }

  /** The records of a list of data lines, one per line with a non-empty title, in order. */
  function Records(data: seq<string>): seq<TaskRecord> {
    if data == [] then [] else ToSeq(RecordOf(data[0])) + Records(data[1..])
  }

  /** Records of trimmed lines all have non-empty titles. */
  lemma {:induction false} RecordsHaveTitles(data: seq<string>)
    requires forall k :: 0 <= k < |data| ==> IsTrimmed(data[k])
    ensures forall k :: 0 <= k < |Records(data)| ==> Records(data)[k].title != ""
  {
    if data != [] {
      TrimmedLineTitle(data[0]);
      assert forall k :: 0 <= k < |data| - 1 ==> data[1..][k] == data[k + 1];
      RecordsHaveTitles(data[1..]);
      var head, rest := ToSeq(RecordOf(data[0])), Records(data[1..]);
      assert Records(data) == head + rest;
      assert forall k :: |head| <= k < |head| + |rest| ==> (head + rest)[k] == rest[k - |head|];
    }
  }

  // ---------------------------------------------------------------- the transform against the reference

  /** The state a run over payload lines `p` ends in, stated without a loop: with the flag
      up, the first payload line is the header and is dropped, the flag comes down, and
      every later payload line contributes its record; with the flag down, every payload
      line does. */
  function AfterPayload(st: LineState, p: seq<string>): LineState {
    if !st.isFirstLine then LineState(false, st.out + Records(p))
    else if p == [] then st
    else LineState(false, st.out + Records(p[1..]))
  }

  /** The trimmed line, if it is not blank: what one line adds to the payload. */
  function PayloadOf(raw: string): seq<string> {
    if Trim(raw) == "" then [] else [Trim(raw)]
  }

  lemma AfterPayloadBlank(st: LineState, raw: string, p: seq<string>)
    requires Trim(raw) == ""
    ensures AfterPayload(ProcessLine(st, raw), p) == AfterPayload(st, PayloadOf(raw) + p)
  {
    assert PayloadOf(raw) + p == p;
  }

  lemma AfterPayloadHeader(st: LineState, raw: string, p: seq<string>)
    requires Trim(raw) != "" && st.isFirstLine
    ensures AfterPayload(ProcessLine(st, raw), p) == AfterPayload(st, PayloadOf(raw) + p)
  {
    assert (PayloadOf(raw) + p)[1..] == p;
  }

  lemma DataLineRuns(st: LineState, raw: string, p: seq<string>)
    requires Trim(raw) != "" && !st.isFirstLine
    ensures AfterPayload(ProcessLine(st, raw), p) ==
      LineState(false, st.out + ToSeq(RecordOf(Trim(raw))) + Records(p))
  {
    assert ProcessLine(st, raw) == LineState(false, st.out + ToSeq(RecordOf(Trim(raw))));
  }

  lemma DataLinePayload(st: LineState, raw: string, p: seq<string>)
    requires Trim(raw) != "" && !st.isFirstLine
    ensures AfterPayload(st, PayloadOf(raw) + p) ==
      LineState(false, st.out + (ToSeq(RecordOf(Trim(raw))) + Records(p)))
  {
    var t := Trim(raw);
    assert PayloadOf(raw) + p == [t] + p;
    assert Records([t] + p) == ToSeq(RecordOf(t)) + Records(p);
  }

  lemma AfterPayloadData(st: LineState, raw: string, p: seq<string>)
    requires Trim(raw) != "" && !st.isFirstLine
    ensures AfterPayload(ProcessLine(st, raw), p) == AfterPayload(st, PayloadOf(raw) + p)
  {
    DataLineRuns(st, raw, p);
    DataLinePayload(st, raw, p);
    AppendAssoc(st.out, ToSeq(RecordOf(Trim(raw))), Records(p));
  }

  /** One line step against the stateless description. */
  lemma AfterPayloadStep(st: LineState, raw: string, p: seq<string>)
    ensures AfterPayload(ProcessLine(st, raw), p) == AfterPayload(st, PayloadOf(raw) + p)
  {
    if Trim(raw) == "" {
      AfterPayloadBlank(st, raw, p);
    } else if st.isFirstLine {
      AfterPayloadHeader(st, raw, p);
    } else {
      AfterPayloadData(st, raw, p);
    }
  }

  /** The line loop against the stateless description: blank lines play no part, and
      the flag only selects whether the first payload line is dropped. */
  lemma {:induction false} ProcessLinesSpec(st: LineState, lines: seq<string>)
    ensures ProcessLines(st, lines) == AfterPayload(st, Payload(lines))
    decreases |lines|
  {
    if lines != [] {
      var st' := ProcessLine(st, lines[0]);
      ProcessLinesSpec(st', lines[1..]);
      AfterPayloadStep(st, lines[0], Payload(lines[1..]));
      assert Payload(lines) == PayloadOf(lines[0]) + Payload(lines[1..]);
    } else {
      assert st.out + [] == st.out;
    }
  }

  /** The line loop over `a + b` is the loop over `a` followed by the loop over `b`. */
  lemma {:induction false} ProcessLinesAppend(st: LineState, a: seq<string>, b: seq<string>)
    ensures ProcessLines(st, a + b) == ProcessLines(ProcessLines(st, a), b)
    decreases |a|
  {
    if a != [] {
      assert (a + b)[1..] == a[1..] + b;
      ProcessLinesAppend(ProcessLine(st, a[0]), a[1..], b);
    } else {
      assert a + b == b;
    }
  }

  /** The stream is the line loop over the per-chunk lines, one chunk after another. */
  lemma {:induction false} ProcessStreamLines(st: LineState, chunks: seq<string>)
    ensures ProcessStream(st, chunks) == ProcessLines(st, LinesOf(chunks))
    decreases |chunks|
  {
    if chunks != [] {
      ProcessStreamLines(Transform(st, chunks[0]), chunks[1..]);
      ProcessLinesAppend(st, Split(chunks[0], LineFeed), LinesOf(chunks[1..]));
    }
  }

  /** Chunk order: the output for chunks `a + b` is the output for `a` followed by the
      output for `b`, the flag passed from one to the other. */
  lemma {:induction false} ProcessStreamAppend(st: LineState, a: seq<string>, b: seq<string>)
    ensures ProcessStream(st, a + b) == ProcessStream(ProcessStream(st, a), b)
    decreases |a|
  {
    if a != [] {
      assert (a + b)[1..] == a[1..] + b;
      ProcessStreamAppend(Transform(st, a[0]), a[1..], b);
    } else {
      assert a + b == b;
    }
  }

  /** There are never more records than lines. */
  lemma {:induction false} RecordsAtMost(data: seq<string>)
    ensures |Records(data)| <= |data|
  {
    if data != [] {
      RecordsAtMost(data[1..]);
    }
  }

  /** The stream from a fresh state is the stateless description over its payload. */
  lemma StreamFromStart(chunks: seq<string>)
    ensures ProcessStream(Start, chunks) == AfterPayload(Start, Payload(LinesOf(chunks)))
  {
    ProcessStreamLines(Start, chunks);
    ProcessLinesSpec(Start, LinesOf(chunks));
  }

  /** One chunk's lines are its own split. */
  lemma LinesOfOne(chunk: string)
    ensures LinesOf([chunk]) == Split(chunk, LineFeed)
  {
    assert [chunk][1..] == [];
    assert Split(chunk, LineFeed) + [] == Split(chunk, LineFeed);
  }

  /** A whole import: exactly one line, the first non-blank line of the stream, is dropped
      as the header whatever it says; every later non-blank line yields its record; the flag
      is still up only when the stream has no non-blank line at all; every record has a
      title; and there are fewer records than non-blank lines. */
  lemma ImportSpec(chunks: seq<string>)
    ensures var p := Payload(LinesOf(chunks));
      var r := ProcessStream(Start, chunks);
      && (r.isFirstLine <==> p == [])
      && (p != [] ==> r.out == Records(p[1..]))
      && (p == [] ==> r.out == [])
      && |r.out| <= (if p == [] then 0 else |p| - 1)
      && forall k :: 0 <= k < |r.out| ==> r.out[k].title != ""
  {
    var p := Payload(LinesOf(chunks));
    StreamFromStart(chunks);
    if p != [] {
      RecordsHaveTitles(p[1..]);
      RecordsAtMost(p[1..]);
    }
  }

  /** The flag only goes down: once the header is consumed it stays consumed. */
  lemma FlagOnlyGoesDown(st: LineState, chunks: seq<string>)
    ensures ProcessStream(st, chunks).isFirstLine ==> st.isFirstLine
    ensures !st.isFirstLine ==> ProcessStream(st, chunks).out == st.out + Records(Payload(LinesOf(chunks)))
  {
    ProcessStreamLines(st, chunks);
    ProcessLinesSpec(st, LinesOf(chunks));
  }

  // ---------------------------------------------------------------- the route

  /** The response of the route: 400 without a file, 200 once the stream has ended. */
  datatype ImportOutcome = NoFile | Imported(records: seq<TaskRecord>)

  function StatusOf(o: ImportOutcome): int {
    match o
    case NoFile => 400
    case Imported(_) => 200
  }

  /** `req.files[0]` streamed through the transform.  `Readable.from` hands a whole buffer
      on as one chunk, so the file's content is the stream's only chunk; the records are
      what the `data` handler inserts, in order. */
  function ImportFile(files: seq<FormData.UploadedFile>): (r: ImportOutcome)
    ensures r.NoFile? <==> files == []
    ensures StatusOf(r) == (if files == [] then 400 else 200)
    ensures r.Imported? ==>
      var p := Payload(Split(files[0].content, LineFeed));
      && r.records == (if p == [] then [] else Records(p[1..]))
      && |r.records| <= (if p == [] then 0 else |p| - 1)
      && forall k :: 0 <= k < |r.records| ==> r.records[k].title != ""
  {
    if files == [] then NoFile
    else
      LinesOfOne(files[0].content);
      ImportSpec([files[0].content]);
      Imported(ProcessStream(Start, [files[0].content]).out)
  }
}
