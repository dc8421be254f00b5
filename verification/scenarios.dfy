/** Worked examples: concrete requests and files pushed through the model. */
module Scenarios {
  import opened Wrappers
  import opened JsString
  import opened Patterns
  import opened FormData
  import opened LineImport

  // ---------------------------------------------------------------- a form with one field

  const ExampleType: string := "multipart/form-data; boundary=b"
  const ExampleBody: string := "--b" + ExamplePart + "--b--"
  const ExamplePart: string := "\r\nname=\"a\"\r\n\r\nv\r\n"
  const ExampleHeader: string := "\r\nname=\"a\""

  lemma ExampleDelimiter()
    ensures Delimiter(ExampleType) == Some("--b")
  {
    assert ExampleType[21..30] == BoundaryKey;
    forall j | 0 <= j < 21
      ensures !OccursAt(ExampleType, BoundaryKey, j)
    {
      MismatchAt(ExampleType, BoundaryKey, j, 0);
    }
    IndexOfAt(ExampleType, BoundaryKey, 0, 21);
    assert ExampleType[30..] == "b";
    BoundaryAfterFirstKey(ExampleType, 21);
    assert "--" + "b" == "--b";
  }

  lemma ExampleSplit()
    ensures Split(ExampleBody, "--b") == ["", ExamplePart, "--"]
  {
    var s := ExampleBody;
    assert |ExamplePart| == 17;
    assert s[3..20] == ExamplePart;
    assert s[0..3] == "--b";
    IndexOfAt(s, "--b", 0, 0);
    assert s[20..23] == "--b";
    forall j | 3 <= j < 20
      ensures !OccursAt(s, "--b", j)
    {
      MismatchAt(s, "--b", j, 0);
    }
    IndexOfAt(s, "--b", 3, 20);
    assert IndexOf(s, "--b", 23) == None;
    assert s[23..] == "--";
    assert SplitFrom(s, "--b", 23) == ["--"];
    assert SplitFrom(s, "--b", 3) == [ExamplePart, "--"];
    assert SplitFrom(s, "--b", 0) == [s[0..0]] + [ExamplePart, "--"];
  }

  lemma ExampleParts()
    ensures Parts(ExampleBody, "--b") == [ExamplePart]
  {
    ExampleSplit();
    TrimmedIsFixed("");
    TrimmedIsFixed("--");
    var part := ExamplePart;
    assert !IsTrimmable(part[2]) && IsTrimmable(part[0]) && IsTrimmable(part[1]);
    TrimIsInfix(part);
    var lo := SkipTrimmable(part, 0);
    assert lo == 2;
    assert Trim(part) != [];
    assert Trim(part)[0] == 'n';
    assert Retained(part);
    assert KeepRetained(["--"]) == [];
    assert KeepRetained([part, "--"]) == [part];
  }

  lemma ExampleSplitPart()
    ensures SplitPart(ExamplePart) == PartSplit(ExampleHeader, "v")
  {
    var part := ExamplePart;
    assert part[10..14] == BlankLine;
    forall j | 0 <= j < 10
      ensures !OccursAt(part, BlankLine, j)
    {
      if j < 2 {
        MismatchAt(part, BlankLine, j, 2);
      } else {
        MismatchAt(part, BlankLine, j, 0);
      }
    }
    IndexOfAt(part, BlankLine, 0, 10);
    assert part[..10] == ExampleHeader;
    assert part[14..] == "v\r\n";
    assert TrimEnd("v") == "v";
    assert TrimEnd("v\r") == "v" by { assert "v\r"[..1] == "v"; }
    assert TrimEnd("v\r\n") == "v" by { assert "v\r\n"[..2] == "v\r"; }
  }

  lemma ExampleMatches()
    ensures QuotedValue(ExampleHeader, FilenameKey) == None
    ensures QuotedValue(ExampleHeader, NameKey) == Some("a")
  {
    var h := ExampleHeader;
    forall i ensures !QuotedAt(h, FilenameKey, i) {
      if 0 <= i < |h| {
        MismatchAt(h, FilenameKey, i, 0);
      }
    }
    assert h[2..8] == NameKey;
    assert h[8] == 'a' && h[9] == '"';
    assert h[8..9] == "a";
    assert CloseFrom(h, 8, 9) == Some(9);
    assert CaptureEnd(h, 8) == Some(9);
    assert QuotedAt(h, NameKey, 2);
    MismatchAt(h, NameKey, 0, 0);
    MismatchAt(h, NameKey, 1, 0);
    assert QuotedFrom(h, NameKey, 0) == Some(2);
  }

  lemma ExampleClassify()
    ensures Classify(ExamplePart) == FieldItem("a", "v")
  {
    ExampleSplitPart();
    ExampleMatches();
  }

  lemma AssembleOne(body: string)
    ensures Assemble([body]) == body
  {
    assert [body][1..] == [];
    assert body + "" == body;
  }

  /** What each version of the middleware publishes for a body delivered in one chunk
      under a header with a boundary. */
  lemma PublishOneChunk(contentType: string, body: string)
    requires Delimiter(contentType).Some?
    ensures PublishAsWritten(Some(contentType), [body]).body == None
    ensures Publish(Some(contentType), [body]).body == Some(Decode(contentType, body).fields)
  {
    AssembleOne(body);
  }

  lemma ExampleDecode()
    ensures Decode(ExampleType, ExampleBody) == Decoded(map["a" := "v"], [])
  {
    ExampleDelimiter();
    ExampleParts();
    ExampleClassify();
    assert DecodeParts(NoData, [ExamplePart]) == DecodeParts(Step(NoData, ExamplePart), []);
  }

  /** The field the form sends is decoded, yet the middleware as written publishes no
      `req.body` for it; the corrected middleware does. */
  lemma ExampleFieldIsDropped()
    ensures Decode(ExampleType, ExampleBody).fields == map["a" := "v"]
    ensures PublishAsWritten(Some(ExampleType), [ExampleBody]).body == None
    ensures Publish(Some(ExampleType), [ExampleBody]).body == Some(map["a" := "v"])
  {
    ExampleDecode();
    ExampleDelimiter();
    PublishOneChunk(ExampleType, ExampleBody);
  }

  // ---------------------------------------------------------------- a file part's field name

  /** The header `filename="a"; name="f"`. */
  const FilenameFirstHeader: string := FilenameKey + "a" + "\"" + "; name=\"f\""

  /** In `filename="a"; name="f"` the leftmost `name="` is the one inside `filename="`, so
      the file is recorded with field name `a`, not `f`. */
  lemma FilenameShadowsName()
    ensures QuotedValue(FilenameFirstHeader, FilenameKey) == Some("a")
    ensures QuotedValue(FilenameFirstHeader, NameKey) == Some("a")
  {
    LeadingFilenameNamesField("a", "; name=\"f\"");
  }

  // ---------------------------------------------------------------- a line cut by a chunk boundary

  /** A chunk `"h\n" + w` with no further line feed splits into the header and `w`. */
  lemma SplitAfterHeader(w: string)
    requires forall k :: 0 <= k < |w| ==> w[k] != '\n'
    ensures Split("h\n" + w, "\n") == ["h", w]
  {
    var s := "h\n" + w;
    assert s[0..1] == "h";
    assert s[1..2] == "\n";
    assert IndexOf(s, "\n", 0) == Some(1) by {
      MismatchAt(s, "\n", 0, 0);
    }
    assert IndexOf(s, "\n", 2) == None by {
      forall i | 2 <= i
        ensures !OccursAt(s, "\n", i)
      {
        if i < |s| {
          assert s[i] == w[i - 2];
          MismatchAt(s, "\n", i, 0);
        }
      }
    }
    assert SplitFrom(s, "\n", 2) == [w] by {
      assert s[2..] == w;
    }
    assert SplitFrom(s, "\n", 0) == [s[0..1]] + SplitFrom(s, "\n", 2);
  }

  /** A line with no separator and no surrounding blanks is a record with an empty description. */
  lemma PlainLine(line: string)
    requires line != [] && IsTrimmed(line)
    requires Lacks(line, FieldSeparator)
    ensures Trim(line) == line
    ensures RecordOf(line) == Some(TaskRecord(line, ""))
  {
    TrimmedIsFixed(line);
    TrimmedIsFixed("");
    RecordOfSpec(line);
  }

  lemma NoSeparator(line: string)
    requires forall k :: 0 <= k < |line| ==> line[k] != ';'
    ensures Lacks(line, FieldSeparator)
  {
    forall i | 0 <= i && i + 1 <= |line|
      ensures !OccursAt(line, FieldSeparator, i)
    {
      assert line[i..i + 1][0] == line[i];
    }
  }

  lemma DataLine(st: LineState, line: string)
    requires !st.isFirstLine
    requires line != [] && IsTrimmed(line)
    requires Lacks(line, FieldSeparator)
    ensures ProcessLine(st, line) == LineState(false, st.out + [TaskRecord(line, "")])
  {
    PlainLine(line);
  }

  lemma HeaderLine(line: string)
    requires line != [] && IsTrimmed(line)
    ensures ProcessLine(Start, line) == LineState(false, [])
  {
    TrimmedIsFixed(line);
  }

  lemma FirstChunk()
    ensures Transform(Start, "h\nab") == LineState(false, [TaskRecord("ab", "")])
  {
    assert "h\nab" == "h\n" + "ab";
    SplitAfterHeader("ab");
    HeaderLine("h");
    NoSeparator("ab");
    DataLine(LineState(false, []), "ab");
    assert ProcessLines(Start, ["h", "ab"]) == ProcessLines(LineState(false, []), ["ab"]);
  }

  lemma SecondChunk(st: LineState)
    requires !st.isFirstLine
    ensures Transform(st, "c") == LineState(false, st.out + [TaskRecord("c", "")])
  {
    assert Split("c", "\n") == ["c"] by {
      assert IndexOf("c", "\n", 0) == None;
      assert "c"[0..] == "c";
    }
    NoSeparator("c");
    DataLine(st, "c");
  }

  lemma WholeChunk()
    ensures Transform(Start, "h\nabc") == LineState(false, [TaskRecord("abc", "")])
  {
    assert "h\nabc" == "h\n" + "abc";
    SplitAfterHeader("abc");
    HeaderLine("h");
    NoSeparator("abc");
    DataLine(LineState(false, []), "abc");
    assert ProcessLines(Start, ["h", "abc"]) == ProcessLines(LineState(false, []), ["abc"]);
  }

  lemma StreamOfTwo(x: string, y: string)
    ensures ProcessStream(Start, [x, y]) == Transform(Transform(Start, x), y)
  {
    assert [x, y][1..] == [y];
    var t := Transform(Start, x);
    assert ProcessStream(Start, [x, y]) == ProcessStream(t, [y]);
    assert [y][1..] == [];
    assert ProcessStream(t, [y]) == ProcessStream(Transform(t, y), []);
  }

  lemma StreamOfOne(x: string)
    ensures ProcessStream(Start, [x]) == Transform(Start, x)
  {
    assert [x][1..] == [];
  }

  lemma LineSplitAcrossChunks()
    ensures ProcessStream(Start, ["h\nab", "c"]).out == [TaskRecord("ab", ""), TaskRecord("c", "")]
    ensures ProcessStream(Start, ["h\nabc"]).out == [TaskRecord("abc", "")]
  {
    StreamOfTwo("h\nab", "c");
    FirstChunk();
    SecondChunk(LineState(false, [TaskRecord("ab", "")]));
    StreamOfOne("h\nabc");
    WholeChunk();
  }

  // ---------------------------------------------------------------- a small import file

  const SampleHeader: string := "title;description"
  const FooLine: string := "Foo;Bar baz"
  const QuxLine: string := "Qux;"
  const SampleFile: string := SampleHeader + "\n" + FooLine + "\n" + QuxLine + "\n"

  lemma SampleLines()
    ensures Split(SampleFile, LineFeed) == [SampleHeader, FooLine, QuxLine, ""]
  {
    var s := SampleFile;
    assert |s| == 35 && s[17] == '\n' && s[29] == '\n' && s[34] == '\n';
    assert s[0..17] == SampleHeader && s[18..29] == FooLine && s[30..34] == QuxLine;
    forall j | 0 <= j < 17 ensures !OccursAt(s, LineFeed, j) {
      MismatchAt(s, LineFeed, j, 0);
    }
    forall j | 18 <= j < 29 ensures !OccursAt(s, LineFeed, j) {
      MismatchAt(s, LineFeed, j, 0);
    }
    forall j | 30 <= j < 34 ensures !OccursAt(s, LineFeed, j) {
      MismatchAt(s, LineFeed, j, 0);
    }
    assert s[17..18] == LineFeed && s[29..30] == LineFeed && s[34..35] == LineFeed;
    IndexOfAt(s, LineFeed, 0, 17);
    IndexOfAt(s, LineFeed, 18, 29);
    IndexOfAt(s, LineFeed, 30, 34);
    assert IndexOf(s, LineFeed, 35) == None;
    assert s[35..] == "";
    assert SplitFrom(s, LineFeed, 35) == [""];
    assert SplitFrom(s, LineFeed, 30) == [QuxLine, ""];
    assert SplitFrom(s, LineFeed, 18) == [FooLine, QuxLine, ""];
  }

  lemma FooSeparators()
    ensures IndexOf(FooLine, FieldSeparator, 0) == Some(3)
    ensures IndexOf(FooLine, FieldSeparator, 4) == None
  {
    var line := FooLine;
    assert line[3..4] == FieldSeparator;
    forall j | 0 <= j < 3 ensures !OccursAt(line, FieldSeparator, j) {
      MismatchAt(line, FieldSeparator, j, 0);
    }
    IndexOfAt(line, FieldSeparator, 0, 3);
    forall j | 4 <= j ensures !OccursAt(line, FieldSeparator, j) {
      if j < |line| {
        MismatchAt(line, FieldSeparator, j, 0);
      }
    }
  }

  lemma FooWords()
    ensures Trim("Foo") == "Foo" && Trim("Bar baz") == "Bar baz"
  {
    assert IsTrimmed("Foo") && IsTrimmed("Bar baz");
    TrimmedIsFixed("Foo");
    TrimmedIsFixed("Bar baz");
  }

  /** A line with exactly one separator, not at its start. */
  lemma TwoFieldLine(line: string, cut: nat)
    requires 0 < cut && IndexOf(line, FieldSeparator, 0) == Some(cut)
    requires IndexOf(line, FieldSeparator, cut + 1) == None
    ensures RecordOf(line) == Some(TaskRecord(Trim(line[..cut]), Trim(line[cut + 1..])))
  {
    RecordOfSpec(line);
    assert line[cut + 1..|line|] == line[cut + 1..];
  }

  lemma FooRecord()
    ensures RecordOf(FooLine) == Some(TaskRecord("Foo", "Bar baz"))
  {
    FooSeparators();
    TwoFieldLine(FooLine, 3);
    assert FooLine[..3] == "Foo" && FooLine[4..] == "Bar baz";
    FooWords();
  }

  lemma QuxRecord()
    ensures RecordOf(QuxLine) == Some(TaskRecord("Qux", ""))
  {
    var line := QuxLine;
    assert IndexOf(line, FieldSeparator, 0) == Some(3) by {
      assert line[3..4] == FieldSeparator;
      forall j | 0 <= j < 3 ensures !OccursAt(line, FieldSeparator, j) {
        MismatchAt(line, FieldSeparator, j, 0);
      }
      IndexOfAt(line, FieldSeparator, 0, 3);
    }
    assert IndexOf(line, FieldSeparator, 4) == None;
    TwoFieldLine(line, 3);
    assert line[..3] == "Qux" && line[4..] == "";
    TrimmedIsFixed("Qux");
    TrimmedIsFixed("");
  }

  lemma DataStep(st: LineState, line: string, rec: TaskRecord)
    requires !st.isFirstLine && line != [] && IsTrimmed(line)
    requires RecordOf(line) == Some(rec)
    ensures ProcessLine(st, line) == LineState(false, st.out + [rec])
  {
    TrimmedIsFixed(line);
  }

  lemma FourLines(st: LineState, a: string, b: string, c: string, d: string)
    ensures ProcessLines(st, [a, b, c, d]) ==
      ProcessLine(ProcessLine(ProcessLine(ProcessLine(st, a), b), c), d)
  {
    var lines := [a, b, c, d];
    var s1 := ProcessLine(st, a);
    var s2 := ProcessLine(s1, b);
    var s3 := ProcessLine(s2, c);
    assert ProcessLines(st, lines) == ProcessLines(s1, lines[1..]);
    assert ProcessLines(s1, lines[1..]) == ProcessLines(s2, lines[2..]);
    assert ProcessLines(s2, lines[2..]) == ProcessLines(s3, lines[3..]);
    assert ProcessLines(s3, lines[3..]) == ProcessLines(ProcessLine(s3, d), []);
  }

  lemma SampleTrimmed()
    ensures SampleHeader != [] && IsTrimmed(SampleHeader)
    ensures FooLine != [] && IsTrimmed(FooLine)
    ensures QuxLine != [] && IsTrimmed(QuxLine)
    ensures Trim("") == ""
  {
    TrimmedIsFixed("");
  }

  /** A file with a header row, two data lines (one with an empty description) and a final
      line feed gives the two records, in order. */
  lemma SampleImport()
    ensures Transform(Start, SampleFile).out == [TaskRecord("Foo", "Bar baz"), TaskRecord("Qux", "")]
  {
    var r1, r2 := TaskRecord("Foo", "Bar baz"), TaskRecord("Qux", "");
    var s1 := ProcessLine(Start, SampleHeader);
    assert s1 == LineState(false, []) by {
      SampleTrimmed();
      HeaderLine(SampleHeader);
    }
    var s2 := ProcessLine(s1, FooLine);
    assert s2 == LineState(false, [r1]) by {
      SampleTrimmed();
      FooRecord();
      DataStep(s1, FooLine, r1);
    }
    var s3 := ProcessLine(s2, QuxLine);
    assert s3 == LineState(false, [r1, r2]) by {
      SampleTrimmed();
      QuxRecord();
      DataStep(s2, QuxLine, r2);
    }
    assert ProcessLine(s3, "") == s3 by {
      SampleTrimmed();
    }
    assert Transform(Start, SampleFile) == ProcessLine(s3, "") by {
      SampleLines();
      FourLines(Start, SampleHeader, FooLine, QuxLine, "");
    }
  }
}
