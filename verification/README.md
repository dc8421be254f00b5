# Task API: form-data decoder, CSV-style import and update rules

This project models the text-processing core of a small Node.js task API. It uses
pure Dafny functions over `seq<char>` and proves what each one promises.

- **The multipart/form-data middleware.** It takes the request body, assembled into one
  string, and the `content-type` header. From them it builds a field map and a list of
  uploaded files (module `FormData`). The format is a simplified subset of section
  5.1.1 of RFC 2046, with the `name` and `filename` parameters of RFC 7578. The
  decoder works in these steps:
  - The boundary token is everything after the leftmost `boundary=` that is followed by
    a non-empty, single-line remainder. This is the regular expression `/boundary=(.+)$/`,
    written out as a search in module `Patterns`.
  - The body is split on `--`+token. Segments whose trim is `""` or `--` are dropped.
  - Each part is cut at its first CRLF CRLF. The rest is re-joined and `trimEnd`-ed.
  - The part is then classified. It is a file when `filename="…"` matches, a field when
    only `name="…"` matches, and skipped otherwise. The lazy group of `/name="(.+?)"/`
    is modelled as the least closing quote on the same line.
- **The `/import-file` line transform.** A fold over the stream's chunks threads the
  `isFirstLine` flag (module `LineImport`). Each chunk is split on `"\n"` on its own,
  and every line is trimmed. Blank lines are skipped. The first non-blank line of the
  whole stream is dropped as a header. Every later line is split on `";"` and gives
  `{title, description}` when its title is non-empty.
- **The PUT and PATCH field-update rules.** These are pure functions from the stored
  tasks, the request body's values and the clock reading. Each one yields either the
  record handed to `database.update` or the 404/400 outcome (module `TaskRoutes`). A
  `Value` datatype models JavaScript truthiness and `??`.

JavaScript's string primitives are modelled in module `JsString` with their ECMAScript
semantics:
- `trim` and `trimEnd` strip WhiteSpace and LineTerminator characters.
- `indexOf`.
- `split` with a non-empty string separator, done as repeated leftmost search.
- `join`.

Module `Scenarios` pushes concrete requests and files through the model.

Each fold is proved against a definition that has no loop or accumulator:
- the file list against `FilesOf`;
- the field map against `LastFieldValue` ("last write wins");
- the line transform against `AfterPayload`, which drops the first non-blank line and
  maps the rest to records.

Four behaviours of the code worth knowing:
- For a data line, the description is the **second** `;`-separated segment, not
  everything after the first `;`. Later segments are discarded (`LineImport.RecordOfSpec`).
- When every `boundary=` in the content-type header is followed by nothing, or by a rest
  holding a line break, there is no boundary, and the decoder takes the empty fallback.
  Otherwise the token is the whole rest after the leftmost usable `boundary=`. So
  `boundary=x\nboundary=y` gives `y`, and `…; boundary=x; boundary=` gives
  `x; boundary=` (`Patterns.BoundaryToken`).
- The emptiness test on a title is made on the untrimmed segment, before `trim`. Because
  the line is already trimmed, this agrees with "non-empty after trimming"
  (`LineImport.TrimmedLineTitle`).
- A file's field name is the capture of the leftmost `name="…"`, and `filename="` itself
  contains `name="`. So for the header `filename="a"; name="f"` the field name is `a`,
  not `f` (`Patterns.LeadingFilenameNamesField`, `Scenarios.FilenameShadowsName`).

## Model

| member | source | states |
|---|---|---|
| JsString.TrimEnd | src/middlewares/formDataMiddleware.js:30 | `trimEnd` keeps a prefix; everything it cuts is trimmable, and what is left does not end in a trimmable character |
| JsString.Trim | src/middlewares/formDataMiddleware.js:23 | `trim` yields a string neither of whose ends is trimmable, no longer than the input |
| JsString.TrimIsInfix | src/routes.js:158 | the trim is the infix left after cutting the trimmable runs at both ends, and is empty exactly when every character is trimmable |
| JsString.IndexOf | src/middlewares/formDataMiddleware.js:22 | the search answers the leftmost occurrence at or after the start position, or none when there is no occurrence from there on |
| JsString.SplitFrom | src/middlewares/formDataMiddleware.js:22 | splitting yields at least one piece, and no piece contains the separator |
| JsString.JoinSplit | src/middlewares/formDataMiddleware.js:29-30 | `s.split(sep).join(sep) == s` for every string and non-empty separator |
| JsString.SplitAtFirst | src/middlewares/formDataMiddleware.js:29-30 | the first piece is the text before the first separator, and the rest re-joined is exactly the text after it |
| JsString.SplitFirstTwo | src/routes.js:166 | a split has one piece exactly when the separator is absent; the first two pieces run to the first and to the second separator (or the end) |
| Patterns.BoundaryToken | src/middlewares/formDataMiddleware.js:13 | `/boundary=(.+)$/` fails exactly when no `boundary=` is followed by a non-empty single-line rest; otherwise it captures the whole rest of the header after the leftmost such key |
| Patterns.BoundaryAfterFirstKey | src/middlewares/formDataMiddleware.js:13 | when the first `boundary=` has a usable rest, the token is that rest verbatim, quotes and further parameters included |
| Patterns.CaptureEnd | src/middlewares/formDataMiddleware.js:32 | the lazy group `(.+?)"` closes at the least same-line quote after at least one character, or not at all |
| Patterns.QuotedValue | src/middlewares/formDataMiddleware.js:32-33 | the match fails exactly when no key occurrence is followed by a same-line closing quote; a capture is non-empty, single-line, free of quotes after its first character, and taken from the leftmost matching key |
| Patterns.FilenameImpliesName | src/middlewares/formDataMiddleware.js:32-38 | whenever `filename="…"` matches, `name="…"` matches too (no later than four characters in), so `nameMatch[1]` is always defined on the file branch |
| Patterns.NameInsideFilename | src/middlewares/formDataMiddleware.js:32-39 | when the leftmost `name="…"` match is the one inside the `filename="…"` match, the file's field name equals its original name |
| Patterns.LeadingFilenameNamesField | src/middlewares/formDataMiddleware.js:32-39 | a header opening with `filename="v"` yields `v` for both captures, whatever `name="…"` follows |
| FormData.AssembleAppend | src/middlewares/formDataMiddleware.js:6-10 | concatenating the chunks of two deliveries gives the two bodies one after the other |
| FormData.Delimiter | src/middlewares/formDataMiddleware.js:20 | the delimiter exists exactly when the boundary pattern matches; it is `--` followed by the token, and the token is a suffix of the header |
| FormData.KeepRetained | src/middlewares/formDataMiddleware.js:21-23 | every kept segment trims to neither `""` nor `--` and comes from the input, and every such segment of the input is kept |
| FormData.KeepRetainedAppend | src/middlewares/formDataMiddleware.js:21-23 | the filter keeps body order: filtering `a + b` is filtering `a`, then `b` |
| FormData.SplitPart | src/middlewares/formDataMiddleware.js:29-30 | the header is the text before the first CRLF CRLF; the content is the `trimEnd` of everything after it (later CRLF CRLF kept); with no CRLF CRLF the content is empty |
| FormData.ContentAfterBlankLine | src/middlewares/formDataMiddleware.js:30 | content is a prefix of the text after the blank line and loses only trailing trimmable characters, so it is verbatim when the text does not end in one |
| FormData.Classify | src/middlewares/formDataMiddleware.js:32-45 | a part is a file exactly when `filename="…"` matches and is skipped exactly when `name="…"` does not; a file records the `name="…"` capture as field name, the `filename="…"` capture as original name and the part's content; a field is keyed by the `name="…"` capture and holds the content |
| FormData.FileOf | src/middlewares/formDataMiddleware.js:35-41 | a part contributes at most one entry, exactly when it classifies as a file; that entry records the `name="…"` capture, the `filename="…"` capture and the trimmed content |
| FormData.Decode | src/middlewares/formDataMiddleware.js:12-46 | without a usable boundary the result is no fields and no files whatever the body; with one, there are at most as many files as retained parts |
| FormData.FilesOf | src/middlewares/formDataMiddleware.js:35-41 | the reference file list has at most one entry per part and holds the file of every `filename` part |
| FormData.FilesOfAppend | src/middlewares/formDataMiddleware.js:35-41 | files of consecutive runs of parts concatenate, so files keep part order and duplicates are all kept |
| FormData.LastFieldValueCons | src/middlewares/formDataMiddleware.js:42-44 | an earlier part only decides a name that no later part defines |
| FormData.DecodePartsAppend | src/middlewares/formDataMiddleware.js:28-46 | the loop over `a + b` is the loop over `a` followed by the loop over `b` |
| FormData.DecodePartsFiles | src/middlewares/formDataMiddleware.js:35-41 | the loop appends exactly the reference file list to the files it started with |
| FormData.DecodePartsFields | src/middlewares/formDataMiddleware.js:42-44 | after the loop a name maps to the content of the last field part with that name, or keeps its earlier value when no part defines it |
| FormData.SkippedPartIsInert | src/middlewares/formDataMiddleware.js:32-45 | a part matching neither pattern can be removed from anywhere without changing fields or files |
| FormData.DecodeSpec | src/middlewares/formDataMiddleware.js:28-46 | the decoded files are the reference file list and every name maps to its last field part |
| FormData.PublishAsWritten | src/middlewares/formDataMiddleware.js:48 | as written, `req.body` is assigned (to `{}`, with no files) exactly on the no-boundary path; `req.files` is the decoded file list |
| FormData.Publish | src/middlewares/formDataMiddleware.js:48 | corrected: `req.body` is always assigned, to the decoded field map, and `req.files` is unchanged from the code as written |
| LineImport.RecordOfSpec | src/routes.js:166-172 | title is the trimmed text before the first `;`, description the trimmed text between the first and second `;` (or `""`); no record when the text before the first `;` is empty |
| LineImport.TrimmedLineTitle | src/routes.js:166-170 | on a trimmed line every record has a non-empty title |
| LineImport.ProcessLine | src/routes.js:158-173 | a blank line changes nothing; a non-blank line lowers the flag; the header line adds no record; the output only grows, by at most one record |
| LineImport.Payload | src/routes.js:158-159 | the non-blank lines are at most as many as the lines, each non-empty and trimmed |
| LineImport.RecordsHaveTitles | src/routes.js:166-172 | records of trimmed lines all have non-empty titles |
| LineImport.RecordsAtMost | src/routes.js:166-168 | no more records than lines |
| LineImport.AfterPayloadStep | src/routes.js:158-173 | one step of the loop agrees with the stateless description over the non-blank lines |
| LineImport.ProcessLinesSpec | src/routes.js:157-174 | the line loop equals the stateless description: blank lines play no part and the flag only decides whether the first non-blank line is dropped |
| LineImport.ProcessLinesAppend | src/routes.js:157-174 | the loop over `a + b` is the loop over `a` then over `b` |
| LineImport.ProcessStreamLines | src/routes.js:154-157 | the stream is the line loop over each chunk's own split, chunk after chunk, so lines are never joined across chunks |
| LineImport.ProcessStreamAppend | src/routes.js:154-176 | the output for chunks `a + b` is the output for `a` followed by the output for `b`, with the flag passed on |
| LineImport.StreamFromStart | src/routes.js:150-178 | a fresh stream equals the stateless description over its non-blank lines |
| LineImport.ImportSpec | src/routes.js:150-178 | exactly one line, the first non-blank one of the stream, is dropped; the flag stays up only without non-blank lines; every later non-blank line gives its record; titles are non-empty; records are at most non-blank lines minus one |
| LineImport.FlagOnlyGoesDown | src/routes.js:150-164 | once the header is consumed it stays consumed, and every later non-blank line contributes its record |
| LineImport.ImportFile | src/routes.js:141-178 | 400 exactly without a file and 200 otherwise; then the records of the file's non-blank lines after the first, all titled, at most one fewer than those lines |
| TaskRoutes.Coalesce | src/routes.js:74-75 | `a ?? b` is one of its operands, nullish only when both are, and truthy exactly when `a` is or when `a` is nullish and `b` is truthy |
| TaskRoutes.CoalesceVersusOr | src/routes.js:74-75 | `??` and `||` differ exactly on a present falsy value (`false`, `0`, `""`) unequal to the fallback, which `??` keeps and `||` replaces |
| TaskRoutes.FindIndex | src/routes.js:57 | `find` answers the first task with the id, or none when no task has it |
| TaskRoutes.Find | src/routes.js:110 | the found task is in the store and has the id; none exactly when no task has it |
| TaskRoutes.Put | src/routes.js:57-81 | 404 exactly when no task has the id; 400 exactly when neither field is truthy, so a 204 needs a truthy field; otherwise each field present and non-null is taken from the body and the others kept, completion and creation times preserved, update time stamped |
| TaskRoutes.PutKeepsEmptyTitle | src/routes.js:74 | a PUT with an empty title and a real description writes the empty title rather than keeping the stored one |
| TaskRoutes.Patch | src/routes.js:110-134 | 404 exactly when no task has the id; 400 exactly when `completed_at` is falsy, so a 204 needs a truthy one; otherwise only completion and update times change |
| TaskRoutes.PutThenPatch | src/routes.js:126-132 | a PATCH after a PUT keeps what the PUT wrote to title and description |
| TaskRoutes.PatchThenPut | src/routes.js:73-79 | a PUT after a PATCH keeps the completion time the PATCH wrote |
| Scenarios.ExampleDecode | src/middlewares/formDataMiddleware.js:12-46 | `multipart/form-data; boundary=b` with one part `name="a"` and content `v` decodes to the field `a = v` and no files |
| Scenarios.ExampleFieldIsDropped | src/middlewares/formDataMiddleware.js:48 | for that request the code as written publishes no `req.body`, while the corrected middleware publishes `{a: "v"}` |
| Scenarios.FilenameShadowsName | src/middlewares/formDataMiddleware.js:32-39 | for the header `filename="a"; name="f"` both captures are `a`, so the file's field name is `a` |
| Scenarios.LineSplitAcrossChunks | src/routes.js:154-157 | `"h\nab"` then `"c"` gives records `ab` and `c`; the same text in one chunk gives `abc`: lines are not reassembled |
| Scenarios.SampleImport | src/routes.js:150-178 | `title;description\nFoo;Bar baz\nQux;\n` gives `{Foo, Bar baz}` then `{Qux, ""}` |

## Left out

- Reading the request stream and `Buffer.concat`. This is asynchronous I/O. The body is
  the chunks in delivery order, concatenated (`FormData.Assemble`).
- The `binary`/latin1 reading of the body and `Buffer.from(content, "binary")`. These are
  Node `Buffer` encoding details. The body is a `seq<char>` with one character per byte,
  and file content is kept as that string. The UTF-8 decoding by `chunk.toString()` in
  the import route is likewise not modelled: `LineImport.ImportFile` runs the transform
  over the one-character-per-byte content, while the route runs it over the UTF-8
  decoding. They agree on ASCII files. On other files the results differ:
  - A non-ASCII title or description comes out in its Latin-1 reading.
  - A line holding only a no-break space (bytes C2 A0) is blank for the route. The model
    sees the non-blank line `Â` instead, which can take the header slot or become a record.
- JavaScript strings are sequences of UTF-16 code units. Here a `char` stands for one
  unit. Every comparison the core makes is against ASCII text or the whitespace and
  line-terminator sets, so surrogate pairs play no part.
- Field map as a plain object. `body[name] = content` on a JavaScript object treats a
  few names specially, such as `__proto__`. The model uses a `map`, so every name is an
  ordinary key.
- Node stream plumbing: `Readable.from`, `pipe`, the `data`/`end`/`error` events, and
  back-pressure.
  - The transform is modelled for any chunking of the stream (`LineImport.ProcessStream`).
  - The route's own stream hands the whole file on as one chunk (`LineImport.ImportFile`).
  - Stream errors and the 500 path are not modelled.
- `randomUUID`, `getDataHoraAtual`, `Database` and `buildRoutePath`: these modules are
  not part of this model. The clock reading is a parameter, and the store is the list
  `database.select("tasks")` returns. How `database.update` merges the record is not
  shown; `TaskRoutes.Apply` assumes it replaces the five fields under the id.
- Reading `req.files[0]` when the middleware did not assign `req.files`. The handler
  would throw; the model takes the file list as given.
- The POST, GET and DELETE task routes and HTTP response writing. Only the status or
  error outcome is modelled.
- The GET search filter, because its semantics live in `database.select`.
- TaskRoutes.Put and TaskRoutes.Patch take the body's fields as given. When `req.body` is
  undefined or null, the destructuring at `src/routes.js:55` and `:108` throws a TypeError
  before the lookup. That path is not modelled. It is reached for every multipart request
  to these routes, because the middleware leaves `req.body` unset (see Findings).
  The server's handling of a throwing handler is not part of this model.
- TaskRoutes.Put and TaskRoutes.Patch do not model a NaN body value, which a JSON body
  cannot hold.

## Findings

| source | as written | input that shows it | evidently intended | confidence | as-written member | corrected member |
|---|---|---|---|---|---|---|
| src/middlewares/formDataMiddleware.js:48 | on the boundary path only `req.files` is assigned; the decoded field map `body` is built and then dropped, so `req.body` stays unset for every multipart request | content-type `multipart/form-data; boundary=b`, body `--b\r\nname="a"\r\n\r\nv\r\n--b--`: the decoder yields `{a: "v"}`, yet no `req.body` is published | `req.body = body` next to `req.files = files`, as the no-boundary path does at line 15 | not executed; high, since `body` is never read after the loop | FormData.PublishAsWritten, shown by Scenarios.ExampleFieldIsDropped | FormData.Publish |
