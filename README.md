# wdata_import in Dafny

A model of the core of `wdata_import.py`, the command-line tool that uploads a
local file to a Wdata prep table and imports it. The model has three parts.

- **Multipart encoder** (`multipart.dfy`, module `Multipart`). This is
  `encode_multipart_formdata` with `get_content_type`. Two loops build the
  line list `L`:
  - for each field: the delimiter, its Content-Disposition line, an empty
    line, then its value;
  - for each file: the delimiter, its Content-Disposition line with the
    file name, its Content-Type line, an empty line, then its content;
  - then the close delimiter and `''`.

  The list is joined with CRLF. The MIME lookup is an uninterpreted function
  `guess` that the caller supplies. The module also defines a decoder for the
  same layout and proves that decoding reverses encoding. Like a multipart
  parser, the decoder ends each value at the next delimiter line, so values
  with CRLF line ends (a CSV file, say) round-trip too.
- **Import poller** (`poller.dfy`, module `Poller`). This is `_block_on_import`:
  - at most 90 polls;
  - each response is classified through `.upper()`: `IMPORTING` means poll
    again, `IMPORTED` means success, anything else means failure carrying the
    printed form of the parsed JSON response `res`;
  - a failed request ends the loop with a transport error;
  - running out of polls is a timeout.

  The k-th poll's response is `respond(k)`. The loop is a method that is
  proved equal to the recursive reference function `PollRun`. The
  properties of the loop are lemmas about `PollRun`.
- **Credential and run** (`workflow.dfy`, module `Workflow`):
  - `Authorization.bearer_token` and the request builders;
  - `main` as `RunImport`, which makes the calls in the source's order:
    login, read the file, upload, trigger the import, poll.

  Every outside call is a field of a `Service` value. Every call the run
  makes is recorded with its reply in a trace. Each `sys.exit` of the
  source ends the run with a `RunOutcome`. The properties are:
  - the trace is in stage order;
  - every exchange but the last succeeded (fail-fast);
  - each request is built from what the earlier replies returned;
  - the outcome is decided by the last exchange.

`wrappers.dfy` holds `Option`.

The file part's `filename` is the path exactly as the caller gave it. The
code passes `f.name`, the name the file was opened with, not a base name, and
the model follows the code.

## Model

| member | source | states |
|---|---|---|
| Multipart.EncodeMultipartFormData | wdata_import.py:172-201 | The content type is `multipart/form-data; boundary=` followed by LIMIT. The body is the CRLF-join of the line list: the field parts, then the file parts, then the close delimiter and `''`. |
| Multipart.AppendFieldParts | wdata_import.py:185-189 | The first loop appends the four lines of every field, in input order, to the list it started with. |
| Multipart.AppendFileParts | wdata_import.py:191-196 | The second loop appends the five lines of every file, in input order, to the list it started with. |
| Multipart.ContentType | wdata_import.py:204-212 | The Content-Type value is never empty. |
| Multipart.ContentTypeChoice | wdata_import.py:212 | The value is the guess when the lookup yields a non-empty type. It is `application/octet-stream` when the lookup yields nothing or an empty string (Python's `or`). It is never anything else. |
| Multipart.LinesFieldAt | wdata_import.py:185-189 | The line list has four entries per field, five per file, and two more. Field i occupies lines 4i to 4i+3: `--LIMIT`, `Content-Disposition: form-data; name="key"`, an empty line, then the value. So every field comes before every file, in input order. |
| Multipart.LinesFileAt | wdata_import.py:191-196 | File j occupies the five lines from 4·(number of fields) + 5j on: `--LIMIT`, the disposition with name and filename, `Content-Type: ` followed by the content type of the filename, an empty line, then the content. |
| Multipart.LinesEnd | wdata_import.py:197-198 | The last two lines are `--LIMIT--` and `''`. |
| Multipart.BodyEndsWithClose | wdata_import.py:197-199 | The joined body ends with `--LIMIT--` followed by CRLF. |
| Multipart.DecodeEncode | wdata_import.py:172-201 | Decoding the body recovers exactly the fields and the files, in input order, values with CRLF included. It needs that no value line is `--LIMIT` or `--LIMIT--`, that no key, file name or content type holds CRLF, and that no file key holds a double quote. |
| Multipart.CsvRoundTrip | wdata_import.py:107-110 | When the content type guessed for `data.csv` holds no CRLF, the upload's `tableId` field beside a CSV file with CRLF line ends, `a,b`, `1,2`, reads back unchanged. |
| Multipart.JoinSnoc | wdata_import.py:199 | `CRLF.join(L)` read from the end: appending a line to a non-empty list appends the separator and that line to the joined string. |
| Multipart.JoinSplit | wdata_import.py:199 | A lemma about the partner decoder's CRLF split: joining its pieces with CRLF, as :199 joins, gives back any string. |
| Multipart.SplitAround | wdata_import.py:199 | A lemma about the partner decoder's CRLF split, which the source does not have: it divides a string at a CRLF placed between two strings, the separator :199 inserts, whatever the two hold. |
| Multipart.SplitJoin | wdata_import.py:199 | A lemma about the partner decoder's CRLF split: splitting the CRLF-join of :199 splits each line, so a line holding CRLF comes apart into its pieces. |
| Multipart.SplitNoCrlf | wdata_import.py:199 | A lemma about the partner decoder's CRLF split, which the source does not have: a line without CRLF is kept whole. |
| Multipart.FieldsLines | wdata_import.py:185-189 | The first loop's lines number four per field. |
| Multipart.FilesLines | wdata_import.py:191-196 | The second loop's lines number five per file. |
| Multipart.Lines | wdata_import.py:185-198 | The line list holds four lines per field, five per file and two closing lines. |
| Multipart.FieldPartRoundTrip | wdata_import.py:186-189 | For a field whose key holds no CRLF and none of whose value lines is a delimiter line: its part, followed by a delimiter line, has a head that reads back as the key, and its value lines run up to that delimiter and join again into the value. |
| Multipart.FilePartRoundTrip | wdata_import.py:192-196 | For a file whose key holds no CRLF or quote, whose path and content type hold no CRLF, and none of whose content lines is a delimiter line: its part, followed by a delimiter line, has a head that reads back as the key and file name, and its content lines run up to that delimiter and join again into the content. |
| Multipart.TakeFieldsRoundTrip | wdata_import.py:185-189 | Under the same conditions for every field, field parts are read back in order, each value up to the next delimiter line. Reading stops where the file parts or the close delimiter begin. |
| Multipart.TakeFilesRoundTrip | wdata_import.py:191-198 | Under the same conditions for every file, file parts are read back in order up to the close delimiter, and the close delimiter must end the list. |
| Multipart.FileDispositionRoundTrip | wdata_import.py:193 | A file's Content-Disposition line gives back its key and filename when the key contains no quote. |
| Multipart.FileDispositionAmbiguous | wdata_import.py:193 | Nothing is escaped. Two different (key, filename) pairs, where one key contains `"; filename="`, give the same Content-Disposition line. |
| Poller.UpperChar | wdata_import.py:158 | `.upper()` of one character: a lower-case ASCII letter becomes its capital, and only a lower-case letter (ASCII, dotless i, long s) is changed. |
| Poller.Upper | wdata_import.py:158 | `.upper()` keeps the length and maps every character through `UpperChar`. |
| Poller.StepOf | wdata_import.py:158-166 | A response continues the loop exactly when it was received and its status in upper case is `IMPORTING`. A status `IMPORTED` in upper case gives success, any other status gives failure carrying the printed response, and a failed request gives a transport error. A response that stops the loop never gives a timeout. |
| Poller.PollRun | wdata_import.py:150-169 | From poll `tick` on, the loop issues at least one more poll and at most 90 in all. A timeout happens only after all 90. |
| Poller.BlockOnImport | wdata_import.py:142-169 | The loop's outcome and its number of polls are `PollRun(respond, 0)`, the loop's reference semantics. |
| Poller.PollRunDecidedByLastPoll | wdata_import.py:150-169 | From any poll on, the run issues at least one and at most 90 polls, and each poll but the last reports IMPORTING. The outcome is what the last response decides: IMPORTED gives success, a failed request gives a transport error, any other status gives failure carrying the printed response. The outcome is a timeout exactly when the 90th poll still reports IMPORTING. |
| Poller.PollRunStopsAtFirstStop | wdata_import.py:158-166 | If every response before k reports IMPORTING and response k stops the loop, the run ends after poll k+1 with the outcome response k decides. |
| Poller.PollRunTimesOut | wdata_import.py:150-169 | Ninety IMPORTING responses in a row give a timeout after exactly ninety polls. |
| Poller.PollRunIgnoresLaterResponses | wdata_import.py:159-166 | No poll happens after the loop ends. Two response sources that agree on the polls issued give the same run. |
| Poller.StopIsNeverTimeout | wdata_import.py:158-166 | A corollary of `StepOf`'s contract: classifying one response never gives a timeout, so only running out of polls does. |
| Poller.UpperOfCapitals | wdata_import.py:158 | `.upper()` leaves a word of ASCII capitals unchanged. |
| Poller.StatusCaseInsensitive | wdata_import.py:158-162 | A status and its upper-case form are classified alike. |
| Poller.ClassificationExamples | wdata_import.py:158-166 | `importing` continues. `Imported` and `ımported` (with a dotless i) succeed. `ERROR` and `QUEUED` fail, carrying the printed response. |
| Poller.SucceedsOnThirdPoll | wdata_import.py:150-162 | IMPORTING, IMPORTING, IMPORTED gives success after exactly three polls. |
| Poller.FailsOnSecondPoll | wdata_import.py:158-166 | IMPORTING, ERROR gives failure after two polls, carrying the second printed response. |
| Poller.TimesOutAfterNinetyPolls | wdata_import.py:150-169 | Ninety IMPORTING statuses give a timeout and no 91st poll. |
| Workflow.Authorization.BearerToken | wdata_import.py:28-29 | The header is `Bearer ` followed by the access token, with nothing else and nothing lost. |
| Workflow.BearerRoundTrip | wdata_import.py:28-29 | Stripping `Bearer ` from the header gives back exactly the token. |
| Workflow.TokenOfInverse | wdata_import.py:28-29 | A header reads back to a token exactly when it is that token's bearer header. |
| Workflow.BearerInjective | wdata_import.py:28-29 | Different tokens give different headers. |
| Workflow.LoginRequestFor | wdata_import.py:78-87 | The login form carries the client id and secret from the arguments and grant type `client_credentials`, and it is posted to `AUTH_PATH`. |
| Workflow.UploadRequestFor | wdata_import.py:107-116 | The upload goes to `WDATA_HOST` at `/s/wdata/prep/api/v1/file`, with the multipart content type and the login's bearer token. |
| Workflow.UploadBodyDecodes | wdata_import.py:107-110 | When the path and the guessed content type hold no CRLF, and no line of the table id or of the contents is a delimiter line, the upload body decodes to the field `tableId` with the table id, then the file part `file` named by the path with the file's contents. |
| Workflow.ImportRequestFor | wdata_import.py:134-137 | The trigger URL reads back to the table id, the JSON body carries the file id and the header carries the login's bearer token. |
| Workflow.PollRequestFor | wdata_import.py:153-154 | The poll URL reads back to the file id, and the header carries the login's bearer token. |
| Workflow.RunImport | wdata_import.py:36-51 | The trace is in stage order: login, file read, upload, import trigger, then at most 90 polls. Every exchange but the last succeeded. Each request is the one built from the arguments and the earlier replies: the same bearer token throughout, the multipart body from the file contents, and the uploaded file's id in the import and poll requests. Each reply is the service's answer. The outcome is the one the last exchange decides. A run that ends on a successful exchange has issued all 90 polls. |
| Workflow.ImportAndPoll | wdata_import.py:47-51 | After an accepted upload, the trigger and the polls complete a trace that keeps every property `RunImport` promises. |
| Workflow.PollStage | wdata_import.py:49-51 | After a triggered import, the polls complete a trace that keeps every property `RunImport` promises. |
| Workflow.PollsExtendTrace | wdata_import.py:142-169 | After a successful trigger, the polls the poller issued complete a trace that is in order, fail-fast and as issued, and whose last poll decides the outcome. |
| Workflow.FailureEndsRun | wdata_import.py:36-166 | Every stage's exit, whether a rejected request, the failed `open` or a status other than 201, ends the run: an exchange that does not succeed is the last one in the trace. |
| Workflow.LaterStageOnlyAfterSuccess | wdata_import.py:41-50 | A stage is reached only at or after its position in the order, and every exchange before it succeeded. |
| Workflow.RejectedUploadEndsRun | wdata_import.py:118-121 | An upload answered with any status but 201 is the last exchange. No import is triggered and no poll is made. |
| Workflow.CompletedMeansEveryStageSucceeded | wdata_import.py:41-51 | The run completes exactly when the login, the read, the upload (status 201) and the trigger all succeeded, and the last poll reported IMPORTED. |

## Left out

- HTTP I/O is replaced by the `Service` functions: `urlopen`, `Request`, `httplib.HTTPSConnection` and `getresponse`. An `HTTPError` from the login, the trigger or a poll becomes a rejected reply, or a `TransportFailure` for a poll. Other exceptions (`URLError`, socket and TLS errors) are not modelled.
- JSON is not modelled. A login reply already holds the access token, an upload reply holds the status, the body and `body.id`, and a poll response holds `body.id`, `body.status` and the printed form of the parsed object `res` (`%s` of a dict). A reply that does not parse or lacks a key would raise in the source and is not modelled.
- The HTTP method is not modelled: the login, upload and trigger are POSTs and the poll is a GET, and the request values do not record it.
- `urllib.urlencode` of the login form is not modelled. `LoginRequest` holds the three form values, not their encoding.
- The trigger's JSON body `{"fileId": …}` is the `fileId` field of `ImportRequest`, not its serialisation.
- The guessing inside `mimetypes.guess_type` is not modelled. It is the supplied function `guess`, and only the fallback and the `or` are modelled.
- `time.sleep(2)` is not modelled, because only the number of polls matters.
- `print`, `sys.exit` and `argparse`/`_parse_args` are not modelled. Each exit becomes a `RunOutcome`.
- Opening and reading the file become `readFile`. `None` stands for any `IOError` that `open` raises: a missing file, a file without read permission, a directory. An error raised by `f.read()` itself is not modelled.
- Poller.UpperChar: covers the ASCII letters and the two non-ASCII letters whose upper case is ASCII (U+0131 and U+017F). Every other character is kept as it is. This is enough for comparing with `IMPORTING` and `IMPORTED`, but it is not Python's full Unicode `upper()`.
- Multipart.DecodeEncode: holds only for inputs without the lines and characters the encoder would have to escape: no value line that is `--LIMIT` or `--LIMIT--`, no CRLF in a key, a file name or a content type, and no double quote in a file key. The encoder escapes none of them. `FileDispositionAmbiguous` shows what goes wrong with a quote.
- Multipart.FieldPartRoundTrip: holds only under the conditions of `DecodeEncode`, because the encoder escapes nothing; a field whose value holds the line `--LIMIT` does not read back.
- Multipart.FilePartRoundTrip: holds only under the conditions of `DecodeEncode`, because the encoder escapes nothing; a file whose content holds the line `--LIMIT` does not read back.
- Multipart.TakeFieldsRoundTrip: holds only under the conditions of `DecodeEncode`, because the encoder escapes nothing; a field whose value holds the line `--LIMIT` does not read back.
- Multipart.TakeFilesRoundTrip: holds only under the conditions of `DecodeEncode`, because the encoder escapes nothing; a file whose content holds the line `--LIMIT` does not read back.
- Multipart.CsvRoundTrip: holds only when the content type guessed for `data.csv` holds no CRLF, because the encoder does not escape it.
- Workflow.UploadBodyDecodes: holds only under the conditions of `DecodeEncode`, because the encoder escapes nothing; a file whose content holds the line `--LIMIT` does not read back.
