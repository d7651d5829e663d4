/**
 * The credential and the end-to-end run of wdata_import.py (`Authorization`,
 * `main`, `_login`, `_upload_file`, `_import_file`): log in, read the file,
 * upload it, trigger the import, then poll.  The service, the file system and
 * the MIME lookup are the fields of a `Service` value; each call the run makes
 * is recorded, with its reply, in a trace of exchanges.  Every stage that the
 * source ends with `sys.exit` ends the run here with an outcome.
 */
module Workflow {
  import opened Wrappers
  import Multipart
  import Poller

  const AuthPath: string := "https://app.wdesk.com/iam/oauth2/v4.0/token"
  const Protocol: string := "https://"
  const WdataHost: string := "h.app.wdesk.com"
  const ApiPrefix: string := "/s/wdata/prep/api/v1/"
  const GrantType: string := "client_credentials"
  const JsonContentType: string := "application/json"
  /** The only upload status the run accepts. */
  const Created: int := 201
  const BearerPrefix: string := "Bearer "

  /** The four command-line inputs. */
  datatype Args = Args(tableId: string, clientId: string, clientSecret: string, filePath: string)

  /** The credential a login yields. */
  datatype Authorization = Authorization(accessToken: string) {
    /** `bearer_token`: the value of the Authorization header. */
    function BearerToken(): (header: string)
      ensures |header| == |BearerPrefix| + |accessToken|
      ensures header[..|BearerPrefix|] == BearerPrefix && header[|BearerPrefix|..] == accessToken
    {
      BearerPrefix + accessToken
    }
  }

  /** The token an Authorization header carries, if it is a bearer header. */
  function TokenOf(header: string): Option<string> {
    if |header| >= |BearerPrefix| && header[..|BearerPrefix|] == BearerPrefix
    then Some(header[|BearerPrefix|..])
    else None
  }

  /** Reading the token back from the header gives exactly the token. */
  lemma BearerRoundTrip(auth: Authorization)
    ensures TokenOf(auth.BearerToken()) == Some(auth.accessToken)
  {
  }

  /** A header is the bearer header of `token` exactly when it reads back to `token`. */
  lemma TokenOfInverse(header: string, token: string)
    ensures TokenOf(header) == Some(token) <==> header == Authorization(token).BearerToken()
  {
    if TokenOf(header) == Some(token) {
      assert header == header[..|BearerPrefix|] + header[|BearerPrefix|..];
    }
  }

  /** Different tokens give different headers: nothing is lost or added. */
  lemma BearerInjective(a: Authorization, b: Authorization)
    ensures a.BearerToken() == b.BearerToken() ==> a == b
  {
    BearerRoundTrip(a);
    BearerRoundTrip(b);
  }

  // ---------------------------------------------------------------------------
  // Requests and replies

  /** The form-encoded client-credentials login (`_login`). */
  datatype LoginRequest = LoginRequest(url: string, clientId: string, clientSecret: string, grantType: string)
  /** The parsed login response, or the body of the HTTP error. */
  datatype LoginReply = Token(accessToken: string) | LoginRejected(body: string)

  /** The multipart upload (`_upload_file`). */
  datatype UploadRequest = UploadRequest(host: string, path: string, contentType: string, authorization: string, body: string)
  /** The status, the raw body and the parsed `body.id` of the upload response. */
  datatype UploadReply = UploadReply(status: int, body: string, fileId: string)

  /** The import trigger (`_import_file`); its JSON body is `{"fileId": fileId}`. */
  datatype ImportRequest = ImportRequest(url: string, contentType: string, authorization: string, fileId: string)
  datatype ImportReply = ImportAccepted | ImportRejected(body: string)

  /** One status poll. */
  datatype PollRequest = PollRequest(url: string, authorization: string)

  /**
   * Everything outside the run: the service's replies, the file system and the
   * MIME lookup.  `poll(request, k)` answers the k-th poll.
   */
  datatype Service = Service(
    login: LoginRequest -> LoginReply,
    readFile: string -> Option<string>,
    guessType: string -> Option<string>,
    upload: UploadRequest -> UploadReply,
    trigger: ImportRequest -> ImportReply,
    poll: (PollRequest, nat) -> Poller.PollResponse)

  /** One call the run made, with what came back. */
  datatype Exchange =
    | Login(loginRequest: LoginRequest, loginReply: LoginReply)
    | ReadFile(path: string, contents: Option<string>)
    | Upload(uploadRequest: UploadRequest, uploadReply: UploadReply)
    | TriggerImport(importRequest: ImportRequest, importReply: ImportReply)
    | Poll(pollRequest: PollRequest, pollReply: Poller.PollResponse)

  /** How a run ends. */
  datatype RunOutcome =
    | Completed
    | AuthError(detail: string)
    | FileReadError(path: string)
    | UploadError(detail: string)
    | ImportTriggerError(detail: string)
    | PollTransportError(detail: string)
    | ImportFailed(detail: string)
    | ImportTimedOut

  /** `FILE_IMPORT_PATH`, before and after its `%s`. */
  const ImportUrlPrefix: string := Protocol + WdataHost + ApiPrefix + "table/"
  const ImportUrlSuffix: string := "/import"
  /** `FILE_POLL_PATH`, before its `%s`. */
  const PollUrlPrefix: string := Protocol + WdataHost + ApiPrefix + "file/"

  /** The table id an import URL names, if it is one. */
  function TableIdOfUrl(url: string): Option<string> {
    if |url| >= |ImportUrlPrefix| + |ImportUrlSuffix|
       && url[..|ImportUrlPrefix|] == ImportUrlPrefix && url[|url| - |ImportUrlSuffix|..] == ImportUrlSuffix
    then Some(url[|ImportUrlPrefix|..|url| - |ImportUrlSuffix|])
    else None
  }

  /** The file id a poll URL names, if it is one. */
  function FileIdOfUrl(url: string): Option<string> {
    if |url| >= |PollUrlPrefix| && url[..|PollUrlPrefix|] == PollUrlPrefix
    then Some(url[|PollUrlPrefix|..])
    else None
  }

  /** The login form: the client credentials from the arguments, posted to `AUTH_PATH`. */
  function LoginRequestFor(args: Args): (r: LoginRequest)
    ensures r.url == AuthPath && r.grantType == GrantType
    ensures r.clientId == args.clientId && r.clientSecret == args.clientSecret
  {
    LoginRequest(AuthPath, args.clientId, args.clientSecret, GrantType)
  }

  /** The upload of `contents` as the part `file`, named by the path, beside the field `tableId`. */
  function UploadRequestFor(args: Args, auth: Authorization, contents: string, guess: string -> Option<string>): (r: UploadRequest)
    ensures r.host == WdataHost && r.path == ApiPrefix + "file"
    ensures r.contentType == Multipart.MultipartPrefix + Multipart.Limit
    ensures TokenOf(r.authorization) == Some(auth.accessToken)
  {
    var fields := [Multipart.FormField("tableId", args.tableId)];
    var files := [Multipart.FormFile("file", args.filePath, contents)];
    UploadRequest(WdataHost, ApiPrefix + "file", Multipart.MultipartPrefix + Multipart.Limit, auth.BearerToken(),
                  Multipart.Join(Multipart.Crlf, Multipart.Lines(fields, files, guess)))
  }

  /** The upload body reads back as the table id field and the file, named by its path, with its contents. */
  lemma UploadBodyDecodes(args: Args, auth: Authorization, contents: string, guess: string -> Option<string>)
    requires Multipart.FieldSafe(Multipart.FormField("tableId", args.tableId))
    requires Multipart.FileSafe(guess, Multipart.FormFile("file", args.filePath, contents))
    ensures Multipart.Decode(UploadRequestFor(args, auth, contents, guess).body)
         == Some(Multipart.Form([Multipart.FormField("tableId", args.tableId)],
                                [Multipart.FormFile("file", args.filePath, contents)]))
  {
    var fields := [Multipart.FormField("tableId", args.tableId)];
    var files := [Multipart.FormFile("file", args.filePath, contents)];
    assert Multipart.Decodable(fields, files, guess);
    Multipart.DecodeEncode(fields, files, guess);
  }

  /** `FILE_IMPORT_PATH % table_id`, with the file id as the JSON body. */
  function ImportRequestFor(tableId: string, auth: Authorization, fileId: string): (r: ImportRequest)
    ensures TableIdOfUrl(r.url) == Some(tableId)
    ensures r.contentType == JsonContentType && r.fileId == fileId
    ensures TokenOf(r.authorization) == Some(auth.accessToken)
  {
    var url := ImportUrlPrefix + tableId + ImportUrlSuffix;
    assert url[..|ImportUrlPrefix|] == ImportUrlPrefix && url[|url| - |ImportUrlSuffix|..] == ImportUrlSuffix;
    assert url[|ImportUrlPrefix|..|url| - |ImportUrlSuffix|] == tableId;
    ImportRequest(url, JsonContentType, auth.BearerToken(), fileId)
  }

  /** `FILE_POLL_PATH % file_id`. */
  function PollRequestFor(auth: Authorization, fileId: string): (r: PollRequest)
    ensures FileIdOfUrl(r.url) == Some(fileId)
    ensures TokenOf(r.authorization) == Some(auth.accessToken)
  {
    var url := PollUrlPrefix + fileId;
    assert url[..|PollUrlPrefix|] == PollUrlPrefix && url[|PollUrlPrefix|..] == fileId;
    PollRequest(url, auth.BearerToken())
  }

  // ---------------------------------------------------------------------------
  // What a trace of exchanges must look like

  /** The stage an exchange belongs to, in the order the run goes through them. */
  function Stage(x: Exchange): nat {
    match x
    case Login(_, _) => 0
    case ReadFile(_, _) => 1
    case Upload(_, _) => 2
    case TriggerImport(_, _) => 3
    case Poll(_, _) => 4
  }

  /** Whether the run goes on after this exchange. */
  predicate Proceeds(x: Exchange) {
    match x
    case Login(_, reply) => reply.Token?
    case ReadFile(_, contents) => contents.Some?
    case Upload(_, reply) => reply.status == Created
    case TriggerImport(_, reply) => reply.ImportAccepted?
    case Poll(_, reply) => Poller.StepOf(reply) == Poller.Continue
  }

  /** The outcome of a run whose last exchange is `x`; none when the run could not stop there. */
  function Verdict(x: Exchange): Option<RunOutcome> {
    match x
    case Login(_, reply) => if reply.LoginRejected? then Some(AuthError(reply.body)) else None
    case ReadFile(path, contents) => if contents.None? then Some(FileReadError(path)) else None
    case Upload(_, reply) => if reply.status != Created then Some(UploadError(reply.body)) else None
    case TriggerImport(_, reply) => if reply.ImportRejected? then Some(ImportTriggerError(reply.body)) else None
    case Poll(_, reply) =>
      match Poller.StepOf(reply)
      case Continue => Some(ImportTimedOut)
      case Stop(Succeeded) => Some(Completed)
      case Stop(Failed(detail)) => Some(ImportFailed(detail))
      case Stop(TransportError(detail)) => Some(PollTransportError(detail))
      case Stop(TimedOut) => None
  }

  /** Login, file read, upload, import trigger, then polls only, each stage once. */
  predicate InOrder(trace: seq<Exchange>) {
    forall k :: 0 <= k < |trace| ==> Stage(trace[k]) == if k < 4 then k else 4
  }

  /** Every exchange but the last let the run go on. */
  predicate FailFast(trace: seq<Exchange>) {
    forall k :: 0 <= k < |trace| - 1 ==> Proceeds(trace[k])
  }

  /** The token of the login that opened the trace. */
  function TokenFrom(trace: seq<Exchange>): Authorization
    requires |trace| > 1 && InOrder(trace) && FailFast(trace)
  {
    assert Stage(trace[0]) == 0 && Proceeds(trace[0]);
    Authorization(trace[0].loginReply.accessToken)
  }

  /** Each exchange is the request the run builds from what came before, with the service's reply. */
  ghost predicate AsIssued(args: Args, service: Service, trace: seq<Exchange>)
    requires trace != [] && InOrder(trace) && FailFast(trace)
  {
    && trace[0] == Login(LoginRequestFor(args), service.login(LoginRequestFor(args)))
    && (|trace| > 1 ==> trace[1] == ReadFile(args.filePath, service.readFile(args.filePath)))
    && (|trace| > 2 ==>
          assert Stage(trace[1]) == 1 && Proceeds(trace[1]);
          var request := UploadRequestFor(args, TokenFrom(trace), trace[1].contents.value, service.guessType);
          trace[2] == Upload(request, service.upload(request)))
    && (|trace| > 3 ==>
          assert Stage(trace[2]) == 2;
          var request := ImportRequestFor(args.tableId, TokenFrom(trace), trace[2].uploadReply.fileId);
          trace[3] == TriggerImport(request, service.trigger(request)))
    && (forall k :: 4 <= k < |trace| ==>
          assert Stage(trace[2]) == 2;
          var request := PollRequestFor(TokenFrom(trace), trace[2].uploadReply.fileId);
          trace[k] == Poll(request, service.poll(request, k - 4)))
  }

  /**
   * `main`: the stages in order, each only when every earlier one succeeded.
   * Returns the outcome and the trace of every call made.
   */
  method RunImport(args: Args, service: Service) returns (outcome: RunOutcome, trace: seq<Exchange>)
    ensures trace != [] && |trace| <= 4 + Poller.MaxPolls
    ensures InOrder(trace) && FailFast(trace)
    ensures AsIssued(args, service, trace)
    ensures Verdict(trace[|trace| - 1]) == Some(outcome)
    ensures Proceeds(trace[|trace| - 1]) ==> |trace| == 4 + Poller.MaxPolls
  {
    // _login
    var loginRequest := LoginRequestFor(args);
    var loginReply := service.login(loginRequest);
    trace := [Login(loginRequest, loginReply)];
    if loginReply.LoginRejected? {
      return AuthError(loginReply.body), trace;
    }
    var auth := Authorization(loginReply.accessToken);

    // _upload_file
    var contents := service.readFile(args.filePath);
    trace := trace + [ReadFile(args.filePath, contents)];
    if contents.None? {
      return FileReadError(args.filePath), trace;
    }
    var contentType, body := Multipart.EncodeMultipartFormData(
      [Multipart.FormField("tableId", args.tableId)],
      [Multipart.FormFile("file", args.filePath, contents.value)],
      service.guessType);
    var uploadRequest := UploadRequest(WdataHost, ApiPrefix + "file", contentType, auth.BearerToken(), body);
    var uploadReply := service.upload(uploadRequest);
    trace := trace + [Upload(uploadRequest, uploadReply)];
    if uploadReply.status != Created {
      return UploadError(uploadReply.body), trace;
    }
    outcome, trace := ImportAndPoll(args, service, trace);
  }

  /**
   * The rest of `main` once the upload is accepted: trigger the import of the
   * uploaded file, then poll, both with the token of the login.
   */
  method ImportAndPoll(args: Args, service: Service, prefix: seq<Exchange>) returns (outcome: RunOutcome, trace: seq<Exchange>)
    requires |prefix| == 3 && InOrder(prefix) && FailFast(prefix) && Proceeds(prefix[2])
    requires AsIssued(args, service, prefix)
    ensures trace != [] && |trace| <= 4 + Poller.MaxPolls
    ensures InOrder(trace) && FailFast(trace)
    ensures AsIssued(args, service, trace)
    ensures Verdict(trace[|trace| - 1]) == Some(outcome)
    ensures Proceeds(trace[|trace| - 1]) ==> |trace| == 4 + Poller.MaxPolls
  {
    var auth := TokenFrom(prefix);
    assert Stage(prefix[2]) == 2;
    var fileId := prefix[2].uploadReply.fileId;

    // _import_file
    var importRequest := ImportRequestFor(args.tableId, auth, fileId);
    var importReply := service.trigger(importRequest);
    trace := prefix + [TriggerImport(importRequest, importReply)];
    if importReply.ImportRejected? {
      return ImportTriggerError(importReply.body), trace;
    }
    outcome, trace := PollStage(args, service, trace);
  }

  /** `_block_on_import` once the import is triggered: poll the uploaded file with the login's token. */
  method PollStage(args: Args, service: Service, prefix: seq<Exchange>) returns (outcome: RunOutcome, trace: seq<Exchange>)
    requires |prefix| == 4 && InOrder(prefix) && FailFast(prefix) && Proceeds(prefix[3])
    requires AsIssued(args, service, prefix)
    ensures trace != [] && |trace| <= 4 + Poller.MaxPolls
    ensures InOrder(trace) && FailFast(trace)
    ensures AsIssued(args, service, trace)
    ensures Verdict(trace[|trace| - 1]) == Some(outcome)
    ensures Proceeds(trace[|trace| - 1]) ==> |trace| == 4 + Poller.MaxPolls
  {
    var auth := TokenFrom(prefix);
    assert Stage(prefix[2]) == 2;
    var fileId := prefix[2].uploadReply.fileId;
    var pollRequest := PollRequestFor(auth, fileId);
    var respond := (k: nat) => service.poll(pollRequest, k);
    var pollOutcome, polls := Poller.BlockOnImport(respond);
    PollsExtendTrace(args, service, prefix, pollRequest, respond, pollOutcome, polls);
    trace := prefix + PollExchanges(pollRequest, respond, polls);
    outcome := OutcomeOfPolls(pollOutcome);
  }

  /** The exchanges of the first `polls` polls. */
  function PollExchanges(request: PollRequest, respond: nat -> Poller.PollResponse, polls: nat): (xs: seq<Exchange>)
    ensures |xs| == polls
    ensures forall k :: 0 <= k < polls ==> xs[k] == Poll(request, respond(k))
  {
    seq(polls, k requires 0 <= k < polls => Poll(request, respond(k)))
  }

  /** How the poller's outcome ends the run. */
  function OutcomeOfPolls(outcome: Poller.PollOutcome): RunOutcome {
    match outcome
    case Succeeded => Completed
    case Failed(detail) => ImportFailed(detail)
    case TimedOut => ImportTimedOut
    case TransportError(detail) => PollTransportError(detail)
  }

  /** Once the import is triggered, the polls the poller issues complete a well-formed trace. */
  lemma PollsExtendTrace(args: Args, service: Service, prefix: seq<Exchange>, request: PollRequest,
                         respond: nat -> Poller.PollResponse, pollOutcome: Poller.PollOutcome, polls: nat)
    requires |prefix| == 4 && InOrder(prefix) && FailFast(prefix) && Proceeds(prefix[3])
    requires AsIssued(args, service, prefix)
    requires request == PollRequestFor(TokenFrom(prefix), prefix[2].uploadReply.fileId)
    requires forall k: nat :: respond(k) == service.poll(request, k)
    requires (pollOutcome, polls) == Poller.PollRun(respond, 0)
    ensures var trace := prefix + PollExchanges(request, respond, polls);
      && |trace| <= 4 + Poller.MaxPolls
      && InOrder(trace) && FailFast(trace)
      && AsIssued(args, service, trace)
      && Verdict(trace[|trace| - 1]) == Some(OutcomeOfPolls(pollOutcome))
      && (Proceeds(trace[|trace| - 1]) ==> |trace| == 4 + Poller.MaxPolls)
  {
    Poller.PollRunDecidedByLastPoll(respond, 0);
    PollsShape(prefix, request, respond, polls);
    PollsAsIssued(args, service, prefix, request, respond, polls);
    PollsVerdict(prefix, request, respond, pollOutcome, polls);
  }

  /** Appending polls that all continue but the last keeps the trace in order and failing fast. */
  lemma PollsShape(prefix: seq<Exchange>, request: PollRequest, respond: nat -> Poller.PollResponse, polls: nat)
    requires |prefix| == 4 && InOrder(prefix) && FailFast(prefix) && Proceeds(prefix[3])
    requires 0 < polls <= Poller.MaxPolls
    requires forall j :: 0 <= j < polls - 1 ==> Poller.StepOf(respond(j)) == Poller.Continue
    ensures var trace := prefix + PollExchanges(request, respond, polls);
      |trace| <= 4 + Poller.MaxPolls && InOrder(trace) && FailFast(trace)
  {
    var polled := PollExchanges(request, respond, polls);
    var trace := prefix + polled;
    assert forall k :: 0 <= k < 4 ==> trace[k] == prefix[k];
    assert forall k :: 4 <= k < |trace| ==> trace[k] == polled[k - 4];
  }

  /** The appended polls are the poll requests for the uploaded file, with the service's replies. */
  lemma PollsAsIssued(args: Args, service: Service, prefix: seq<Exchange>, request: PollRequest,
                      respond: nat -> Poller.PollResponse, polls: nat)
    requires |prefix| == 4 && InOrder(prefix) && FailFast(prefix) && Proceeds(prefix[3])
    requires AsIssued(args, service, prefix)
    requires request == PollRequestFor(TokenFrom(prefix), prefix[2].uploadReply.fileId)
    requires forall k: nat :: respond(k) == service.poll(request, k)
    requires 0 < polls <= Poller.MaxPolls
    requires forall j :: 0 <= j < polls - 1 ==> Poller.StepOf(respond(j)) == Poller.Continue
    ensures var trace := prefix + PollExchanges(request, respond, polls);
      InOrder(trace) && FailFast(trace) && AsIssued(args, service, trace)
  {
    PollsShape(prefix, request, respond, polls);
    var polled := PollExchanges(request, respond, polls);
    var trace := prefix + polled;
    assert forall k :: 0 <= k < 4 ==> trace[k] == prefix[k];
    assert TokenFrom(trace) == TokenFrom(prefix);
    assert forall k :: 4 <= k < |trace| ==> trace[k] == polled[k - 4];
  }

  /** The last poll decides the outcome; a last poll that continues is the ninetieth. */
  lemma PollsVerdict(prefix: seq<Exchange>, request: PollRequest, respond: nat -> Poller.PollResponse,
                     pollOutcome: Poller.PollOutcome, polls: nat)
    requires |prefix| == 4
    requires 0 < polls <= Poller.MaxPolls
    requires Poller.StepOf(respond(polls - 1)) == Poller.Continue ==> pollOutcome == Poller.TimedOut && polls == Poller.MaxPolls
    requires Poller.StepOf(respond(polls - 1)) != Poller.Continue ==> Poller.StepOf(respond(polls - 1)) == Poller.Stop(pollOutcome)
    ensures var trace := prefix + PollExchanges(request, respond, polls);
      && Verdict(trace[|trace| - 1]) == Some(OutcomeOfPolls(pollOutcome))
      && (Proceeds(trace[|trace| - 1]) ==> |trace| == 4 + Poller.MaxPolls)
  {
    var trace := prefix + PollExchanges(request, respond, polls);
    assert trace[|trace| - 1] == Poll(request, respond(polls - 1));
  }

  // ---------------------------------------------------------------------------
  // Fail-fast sequencing

  /** A stage that does not succeed is the last thing the run does. */
  lemma FailureEndsRun(trace: seq<Exchange>, k: nat)
    requires InOrder(trace) && FailFast(trace)
    requires k < |trace| && !Proceeds(trace[k])
    ensures k == |trace| - 1
  {
  }

  /**
   * A stage runs only after every earlier stage succeeded: if stage `s` was
   * reached, it was reached at position `s` (or later, for polls), and each
   * exchange before it proceeded.
   */
  lemma LaterStageOnlyAfterSuccess(trace: seq<Exchange>, k: nat)
    requires InOrder(trace) && FailFast(trace) && k < |trace|
    ensures Stage(trace[k]) <= k
    ensures forall i :: 0 <= i < k ==> Proceeds(trace[i]) && Stage(trace[i]) <= Stage(trace[k])
  {
  }

  /** An upload answered with anything but 201 (a 500, say) is never followed by an import trigger or a poll. */
  lemma RejectedUploadEndsRun(trace: seq<Exchange>)
    requires InOrder(trace) && FailFast(trace)
    requires |trace| > 2 && trace[2].Upload? && trace[2].uploadReply.status != Created
    ensures |trace| == 3
    ensures forall k :: 0 <= k < |trace| ==> !trace[k].TriggerImport? && !trace[k].Poll?
  {
    assert !Proceeds(trace[2]);
    FailureEndsRun(trace, 2);
  }

  /** The run completes exactly when the login, the read, the upload and the import trigger succeeded and a poll reported IMPORTED. */
  lemma CompletedMeansEveryStageSucceeded(trace: seq<Exchange>, outcome: RunOutcome)
    requires trace != [] && InOrder(trace) && FailFast(trace)
    requires Verdict(trace[|trace| - 1]) == Some(outcome)
    ensures outcome == Completed <==>
      && |trace| > 4
      && trace[0].loginReply.Token? && trace[1].contents.Some?
      && trace[2].uploadReply.status == Created && trace[3].importReply.ImportAccepted?
      && Poller.StepOf(trace[|trace| - 1].pollReply) == Poller.Stop(Poller.Succeeded)
  {
  }
}
