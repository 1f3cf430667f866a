/**
 * The pinning-service client: the credential gate, the request headers, the
 * progress events and the result of one file upload, the connection test and
 * the gateway URL of a content hash. The network is a parameter: the outcome
 * of the one `fetch` an operation makes is passed in.
 */
module Ipfs {
  import opened Optional
  import opened Text
  import opened Files

  // ---------------------------------------------------------- credentials

  /** The service's credentials; `None` is a variable that is not set. */
  datatype Credentials = Credentials(jwt: Option<string>, apiKey: Option<string>, apiSecret: Option<string>)

  /**
   * The credential gate `uploadFile` and `testConnection` open with: a JWT, or
   * both an API key and its secret.
   */
  predicate Configured(c: Credentials) {
    Truthy(c.jwt) || (Truthy(c.apiKey) && Truthy(c.apiSecret))
  }

  datatype Header = Header(name: string, value: string)

  const AuthorizationHeader := "Authorization"
  const ApiKeyHeader := "pinata_api_key"
  const ApiSecretHeader := "pinata_secret_api_key"

  /** The value of the first header called `name`. */
  function HeaderValue(hs: seq<Header>, name: string): Option<string> {
    if hs == [] then None
    else if hs[0].name == name then Some(hs[0].value)
    else HeaderValue(hs[1..], name)
  }

  /** The authentication headers: a JWT wins; the key pair is used only without one. */
  function SelectHeaders(c: Credentials): (hs: seq<Header>)
    ensures Truthy(c.jwt) ==> HeaderValue(hs, AuthorizationHeader) == Some("Bearer " + c.jwt.value)
    ensures !Truthy(c.jwt) ==> HeaderValue(hs, AuthorizationHeader).None?
    ensures Truthy(c.jwt) ==> HeaderValue(hs, ApiKeyHeader).None? && HeaderValue(hs, ApiSecretHeader).None?
    ensures !Truthy(c.jwt) && Truthy(c.apiKey) && Truthy(c.apiSecret) ==>
              && HeaderValue(hs, ApiKeyHeader) == Some(c.apiKey.value)
              && HeaderValue(hs, ApiSecretHeader) == Some(c.apiSecret.value)
    ensures forall h :: h in hs ==> h.name in {AuthorizationHeader, ApiKeyHeader, ApiSecretHeader}
    ensures forall i, j :: 0 <= i < j < |hs| ==> hs[i].name != hs[j].name
    ensures Truthy(c.jwt) ==> |hs| == 1
    ensures !Truthy(c.jwt) && Configured(c) ==> |hs| == 2
    ensures hs == [] <==> !Configured(c)
  {
    if Truthy(c.jwt) then
      [Header(AuthorizationHeader, "Bearer " + c.jwt.value)]
    else if Truthy(c.apiKey) && Truthy(c.apiSecret) then
      var hs := [Header(ApiKeyHeader, c.apiKey.value), Header(ApiSecretHeader, c.apiSecret.value)];
      assert HeaderValue(hs[1..], AuthorizationHeader).None?;
      hs
    else
      []
  }

  // ---------------------------------------------------------------- wire

  const PinFileUrl := "https://api.pinata.cloud/pinning/pinFileToIPFS"
  const TestAuthenticationUrl := "https://api.pinata.cloud/data/testAuthentication"
  const GatewayPrefix := "https://gateway.pinata.cloud/ipfs/"

  /**
   * The `pinataMetadata` form field, flattened: the field holds `name` at the
   * top level and `fileType`, `fileSize` and `uploadedAt` inside a nested
   * `keyvalues` object, stringified as JSON; the nesting and the JSON text are
   * not modelled. `uploadedAt` is the caller's clock reading.
   */
  datatype PinataMetadata = PinataMetadata(name: string, fileType: string, fileSize: string, uploadedAt: string)

  datatype Body = NoBody | Form(file: File, metadata: PinataMetadata)

  datatype Request = Request(url: string, verb: string, headers: seq<Header>, body: Body)

  /** Status codes for which a Fetch `Response` is `ok`. */
  predicate IsOkStatus(status: nat) {
    200 <= status <= 299
  }

  /** A value thrown inside the upload's `try`: an `Error` with its message, or any other value. */
  datatype Thrown = ErrorObject(message: string) | OtherValue

  /** What `response.json()` yields: the body's `IpfsHash` field, or a parse failure. */
  datatype JsonBody = Parsed(ipfsHash: Option<string>) | Unparseable(message: string)

  /** A response: its status, its text (read on failure) and its JSON (read on success). */
  datatype Response = Response(status: nat, text: string, json: JsonBody)

  /** The outcome of the upload's `fetch`. */
  datatype Transport = Rejected(reason: Thrown) | Resolved(response: Response)

  // ------------------------------------------------------------ progress

  datatype UploadStatus = Uploading | Completed | Error

  datatype UploadProgress = UploadProgress(progress: nat, status: UploadStatus, message: Option<string>)

  datatype UploadResult = UploadResult(success: bool, ipfsHash: Option<string>, error: Option<string>)

  const Starting := UploadProgress(0, Uploading, Some("Starting upload..."))
  const Sending := UploadProgress(25, Uploading, Some("Uploading to IPFS..."))
  const Finalizing := UploadProgress(90, Uploading, Some("Finalizing upload..."))
  const Done := UploadProgress(100, Completed, Some("Upload completed successfully!"))
  const Failure := UploadProgress(0, Error, Some("Upload failed. Please try again."))

  const CredentialsMissing := "Pinata credentials not configured. Please check your environment variables."
  const NoHashReturned := "No IPFS hash returned from Pinata"
  const UnknownUploadError := "Unknown upload error"
  const UploadFailedPrefix := "Upload failed: "

  /**
   * The life cycle of one upload as its progress events drive it. Uploading
   * events must start at 0 and strictly increase up to 100; a completion at
   * 100 or an error event (which resets the bar to 0) ends it for good.
   */
  datatype Phase = Pending | InFlight(at: nat) | Finished | Failed

  function Step(p: Phase, e: UploadProgress): Option<Phase> {
    match p
    case Pending =>
      if e.status == Uploading && e.progress == 0 then Some(InFlight(0)) else None
    case InFlight(k) =>
      (match e.status
       case Uploading => if k < e.progress <= 100 then Some(InFlight(e.progress)) else None
       case Completed => if e.progress == 100 then Some(Finished) else None
       case Error => if e.progress == 0 then Some(Failed) else None)
    case Finished => None
    case Failed => None
  }

  /** The phase a trace of events leads to from `p`, if every event is allowed. */
  function Run(p: Phase, trace: seq<UploadProgress>): Option<Phase>
    decreases |trace|
  {
    if trace == [] then Some(p)
    else
      match Step(p, trace[0])
      case None => None
      case Some(q) => Run(q, trace[1..])
  }

  /**
   * Every trace the life cycle allows ends at its first completion or error,
   * keeps the bar within 0..100 and moves it strictly forward while uploading.
   */
  lemma {:induction false} AllowedTraceShape(p: Phase, trace: seq<UploadProgress>)
    requires Run(p, trace).Some?
    ensures p.Finished? || p.Failed? ==> trace == []
    ensures forall i :: 0 <= i < |trace| - 1 ==> trace[i].status == Uploading
    ensures forall i :: 0 <= i < |trace| ==> trace[i].progress <= 100
    ensures forall i, j :: 0 <= i < j < |trace| && trace[j].status == Uploading ==>
              trace[i].progress < trace[j].progress
    ensures p.InFlight? ==> forall i :: 0 <= i < |trace| && trace[i].status == Uploading ==> p.at < trace[i].progress
    ensures Run(p, trace) == Some(Finished) && trace != [] ==> trace[|trace| - 1].status == Completed
    ensures Run(p, trace) == Some(Failed) && trace != [] ==> trace[|trace| - 1].status == Error
    decreases |trace|
  {
    if trace != [] {
      var q := Step(p, trace[0]).value;
      AllowedTraceShape(q, trace[1..]);
      assert forall i :: 1 <= i < |trace| ==> trace[i] == trace[1..][i - 1];
    }
  }

  /** The three event traces an upload can produce are allowed, and end where they should. */
  lemma UploadTracesAllowed()
    ensures Run(Pending, [Starting, Sending, Failure]) == Some(Failed)
    ensures Run(Pending, [Starting, Sending, Finalizing, Failure]) == Some(Failed)
    ensures Run(Pending, [Starting, Sending, Finalizing, Done]) == Some(Finished)
  {
    assert Run(InFlight(25), [Failure]) == Some(Failed);
    assert Run(InFlight(0), [Sending, Failure]) == Some(Failed);
    assert Run(InFlight(90), [Failure]) == Some(Failed);
    assert Run(InFlight(90), [Done]) == Some(Finished);
    assert Run(InFlight(25), [Finalizing, Failure]) == Some(Failed);
    assert Run(InFlight(25), [Finalizing, Done]) == Some(Finished);
    assert Run(InFlight(0), [Sending, Finalizing, Failure]) == Some(Failed);
    assert Run(InFlight(0), [Sending, Finalizing, Done]) == Some(Finished);
  }

  // -------------------------------------------------------------- upload

  /** The message the `catch` block reports: an Error's own message, or a fixed fallback. */
  function CaughtMessage(e: Thrown): string {
    match e
    case ErrorObject(m) => m
    case OtherValue => UnknownUploadError
  }

  /**
   * The pinataMetadata object: the file's own name and MIME type, its size as a
   * decimal string that reads back as the size, and the upload timestamp.
   */
  function Metadata(file: File, uploadedAt: string): (m: PinataMetadata)
    ensures m.name == file.name && m.fileType == file.mimeType && m.uploadedAt == uploadedAt
    ensures forall i :: 0 <= i < |m.fileSize| ==> IsDigit(m.fileSize[i])
    ensures DecimalValue(m.fileSize) == file.size
  {
    DecimalRoundTrip(file.size);
    PinataMetadata(file.name, file.mimeType, NatToDecimal(file.size), uploadedAt)
  }

  /** Everything one call of `uploadFile` does and returns. */
  datatype UploadRun = UploadRun(trace: seq<UploadProgress>, sent: Option<Request>, result: UploadResult)

  function Fail(trace: seq<UploadProgress>, sent: Option<Request>, message: string): UploadRun {
    UploadRun(trace, sent, UploadResult(false, None, Some(message)))
  }

  /**
   * `uploadFile(file, onProgress)`: `trace` lists the events `onProgress`
   * receives, `sent` the request made, `t` the outcome of that request.
   */
  function UploadFile(c: Credentials, file: File, uploadedAt: string, t: Transport): (run: UploadRun)
    // success exactly when an OK response names a non-empty hash, which is then returned
    ensures run.result.success <==>
              && Configured(c) && t.Resolved? && IsOkStatus(t.response.status)
              && t.response.json.Parsed? && Truthy(t.response.json.ipfsHash)
    ensures run.result.success ==>
              run.result.ipfsHash == t.response.json.ipfsHash && run.result.error.None?
    ensures !run.result.success ==> run.result.ipfsHash.None? && run.result.error.Some?
    // the event trace is one the upload life cycle allows, ending as the result says
    ensures Run(Pending, run.trace) ==
              Some(if run.result.success then Finished else if Configured(c) then Failed else Pending)
    // the credential gate: nothing is sent and nothing is reported without credentials
    ensures !Configured(c) ==>
              run.trace == [] && run.sent.None? && run.result.error == Some(CredentialsMissing)
    // with credentials, one POST with the selected headers and the file's metadata
    ensures Configured(c) ==>
              && run.sent.Some?
              && run.sent.value.url == PinFileUrl && run.sent.value.verb == "POST"
              && run.sent.value.headers == SelectHeaders(c)
              && run.sent.value.body.Form? && run.sent.value.body.file == file
              && run.sent.value.body.metadata.name == file.name
              && run.sent.value.body.metadata.fileType == file.mimeType
              && run.sent.value.body.metadata.uploadedAt == uploadedAt
              && (forall i :: 0 <= i < |run.sent.value.body.metadata.fileSize| ==>
                    IsDigit(run.sent.value.body.metadata.fileSize[i]))
              && DecimalValue(run.sent.value.body.metadata.fileSize) == file.size
  {
    if !Configured(c) then
      Fail([], None, CredentialsMissing)
    else
      DecimalRoundTrip(file.size);
      UploadTracesAllowed();
      var sent := Some(Request(PinFileUrl, "POST", SelectHeaders(c), Form(file, Metadata(file, uploadedAt))));
      match t
      case Rejected(e) =>
        Fail([Starting, Sending, Failure], sent, CaughtMessage(e))
      case Resolved(response) =>
        if !IsOkStatus(response.status) then
          Fail([Starting, Sending, Finalizing, Failure], sent,
               UploadFailedPrefix + NatToDecimal(response.status) + " - " + response.text)
        else
          match response.json
          case Unparseable(m) => Fail([Starting, Sending, Finalizing, Failure], sent, m)
          case Parsed(hash) =>
            if Truthy(hash) then
              UploadRun([Starting, Sending, Finalizing, Done], sent, UploadResult(true, hash, None))
            else
              Fail([Starting, Sending, Finalizing, Failure], sent, NoHashReturned)
  }

  /** A successful upload reports 0, 25 and 90 while uploading, then 100 completed. */
  lemma SuccessTrace(c: Credentials, file: File, at: string, t: Transport)
    requires UploadFile(c, file, at, t).result.success
    ensures UploadFile(c, file, at, t).trace == [Starting, Sending, Finalizing, Done]
  {
  }

  /** A non-OK status fails with the status and body text, after 0, 25 and 90. */
  lemma RejectedStatusTrace(c: Credentials, file: File, at: string, response: Response)
    requires Configured(c) && !IsOkStatus(response.status)
    ensures var run := UploadFile(c, file, at, Resolved(response));
            && run.trace == [Starting, Sending, Finalizing, Failure]
            && run.result.error == Some(UploadFailedPrefix + NatToDecimal(response.status) + " - " + response.text)
  {
  }

  /** The status code in a non-OK failure message reads back as the response's status. */
  lemma RejectedStatusReadsBack(c: Credentials, file: File, at: string, response: Response)
    requires Configured(c) && !IsOkStatus(response.status)
    ensures var m := UploadFile(c, file, at, Resolved(response)).result.error.value;
            var digits := NatToDecimal(response.status);
            && |m| >= |UploadFailedPrefix| + |digits|
            && m[..|UploadFailedPrefix|] == UploadFailedPrefix
            && DecimalValue(m[|UploadFailedPrefix|..|UploadFailedPrefix| + |digits|]) == response.status
  {
    var digits := NatToDecimal(response.status);
    var m := UploadFailedPrefix + digits + " - " + response.text;
    assert m[|UploadFailedPrefix|..|UploadFailedPrefix| + |digits|] == digits;
    DecimalRoundTrip(response.status);
  }

  /** An OK response without a hash is a failure, never a success. */
  lemma MissingHashTrace(c: Credentials, file: File, at: string, response: Response)
    requires Configured(c) && IsOkStatus(response.status)
    requires response.json.Parsed? && !Truthy(response.json.ipfsHash)
    ensures var run := UploadFile(c, file, at, Resolved(response));
            && run.trace == [Starting, Sending, Finalizing, Failure]
            && run.result == UploadResult(false, None, Some(NoHashReturned))
  {
  }

  /** An OK response whose body is not JSON fails with the parse error's message. */
  lemma UnparseableBodyTrace(c: Credentials, file: File, at: string, response: Response)
    requires Configured(c) && IsOkStatus(response.status)
    requires response.json.Unparseable?
    ensures var run := UploadFile(c, file, at, Resolved(response));
            && run.trace == [Starting, Sending, Finalizing, Failure]
            && run.result == UploadResult(false, None, Some(response.json.message))
  {
  }

  /** A request that never gets a response reports 0 and 25, then the error. */
  lemma TransportFailureTrace(c: Credentials, file: File, at: string, e: Thrown)
    requires Configured(c)
    ensures var run := UploadFile(c, file, at, Rejected(e));
            && run.trace == [Starting, Sending, Failure]
            && run.result == UploadResult(false, None, Some(CaughtMessage(e)))
  {
  }

  /**
   * Every failure after the gate ends with its single error event; a
   * completion is only ever the last event of a success.
   */
  lemma OutcomeEvents(c: Credentials, file: File, at: string, t: Transport)
    ensures var run := UploadFile(c, file, at, t);
            && (Configured(c) && !run.result.success ==>
                  && run.trace != [] && run.trace[|run.trace| - 1] == Failure
                  && forall i :: 0 <= i < |run.trace| - 1 ==> run.trace[i].status == Uploading)
            && (forall i :: 0 <= i < |run.trace| && run.trace[i].status == Completed ==>
                  run.result.success && i == |run.trace| - 1)
  {
    var run := UploadFile(c, file, at, t);
    AllowedTraceShape(Pending, run.trace);
  }

  // ---------------------------------------------------- connection test

  /** The outcome of the connection test's `fetch`. */
  datatype Probe = ProbeRejected | ProbeResponded(status: nat)

  datatype ConnectionTest = ConnectionTest(sent: Option<Request>, ok: bool)

  /** `testConnection()`. */
  function TestConnection(c: Credentials, probe: Probe): (r: ConnectionTest)
    ensures !Configured(c) ==> r.sent.None? && !r.ok
    ensures Configured(c) ==> r.sent == Some(Request(TestAuthenticationUrl, "GET", SelectHeaders(c), NoBody))
    ensures r.ok <==> Configured(c) && probe.ProbeResponded? && IsOkStatus(probe.status)
  {
    if !Configured(c) then ConnectionTest(None, false)
    else
      var sent := Some(Request(TestAuthenticationUrl, "GET", SelectHeaders(c), NoBody));
      match probe
      case ProbeRejected => ConnectionTest(sent, false)
      case ProbeResponded(status) => ConnectionTest(sent, IsOkStatus(status))
  }

  /** Both requests authenticate the same way. */
  lemma SameHeadersForUploadAndTest(c: Credentials, file: File, at: string, t: Transport, probe: Probe)
    requires Configured(c)
    ensures UploadFile(c, file, at, t).sent.value.headers == TestConnection(c, probe).sent.value.headers
  {
  }

  // ------------------------------------------------------------- gateway

  /** `getFileUrl(ipfsHash)`. */
  function GetFileUrl(ipfsHash: string): (url: string)
    ensures GatewayPrefix <= url
    ensures |url| == |GatewayPrefix| + |ipfsHash|
    ensures url[|GatewayPrefix|..] == ipfsHash
  {
    GatewayPrefix + ipfsHash
  }

  /** The content hash a gateway URL names, if it is one. */
  function HashFromUrl(url: string): Option<string> {
    if GatewayPrefix <= url then Some(url[|GatewayPrefix|..]) else None
  }

  lemma GatewayUrlRoundTrip(ipfsHash: string, url: string)
    ensures HashFromUrl(GetFileUrl(ipfsHash)) == Some(ipfsHash)
    ensures HashFromUrl(url) == Some(ipfsHash) ==> GetFileUrl(ipfsHash) == url
  {
    if HashFromUrl(url) == Some(ipfsHash) {
      assert url == url[..|GatewayPrefix|] + url[|GatewayPrefix|..];
    }
  }
}
