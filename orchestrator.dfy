/** `handle_request` in `main.py`: the request pipeline as a sequence of
    steps, each labelled before it runs. The body is parsed, validated and
    read; existing code is fetched for later rounds; code is generated, the
    repository written, its README refreshed, the newest commit read and
    the evaluation service notified. A failure in the parse, the
    validation, the field reads, the generation or the repository step
    ends in the catch-all error response; a failure in any other step is
    logged and the pipeline goes on.

    Each external call is an input: what it returns or the error it
    raises. */
module Orchestrator {
  import opened Wrappers
  import Numbers
  import Validation

  /** The values `current_step` takes, in order. */
  datatype Step =
    | Initialization
    | Validating
    | FetchingExistingCode
    | GeneratingCode
    | UpdatingRepository
    | UpdatingReadme
    | FetchingCommitInfo
    | NotifyingEvaluationApi

  function Label(s: Step): string {
    match s
    case Initialization => "initialization"
    case Validating => "validation"
    case FetchingExistingCode => "fetching existing code"
    case GeneratingCode => "generating code"
    case UpdatingRepository => "creating/updating repository"
    case UpdatingReadme => "updating README"
    case FetchingCommitInfo => "fetching commit info"
    case NotifyingEvaluationApi => "notifying evaluation API"
  }

  /** The steps whose failure reaches the catch-all handler. */
  predicate Fatal(s: Step) {
    s == Initialization || s == Validating || s == GeneratingCode || s == UpdatingRepository
  }

  /** The request body: the parser's error, or the decoded object. */
  datatype Body = Unparseable(error: string) | Parsed(req: Validation.Request)

  /** What `create_or_update_repo` returns; `commitSha` is optional because
      the fallback at line 113 reads it with a default. */
  datatype RepoInfo = RepoInfo(repoUrl: string, pagesUrl: string, commitSha: Option<string>)

  /** What each external call returns or raises. `secretAccepted` and
      `validatorMessage` are the validator's verdict on the secret and its
      message on rejection. */
  datatype Outcomes = Outcomes(
    secretAccepted: bool,
    validatorMessage: string,
    existingCode: Result<string, string>,
    generation: Result<map<string, string>, string>,
    repository: Result<RepoInfo, string>,
    readme: Outcome<string>,
    latestCommit: Result<string, string>,
    notify: Result<bool, string>)

  /** The request fields echoed in an error response. */
  datatype Identity = Identity(email: string, task: string, round: Validation.RoundValue, nonce: string)

  /** The payload sent to the evaluation service: exactly these seven keys. */
  datatype EvalPayload = EvalPayload(
    email: string, task: string, round: int, nonce: string,
    repoUrl: string, commitSha: string, pagesUrl: string)

  /** The JSON body of a response: `"status": "success"` with the
      repository fields and an optional warning, or `"status": "error"`
      with a message and optionally the identity fields. */
  datatype ResponseBody =
    | Succeeded(repoUrl: string, pagesUrl: string, commitSha: string, warning: Option<string>)
    | Errored(message: string, identity: Option<Identity>)

  datatype Response = Response(status: int, body: ResponseBody)

  const NoDataDetail := "No JSON data provided"
  const NotifyWarning := "Failed to notify evaluation API after retries"
  const UnknownSha := "unknown"

  /** `str()` of an `HTTPException`: its status, a colon and its detail. */
  function HttpErrorText(status: int, detail: string): string {
    Numbers.IntToString(status) + ": " + detail
  }

  /** `str()` of the `KeyError` a missing key raises: the key in quotes. */
  function MissingKeyText(key: string): string {
    "'" + key + "'"
  }

  /** Lines 145-170: the catch-all handler for an exception raised during
      `step` with text `cause`. */
  function ErrorResponse(step: Step, cause: string, body: Body): Response {
    var message := if step == Initialization then cause else "Failed at step '" + Label(step) + "': " + cause;
    var identity :=
      if body.Parsed? && body.req.HasIdentity()
      then Some(Identity(body.req.email.value, body.req.task.value, body.req.round.value, body.req.nonce.value))
      else None;
    Response(500, Errored(message, identity))
  }

  /** The message carries the step's label as a prefix, except for the
      first step, and always ends with the cause. */
  lemma ErrorMessageShape(step: Step, cause: string, body: Body)
    ensures var m := ErrorResponse(step, cause, body).body.message;
      && |cause| <= |m| && m[|m| - |cause|..] == cause
      && (step == Initialization <==> m == cause)
  {
    var m := ErrorResponse(step, cause, body).body.message;
    if step != Initialization {
      var prefix := "Failed at step '" + Label(step) + "': ";
      assert m == prefix + cause;
      assert |m| > |cause|;
    }
  }

  /** An error response echoes the identity fields exactly when the body
      was decoded and holds all four of them, and then echoes them as sent. */
  lemma ErrorEchoesIdentity(step: Step, cause: string, body: Body)
    ensures var resp := ErrorResponse(step, cause, body);
      && resp.status == 500 && resp.body.Errored?
      && (resp.body.identity.Some? <==> body.Parsed? && body.req.HasIdentity())
      && (resp.body.identity.Some? ==>
            && Some(resp.body.identity.value.email) == body.req.email
            && Some(resp.body.identity.value.task) == body.req.task
            && Some(resp.body.identity.value.round) == body.req.round
            && Some(resp.body.identity.value.nonce) == body.req.nonce)
  {
  }

  /** The body is a non-empty object. */
  predicate Admitted(body: Body) {
    body.Parsed? && !body.req.IsEmpty()
  }

  /** The validator accepts the request. */
  predicate Validated(body: Body, o: Outcomes) {
    Admitted(body) && Validation.Validate(body.req).Accepted? && o.secretAccepted
  }

  /** Every field read at lines 44-51 is present. */
  predicate FieldsRead(body: Body, o: Outcomes) {
    Validated(body, o) && body.req.checks.Some?
  }

  /** Every fatal step succeeds. */
  predicate Succeeds(body: Body, o: Outcomes) {
    FieldsRead(body, o) && o.generation.Success? && o.repository.Success?
  }

  /** The round number of a validated request. */
  function RoundOf(body: Body, o: Outcomes): (n: int)
    requires Validated(body, o)
    ensures n >= 1 && body.req.round == Some(Validation.IntRound(n))
  {
    body.req.round.value.n
  }

  /** The round a request names, or 1 when it names none or a string. */
  function PlannedRound(body: Body): int {
    if body.Parsed? && body.req.round.Some? && body.req.round.value.IntRound? then body.req.round.value.n else 1
  }

  /** The steps a successful request passes through. */
  function SuccessTrace(round: int): seq<Step> {
    [Initialization, Validating] + PipelineTrace(round)
  }

  /** The steps after the field reads. */
  function PipelineTrace(round: int): seq<Step> {
    (if round > 1 then [FetchingExistingCode] else []) + [GeneratingCode, UpdatingRepository] + ReportTrace()
  }

  /** The steps after the repository step, none of which can fail. */
  function ReportTrace(): seq<Step> {
    [UpdatingReadme, FetchingCommitInfo, NotifyingEvaluationApi]
  }

  /** A trace that got past the field reads fetched existing code exactly
      in later rounds. */
  lemma FetchOnlyInLaterRounds(round: int, trace: seq<Step>)
    requires trace <= SuccessTrace(round) && |trace| >= 3
    ensures FetchingExistingCode in trace <==> round > 1
  {
    var full := SuccessTrace(round);
    assert trace[2] == full[2];
    if round <= 1 {
      assert forall k :: 0 <= k < |trace| ==> trace[k] == full[k] != FetchingExistingCode;
    }
  }

  /** The step a failing request is blamed on: the value `current_step`
      holds when the exception is raised (lines 31, 39, 74 and 85). */
  function FailingStep(body: Body, o: Outcomes): (step: Step)
    ensures Fatal(step)
    ensures step == Initialization <==> !Admitted(body)
  {
    if !Admitted(body) then Initialization
    else if !FieldsRead(body, o) then Validating
    else if o.generation.Failure? then GeneratingCode
    else UpdatingRepository
  }

  /** The response status follows its kind: 500 for errors, 200 otherwise. */
  predicate StatusMatches(resp: Response) {
    resp.status == (if resp.body.Errored? then 500 else 200)
  }

  /** `handle_request` (lines 29-170). Besides the response it returns the
      labels `current_step` took, the existing code handed to generation,
      and the payload sent to the evaluation service. */
  method HandleRequest(body: Body, o: Outcomes)
    returns (resp: Response, trace: seq<Step>, existingCode: string, payload: Option<EvalPayload>)
    // Errors are always 500, successes 200; only a fatal step can fail the request.
    ensures StatusMatches(resp)
    ensures resp.body.Succeeded? <==> Succeeds(body, o)
    ensures trace != [] && trace <= SuccessTrace(PlannedRound(body))
    ensures |trace| >= 3 <==> FieldsRead(body, o)
    ensures resp.body.Errored? ==> trace[|trace| - 1] == FailingStep(body, o)
    ensures resp.body.Errored? ==> resp == ErrorResponse(FailingStep(body, o), Cause(body, o), body)
    // Existing code defaults to "".
    ensures existingCode != "" ==> FieldsRead(body, o) && o.existingCode == Success(existingCode)
    ensures FieldsRead(body, o) ==> existingCode == ExistingCode(body, o)
    // What a success reports and sends.
    ensures resp.body.Succeeded? ==> trace == SuccessTrace(RoundOf(body, o)) && Reported(body, o, resp, payload)
    ensures payload.Some? <==> resp.body.Succeeded?
  {
    var cause;
    cause, trace := ReadRequest(body, o);
    if cause.Some? {
      return ErrorResponse(trace[|trace| - 1], cause.value, body), trace, "", None;
    }
    var steps;
    resp, steps, existingCode, payload := RunPipeline(body, o);
    trace := trace + steps;
  }

  /** Lines 31-51: parse the body, validate it and read its fields. The
      result is the text of the exception raised, if any, with the labels
      `current_step` took. */
  method ReadRequest(body: Body, o: Outcomes) returns (cause: Option<string>, trace: seq<Step>)
    ensures cause.None? <==> FieldsRead(body, o)
    ensures cause.Some? ==> cause.value == Cause(body, o)
    ensures trace == (if Admitted(body) then [Initialization, Validating] else [Initialization])
  {
    trace := [Initialization];
    if body.Unparseable? {
      return Some(body.error), trace;
    }
    var data := body.req;
    if data.IsEmpty() {
      return Some(HttpErrorText(400, NoDataDetail)), trace;
    }

    trace := trace + [Validating];
    var verdict := Validation.Validate(data);
    if !(verdict.Accepted? && o.secretAccepted) {
      return Some(HttpErrorText(400, o.validatorMessage)), trace;
    }
    if data.checks.None? {
      return Some(MissingKeyText("checks")), trace;
    }
    cause := None;
  }

  /** The existing code handed to generation: fetched in later rounds,
      "" otherwise or when the fetch fails. */
  function ExistingCode(body: Body, o: Outcomes): string
    requires Validated(body, o)
  {
    if RoundOf(body, o) > 1 && o.existingCode.Success? then o.existingCode.value else ""
  }

  /** A success reports the repository, the newest commit or its
      fallback, and a warning exactly when the notification did not
      succeed; the evaluation service is told exactly what the response
      reports. */
  predicate Reported(body: Body, o: Outcomes, resp: Response, payload: Option<EvalPayload>)
    requires Succeeds(body, o) && resp.body.Succeeded?
  {
    && resp.body.repoUrl == o.repository.value.repoUrl
    && resp.body.pagesUrl == o.repository.value.pagesUrl
    && resp.body.commitSha == (if o.latestCommit.Success? then o.latestCommit.value
                               else o.repository.value.commitSha.GetOr(UnknownSha))
    && (resp.body.warning.None? <==> o.notify == Success(true))
    && (resp.body.warning.Some? ==> resp.body.warning.value == NotifyWarning)
    && payload == Some(EvalPayload(body.req.email.value, body.req.task.value, RoundOf(body, o),
                                   body.req.nonce.value, resp.body.repoUrl, resp.body.commitSha,
                                   resp.body.pagesUrl))
  }

  /** Lines 55-92: the steps after the fields are read, up to the
      repository step. */
  method RunPipeline(body: Body, o: Outcomes)
    returns (resp: Response, steps: seq<Step>, existingCode: string, payload: Option<EvalPayload>)
    requires FieldsRead(body, o)
    ensures StatusMatches(resp)
    ensures resp.body.Succeeded? <==> o.generation.Success? && o.repository.Success?
    ensures steps != [] && steps <= PipelineTrace(RoundOf(body, o))
    ensures resp.body.Errored? ==> steps[|steps| - 1] == FailingStep(body, o)
    ensures resp.body.Errored? ==> steps[|steps| - 1] == (if o.generation.Failure? then GeneratingCode else UpdatingRepository)
    ensures resp.body.Errored? ==> resp == ErrorResponse(FailingStep(body, o), Cause(body, o), body)
    ensures existingCode == ExistingCode(body, o)
    ensures resp.body.Succeeded? ==> steps == PipelineTrace(RoundOf(body, o)) && Reported(body, o, resp, payload)
    ensures payload.Some? <==> resp.body.Succeeded?
  {
    var round := body.req.round.value.n;
    existingCode := "";
    payload := None;
    steps := [];
    if round > 1 {
      steps := steps + [FetchingExistingCode];
      if o.existingCode.Success? {
        existingCode := o.existingCode.value;
      }
    }
    ghost var fetched := steps;
    PipelinePrefixes(fetched, round);

    steps := steps + [GeneratingCode];
    if o.generation.Failure? {
      var cause := HttpErrorText(500, "Code generation failed: " + o.generation.error);
      return ErrorResponse(GeneratingCode, cause, body), steps, existingCode, payload;
    }

    steps := steps + [UpdatingRepository];
    if o.repository.Failure? {
      var cause := HttpErrorText(500, "Repository operation failed: " + o.repository.error);
      return ErrorResponse(UpdatingRepository, cause, body), steps, existingCode, payload;
    }

    var tail;
    resp, tail, payload := Report(body, o);
    steps := steps + tail;
  }

  /** The traces at the generation and repository steps are prefixes of
      the full pipeline. */
  lemma PipelinePrefixes(fetched: seq<Step>, round: int)
    requires fetched == (if round > 1 then [FetchingExistingCode] else [])
    ensures fetched + [GeneratingCode] <= PipelineTrace(round)
    ensures fetched + [GeneratingCode] + [UpdatingRepository] <= PipelineTrace(round)
    ensures fetched + [GeneratingCode] + [UpdatingRepository] + ReportTrace() == PipelineTrace(round)
  {
  }

  /** Lines 94-143: the README update, the commit read and the
      notification, whose failures are only logged, then the success
      response. */
  method Report(body: Body, o: Outcomes) returns (resp: Response, steps: seq<Step>, payload: Option<EvalPayload>)
    requires Succeeds(body, o)
    ensures steps == ReportTrace()
    ensures resp.status == 200 && resp.body.Succeeded? && Reported(body, o, resp, payload)
  {
    var data := body.req;
    var info := o.repository.value;

    // A failed README update is only logged.
    steps := [UpdatingReadme];

    steps := steps + [FetchingCommitInfo];
    var commitSha := if o.latestCommit.Success? then o.latestCommit.value else info.commitSha.GetOr(UnknownSha);

    payload := Some(EvalPayload(data.email.value, data.task.value, data.round.value.n, data.nonce.value,
                                info.repoUrl, commitSha, info.pagesUrl));

    steps := steps + [NotifyingEvaluationApi];
    var notified := false;
    if o.notify.Success? {
      notified := o.notify.value;
    }

    var warning := if notified then None else Some(NotifyWarning);
    resp := Response(200, Succeeded(info.repoUrl, info.pagesUrl, commitSha, warning));
  }

  /** The text of the exception that ends a failing request. */
  function Cause(body: Body, o: Outcomes): string {
    if body.Unparseable? then body.error
    else if body.req.IsEmpty() then HttpErrorText(400, NoDataDetail)
    else if !Validated(body, o) then HttpErrorText(400, o.validatorMessage)
    else if body.req.checks.None? then MissingKeyText("checks")
    else if o.generation.Failure? then HttpErrorText(500, "Code generation failed: " + o.generation.error)
    else if o.repository.Failure? then HttpErrorText(500, "Repository operation failed: " + o.repository.error)
    else ""
  }

  /** A failed generation call, whatever its error text, fails a request
      that got past the field reads, at the step "generating code", with
      the message "Failed at step 'generating code': 500: Code generation
      failed: " followed by that text; `HandleRequest` answers with exactly
      this error response. */
  lemma GenerationFailureMessage(body: Body, o: Outcomes)
    requires FieldsRead(body, o) && o.generation.Failure?
    ensures !Succeeds(body, o) && FailingStep(body, o) == GeneratingCode
    ensures ErrorResponse(FailingStep(body, o), Cause(body, o), body).body.message
            == "Failed at step '" + Label(GeneratingCode) + "': " + "500: " + "Code generation failed: " + o.generation.error
  {
    var e := o.generation.error;
    assert Cause(body, o) == HttpErrorText(500, "Code generation failed: " + e);
    StatusText500();
    assert HttpErrorText(500, "Code generation failed: " + e) == "500: " + ("Code generation failed: " + e);
  }

  lemma StatusText500()
    ensures Numbers.IntToString(500) == "500"
  {
    assert Numbers.NatToString(5) == "5";
    assert Numbers.NatToString(50) == "50";
  }

  /** A request that the validator accepts but that lacks "checks" fails
      while the step is still "validation"; `HandleRequest` answers with
      exactly this error response. */
  lemma MissingChecksFailsAtValidation(body: Body, o: Outcomes)
    requires Validated(body, o) && body.req.checks.None?
    ensures !Succeeds(body, o) && FailingStep(body, o) == Validating
    ensures ErrorResponse(FailingStep(body, o), Cause(body, o), body).body.message
            == "Failed at step 'validation': 'checks'"
  {
  }
}
