/** The request record and the structural rules of `validate_request`, as
    pinned down by the test table of `test_validation.py`. The validator's
    own source (utils/validation.py) is not part of this model; in
    particular its secret check is left to the caller as a separate
    verdict. */
module Validation {
  import opened Wrappers
  import CodeGenerator

  /** The JSON value found under "round": an integer or a numeric string. */
  datatype RoundValue = IntRound(n: int) | StrRound(s: string)

  /** The decoded JSON body: every field may be missing; `otherKeys` holds
      the names of any further keys. */
  datatype Request = Request(
    email: Option<string>,
    secret: Option<string>,
    task: Option<string>,
    round: Option<RoundValue>,
    nonce: Option<string>,
    brief: Option<string>,
    evaluationUrl: Option<string>,
    checks: Option<seq<string>>,
    attachments: Option<seq<CodeGenerator.Attachment>>,
    otherKeys: set<string>)
  {
    /** The body is `{}`, which Python treats as false. */
    predicate IsEmpty() {
      && email.None? && secret.None? && task.None? && round.None?
      && nonce.None? && brief.None? && evaluationUrl.None?
      && checks.None? && attachments.None? && otherKeys == {}
    }

    /** All four keys echoed in an error response are present. */
    predicate HasIdentity() {
      email.Some? && task.Some? && round.Some? && nonce.Some?
    }

    /** Every field the validator demands is present. */
    predicate HasRequiredFields() {
      && email.Some? && task.Some? && round.Some?
      && nonce.Some? && brief.Some? && evaluationUrl.Some?
    }
  }

  predicate IsTaskChar(c: char) {
    ('A' <= c <= 'Z') || ('a' <= c <= 'z') || ('0' <= c <= '9')
    || c == '.' || c == '_' || c == '-'
  }

  /** `^[A-Za-z0-9._-]{1,100}$`, not ".", not starting with ".". */
  predicate ValidTaskName(t: string) {
    && 1 <= |t| <= 100
    && (forall k :: 0 <= k < |t| ==> IsTaskChar(t[k]))
    && t != "."
    && t[0] != '.'
  }

  /** An integer (a numeric string does not do) of at least 1. */
  predicate ValidRound(r: RoundValue) {
    r.IntRound? && r.n >= 1
  }

  datatype Rejection = MissingField(field: string) | BadTaskName | BadRound

  datatype Verdict = Accepted | Rejected(reason: Rejection)

  /** The structural checks in order, stopping at the first failure:
      required fields, then the task name, then the round. A missing
      "checks" key is not a failure. */
  function Validate(req: Request): (v: Verdict)
    ensures v.Accepted? <==> req.HasRequiredFields()
                             && ValidTaskName(req.task.value) && ValidRound(req.round.value)
    ensures v == Rejected(BadTaskName) ==> req.task.Some? && !ValidTaskName(req.task.value)
    ensures v == Rejected(BadRound) ==> req.round.Some? && !ValidRound(req.round.value)
    ensures v.Rejected? && v.reason.MissingField? ==> !req.HasRequiredFields()
  {
    if req.email.None? then Rejected(MissingField("email"))
    else if req.task.None? then Rejected(MissingField("task"))
    else if req.round.None? then Rejected(MissingField("round"))
    else if req.nonce.None? then Rejected(MissingField("nonce"))
    else if req.brief.None? then Rejected(MissingField("brief"))
    else if req.evaluationUrl.None? then Rejected(MissingField("evaluation_url"))
    else if !ValidTaskName(req.task.value) then Rejected(BadTaskName)
    else if !ValidRound(req.round.value) then Rejected(BadRound)
    else Accepted
  }

  /** The fields shared by the test table's requests. */
  function TestRequest(task: Option<string>, round: RoundValue, checks: Option<seq<string>>): Request {
    Request(Some("test@example.com"), Some("test-secret"), task, Some(round), Some("abc123"),
            Some("Create a calculator"), Some("https://example.com/eval"), checks, None, {})
  }

  lemma AcceptsCompleteRequest()
    ensures Validate(TestRequest(Some("calculator-app"), IntRound(1), Some(["Has MIT license"]))) == Accepted
  {
  }

  lemma RejectsEmptySpacedOrSymbolTask()
    ensures Validate(TestRequest(Some(""), IntRound(1), None)) == Rejected(BadTaskName)
    ensures Validate(TestRequest(Some("calculator app"), IntRound(1), None)) == Rejected(BadTaskName)
    ensures Validate(TestRequest(Some("calculator@app!"), IntRound(1), None)) == Rejected(BadTaskName)
  {
    assert !IsTaskChar("calculator app"[10]);
    assert !IsTaskChar("calculator@app!"[10]);
  }

  lemma RejectsLeadingPeriod()
    ensures Validate(TestRequest(Some(".calculator"), IntRound(1), None)) == Rejected(BadTaskName)
    ensures Validate(TestRequest(Some("."), IntRound(1), None)) == Rejected(BadTaskName)
  {
  }

  lemma AcceptsDotsDashesUnderscores()
    ensures Validate(TestRequest(Some("calculator_app-v1.0"), IntRound(1), None)) == Accepted
  {
  }

  lemma RejectsLongOrMissingTask()
    ensures Validate(TestRequest(Some(seq(101, _ => 'a')), IntRound(1), None)) == Rejected(BadTaskName)
    ensures Validate(TestRequest(None, IntRound(1), None)) == Rejected(MissingField("task"))
  {
  }

  lemma RejectsNonPositiveOrStringRound()
    ensures Validate(TestRequest(Some("calculator"), IntRound(0), None)) == Rejected(BadRound)
    ensures Validate(TestRequest(Some("calculator"), IntRound(-1), None)) == Rejected(BadRound)
    ensures Validate(TestRequest(Some("calculator"), StrRound("1"), None)) == Rejected(BadRound)
  {
  }

  lemma AcceptsMissingChecks()
    ensures Validate(TestRequest(Some("calculator"), IntRound(1), None)) == Accepted
  {
  }

  /** Whether "checks" is present never changes the verdict. */
  lemma ChecksDoNotMatter(req: Request, checks: Option<seq<string>>)
    ensures Validate(req.(checks := checks)) == Validate(req)
  {
  }
}
