# A model of the app-generation service

The service receives a JSON task request over HTTP. It checks the request, asks a completion model for a single-page HTML app, and publishes that app to a hosting repository. The repository is named after the task and the round. The service then refreshes the repository's README, reads the newest commit and reports the result to an evaluation URL supplied by the caller. This project models the four parts of that service that have behaviour worth stating, and proves properties of each.

- **Text handling** (`code_generator.py`):
  - Python's `in`, `str.split` with a non-empty separator, `str.join` and ASCII `str.strip` are modelled over `seq<char>` (module `Text`).
  - The extraction of a fenced block from a completion reply is modelled on top of them (module `CodeGenerator`).
  - So is the rendering of the checks and attachments lists into the prompt.
  - The completion client is a function parameter from prompt to reply or error.
- **Repository reconciliation** (`github_manager.py`):
  - The hosting provider is modelled as two classes. An `Account` holds a map from repository name to `Repository`. A `Repository` holds a path-to-content map, a commit history and a static-site setting.
  - Every provider call the source makes is a method with the provider's refusals as results: reading a missing path, creating what exists, or updating with a stale revision marker.
  - `create_or_update_repo`, `update_readme` and `get_mit_license` are modelled on top of these methods (module `GithubManager`).
  - `str(int)` and its inverse are in module `Numbers`. They are used to show that repository names are injective.
- **Request handling** (`main.py`): `handle_request` is a method that steps through the labels of `current_step` (module `Orchestrator`). Each external call is an input value: what it returns, or the text of the exception it raises. The method returns the response, the trace of labels, the existing code handed to generation and the payload sent to the evaluation service.
- **Request validation** (`test_validation.py`): the validator's structural rules, written as a function on a request record whose fields may be missing. Each test case is a lemma (module `Validation`).

## Model

| member | source | states |
|---|---|---|
| `Text.FindFrom` | utils/code_generator.py:44 | The result is an occurrence at or after the start, and no occurrence lies between the start and it; `None` means no occurrence at or after the start (Python's `in` from position 0). |
| `Text.UpTo` | utils/code_generator.py:45 | `s.split(sep)[0]` is a prefix of `s`. |
| `Text.Split` | utils/code_generator.py:45 | `split` yields at least one piece, at least two when the separator occurs, and its first piece is the text before the first separator. |
| `Text.SplitWithout` | utils/code_generator.py:46-49 | A text splits into just itself exactly when it lacks the separator. |
| `Text.UpToLacks` | utils/code_generator.py:45 | The text before the first separator holds no separator. |
| `Text.SplitPieceLacks` | utils/code_generator.py:47 | No piece of a split holds the separator. |
| `Text.JoinSplit` | utils/code_generator.py:45 | Re-joining the pieces of a split with the same separator gives back the text. |
| `Text.SplitJoin` | utils/code_generator.py:20 | Splitting a join of separator-free pieces on a one-character separator gives back the pieces. |
| `Text.Strip` | utils/code_generator.py:45 | The stripped text neither starts nor ends with whitespace. |
| `Text.StripIsInfix` | utils/code_generator.py:45 | The stripped text is no longer than the original and occurs in it where the leading whitespace ends. |
| `Text.StripIdempotent` | utils/code_generator.py:45 | Stripping twice is the same as stripping once. |
| `Text.StripKeeps` | utils/code_generator.py:45 | A text with no whitespace at either end is unchanged by strip. |
| `Numbers.IntToString` | utils/github_manager.py:44 | `str(n)` is non-empty decimal digits, with a leading '-' exactly for negative numbers. |
| `Numbers.ParseIntToString` | utils/github_manager.py:44 | `int(str(n)) == n`. |
| `Numbers.IntToStringInjective` | utils/github_manager.py:44 | Different integers print differently. |
| `CodeGenerator.ExtractFenced` | utils/code_generator.py:44-49 | A reply without any fence is returned unchanged, not stripped. |
| `CodeGenerator.ExtractFencedIsClean` | utils/code_generator.py:44-47 | A reply with a fence yields text that holds no fence and is a substring of the reply. |
| `CodeGenerator.BlockAfterIsClean` | utils/code_generator.py:45 | The block after the first opener, cut at the next fence and stripped, holds no fence and occurs in the reply. |
| `CodeGenerator.ExtractTaggedBlock` | utils/code_generator.py:44-45 | A reply holding the tagged opener yields the text after the first opener, up to the next fence, stripped. This holds unless a later opener starts inside that fence. |
| `CodeGenerator.SingleTagIsClosed` | utils/code_generator.py:44-45 | A reply with a single tagged opener meets the hypothesis of `ExtractTaggedBlock`. |
| `CodeGenerator.TagInsideClosingFence` | utils/code_generator.py:45 | For "```htmlx````html" the split-based extraction gives "x`", while the text up to the next fence is "x". |
| `CodeGenerator.ExtractUntaggedBlock` | utils/code_generator.py:46-47 | A fenced reply without the tagged opener yields the text between the first and the second fence, stripped. |
| `CodeGenerator.OtherTagIsKept` | utils/code_generator.py:47 | In a block tagged "python", the tag stays in the extracted text. |
| `CodeGenerator.Bullets` | utils/code_generator.py:20 | One "- " + check line per check, in input order. |
| `CodeGenerator.ChecksOnePerLine` | utils/code_generator.py:20 | The rendered checks, split on newlines, are exactly the bullet lines, when no check spans lines. |
| `CodeGenerator.Names` | utils/code_generator.py:13 | One display name per attachment, "unknown" for one without a name. |
| `CodeGenerator.AttachmentsInfo` | utils/code_generator.py:9-13 | The loop builds the attachments section, which is empty exactly when the attachments are missing or empty. |
| `CodeGenerator.AttachmentsSectionAsJoin` | utils/code_generator.py:9-13 | A non-empty section is the header lines, the bullet lines and a final empty line, joined by newlines. |
| `CodeGenerator.AttachmentsOnePerLine` | utils/code_generator.py:9-13 | A non-empty section reads, line by line: two blank lines, "Attachments:", one "- name" line per attachment in order, then the empty text after the final newline. |
| `CodeGenerator.GenerateAppCode` | utils/code_generator.py:6-49 | A failed completion call propagates its error. Otherwise the result has exactly the key "index.html", holding the extraction with the "html" tag. |
| `CodeGenerator.GenerateReadme` | utils/code_generator.py:52-88 | A failed completion call propagates its error. Otherwise the result is the extraction with the "markdown" tag. |
| `GithubManager.Repository.constructor` | utils/github_manager.py:54-59 | A new repository has no files, no commits and no static site. |
| `GithubManager.Repository.GetContents` | utils/github_manager.py:85 | Reading a path gives its revision marker, or `NotFound`. |
| `GithubManager.Repository.CreateFile` | utils/github_manager.py:61-65 | Creating an existing path is refused and changes nothing. Otherwise the path gets the content and one commit is appended. |
| `GithubManager.Repository.UpdateFile` | utils/github_manager.py:86-91 | Updating a missing path, or using a stale revision marker, is refused and changes nothing. Otherwise the path gets the content and one commit is appended. |
| `GithubManager.Repository.CreatePagesSite` | utils/github_manager.py:100-105 | An existing site, or a refusal, leaves the setting unchanged. Otherwise the site is set to the given source. Files and history are never touched. |
| `GithubManager.Repository.LatestCommit` | utils/github_manager.py:111-112 | The newest commit, or a refusal for an empty history. |
| `GithubManager.Account.constructor` | utils/github_manager.py:37-38 | The authenticated account starts with its login and no repositories. |
| `GithubManager.Account.GetRepo` | utils/github_manager.py:46-52 | Finds the repository filed under the name. Any failure, including a provider error other than a missing repository, comes back as a failure. |
| `GithubManager.Account.CreateRepo` | utils/github_manager.py:54-59 | A taken name is refused. Otherwise a fresh, empty repository is filed under the name, and every repository stays filed under its own name. |
| `GithubManager.RepoNameInjective` | utils/github_manager.py:44 | The name "task-round-n" determines both the task and the round. |
| `GithubManager.RoundsAddressDistinctRepos` | utils/github_manager.py:44 | Different rounds of one task name different repositories. |
| `GithubManager.PagesUrlNamesRepo` | utils/github_manager.py:117 | For one login, the static-site address determines the repository name. |
| `GithubManager.LicenseHolder` | utils/github_manager.py:9 | The configured user name when set and non-empty, "Student" otherwise. |
| `GithubManager.LicenseNamesYearAndHolder` | utils/github_manager.py:7-13 | The license text contains "2025", and the configured user name, or "Student" when that is unset or empty. |
| `GithubManager.AsMapKeys` | utils/github_manager.py:67 | The code-file dictionary's keys are exactly its listed paths. |
| `GithubManager.AsMapLookup` | utils/github_manager.py:67 | Each listed path maps to its own content. |
| `GithubManager.AddFiles` | utils/github_manager.py:67-72 | The code files are created in order, one "Add <path>" commit each. This succeeds exactly when no code path already existed. On a refusal nothing is rolled back: the code files before the first path that already existed are created, with their commits, and nothing after it. |
| `GithubManager.SeedRepository` | utils/github_manager.py:53-78 | A new repository ends up with exactly LICENSE, the code files and the placeholder README. The commits are LICENSE first, the code files in order, then README. This succeeds exactly when no code file is named LICENSE or README.md. On failure nothing is rolled back (`SeedStoppedAt`). The repository keeps the MIT LICENSE and the code files before the refused create, with exactly their commits. The refused create is the first code file named LICENSE, or, when no code file has that name, the README, which a code file has taken. |
| `GithubManager.LicenseCodeFileKeepsMit` | utils/github_manager.py:61-72 | Seeding with the single code file LICENSE leaves exactly the MIT LICENSE and its one commit. |
| `GithubManager.PutFile` | utils/github_manager.py:84-97 | Update-else-create: the path ends up holding the content. One commit is appended, carrying the update message exactly when the path existed before. |
| `GithubManager.UpsertFiles` | utils/github_manager.py:80-97 | Every code file is written over the old files in order. Each commit says "Update <path> for round <n>" for a path that existed and "Add <path> for round <n>" otherwise. |
| `GithubManager.UpsertWritesEveryPath` | utils/github_manager.py:83-97 | After an upsert every code path holds its new content. |
| `GithubManager.UpsertKeepsOtherPaths` | utils/github_manager.py:80-97 | After an upsert every other path, LICENSE and README.md included, is present with its old content exactly when it was present before. |
| `GithubManager.Publish` | utils/github_manager.py:99-118 | The site is requested with branch "main" and path "/". A refusal never aborts. The result is the newest commit and the site address, or a failure for an empty history. |
| `GithubManager.CreateOrUpdateRepo` | utils/github_manager.py:35-119 | The full create-or-update outcome: see the text under this table. |
| `GithubManager.UpdateReadme` | utils/github_manager.py:122-138 | A failed generation changes nothing. Otherwise README.md holds the generated text and one "Update README" or "Add README" commit is appended. Every other path keeps its presence and its content. |
| `Validation.Validate` | test_validation.py:10-180 | Accepted exactly when every required field is present, the task name is valid and the round is an integer of at least 1. A task-name rejection means the task is present and invalid. A round rejection means the round is present and invalid. A missing-field rejection means some required field is absent. |
| `Validation.AcceptsCompleteRequest` | test_validation.py:11-24 | The complete request with task "calculator-app" and round 1 is accepted. |
| `Validation.RejectsEmptySpacedOrSymbolTask` | test_validation.py:25-63 | The tasks "", "calculator app" and "calculator@app!" are rejected. |
| `Validation.RejectsLeadingPeriod` | test_validation.py:64-89 | The tasks ".calculator" and "." are rejected. |
| `Validation.AcceptsDotsDashesUnderscores` | test_validation.py:90-102 | The task "calculator_app-v1.0" is accepted. |
| `Validation.RejectsLongOrMissingTask` | test_validation.py:103-127 | A 101-character task is rejected, and so is a request without a task. |
| `Validation.RejectsNonPositiveOrStringRound` | test_validation.py:128-166 | Rounds 0, -1 and "1" are rejected. |
| `Validation.AcceptsMissingChecks` | test_validation.py:167-179 | A request without "checks" is accepted. |
| `Validation.ChecksDoNotMatter` | test_validation.py:167-179 | Adding or removing "checks" never changes the verdict. |
| `Orchestrator.HandleRequest` | main.py:29-170 | The whole request, as listed under this table. |
| `Orchestrator.ReadRequest` | main.py:31-51 | Parsing, the empty-body check, validation and the field reads. An exception text is returned exactly when one of these fails: the body does not parse, it is empty, the validator rejects it, or "checks" is missing. That text is the request's cause. The labels reached are "initialization", then "validation" for a non-empty object. |
| `Orchestrator.RunPipeline` | main.py:55-92 | The existing code is fetched only in later rounds and is "" otherwise. Then come generation and the repository step, the only two steps that can fail the request. The labels reached are a prefix of the pipeline's sequence. A failure is blamed on "generating code" when generation failed and on "creating/updating repository" otherwise. |
| `Orchestrator.FailingStep` | main.py:31-85 | The step a failing request is blamed on is always one of the four whose failure reaches the catch-all handler. It is "initialization" exactly when the body does not parse or is empty. |
| `Orchestrator.Report` | main.py:94-143 | The README, commit and notify steps never fail the request. The success response and the payload carry the same repository, site and commit. |
| `Orchestrator.RoundOf` | main.py:46 | A validated request's round is an integer of at least 1. |
| `Orchestrator.ErrorMessageShape` | main.py:151-153 | The error message ends with the cause, and it is the cause alone exactly when the failing step is "initialization". Every other step adds a prefix naming it. |
| `Orchestrator.ErrorEchoesIdentity` | main.py:155-170 | Every error response has status 500. It echoes email, task, round and nonce exactly when all four were in the body, and echoes them unchanged. |
| `Orchestrator.FetchOnlyInLaterRounds` | main.py:55-57 | A request that got past the field reads fetched existing code exactly when its round is above 1. |
| `Orchestrator.GenerationFailureMessage` | main.py:74-83 | When generation fails after the field reads, the request fails and the failing step is "generating code". The message of that step's error response, which `HandleRequest` returns, is "Failed at step 'generating code': 500: Code generation failed: " followed by the error text. |
| `Orchestrator.MissingChecksFailsAtValidation` | main.py:39-49 | A request the validator accepts but without "checks" fails, and the failing step is "validation". The message of that step's error response, which `HandleRequest` returns, is "Failed at step 'validation': 'checks'". |

`GithubManager.CreateOrUpdateRepo` states the following:
- Repositories other than "task-round-n" are untouched.
- When that repository exists and the lookup succeeds, the code files are upserted and nothing else is touched.
- When it exists but the lookup fails, creation is refused, the call fails, and the existing repository is left unchanged.
- When it does not exist, a fresh repository is filed under the name and seeded. If seeding is refused, no static site is requested. The new repository keeps what was created before the refusal, as `SeedRepository` states.
- After the upsert or the seeding, the static site is requested. On success the call reports the repository address, the newest commit and "https://login.github.io/task-round-n/".

`Orchestrator.HandleRequest` states the following:
- Errors have status 500 and successes 200.
- The request succeeds exactly when the body is a non-empty object, passes validation, holds "checks", and generation and the repository step succeed.
- The labels reached are a prefix of the success sequence. "fetching existing code" appears in that sequence only for rounds above 1.
- A failure is blamed on the step `current_step` holds when the exception is raised (`FailingStep`), and that step is the last label reached:
  - "initialization" exactly when the body does not parse or is empty;
  - "validation" when the validator rejects the body or "checks" is missing;
  - "generating code" when generation fails;
  - "creating/updating repository" otherwise.
- The response is the catch-all response for that step and the request's cause.
- The existing code is "" unless fetched.
- On success the response carries the repository and site address. The commit is the one read, falling back to the reported commit or "unknown".
- On success a warning is present exactly when the notification did not return true.
- The payload holds the email, task, round, nonce, repository address, commit and site address. It is sent only on success.

Functions that only compute have no row of their own; the members above state their properties:
- `RepoName`, `PagesUrl`, `MitLicense`, `PlaceholderReadme` and `SeededFiles` in `GithubManager`;
- `ErrorResponse`, `Cause` and `ExistingCode` in `Orchestrator`;
- `RenderChecks` and `AttachmentsSection` in `CodeGenerator`.

### Behaviour of the code worth noting

The model follows the code in each of these cases:
- **Repository name.** The repository is named `<task>-round-<n>` (github_manager.py:44). Each round therefore gets a new repository.
- **Validation failures return 500.** The 400 raised for a failed validation is caught by the catch-all handler, which always answers 500 (main.py:42, 170). No error response has any other status.
- **A missing "checks" is an error.** The validator accepts a request without "checks", but `data["checks"]` then raises (main.py:49). The request fails while the step is still "validation".
- **Static site.** The site is requested once with `create_pages_site`, and any provider error is ignored (github_manager.py:99-109). There is no read-then-create-or-update sequence.
- **No race handling.** If the lookup fails while the repository exists, the creation is refused and the repository step fails.
- **Generation takes three arguments.** Code generation has no existing-code or round input (code_generator.py:6). main.py:77-79 nevertheless passes five arguments.

## Left out

- HTTP plumbing:
  - FastAPI routing, `request.json()` and `JSONResponse`;
  - the `/health` endpoint and `main()` start-up;
  - printing and tracebacks.
- A JSON body that is not an object (a list, a number) is not modelled. A body is either unparseable, carrying the parser's message, or an object.
- External calls are inputs (`Orchestrator.Outcomes`), not calls:
  - the completion client;
  - the validator's secret check in `utils/validation.py` (its verdict and its message);
  - the existing-code fetch;
  - the repository step;
  - the README update;
  - the commit read;
  - the notifier in `utils/api_notifier.py`.
  
  `HandleRequest` does not call `GenerateAppCode` or `CreateOrUpdateRepo`. Their results reach it only as these outcome values.
- Two calls in main.py fail as written; the model keeps each as an outcome value that may fail:
  - `generate_app_code` is called with five arguments (main.py:77-79) but accepts at most three (code_generator.py:6), so the call raises as written. `Orchestrator.GenerationFailureMessage` states the response that follows.
  - `get_existing_code` (main.py:59) is not defined in `utils/github_manager.py`, so that import fails as written. main.py:70 swallows the error, and the model's `ExistingCode` is then "".
- The README outcome (`Outcomes.readme`) affects nothing in the response; its failure is only logged (main.py:104-105).
- The prompt wording around the brief, checks and attachments is not modelled; only its variable parts are. Model names and temperatures are also left out.
- `utils/config.py`, the authentication at github_manager.py:36-42 and `utils/__init__.py` are not part of this model.
- The hosting provider is simplified:
  - The revision marker of a file is its content itself (a collision-free hash would do the same).
  - A commit's identifier is its position in the history.
  - The repository description and visibility passed at creation are not kept.
  - Provider errors are `NotFound` and `Conflict` only. Errors that are not a `GithubException` (network failures) are not modelled; in the source they fail the repository step, which the orchestrator's outcome covers.
- Concurrency: the source has no locking. Two requests racing on one repository are not modelled.
- `Text.Strip` removes only the ASCII whitespace Python's `str.strip` removes: tab, line feed, vertical tab, form feed, carriage return, 0x1C-0x1F and space. Other Unicode whitespace is not modelled.
- UpsertFiles, PutFile, UpdateReadme: in the model, reading or updating a path that is present never fails. The source falls back to `create_file` after any provider error (github_manager.py:92-97 and 133-138). For a present path, such as one hit by a server error or a permission refusal, that create is refused. The model does not capture that refused create, nor the abort of the code-file loop it causes, nor the logged README warning it causes (main.py:104-105).
- ExtractTaggedBlock: states the extraction under the hypothesis that no later tagged opener starts inside the first fence after the opener. `TagInsideClosingFence` shows the one kind of reply where the split-based code and "the text up to the next fence" differ.
- ChecksOnePerLine: requires at least one check and checks without newlines. An empty list renders as "", which splits into one empty line. A check containing a newline spans several lines.
- AttachmentsOnePerLine: requires attachment names without newlines, for the same reason.
- Notifier retries live in `utils/api_notifier.py`, which is not part of this model. The warning at main.py:141 assumes them; the model keeps only the notifier's final answer.
- The code has no read-then-create-or-update sequence for the static site. It makes the single `create_pages_site` request described above.
