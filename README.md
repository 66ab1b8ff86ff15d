# upload-git-issues: a Dafny model of the CSV-to-GitHub-issues core

The tool turns the rows of a CSV file into GitHub issues. This project models its core in Dafny and proves
properties of the model. The core has three stages, wired together as in `uploadCsvToGitHub`:

- **Row normaliser** (`CsvParser`, for `src/utils/csv-parser.ts`). A row is a `map<string, string>` from
  column header to cell text. Each field is looked up through a fixed, ordered list of exact column
  spellings, and the first non-empty cell wins. From these cells the normaliser builds an `IssueData`:
  - title and description, with the formula-injection guard applied;
  - labels split on `,` `;` `|`;
  - assignees split on `,` and cut before `@`;
  - the milestone;
  - synthesised `priority: …` and `status: …` labels;
  - a due-date line appended to the body.

  `parseRowToIssue` is a method that builds the issue step by step. It is proved equal to the function
  `ParseRow`, and the properties are proved about that function. `parseCsvFile` is a loop over the rows
  that have already been read.
- **Validator** (`Validators`, for `src/utils/validators.ts`). It checks the records in order as rows
  `1..n` and stops at the first violation. The limits are:
  - title ≤ 256 characters;
  - body ≤ 65,536 characters;
  - each label ≤ 50 characters, at most 100 labels;
  - each assignee ≤ 39 characters, at most 10 assignees.

  On success it repairs the record in place: labels and assignees are trimmed and deduplicated, and the
  milestone is trimmed. `validateCsvData` is a method over an `array<IssueData>` that replaces each checked
  slot. Warnings are returned as a list instead of being printed. The module also holds the pure predicates
  `validateGitHubToken` and `validateRepositoryName`.
- **Batch submitter** (`GitHub`, for `src/services/github.ts`). `createGitHubIssues` is a sequential loop:
  - it builds one request per issue;
  - it resolves the milestone title against the metadata snapshot, ignoring case;
  - it calls the remote once per issue;
  - it keeps the successes in order and throws on status 401, 403 or 404.

  The remote is a script: `responses[i]` is the answer to the create call for `issues[i]`. The same module
  models `getRepositoryMetadata`, which fetches the snapshot and tolerates failure, and the status mapping of
  `validateGitHubAccess`.
- **String guards** (`Security`, for `src/utils/security.ts`): token sanitising, token and e-mail masking,
  the CSV formula guard, the masking of logged details, `validateNetworkRequest` over an already parsed
  URL, and the record `performSecurityAudit` returns.
- **Pipeline** (`Upload`, for `src/commands/upload.ts`): parse, validate in place, then submit the repaired
  records.

Support modules:
- `Strings` models JavaScript's `trim`, `split`, ASCII `toLowerCase`, `startsWith` and `includes`. `trim`
  removes the ECMAScript whitespace and line-terminator characters.
- `Seqs` models `find`, `filter` and `[...new Set(xs)]`.
- `Wrappers` holds `Option` and `Result`.
- `Types` holds `IssueData` and `CreatedIssue`.

## Behaviour taken from the code

In these places the code behaves differently from what a reader of its comments or of its design might
expect. The model follows the code.

- **Only successes are returned.** `createGitHubIssues` returns only the successes. A failure that is not
  fatal leaves no entry, so the result can be shorter than the input (`Successes`, `SuccessesExact`).
- **Exact column names.** Column lookup uses the exact key; it is not case-insensitive.
- **Which rows are skipped.** Whether a row is skipped depends only on the `Title` and `title` columns. A
  row with only `TITLE`, `name`, `Name` or `NAME` is skipped, so those aliases never take effect
  (`SkippedExactlyWithoutTitle`). A skipped row is dropped silently; no error is raised.
- **Blank description.** A description made only of whitespace passes the truthiness test before it is
  trimmed. The issue therefore gets the body `Some("")`, not an absent body.
- **Pacing.** A pause follows only a successful creation that is not the last issue. No pause follows a
  failure (`PausesCount`).
- **Metadata.** The label fetch runs only after the milestone fetch has succeeded. A failing label fetch
  keeps the milestones already collected (`GetRepositoryMetadata`).
- **Length checks.** The title and label limits apply to the untrimmed text. The assignee limit applies to
  the trimmed text.
- **Fine-grained tokens.** `validateGitHubToken` refuses `github_pat_` tokens that `sanitizeGitHubToken`
  accepts (`TokenFormatsDisjoint`).

## Model

| member | source | states |
|---|---|---|
| `Security.SanitizeCell` | src/utils/security.ts:181-194 | if the trimmed text starts with `=`, `+`, `-` or `@`, the result is `'` plus the original untrimmed text; otherwise the text is returned unchanged; the result never looks like a formula |
| `Security.SanitizeCsvData` | src/utils/security.ts:181-194 | non-strings come back unchanged; a string comes back as `SanitizeCell` of it, so a formula-looking string gets a leading `'` before the original and any other string is unchanged |
| `Security.SanitizeCellIdempotent` | src/utils/security.ts:186-191 | sanitising twice gives the same result as sanitising once |
| `Security.SanitizedTrimSafe` | src/utils/security.ts:187-190 | once sanitised and trimmed, a cell never begins with a formula character |
| `Security.SanitizeGitHubToken` | src/utils/security.ts:78-108 | a valid token's `sanitized` is the trimmed input and holds no space, newline or tab |
| `Security.TokenProblemCases` | src/utils/security.ts:79-105 | each outcome holds exactly when the checks before it pass, in the order empty, blank, format (`ghp_` ≥36, 40 hex, `github_pat_` ≥82), characters |
| `Security.FormatCheckedBeforeCharacters` | src/utils/security.ts:95-105 | a token too short for any format that also contains a space (such as `"abc def"`) is reported as malformed, not as holding bad characters |
| `Security.InnerSpaceRejected` | src/utils/security.ts:91-105 | a well-formed `ghp_` token with an inner space fails the character check |
| `Security.MaskToken` | src/utils/security.ts:119-123 | the length is kept; up to 8 characters become all stars; a longer token keeps its first 4 and last 4 characters with stars between |
| `Security.MaskEmail` | src/utils/security.ts:125-129 | empty input gives `[INVALID]`; input without exactly one `@` gives `[INVALID_EMAIL]` |
| `Security.MaskUserName` | src/utils/security.ts:131-133 | the length is kept; the first 2 characters stay when the name is longer than 2; every other character becomes a star |
| `Security.MaskEmailValid` | src/utils/security.ts:125-134 | with exactly one `@`, the length, the `@` and the domain are kept, and the user name is masked as above |
| `Security.EmailShape` | src/utils/security.ts:126-130 | `split('@')` gives two parts exactly when there is one `@`; the parts are then the text before and after it |
| `Security.MaskSensitiveData` | src/utils/security.ts:113-134 | empty input gives `[INVALID]`; the token kind is `MaskToken` (length kept) and the email kind is `MaskEmail` |
| `Security.MaskDetails` | src/utils/security.ts:242-249 | the key set is kept; string values under keys containing `token` or `password` are token-masked; every other entry is unchanged; missing details give `{}` |
| `Security.LoggedSecretHidden` | src/utils/security.ts:242-249 | a logged secret keeps its length and shows no character from position 4 up to its last 4 |
| `Security.ValidateNetworkRequest` | src/utils/security.ts:152-176 | a URL that does not parse is invalid; a request is allowed exactly when the host is on the list and the protocol is https, or the host is localhost |
| `Security.PerformSecurityAudit` | src/utils/security.ts:199-235 | `readOnlyFiles` is `[csvFile]` when a file is given and empty otherwise; every flag is true; the domains are the two GitHub hosts |
| `Security.AuditDomainsAllowed` | src/utils/security.ts:210-213 | every domain the audit declares passes `validateNetworkRequest` over https |
| `Strings.BlankIffAllWhitespace` | src/utils/validators.ts:24 | `s.trim().length === 0` holds exactly when every character is whitespace |
| `Strings.TrimIdempotent` | src/utils/csv-parser.ts:48 | trimming twice gives the same result as trimming once |
| `Strings.SplitRoundTrip` | src/utils/csv-parser.ts:62 | `split` loses nothing: putting the separators back between the tokens rebuilds the input |
| `Seqs.Dedup` | src/utils/validators.ts:61 | `[...new Set(xs)]` has no duplicates and holds exactly the elements of `xs` |
| `Seqs.DedupKeepsFirstOccurrenceOrder` | src/utils/validators.ts:61 | deduplication keeps the elements in the order of their first occurrences |
| `Seqs.DedupIdempotent` | src/utils/validators.ts:92 | deduplicating twice gives the same result as deduplicating once |
| `CsvParser.Lookup` | src/utils/csv-parser.ts:38 | a chain of column reads joined by logical or yields only a non-empty cell |
| `CsvParser.LookupSpec` | src/utils/csv-parser.ts:38-41 | the lookup succeeds exactly when some alias is filled, and then yields the first filled alias's cell |
| `CsvParser.LookupFirstFilled` | src/utils/csv-parser.ts:53-55 | the first filled alias wins whatever later aliases hold |
| `CsvParser.SplitLabelsClean` | src/utils/csv-parser.ts:61-64 | every label is non-empty, trimmed and free of comma, semicolon and vertical bar |
| `CsvParser.CleanAssigneeSpec` | src/utils/csv-parser.ts:80-85 | an assignee token is the trimmed text up to its first `@`, so it holds no `@` |
| `CsvParser.SplitAssigneesClean` | src/utils/csv-parser.ts:77-87 | every assignee is non-empty and holds no `@` |
| `CsvParser.MilestoneOf` | src/utils/csv-parser.ts:92-101 | the milestone is absent exactly when no alias is filled or the trimmed cell is empty, `undefined` or `null`; otherwise it is the trimmed cell |
| `CsvParser.PriorityLabel` | src/utils/csv-parser.ts:104-117 | a priority label is produced exactly when a priority alias is filled and its trimmed, lower-cased cell is not empty, `none` or `no priority`; it is then `priority: ` followed by that cell |
| `CsvParser.StatusLabel` | src/utils/csv-parser.ts:120-133 | a status label is produced exactly when a status alias is filled and its trimmed, lower-cased cell is not empty, `undefined` or `null`; it is then `status: ` followed by that cell |
| `CsvParser.WithDueDate` | src/utils/csv-parser.ts:139-152 | a parsed date appends a blank line and `**Due Date:** d` to a non-empty body, keeping the body as a prefix; an empty or absent body becomes that line alone; no date leaves the body unchanged |
| `CsvParser.AddMissing` | src/utils/csv-parser.ts:108-115 | the label is present afterwards; it is added once at the end only when missing; the earlier list stays a prefix; no other label's count changes |
| `CsvParser.AddMissingTail` | src/utils/csv-parser.ts:108-115 | adding a synthesised label appends nothing but that label, and the earlier list stays a prefix |
| `CsvParser.ParseRowToIssue` | src/utils/csv-parser.ts:31-155 | the step-by-step construction equals `ParseRow` |
| `CsvParser.ReadLabels` | src/utils/csv-parser.ts:53-66 | the label field is read as `FieldLabels` says |
| `CsvParser.ReadAssignees` | src/utils/csv-parser.ts:69-89 | the assignee field is read as `FieldAssignees` says |
| `CsvParser.ReadMilestone` | src/utils/csv-parser.ts:92-101 | the milestone field is read as `MilestoneOf` says |
| `CsvParser.PushIfMissing` | src/utils/csv-parser.ts:108-115 | creating the list when absent, then pushing unless `includes`, is `AddMissing` |
| `CsvParser.ApplyPriority` | src/utils/csv-parser.ts:104-117 | the priority step adds `PriorityLabel` when it is missing |
| `CsvParser.ApplyStatus` | src/utils/csv-parser.ts:120-133 | the status step adds `StatusLabel` when it is missing |
| `CsvParser.ApplyDueDate` | src/utils/csv-parser.ts:136-152 | the due-date step is `WithDueDate` applied to the date the formatter accepts |
| `CsvParser.ParseRows` | src/utils/csv-parser.ts:12-17 | parsing yields at most one issue per row |
| `CsvParser.ParseCsvFile` | src/utils/csv-parser.ts:12-17 | the push loop over the rows yields `ParseRows`: the issues in row order |
| `CsvParser.SkippedExactlyWithoutTitle` | src/utils/csv-parser.ts:33-35 | a row yields no issue exactly when both `Title` and `title` are missing or empty |
| `CsvParser.ParseRowsCount` | src/utils/csv-parser.ts:14-17 | the number of issues is the number of rows that have `Title` or `title` |
| `CsvParser.TitleFromTitleColumns` | src/utils/csv-parser.ts:38-48 | the title is the `Title` cell (else the `title` cell), sanitised and then trimmed, and it never starts with a formula character |
| `CsvParser.AddTwiceLayout` | src/utils/csv-parser.ts:104-133 | adding two synthesised labels keeps the list as a prefix, adds at most those two, and both are present afterwards |
| `CsvParser.LabelsLayout` | src/utils/csv-parser.ts:57-133 | the labels are the label field's labels followed by at most the priority label and then the status label; both are present when synthesised; the list exists exactly when one of the three does |
| `CsvParser.PriorityLabelOnce` | src/utils/csv-parser.ts:104-117 | the priority label occurs once, or as often as the label field already had it |
| `CsvParser.BodyOfRow` | src/utils/csv-parser.ts:39-150 | the description is present exactly when a description alias is filled; the body is absent exactly when there is neither a description nor a due date; the body never starts with `=`, `+`, `-` or `@` |
| `CsvParser.DueDateKeepsGuard` | src/utils/csv-parser.ts:145-149 | appending the due-date line keeps a body free of a leading formula character |
| `CsvParser.HighPriorityLabelled` | src/utils/csv-parser.ts:104-115 | a row whose priority cell reads `high` after trimming and lower-casing carries the label `priority: high` |
| `CsvParser.LabelsExample` | src/utils/csv-parser.ts:61-64 | words separated by a comma, a comma and a space, a semicolon and a vertical bar (as in `bug, ui;docs` then a bar and `x`) give one label per word, in order |
| `CsvParser.CleanLeadingAt` | src/utils/csv-parser.ts:80-85 | a token such as `" @x"` is cleaned to the empty string |
| `CsvParser.CleanAddress` | src/utils/csv-parser.ts:80-85 | an assignee token shaped like an address (as in `jane@example.com`) is cleaned to the name before its `@` |
| `CsvParser.AssigneesExample` | src/utils/csv-parser.ts:77-87 | an address, a comma and an `@`-handle (as in `"jane@example.com, @x"`) give just the name before the `@`; the emptied handle is dropped |
| `Validators.CheckLabelList` | src/utils/validators.ts:44-58 | the label loop computes `LabelScan`, stopping at the first throw |
| `Validators.CheckAssigneeList` | src/utils/validators.ts:75-89 | the assignee loop computes `AssigneeScan`, stopping at the first throw |
| `Validators.ValidateLabels` | src/utils/validators.ts:39-67 | the label stage computes `LabelsStage` |
| `Validators.ValidateAssignees` | src/utils/validators.ts:70-98 | the assignee stage computes `AssigneesStage` |
| `Validators.ValidateIssue` | src/utils/validators.ts:20-108 | the repaired record, the warnings and the error are those of `CheckIssue` |
| `Validators.CheckFrom` | src/utils/validators.ts:13-15 | the loop over the records keeps the list's length |
| `Validators.ValidateCsvData` | src/utils/validators.ts:3-18 | the array afterwards, the warnings and the error are those of `CheckCsvData` on the array before |
| `Validators.LabelScanSpec` | src/utils/validators.ts:44-58 | the label loop passes exactly when every label is non-blank and at most 50 characters; otherwise it names the first bad label |
| `Validators.AssigneeScanSpec` | src/utils/validators.ts:75-89 | the assignee loop passes exactly when every assignee is non-blank and at most 39 characters once trimmed; the username pattern never refuses |
| `Validators.LabelsStageFrame` | src/utils/validators.ts:39-67 | the label stage changes only the labels, and its errors name the row |
| `Validators.LabelsStageSpec` | src/utils/validators.ts:44-66 | the label stage passes exactly when every label is good and at most 100 remain after trimming and deduplication, and then stores that list |
| `Validators.AssigneesStageFrame` | src/utils/validators.ts:70-98 | the assignee stage changes only the assignees, and its errors name the row |
| `Validators.AssigneesStageSpec` | src/utils/validators.ts:75-97 | the assignee stage passes exactly when every assignee is good and at most 10 remain after trimming and deduplication, and then stores that list |
| `Validators.MilestoneStageSpec` | src/utils/validators.ts:101-107 | only the milestone changes; a non-empty blank milestone is refused; otherwise the milestone is trimmed |
| `Validators.CheckIssueAccepts` | src/utils/validators.ts:20-108 | exactly which records pass; a passing record keeps its title and body and gets its lists trimmed and deduplicated and its milestone trimmed |
| `Validators.CheckIssueKeepsTitleAndBody` | src/utils/validators.ts:24-36 | the title and the body are never modified |
| `Validators.CheckIssueErrorNamesRow` | src/utils/validators.ts:21 | every error names the row number it was given |
| `Validators.RepairedLabelsGood` | src/utils/validators.ts:61 | repaired labels are good, trimmed and distinct, and a second repair leaves them alone |
| `Validators.RepairedAssigneesGood` | src/utils/validators.ts:92 | repaired assignees are good, trimmed and distinct, and a second repair leaves them alone |
| `Validators.CheckIssueIdempotent` | src/utils/validators.ts:59-107 | validating a record that has passed once passes again, under any row number, and changes nothing |
| `Validators.LongTitleRejected` | src/utils/validators.ts:29-31 | a 257-character title fails as too long, naming its row and length |
| `Validators.TokenFormatsDisjoint` | src/utils/validators.ts:110-121 | for a well-formed token, `validateGitHubToken` holds exactly when it is not a `github_pat_` token |
| `Validators.ValidatedTokenSanitized` | src/utils/validators.ts:116-120 | a token `validateGitHubToken` accepts and that holds no whitespace passes `sanitizeGitHubToken` unchanged |
| `Validators.RepositoryNameShape` | src/utils/validators.ts:123-135 | a name is accepted exactly when it has 1 to 100 characters from `[A-Za-z0-9._-]` and is alphanumeric at both ends |
| `Validators.RepositoryNameEnds` | src/utils/validators.ts:129-134 | a name starting with `.`, `-` or `_`, or ending with `.`, is refused |
| `Validators.FirstFailing` | src/utils/validators.ts:13-15 | the position of the first record that fails as its 1-based row; all records before it pass |
| `Validators.CheckCsvDataEmpty` | src/utils/validators.ts:8-10 | an empty list is refused before any record is examined |
| `Validators.CheckCsvDataPasses` | src/utils/validators.ts:13-15 | a non-empty list passes exactly when no record fails |
| `Validators.CheckCsvDataRepairsPrefix` | src/utils/validators.ts:12-15 | every record before the first failing one passes and is replaced by its repair |
| `Validators.CheckCsvDataFailingRow` | src/utils/validators.ts:13-14 | the error thrown names the first failing record's row number |
| `Validators.CheckCsvDataKeepsRest` | src/utils/validators.ts:13-15 | records after the first failing one are neither examined nor changed |
| `GitHub.StatusToError` | src/services/github.ts:95-101 | status 401, 403 and 404 throw authentication, forbidden and not-found errors; no other status throws |
| `GitHub.FatalError` | src/services/github.ts:89-107 | a failed create call throws exactly when it carries status 401, 403 or 404 |
| `GitHub.FindMilestone` | src/services/github.ts:53-59 | the number of the first milestone whose lower-cased title equals the lower-cased name; none when no title matches |
| `GitHub.PayloadFor` | src/services/github.ts:33-63 | the title passes through; the body defaults to `''`; labels and assignees are included unchanged exactly when non-empty; a named milestone is sent only when it resolves |
| `GitHub.BuildPayload` | src/services/github.ts:33-63 | filling the request field by field gives `PayloadFor`; an unresolved milestone draws a warning exactly when verbose |
| `GitHub.CreateIssue` | src/services/github.ts:26-109 | one pass of the loop: the request is `PayloadFor` the issue; the warning is given exactly for an unresolved milestone under `verbose`; the pass throws exactly on 401, 403 or 404 with the matching error; otherwise a success adds its record and, unless the issue is the last, one pause |
| `GitHub.CreateGitHubIssues` | src/services/github.ts:12-115 | the requests sent are `Requests` of the issues up to and including the first fatal answer; the batch returns exactly when no answer is fatal, with `Successes` of all answers; otherwise it throws the first fatal answer's error; pauses and warnings are `Pauses` and `Warnings` of the calls made |
| `GitHub.FirstFatal` | src/services/github.ts:93-101 | the position of the first 401, 403 or 404 failure |
| `GitHub.Calls` | src/services/github.ts:25-66 | one call per issue without a fatal failure; otherwise calls up to and including the fatal one |
| `GitHub.Requests` | src/services/github.ts:25-66 | one request per issue handled |
| `GitHub.RequestsPrefix` | src/services/github.ts:25-66 | the `j`-th request sent is the payload built for the `j`-th issue |
| `GitHub.StopsAt` | src/services/github.ts:93-101 | a batch whose first fatal answer is at `i` makes `i + 1` calls |
| `GitHub.RunsThrough` | src/services/github.ts:25-111 | a batch without a fatal answer makes one call per issue |
| `GitHub.NoFatalIff` | src/services/github.ts:93-110 | the batch runs through exactly when no answer has status 401, 403 or 404 |
| `GitHub.Successes` | src/services/github.ts:68-72 | the success list is never longer than the list of responses |
| `GitHub.SuccessesExact` | src/services/github.ts:68-72 | every successful creation is reported and nothing else is; the list is complete exactly when every call succeeded |
| `GitHub.NonFatalFailuresContinue` | src/services/github.ts:102-110 | 422, any other status, or an error without a status never stops the batch |
| `GitHub.FatalStops` | src/services/github.ts:93-101 | the first fatal failure is the last call made |
| `GitHub.PausesCount` | src/services/github.ts:80-84 | one pause follows each success except the one for the batch's last issue |
| `GitHub.UnprocessableThirdExample` | src/services/github.ts:102-110 | with five issues and a 422 on the third, all five are sent and the four successes are reported in order |
| `GitHub.UnauthorizedSecondExample` | src/services/github.ts:96-97 | with five issues and a 401 on the second, only two calls are made and `AuthenticationFailed` is thrown |
| `GitHub.MilestoneResolvedIgnoringCase` | src/services/github.ts:54-59 | the first milestone whose title equals the name up to case is the one resolved |
| `GitHub.SprintExample` | src/services/github.ts:54-56 | `"Sprint 1"` resolves to the milestone titled `"SPRINT 1"` |
| `GitHub.GetRepositoryMetadata` | src/services/github.ts:117-149 | never throws; the milestones survive a failing label fetch; labels are fetched only after milestones succeed; a warning is given exactly when a fetch fails |
| `GitHub.AccessCatch` | src/services/github.ts:163-181 | 401, 403 and 404 map to their errors; any other status gives a generic API error; an error without a status is rethrown; anything else is unknown |
| `GitHub.ValidateGitHubAccess` | src/services/github.ts:151-182 | access passes exactly when both `repos.get` calls succeed and the token may push or administer; otherwise the matching error is given |
| `GitHub.AccessAgreesWithSubmitter` | src/services/github.ts:165-176 | the access check and the submitter throw the same error for 401, 403 and 404; only the access check throws for other statuses |
| `Upload.UploadRows` | src/commands/upload.ts:42-72 | the rows are parsed as `ParseRows` says, then validated, the metadata fetched and the issues submitted as `Outcome` says, with one scripted answer per parsed issue |
| `Upload.ValidateAndSubmit` | src/commands/upload.ts:44-72 | a validation error stops the upload before any fetch, request or pause; otherwise a failed metadata listing only warns, the request for call `i` is the payload of the `i`-th repaired issue, pauses and milestone warnings are `Pauses` and `Warnings` of the calls made, the upload returns exactly when no answer is fatal, with the in-order successes, and otherwise aborts with the first fatal answer's error |
| `Upload.RepairedAll` | src/commands/upload.ts:43-44 | once validation passes, every record holds its repaired value |

## Left out

- Reading the CSV file (`fs.createReadStream`, the `csv-parser` library, stream events, quoting and
  header handling). The model starts from the list of rows already read.
- The stream's "Error reading CSV file" rejection. It comes from file I/O.
- The "Title is required" throw of `parseRowToIssue`. It cannot be reached with string cells: the row has
  already been kept only when `Title` or `title` is non-empty.
- Date parsing and `toLocaleDateString`. They depend on the locale and the runtime. `DateFormatter` stands
  for both: it maps the trimmed cell to an optional formatted date.
- Network calls (`issues.create`, `listMilestones`, `listLabelsForRepo`, `repos.get`). Their answers are
  parameters, and one scripted answer is given per call.
- `GitHub.CreateGitHubIssues`: takes the fetched metadata as a parameter instead of calling
  `getRepositoryMetadata` itself; `Upload.ValidateAndSubmit` makes that fetch just before calling it.
- `GitHub.CreateGitHubIssues`: needs exactly one scripted response per issue. The script stands in for
  the remote, which answers every call it receives.
- The `setTimeout` pause. It is counted, not timed.
- Spinners, `chalk` colours and console output. This includes the verbose URL line and the "might be due
  to invalid assignees" note printed for 422.
- Validator warnings and the unresolved-milestone warning. They are returned as lists instead of printed.
- Messages. Errors are constructors carrying the row number and the offending value, not the message
  strings. Token refusals keep their reason texts (`TokenProblemReason`).
- Use of the metadata's label list. It is fetched but never read by the submitter, so the model keeps
  it only as data.
- `validateSafeFilePath`: file-system existence, stat and access checks.
- The `'url'` branch of `maskSensitiveData`, and URL parsing for `validateNetworkRequest`. Both depend on
  the WHATWG `URL` parser, so `validateNetworkRequest` is modelled over an already parsed protocol and host
  name.
- The `default` branch of `maskSensitiveData`. The typed kind never reaches it.
- The timestamp and console output of `logSecurityEvent`. Only its details transform is modelled.
- Interactive prompting, previews, confirmation, dry runs and result printing in
  `src/commands/upload.ts`, and the `owner/repo` split. CLI flag parsing in `src/index.ts`.
- `security-audit.js` and `test-parser.js`.
- The `typeof` and `Array.isArray` guards. Dafny's types make them vacuous.
- Unicode case mapping. `toLowerCase` is modelled for ASCII letters only, and `length` is the number of
  code units, `|s|`.
- Object identity. `validateCsvData` mutates the `IssueData` objects it is given. The model replaces each
  array slot with the repaired value, so aliasing of the records is not captured.
