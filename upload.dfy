/** The pipeline of src/commands/upload.ts:43-44,72: the rows are parsed, the issues validated and
    repaired in place, and only then submitted. */
module Upload {
  import opened Wrappers
  import opened Types
  import CsvParser
  import Validators
  import GitHub

  /** Why an upload stopped: a record failed validation, or a submission failed fatally. */
  datatype UploadError = Invalid(validation: Validators.ValidationError) | Aborted(fatal: GitHub.GitHubError)

  /** Parse, validate, submit. `milestonesAnswer` and `labelsAnswer` answer the metadata fetch made before
      the first create call; `responses[i]` answers the create call for the i-th parsed issue. A validation
      error stops the upload before any request; otherwise every repaired issue is submitted in order until
      the first fatal failure. */
  method UploadRows(rows: seq<CsvParser.Row>, formatDate: CsvParser.DateFormatter, owner: string, repo: string,
                    milestonesAnswer: GitHub.Listing<GitHub.Milestone>, labelsAnswer: GitHub.Listing<GitHub.RepoLabel>,
                    responses: seq<GitHub.Response>, verbose: bool)
    returns (requests: seq<GitHub.Payload>, pauses: nat, warnings: seq<string>, metadataWarned: bool,
             result: Result<seq<CreatedIssue>, UploadError>)
    requires |responses| >= |rows|
    ensures var issues := CsvParser.ParseRows(rows, formatDate);
      Outcome(issues, responses[..|issues|], owner, repo, milestonesAnswer, labelsAnswer, verbose,
              requests, pauses, warnings, metadataWarned, result)
  {
    var issues := CsvParser.ParseCsvFile(rows, formatDate);
    requests, pauses, warnings, metadataWarned, result :=
      ValidateAndSubmit(issues, owner, repo, milestonesAnswer, labelsAnswer, responses[..|issues|], verbose);
  }

  /** The milestones the submitter resolves against: those listed, or none when the listing failed. */
  function Milestones(milestonesAnswer: GitHub.Listing<GitHub.Milestone>): seq<GitHub.Milestone> {
    if milestonesAnswer.Listed? then milestonesAnswer.items else []
  }

  /** What an upload of the parsed `issues` does, `script[i]` answering the create call for `issues[i]`:
      a validation error stops it before any request, fetch or pause; otherwise the metadata is fetched (a
      failed listing only warns), the repaired issues are submitted in order until the first fatal failure
      with a pause after each success but the last issue's, unresolved milestones are warned about under
      `verbose`, and the result is the successes or the fatal error. */
  predicate Outcome(issues: seq<IssueData>, script: seq<GitHub.Response>, owner: string, repo: string,
                    milestonesAnswer: GitHub.Listing<GitHub.Milestone>, labelsAnswer: GitHub.Listing<GitHub.RepoLabel>, verbose: bool,
                    requests: seq<GitHub.Payload>, pauses: nat, warnings: seq<string>, metadataWarned: bool,
                    result: Result<seq<CreatedIssue>, UploadError>)
    requires |script| == |issues|
  {
    var checked := Validators.CheckCsvData(issues);
    var milestones := Milestones(milestonesAnswer);
    && (checked.error.Some? ==>
        && requests == [] && pauses == 0 && warnings == [] && !metadataWarned
        && result == Err(Invalid(checked.error.value)))
    && (checked.error.None? ==>
        && (metadataWarned <==> milestonesAnswer.ListingFailed? || labelsAnswer.ListingFailed?)
        && |requests| == GitHub.Calls(script)
        && (forall i :: 0 <= i < |requests| ==>
              requests[i] == GitHub.PayloadFor(owner, repo, Validators.Repaired(issues[i]), milestones))
        && |checked.issues| == |issues|
        && pauses == GitHub.Pauses(script[..GitHub.Calls(script)], |issues|)
        && warnings == GitHub.Warnings(checked.issues[..GitHub.Calls(script)], milestones, verbose)
        && (result.Ok? <==> GitHub.FirstFatal(script) == |script|)
        && (result.Ok? ==> result.value == GitHub.Successes(script))
        && (result.Err? ==> result.error.Aborted?
                            && Some(result.error.fatal) == GitHub.FatalError(script[GitHub.FirstFatal(script)], owner, repo)))
  }

  /** Lines 44-72 of src/commands/upload.ts: the parsed records are validated and repaired in place, and
      only then submitted; the submitter first fetches the repository's milestones and labels. */
  method ValidateAndSubmit(issues: seq<IssueData>, owner: string, repo: string,
                           milestonesAnswer: GitHub.Listing<GitHub.Milestone>, labelsAnswer: GitHub.Listing<GitHub.RepoLabel>,
                           script: seq<GitHub.Response>, verbose: bool)
    returns (requests: seq<GitHub.Payload>, pauses: nat, warnings: seq<string>, metadataWarned: bool,
             result: Result<seq<CreatedIssue>, UploadError>)
    requires |script| == |issues|
    ensures Outcome(issues, script, owner, repo, milestonesAnswer, labelsAnswer, verbose,
                    requests, pauses, warnings, metadataWarned, result)
  {
    var records := new IssueData[|issues|](i requires 0 <= i < |issues| => issues[i]);
    assert records[..] == issues;
    var validationWarnings, error := Validators.ValidateCsvData(records);
    if error.Some? {
      return [], 0, [], false, Err(Invalid(error.value));
    }
    var validated := records[..];
    RepairedAll(issues, validated);
    var metadata, metadataCalls;
    metadata, metadataCalls, metadataWarned := GitHub.GetRepositoryMetadata(milestonesAnswer, labelsAnswer);
    var created;
    requests, pauses, warnings, created := GitHub.CreateGitHubIssues(owner, repo, validated, metadata, script, verbose);
    GitHub.RequestsPrefix(owner, repo, validated, GitHub.Calls(script), metadata.milestones);
    result := match created
      case Ok(list) => Ok(list)
      case Err(fatal) => Err(Aborted(fatal));
  }

  /** Once validation passes, every record holds its repaired value. */
  lemma RepairedAll(issues: seq<IssueData>, validated: seq<IssueData>)
    requires issues != []
    requires Validators.CheckCsvData(issues).error.None? && validated == Validators.CheckCsvData(issues).issues
    ensures |validated| == |issues|
    ensures forall i :: 0 <= i < |issues| ==> validated[i] == Validators.Repaired(issues[i])
  {
    Validators.CheckCsvDataPasses(issues);
    Validators.CheckCsvDataRepairsPrefix(issues);
  }
}
