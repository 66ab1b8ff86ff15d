/** The batch submitter and the remote checks of src/services/github.ts. The remote is a script: the
    i-th call of a kind receives the i-th answer given for it. */
module GitHub {
  import opened Wrappers
  import opened Seqs
  import opened Strings
  import opened Types

  /** A milestone of the repository, as `listMilestones` reports it. */
  datatype Milestone = Milestone(number: int, title: string)

  /** A label of the repository, as `listLabelsForRepo` reports it. */
  datatype RepoLabel = RepoLabel(name: string, color: string)

  /** The snapshot `getRepositoryMetadata` returns. */
  datatype Metadata = Metadata(milestones: seq<Milestone>, labels: seq<RepoLabel>)

  /** How a remote call failed: an `Error` that carries an HTTP `status`, an `Error` without one, or a
      thrown value that is not an `Error` at all. */
  datatype Failure = StatusError(status: int, message: string) | PlainError(message: string) | NonError

  /** The answer to one `issues.create` call. */
  datatype Response = Created(number: int, title: string, htmlUrl: string) | Failed(failure: Failure)

  /** The errors this file throws. */
  datatype GitHubError =
    | AuthenticationFailed
    | AccessForbidden
    | RepositoryNotFound(owner: string, repo: string)
    | ApiError(message: string)
    | InsufficientPermissions(owner: string, repo: string)
    | Rethrown(message: string)
    | UnknownAccessError

  // ---------------------------------------------------------------------------
  // Error classification
  // ---------------------------------------------------------------------------

  /** The statuses whose `case` throws: the token or the repository is wrong for the whole batch. */
  predicate IsFatalStatus(status: int) {
    status == 401 || status == 403 || status == 404
  }

  /** The throwing cases of the `switch (status)`. */
  function StatusToError(status: int, owner: string, repo: string): (r: Option<GitHubError>)
    ensures r.Some? <==> IsFatalStatus(status)
    ensures r == Some(AuthenticationFailed) <==> status == 401
    ensures r == Some(AccessForbidden) <==> status == 403
    ensures r == Some(RepositoryNotFound(owner, repo)) <==> status == 404
  {
    if status == 401 then Some(AuthenticationFailed)
    else if status == 403 then Some(AccessForbidden)
    else if status == 404 then Some(RepositoryNotFound(owner, repo))
    else None
  }

  /** A response that stops the batch: a failure with status 401, 403 or 404. */
  predicate IsFatal(r: Response) {
    r.Failed? && r.failure.StatusError? && IsFatalStatus(r.failure.status)
  }

  /** The error a failed create call throws, if it throws one (lines 89-107). */
  function FatalError(r: Response, owner: string, repo: string): (e: Option<GitHubError>)
    ensures e.Some? <==> IsFatal(r)
  {
    match r
    case Created(_, _, _) => None
    case Failed(f) => if f.StatusError? then StatusToError(f.status, owner, repo) else None
  }

  // ---------------------------------------------------------------------------
  // Payload and milestone resolution
  // ---------------------------------------------------------------------------

  /** A milestone whose title equals `title` up to case. */
  predicate SameTitle(m: Milestone, title: string) {
    ToLower(m.title) == ToLower(title)
  }

  /** `existingMilestones.find(...)` followed by `.number`: the first milestone whose title matches up to case. */
  function FindMilestone(milestones: seq<Milestone>, title: string): (r: Option<int>)
    ensures r.None? <==> forall i :: 0 <= i < |milestones| ==> !SameTitle(milestones[i], title)
    ensures r.Some? ==> exists k :: 0 <= k < |milestones| && SameTitle(milestones[k], title)
                                    && r.value == milestones[k].number
                                    && forall j :: 0 <= j < k ==> !SameTitle(milestones[j], title)
  {
    var k := FirstIndex(milestones, m => SameTitle(m, title));
    if k < |milestones| then Some(milestones[k].number) else None
  }

  /** The request body of `issues.create`; a `None` field is left out of the request. */
  datatype Payload = Payload(
    owner: string, repo: string, title: string, body: string,
    labels: Option<seq<string>>, assignees: Option<seq<string>>, milestone: Option<int>)

  /** The issue names a milestone: `issue.milestone` is truthy. */
  predicate HasMilestone(issue: IssueData) {
    issue.milestone.Some? && issue.milestone.value != []
  }

  /** The request lines 33-63 build for one issue: the body defaults to `''`, non-empty lists are passed
      through unchanged and empty ones left out, and a named milestone is sent only when it resolves. */
  function PayloadFor(owner: string, repo: string, issue: IssueData, milestones: seq<Milestone>): (p: Payload)
    ensures p.owner == owner && p.repo == repo && p.title == issue.title
    ensures issue.body.Some? ==> p.body == issue.body.value
    ensures issue.body.None? ==> p.body == ""
    ensures p.labels.Some? <==> issue.labels.Some? && issue.labels.value != []
    ensures p.labels.Some? ==> p.labels == issue.labels
    ensures p.assignees.Some? <==> issue.assignees.Some? && issue.assignees.value != []
    ensures p.assignees.Some? ==> p.assignees == issue.assignees
    ensures !HasMilestone(issue) ==> p.milestone.None?
    ensures HasMilestone(issue) ==> p.milestone == FindMilestone(milestones, issue.milestone.value)
  {
    Payload(owner, repo, issue.title, issue.body.GetOr(""),
            if issue.labels.Some? && issue.labels.value != [] then issue.labels else None,
            if issue.assignees.Some? && issue.assignees.value != [] then issue.assignees else None,
            if HasMilestone(issue) then FindMilestone(milestones, issue.milestone.value) else None)
  }

  /** A named milestone that does not resolve: with `verbose` it draws a warning. */
  predicate MilestoneMissing(issue: IssueData, milestones: seq<Milestone>) {
    HasMilestone(issue) && FindMilestone(milestones, issue.milestone.value).None?
  }

  // ---------------------------------------------------------------------------
  // createGitHubIssues: the specification of the loop
  // ---------------------------------------------------------------------------

  /** Position of the first fatal response, or `|rs|`. */
  function FirstFatal(rs: seq<Response>): (f: nat)
    ensures f <= |rs|
    ensures forall j :: 0 <= j < f ==> !IsFatal(rs[j])
    ensures f < |rs| ==> IsFatal(rs[f])
  {
    FirstIndex(rs, IsFatal)
  }

  /** The number of create calls made: one per issue up to and including the first fatal failure. */
  function Calls(rs: seq<Response>): (n: nat)
    ensures n <= |rs|
    ensures FirstFatal(rs) == |rs| ==> n == |rs|
    ensures FirstFatal(rs) < |rs| ==> n == FirstFatal(rs) + 1
  {
    var f := FirstFatal(rs);
    if f < |rs| then f + 1 else |rs|
  }

  /** The record `createdIssues.push` adds for one answer: one for a success, none for a failure. */
  function Record(r: Response): seq<CreatedIssue> {
    match r
    case Created(number, title, url) => [CreatedIssue(number, title, url)]
    case Failed(_) => []
  }

  /** The records of the successful creations among `rs`, in order. */
  function Successes(rs: seq<Response>): (r: seq<CreatedIssue>)
    ensures |r| <= |rs|
  {
    if rs == [] then [] else Successes(rs[..|rs| - 1]) + Record(rs[|rs| - 1])
  }

  /** The pauses taken after the calls answered by `rs`, in a batch of `total` issues: one after every
      success that is not the batch's last issue. */
  function Pauses(rs: seq<Response>, total: nat): nat {
    if rs == [] then 0
    else Pauses(rs[..|rs| - 1], total) + (if rs[|rs| - 1].Created? && |rs| < total then 1 else 0)
  }

  /** The milestone titles warned about, in order. */
  function Unresolved(issues: seq<IssueData>, milestones: seq<Milestone>): (r: seq<string>)
    ensures |r| <= |issues|
  {
    if issues == [] then []
    else
      var last := issues[|issues| - 1];
      Unresolved(issues[..|issues| - 1], milestones)
      + if MilestoneMissing(last, milestones) then [last.milestone.value] else []
  }

  lemma SuccessesStep(rs: seq<Response>)
    requires rs != []
    ensures Successes(rs) == Successes(rs[..|rs| - 1]) + Record(rs[|rs| - 1])
  {
  }

  /** The requests sent for `issues`, in order. */
  function Requests(owner: string, repo: string, issues: seq<IssueData>, milestones: seq<Milestone>): (ps: seq<Payload>)
    ensures |ps| == |issues|
  {
    if issues == [] then []
    else Requests(owner, repo, issues[..|issues| - 1], milestones) + [PayloadFor(owner, repo, issues[|issues| - 1], milestones)]
  }

  lemma RequestsPush(owner: string, repo: string, issues: seq<IssueData>, i: nat, milestones: seq<Milestone>)
    requires i < |issues|
    ensures Requests(owner, repo, issues[..i + 1], milestones)
      == Requests(owner, repo, issues[..i], milestones) + [PayloadFor(owner, repo, issues[i], milestones)]
  {
    assert issues[..i + 1][..i] == issues[..i];
  }

  /** The `j`-th request sent for a prefix of the batch is the payload of the `j`-th issue. */
  lemma {:induction false} RequestsPrefix(owner: string, repo: string, issues: seq<IssueData>, n: nat, milestones: seq<Milestone>)
    requires n <= |issues|
    ensures forall j :: 0 <= j < n ==> Requests(owner, repo, issues[..n], milestones)[j] == PayloadFor(owner, repo, issues[j], milestones)
    decreases n
  {
    if n > 0 {
      RequestsPrefix(owner, repo, issues, n - 1, milestones);
      RequestsPush(owner, repo, issues, n - 1, milestones);
    }
  }

  /** `Successes`, `Pauses` and `Unresolved` over the first `i + 1` elements, from the first `i`. */
  lemma SuccessesPush(rs: seq<Response>, i: nat)
    requires i < |rs|
    ensures Successes(rs[..i + 1]) == Successes(rs[..i]) + Record(rs[i])
  {
    assert rs[..i + 1][..i] == rs[..i];
    SuccessesStep(rs[..i + 1]);
  }

  lemma PausesPush(rs: seq<Response>, i: nat, total: nat)
    requires i < |rs|
    ensures Pauses(rs[..i + 1], total) == Pauses(rs[..i], total) + (if rs[i].Created? && i + 1 < total then 1 else 0)
  {
    assert rs[..i + 1][..i] == rs[..i];
  }

  lemma UnresolvedPush(issues: seq<IssueData>, i: nat, milestones: seq<Milestone>)
    requires i < |issues|
    ensures Unresolved(issues[..i + 1], milestones) == Unresolved(issues[..i], milestones)
      + if MilestoneMissing(issues[i], milestones) then [issues[i].milestone.value] else []
  {
    assert issues[..i + 1][..i] == issues[..i];
  }

  /** The warnings printed for `issues`: with `verbose`, one per unresolved milestone, in order. */
  function Warnings(issues: seq<IssueData>, milestones: seq<Milestone>, verbose: bool): seq<string> {
    if verbose then Unresolved(issues, milestones) else []
  }

  /** What the create call for `issues[i]` adds to each accumulated value, and that a non-fatal
      answer keeps the batch going. */
  lemma Advance(owner: string, repo: string, issues: seq<IssueData>, milestones: seq<Milestone>, verbose: bool,
                responses: seq<Response>, i: nat)
    requires i < |issues| == |responses| && i <= FirstFatal(responses)
    ensures Requests(owner, repo, issues[..i + 1], milestones)
      == Requests(owner, repo, issues[..i], milestones) + [PayloadFor(owner, repo, issues[i], milestones)]
    ensures Successes(responses[..i + 1]) == Successes(responses[..i]) + Record(responses[i])
    ensures Pauses(responses[..i + 1], |issues|)
      == Pauses(responses[..i], |issues|) + (if responses[i].Created? && i + 1 < |issues| then 1 else 0)
    ensures Warnings(issues[..i + 1], milestones, verbose) == Warnings(issues[..i], milestones, verbose)
      + (if verbose && MilestoneMissing(issues[i], milestones) then [issues[i].milestone.value] else [])
    ensures !IsFatal(responses[i]) ==> i + 1 <= FirstFatal(responses)
  {
    RequestsPush(owner, repo, issues, i, milestones);
    SuccessesPush(responses, i);
    PausesPush(responses, i, |issues|);
    UnresolvedPush(issues, i, milestones);
  }

  /** A batch whose first fatal response is at `i` makes `i + 1` calls. */
  lemma StopsAt(rs: seq<Response>, i: nat)
    requires i <= FirstFatal(rs) && i < |rs| && IsFatal(rs[i])
    ensures FirstFatal(rs) == i && Calls(rs) == i + 1
  {
  }

  /** A batch without a fatal response makes one call per issue. */
  lemma RunsThrough(rs: seq<Response>)
    requires FirstFatal(rs) == |rs|
    ensures Calls(rs) == |rs| && rs[..Calls(rs)] == rs
  {
  }

  /** The batch runs through exactly when no response is fatal. */
  lemma NoFatalIff(rs: seq<Response>)
    ensures FirstFatal(rs) == |rs| <==> forall j :: 0 <= j < |rs| ==> !IsFatal(rs[j])
  {
  }

  // ---------------------------------------------------------------------------
  // createGitHubIssues
  // ---------------------------------------------------------------------------

  /** Lines 33-63: the request for one issue is filled field by field; a milestone that does not resolve
      is left out and, with `verbose`, warned about. */
  method BuildPayload(owner: string, repo: string, issue: IssueData, milestones: seq<Milestone>, verbose: bool)
    returns (payload: Payload, warning: Option<string>)
    ensures payload == PayloadFor(owner, repo, issue, milestones)
    ensures warning.Some? <==> verbose && MilestoneMissing(issue, milestones)
    ensures warning.Some? ==> warning.value == issue.milestone.value
  {
    warning := None;
    payload := Payload(owner, repo, issue.title, issue.body.GetOr(""), None, None, None);
    if issue.labels.Some? && |issue.labels.value| > 0 {
      payload := payload.(labels := issue.labels);
    }
    if issue.assignees.Some? && |issue.assignees.value| > 0 {
      payload := payload.(assignees := issue.assignees);
    }
    if issue.milestone.Some? && issue.milestone.value != [] {
      var milestone := FindMilestone(milestones, issue.milestone.value);
      if milestone.Some? {
        payload := payload.(milestone := milestone);
      } else if verbose {
        warning := Some(issue.milestone.value);
      }
    }
  }

  /** One pass of the loop, lines 26-109: the request for `issue` is built and sent and `response` is
      its answer. A success is recorded and followed by a pause unless `issue` is the batch's last; a
      failure with status 401, 403 or 404 gives the error to throw; any other failure is passed over. */
  method CreateIssue(owner: string, repo: string, issue: IssueData, milestones: seq<Milestone>,
                     response: Response, last: bool, verbose: bool)
    returns (payload: Payload, warned: seq<string>, record: seq<CreatedIssue>, pause: nat, fatal: Option<GitHubError>)
    ensures payload == PayloadFor(owner, repo, issue, milestones)
    ensures warned == if verbose && MilestoneMissing(issue, milestones) then [issue.milestone.value] else []
    ensures fatal.Some? <==> IsFatal(response)
    ensures fatal == FatalError(response, owner, repo)
    ensures fatal.None? ==> record == Record(response)
    ensures fatal.None? ==> pause == if response.Created? && !last then 1 else 0
  {
    var warning;
    payload, warning := BuildPayload(owner, repo, issue, milestones, verbose);
    warned := if warning.Some? then [warning.value] else [];
    record, pause, fatal := [], 0, None;
    match response {
      case Created(number, title, url) =>
        record := [CreatedIssue(number, title, url)];
        if !last {
          pause := 1;
        }
      case Failed(failure) =>
        if failure.StatusError? {
          fatal := StatusToError(failure.status, owner, repo);
        }
    }
  }

  /** `createGitHubIssues`: `responses[i]` answers the create call for `issues[i]`. The requests sent are
      returned with the pauses taken and the warnings printed. Without a fatal failure the result is the
      in-order list of the successes; the first 401, 403 or 404 throws and nothing after it is sent. */
  method CreateGitHubIssues(owner: string, repo: string, issues: seq<IssueData>, metadata: Metadata,
                            responses: seq<Response>, verbose: bool)
    returns (requests: seq<Payload>, pauses: nat, warnings: seq<string>, result: Result<seq<CreatedIssue>, GitHubError>)
    requires |responses| == |issues|
    ensures requests == Requests(owner, repo, issues[..Calls(responses)], metadata.milestones)
    ensures result.Ok? <==> FirstFatal(responses) == |responses|
    ensures result.Ok? ==> result.value == Successes(responses)
    ensures result.Err? ==> FirstFatal(responses) < |responses|
                            && Some(result.error) == FatalError(responses[FirstFatal(responses)], owner, repo)
    ensures pauses == Pauses(responses[..Calls(responses)], |issues|)
    ensures warnings == Warnings(issues[..Calls(responses)], metadata.milestones, verbose)
  {
    var milestones := metadata.milestones;
    requests, pauses, warnings := [], 0, [];
    var createdIssues: seq<CreatedIssue> := [];
    for i := 0 to |issues|
      invariant i <= FirstFatal(responses)
      invariant requests == Requests(owner, repo, issues[..i], milestones)
      invariant createdIssues == Successes(responses[..i])
      invariant pauses == Pauses(responses[..i], |issues|)
      invariant warnings == Warnings(issues[..i], milestones, verbose)
    {
      Advance(owner, repo, issues, milestones, verbose, responses, i);
      var payload, warned, record, pause, fatal :=
        CreateIssue(owner, repo, issues[i], milestones, responses[i], i == |issues| - 1, verbose);
      requests := requests + [payload];
      warnings := warnings + warned;
      if fatal.Some? {
        StopsAt(responses, i);
        result := Err(fatal.value);
        return;
      }
      createdIssues := createdIssues + record;
      pauses := pauses + pause;
    }
    RunsThrough(responses);
    assert issues[..|issues|] == issues;
    result := Ok(createdIssues);
  }

  // ---------------------------------------------------------------------------
  // Properties of the submission
  // ---------------------------------------------------------------------------

  /** Every success is reported, in order, and nothing else is: the records are exactly the
      successful responses, and a failure adds none. */
  lemma {:induction false} SuccessesExact(rs: seq<Response>)
    ensures forall k :: 0 <= k < |rs| && rs[k].Created? ==>
      CreatedIssue(rs[k].number, rs[k].title, rs[k].htmlUrl) in Successes(rs)
    ensures forall c :: c in Successes(rs) ==> Created(c.number, c.title, c.htmlUrl) in rs
    ensures |Successes(rs)| == |rs| <==> forall k :: 0 <= k < |rs| ==> rs[k].Created?
  {
    if rs != [] {
      var init := rs[..|rs| - 1];
      SuccessesExact(init);
      forall k | 0 <= k < |rs| && rs[k].Created?
        ensures CreatedIssue(rs[k].number, rs[k].title, rs[k].htmlUrl) in Successes(rs)
      {
        if k < |init| {
          assert rs[k] == init[k];
        }
      }
      forall c | c in Successes(rs) ensures Created(c.number, c.title, c.htmlUrl) in rs {
        if c in Successes(init) {
          var j :| 0 <= j < |init| && init[j] == Created(c.number, c.title, c.htmlUrl);
          assert rs[j] == init[j];
        }
      }
      if |Successes(rs)| == |rs| {
        assert rs[|rs| - 1].Created?;
        forall k | 0 <= k < |rs| ensures rs[k].Created? {
          if k < |init| {
            assert rs[k] == init[k];
          }
        }
      }
    }
  }

  /** Failures that are not 401, 403 or 404 (a 422, another status, an error without a status) never stop
      the batch: every issue is submitted. */
  lemma NonFatalFailuresContinue(rs: seq<Response>)
    requires forall i :: 0 <= i < |rs| ==> rs[i].Created? || !rs[i].failure.StatusError? || !IsFatalStatus(rs[i].failure.status)
    ensures Calls(rs) == |rs|
  {
  }

  /** A fatal failure at position `f`, after non-fatal answers only, is the last call made. */
  lemma FatalStops(rs: seq<Response>, f: nat)
    requires f < |rs| && IsFatal(rs[f])
    requires forall j :: 0 <= j < f ==> !IsFatal(rs[j])
    ensures Calls(rs) == f + 1
  {
    assert FirstFatal(rs) == f;
  }

  /** A pause follows each success but the one answering the batch's last issue. */
  lemma {:induction false} PausesCount(rs: seq<Response>, total: nat)
    requires |rs| <= total
    ensures Pauses(rs, total) ==
      |Successes(rs)| - (if |rs| == total && rs != [] && rs[|rs| - 1].Created? then 1 else 0)
  {
    if rs != [] {
      var init := rs[..|rs| - 1];
      PausesCount(init, total);
    }
  }

  /** Five issues whose third answer is a 422: the batch completes, all five are submitted and the four
      successes are reported in order. */
  lemma UnprocessableThirdExample(c1: Response, c2: Response, c4: Response, c5: Response, message: string)
    requires c1.Created? && c2.Created? && c4.Created? && c5.Created?
    ensures var rs := [c1, c2, Failed(StatusError(422, message)), c4, c5];
      && Calls(rs) == 5
      && Successes(rs) == [CreatedIssue(c1.number, c1.title, c1.htmlUrl), CreatedIssue(c2.number, c2.title, c2.htmlUrl),
                           CreatedIssue(c4.number, c4.title, c4.htmlUrl), CreatedIssue(c5.number, c5.title, c5.htmlUrl)]
  {
    var f := Failed(StatusError(422, message));
    var rs := [c1, c2, f, c4, c5];
    var e: seq<Response> := [];
    SuccessesStep([c1]);
    assert [c1][..0] == e;
    SuccessesStep([c1, c2]);
    assert [c1, c2][..1] == [c1];
    SuccessesStep([c1, c2, f]);
    assert [c1, c2, f][..2] == [c1, c2];
    SuccessesStep([c1, c2, f, c4]);
    assert [c1, c2, f, c4][..3] == [c1, c2, f];
    SuccessesStep(rs);
    assert rs[..4] == [c1, c2, f, c4];
  }

  /** Five issues whose second answer is a 401: the batch throws `AuthenticationFailed` after two calls, so
      issues three to five are never submitted. */
  lemma UnauthorizedSecondExample(r1: Response, r3: Response, r4: Response, r5: Response, message: string, owner: string, repo: string)
    requires r1.Created?
    ensures var rs := [r1, Failed(StatusError(401, message)), r3, r4, r5];
      && Calls(rs) == 2
      && FatalError(rs[FirstFatal(rs)], owner, repo) == Some(AuthenticationFailed)
  {
    var rs := [r1, Failed(StatusError(401, message)), r3, r4, r5];
    FatalStops(rs, 1);
  }

  /** A milestone is resolved whatever the case of its title: the first one equal up to case wins. */
  lemma MilestoneResolvedIgnoringCase(milestones: seq<Milestone>, k: nat, title: string)
    requires k < |milestones| && ToLower(milestones[k].title) == ToLower(title)
    requires forall j :: 0 <= j < k ==> !SameTitle(milestones[j], title)
    ensures FindMilestone(milestones, title) == Some(milestones[k].number)
  {
    var r := FindMilestone(milestones, title);
    assert SameTitle(milestones[k], title);
    var i :| 0 <= i < |milestones| && SameTitle(milestones[i], title) && r.value == milestones[i].number
             && forall j :: 0 <= j < i ==> !SameTitle(milestones[j], title);
    assert i == k;
  }

  /** `"Sprint 1"` names the milestone titled `"SPRINT 1"`. */
  lemma SprintExample(m: Milestone, title: string)
    requires m.title == "SPRINT 1" && title == "Sprint 1"
    ensures FindMilestone([m], title) == Some(m.number)
  {
    assert ToLower(m.title) == ToLower(title) by {
      assert forall i :: 0 <= i < 8 ==> LowerChar(m.title[i]) == LowerChar(title[i]);
    }
    MilestoneResolvedIgnoringCase([m], 0, title);
  }

  // ---------------------------------------------------------------------------
  // getRepositoryMetadata
  // ---------------------------------------------------------------------------

  /** The answer to a list call: the items, or a failure. */
  datatype Listing<T> = Listed(items: seq<T>) | ListingFailed

  /** `getRepositoryMetadata`: milestones are listed first and labels only after them; a failure ends the
      collection with a warning and keeps what was already collected. It never throws. */
  method GetRepositoryMetadata(milestonesAnswer: Listing<Milestone>, labelsAnswer: Listing<RepoLabel>)
    returns (metadata: Metadata, calls: nat, warned: bool)
    ensures metadata.milestones == if milestonesAnswer.Listed? then milestonesAnswer.items else []
    ensures metadata.labels == if milestonesAnswer.Listed? && labelsAnswer.Listed? then labelsAnswer.items else []
    ensures calls == if milestonesAnswer.Listed? then 2 else 1
    ensures warned <==> milestonesAnswer.ListingFailed? || labelsAnswer.ListingFailed?
  {
    var existingMilestones: seq<Milestone> := [];
    var existingLabels: seq<RepoLabel> := [];
    warned := false;
    calls := 1;
    match milestonesAnswer {
      case ListingFailed =>
        warned := true;
      case Listed(milestones) =>
        existingMilestones := existingMilestones + milestones;
        calls := 2;
        match labelsAnswer {
          case ListingFailed =>
            warned := true;
          case Listed(labels) =>
            existingLabels := existingLabels + labels;
        }
    }
    metadata := Metadata(existingMilestones, existingLabels);
  }

  // ---------------------------------------------------------------------------
  // validateGitHubAccess
  // ---------------------------------------------------------------------------

  /** The answer to `repos.get`: whether the token may push or administer (a missing permission reads as
      `false`), or a failure. */
  datatype RepoAnswer = RepoData(push: bool, admin: bool) | RepoFailed(failure: Failure)

  /** The catch block of lines 163-181: 401, 403 and 404 get their own errors and any other status a
      generic API error; an `Error` without a status is rethrown as it is; anything else is unknown. */
  function AccessCatch(f: Failure, owner: string, repo: string): (e: GitHubError)
    ensures f.StatusError? && IsFatalStatus(f.status) ==> Some(e) == StatusToError(f.status, owner, repo)
    ensures f.StatusError? && !IsFatalStatus(f.status) ==> e == ApiError(f.message)
    ensures f.PlainError? ==> e == Rethrown(f.message)
    ensures f.NonError? ==> e == UnknownAccessError
  {
    match f
    case StatusError(status, message) => StatusToError(status, owner, repo).GetOr(ApiError(message))
    case PlainError(message) => Rethrown(message)
    case NonError => UnknownAccessError
  }

  /** `validateGitHubAccess`: `repos.get` is called twice and only the second answer's permissions are
      looked at. The permission error is an `Error` without a status, so the catch block rethrows it. */
  function ValidateGitHubAccess(owner: string, repo: string, first: RepoAnswer, second: RepoAnswer): (r: Option<GitHubError>)
    ensures r.None? <==> first.RepoData? && second.RepoData? && (second.push || second.admin)
    ensures first.RepoFailed? ==> r == Some(AccessCatch(first.failure, owner, repo))
    ensures first.RepoData? && second.RepoFailed? ==> r == Some(AccessCatch(second.failure, owner, repo))
    ensures first.RepoData? && second.RepoData? && !second.push && !second.admin ==>
      r == Some(InsufficientPermissions(owner, repo))
  {
    match first
    case RepoFailed(f) => Some(AccessCatch(f, owner, repo))
    case RepoData(_, _) =>
      match second
      case RepoFailed(f) => Some(AccessCatch(f, owner, repo))
      case RepoData(push, admin) =>
        if !push && !admin then Some(InsufficientPermissions(owner, repo)) else None
  }

  /** The access check and the batch submitter throw the same error for the same fatal status, and the
      access check throws for every status, fatal or not. */
  lemma AccessAgreesWithSubmitter(status: int, message: string, owner: string, repo: string)
    ensures IsFatalStatus(status) ==>
      Some(AccessCatch(StatusError(status, message), owner, repo)) == FatalError(Failed(StatusError(status, message)), owner, repo)
    ensures !IsFatalStatus(status) ==>
      FatalError(Failed(StatusError(status, message)), owner, repo).None?
      && AccessCatch(StatusError(status, message), owner, repo) == ApiError(message)
  {
  }
}
