/** Record checks and in-place repair before upload, and the two string predicates of
    src/utils/validators.ts. */
module Validators {
  import opened Wrappers
  import opened Seqs
  import opened Strings
  import opened Types
  import Security

  // The GitHub limits the validator enforces.
  const MaxTitleLength: nat := 256
  const MaxBodyLength: nat := 65536
  const MaxLabelLength: nat := 50
  const MaxLabels: nat := 100
  const MaxAssigneeLength: nat := 39
  const MaxAssignees: nat := 10

  /** The errors thrown; `row` is the 1-based `rowNumber` of the `Row n:` message prefix. */
  datatype ValidationError =
    | NoValidIssues
    | TitleRequired(row: nat)
    | TitleTooLong(row: nat, length: nat)
    | BodyTooLong(row: nat, length: nat)
    | LabelEmpty(row: nat, index: nat)
    | LabelTooLong(row: nat, name: string)
    | TooManyLabels(row: nat, count: nat)
    | AssigneeEmpty(row: nat, index: nat)
    | AssigneeTooLong(row: nat, username: string)
    | TooManyAssignees(row: nat, count: nat)
    | MilestoneEmpty(row: nat)

  /** The `console.warn` messages, collected instead of printed. */
  datatype Warning = LabelUntrimmed(row: nat, name: string) | UnusualUsername(row: nat, username: string)

  /** The state of a `forEach` over a list: warnings so far, and the error that stopped it. */
  datatype Scan = Scan(warnings: seq<Warning>, error: Option<ValidationError>)

  predicate IsAsciiAlnum(c: char) {
    ('a' <= c <= 'z') || ('A' <= c <= 'Z') || ('0' <= c <= '9')
  }

  /** `/^[a-zA-Z0-9]([a-zA-Z0-9-])*[a-zA-Z0-9]$|^[a-zA-Z0-9]$/`, read as its two alternatives. */
  predicate LooksLikeUsername(u: string) {
    || (|u| == 1 && IsAsciiAlnum(u[0]))
    || (&& |u| >= 2 && IsAsciiAlnum(u[0]) && IsAsciiAlnum(u[|u| - 1])
        && forall i :: 1 <= i < |u| - 1 ==> IsAsciiAlnum(u[i]) || u[i] == '-')
  }

  // ---------------------------------------------------------------------------
  // validateIssue
  // ---------------------------------------------------------------------------

  /** Lines 45-57: one label must not be blank nor longer than 50 characters; surrounding
      whitespace only draws a warning. */
  function LabelStep(row: nat, index: nat, name: string, warnings: seq<Warning>): Scan {
    if IsBlank(name) then Scan(warnings, Some(LabelEmpty(row, index + 1)))
    else if |name| > MaxLabelLength then Scan(warnings, Some(LabelTooLong(row, name)))
    else if name != Trim(name) then Scan(warnings + [LabelUntrimmed(row, name)], None)
    else Scan(warnings, None)
  }

  /** Lines 76-88: one assignee must not be blank, and trimmed it must fit in 39 characters; a
      trimmed value outside the username pattern only draws a warning, issued before the length check. */
  function AssigneeStep(row: nat, index: nat, assignee: string, warnings: seq<Warning>): Scan {
    if IsBlank(assignee) then Scan(warnings, Some(AssigneeEmpty(row, index + 1)))
    else
      var username := Trim(assignee);
      var warnings' := if LooksLikeUsername(username) then warnings else warnings + [UnusualUsername(row, username)];
      if |username| > MaxAssigneeLength then Scan(warnings', Some(AssigneeTooLong(row, username)))
      else Scan(warnings', None)
  }

  /** The label `forEach` from position `index` on, starting in state `s`; it stops at the first throw. */
  function LabelsFrom(row: nat, labels: seq<string>, index: nat, s: Scan): Scan {
    if s.error.Some? || labels == [] then s
    else LabelsFrom(row, labels[1..], index + 1, LabelStep(row, index, labels[0], s.warnings))
  }

  function LabelScan(row: nat, labels: seq<string>): Scan {
    LabelsFrom(row, labels, 0, Scan([], None))
  }

  /** The assignee `forEach` from position `index` on, starting in state `s`. */
  function AssigneesFrom(row: nat, assignees: seq<string>, index: nat, s: Scan): Scan {
    if s.error.Some? || assignees == [] then s
    else AssigneesFrom(row, assignees[1..], index + 1, AssigneeStep(row, index, assignees[0], s.warnings))
  }

  function AssigneeScan(row: nat, assignees: seq<string>): Scan {
    AssigneesFrom(row, assignees, 0, Scan([], None))
  }

  /** The record as `validateIssue` leaves it, what it printed and what it threw. */
  datatype Checked = Checked(issue: IssueData, warnings: seq<Warning>, error: Option<ValidationError>)

  /** Lines 39-67: the labels are checked, then replaced by their trimmed values without duplicates,
      and only then counted. */
  function LabelsStage(row: nat, issue: IssueData): Checked {
    match issue.labels
    case None => Checked(issue, [], None)
    case Some(labels) =>
      var s := LabelScan(row, labels);
      if s.error.Some? then Checked(issue, s.warnings, s.error)
      else
        var repaired := Dedup(TrimEach(labels));
        Checked(issue.(labels := Some(repaired)), s.warnings,
                if |repaired| > MaxLabels then Some(TooManyLabels(row, |repaired|)) else None)
  }

  /** Lines 70-98: the same for the assignees, with their own limits. */
  function AssigneesStage(row: nat, issue: IssueData): Checked {
    match issue.assignees
    case None => Checked(issue, [], None)
    case Some(assignees) =>
      var s := AssigneeScan(row, assignees);
      if s.error.Some? then Checked(issue, s.warnings, s.error)
      else
        var repaired := Dedup(TrimEach(assignees));
        Checked(issue.(assignees := Some(repaired)), s.warnings,
                if |repaired| > MaxAssignees then Some(TooManyAssignees(row, |repaired|)) else None)
  }

  /** Lines 101-107: a non-empty milestone must not be blank and is replaced by its trimmed value;
      an empty one is falsy and left alone. */
  function MilestoneStage(row: nat, issue: IssueData): Checked {
    match issue.milestone
    case Some(m) =>
      if m == [] then Checked(issue, [], None)
      else if IsBlank(m) then Checked(issue, [], Some(MilestoneEmpty(row)))
      else Checked(issue.(milestone := Some(Trim(m))), [], None)
    case None => Checked(issue, [], None)
  }

  /** `validateIssue(issue, rowNumber)`: the checks in the source's order, failing fast. A throw
      leaves the repairs already made to the record in place. */
  function CheckIssue(issue: IssueData, row: nat): Checked {
    if IsBlank(issue.title) then Checked(issue, [], Some(TitleRequired(row)))
    else if |issue.title| > MaxTitleLength then Checked(issue, [], Some(TitleTooLong(row, |issue.title|)))
    else if issue.body.Some? && |issue.body.value| > MaxBodyLength then
      Checked(issue, [], Some(BodyTooLong(row, |issue.body.value|)))
    else
      var l := LabelsStage(row, issue);
      if l.error.Some? then l
      else
        var a := AssigneesStage(row, l.issue);
        if a.error.Some? then Checked(a.issue, l.warnings + a.warnings, a.error)
        else
          var m := MilestoneStage(row, a.issue);
          Checked(m.issue, l.warnings + a.warnings, m.error)
  }

  predicate Passes(issue: IssueData, row: nat) {
    CheckIssue(issue, row).error.None?
  }

  /** The label `forEach` of lines 44-58. */
  method CheckLabelList(row: nat, labels: seq<string>) returns (warnings: seq<Warning>, error: Option<ValidationError>)
    ensures Scan(warnings, error) == LabelScan(row, labels)
  {
    warnings, error := [], None;
    for i := 0 to |labels|
      invariant LabelScan(row, labels) == LabelsFrom(row, labels[i..], i, Scan(warnings, None))
    {
      assert labels[i..][1..] == labels[i + 1..];
      var name := labels[i];
      if IsBlank(name) {
        error := Some(LabelEmpty(row, i + 1));
        return;
      } else if |name| > MaxLabelLength {
        error := Some(LabelTooLong(row, name));
        return;
      } else if name != Trim(name) {
        warnings := warnings + [LabelUntrimmed(row, name)];
      }
    }
  }

  /** The assignee `forEach` of lines 75-89. */
  method CheckAssigneeList(row: nat, assignees: seq<string>) returns (warnings: seq<Warning>, error: Option<ValidationError>)
    ensures Scan(warnings, error) == AssigneeScan(row, assignees)
  {
    warnings, error := [], None;
    for i := 0 to |assignees|
      invariant AssigneeScan(row, assignees) == AssigneesFrom(row, assignees[i..], i, Scan(warnings, None))
    {
      assert assignees[i..][1..] == assignees[i + 1..];
      var assignee := assignees[i];
      if IsBlank(assignee) {
        error := Some(AssigneeEmpty(row, i + 1));
        return;
      }
      var username := Trim(assignee);
      if !LooksLikeUsername(username) {
        warnings := warnings + [UnusualUsername(row, username)];
      }
      if |username| > MaxAssigneeLength {
        error := Some(AssigneeTooLong(row, username));
        return;
      }
    }
  }

  /** `validateIssue`: the repaired record is returned for the caller to store back. */
  method ValidateIssue(issue: IssueData, row: nat) returns (repaired: IssueData, warnings: seq<Warning>, error: Option<ValidationError>)
    ensures Checked(repaired, warnings, error) == CheckIssue(issue, row)
  {
    repaired, warnings, error := issue, [], None;
    if IsBlank(issue.title) {
      error := Some(TitleRequired(row));
      return;
    }
    if |issue.title| > MaxTitleLength {
      error := Some(TitleTooLong(row, |issue.title|));
      return;
    }
    if issue.body.Some? && |issue.body.value| > MaxBodyLength {
      error := Some(BodyTooLong(row, |issue.body.value|));
      return;
    }
    var l := ValidateLabels(row, repaired);
    repaired, warnings, error := l.issue, l.warnings, l.error;
    if error.Some? {
      return;
    }
    var a := ValidateAssignees(row, repaired);
    repaired, warnings, error := a.issue, warnings + a.warnings, a.error;
    if error.Some? {
      return;
    }
    if repaired.milestone.Some? && repaired.milestone.value != [] {
      if IsBlank(repaired.milestone.value) {
        error := Some(MilestoneEmpty(row));
        return;
      }
      repaired := repaired.(milestone := Some(Trim(repaired.milestone.value)));
    }
  }

  /** Lines 39-67 on one record. */
  method ValidateLabels(row: nat, issue: IssueData) returns (c: Checked)
    ensures c == LabelsStage(row, issue)
  {
    c := Checked(issue, [], None);
    if issue.labels.Some? {
      var warnings, error := CheckLabelList(row, issue.labels.value);
      c := Checked(issue, warnings, error);
      if error.None? {
        var labels := Dedup(TrimEach(issue.labels.value));
        c := Checked(issue.(labels := Some(labels)), warnings, None);
        if |labels| > MaxLabels {
          c := c.(error := Some(TooManyLabels(row, |labels|)));
        }
      }
    }
  }

  /** Lines 70-98 on one record. */
  method ValidateAssignees(row: nat, issue: IssueData) returns (c: Checked)
    ensures c == AssigneesStage(row, issue)
  {
    c := Checked(issue, [], None);
    if issue.assignees.Some? {
      var warnings, error := CheckAssigneeList(row, issue.assignees.value);
      c := Checked(issue, warnings, error);
      if error.None? {
        var assignees := Dedup(TrimEach(issue.assignees.value));
        c := Checked(issue.(assignees := Some(assignees)), warnings, None);
        if |assignees| > MaxAssignees {
          c := c.(error := Some(TooManyAssignees(row, |assignees|)));
        }
      }
    }
  }

  // ---------------------------------------------------------------------------
  // validateCsvData
  // ---------------------------------------------------------------------------

  /** The list of records after the call, what was printed and what was thrown. */
  datatype Outcome = Outcome(issues: seq<IssueData>, warnings: seq<Warning>, error: Option<ValidationError>)

  /** A check of one record under its row number, as `validateIssue` is. */
  type RecordCheck = (IssueData, nat) -> Checked

  /** The `forEach` of lines 13-15 from record `k` on: record `k` is checked as row `k + 1` and its
      repaired value replaces it; the loop stops at the first throw. */
  function CheckFrom(o: Outcome, k: nat, check: RecordCheck): (r: Outcome)
    requires k <= |o.issues|
    ensures |r.issues| == |o.issues|
    decreases |o.issues| - k
  {
    if o.error.Some? || k == |o.issues| then o
    else
      var c := check(o.issues[k], k + 1);
      CheckFrom(Outcome(o.issues[k := c.issue], o.warnings + c.warnings, c.error), k + 1, check)
  }

  /** `validateCsvData`: an empty list is refused before any record is looked at. */
  function CheckCsvData(issues: seq<IssueData>): Outcome {
    if issues == [] then Outcome(issues, [], Some(NoValidIssues)) else CheckFrom(Outcome(issues, [], None), 0, CheckIssue)
  }

  /** `validateCsvData` on the array of parsed records, repairing them in place. */
  method ValidateCsvData(issues: array<IssueData>) returns (warnings: seq<Warning>, error: Option<ValidationError>)
    modifies issues
    ensures var o := CheckCsvData(old(issues[..]));
      issues[..] == o.issues && warnings == o.warnings && error == o.error
  {
    warnings, error := [], None;
    if issues.Length == 0 {
      error := Some(NoValidIssues);
      return;
    }
    ghost var original := issues[..];
    for i := 0 to issues.Length
      invariant CheckCsvData(original) == CheckFrom(Outcome(issues[..], warnings, None), i, CheckIssue)
    {
      ghost var before := Outcome(issues[..], warnings, None);
      var repaired, issueWarnings, issueError := ValidateIssue(issues[i], i + 1);
      CheckFromNext(before, i, CheckIssue, Checked(repaired, issueWarnings, issueError));
      issues[i] := repaired;
      warnings := warnings + issueWarnings;
      assert issues[..] == before.issues[i := repaired];
      if issueError.Some? {
        error := issueError;
        return;
      }
    }
  }

  /** One turn of the loop. */
  lemma CheckFromNext(o: Outcome, k: nat, check: RecordCheck, c: Checked)
    requires k < |o.issues| && o.error.None? && c == check(o.issues[k], k + 1)
    ensures CheckFrom(o, k, check) == CheckFrom(Outcome(o.issues[k := c.issue], o.warnings + c.warnings, c.error), k + 1, check)
  {
  }

  // ---------------------------------------------------------------------------
  // validateGitHubToken, validateRepositoryName
  // ---------------------------------------------------------------------------

  /** `validateGitHubToken`: `ghp_` and at least 36 characters, or 40 lowercase hexadecimal digits. */
  predicate ValidateGitHubToken(token: string) {
    token != [] && (Security.IsPersonalToken(token) || Security.IsClassicToken(token))
  }

  predicate IsRepoChar(c: char) {
    IsAsciiAlnum(c) || c == '.' || c == '_' || c == '-'
  }

  /** `/^[a-zA-Z0-9][a-zA-Z0-9._-]*[a-zA-Z0-9]$|^[a-zA-Z0-9]$/`, read as its two alternatives. */
  predicate MatchesRepoPattern(repo: string) {
    || (|repo| == 1 && IsAsciiAlnum(repo[0]))
    || (&& |repo| >= 2 && IsAsciiAlnum(repo[0]) && IsAsciiAlnum(repo[|repo| - 1])
        && forall i :: 1 <= i < |repo| - 1 ==> IsRepoChar(repo[i]))
  }

  /** `validateRepositoryName`. */
  predicate ValidateRepositoryName(repo: string) {
    repo != [] && MatchesRepoPattern(repo) && |repo| <= 100
  }

  // ---------------------------------------------------------------------------
  // Properties
  // ---------------------------------------------------------------------------

  /** A label the loop accepts. */
  predicate GoodLabel(name: string) {
    !IsBlank(name) && |name| <= MaxLabelLength
  }

  /** The error the label loop throws for the bad label at 0-based position `k`. */
  function LabelError(row: nat, k: nat, name: string): ValidationError {
    if IsBlank(name) then LabelEmpty(row, k + 1) else LabelTooLong(row, name)
  }

  /** An assignee the loop accepts: whatever its shape, it is not blank and its trimmed form is short enough. */
  predicate GoodAssignee(assignee: string) {
    !IsBlank(assignee) && |Trim(assignee)| <= MaxAssigneeLength
  }

  function AssigneeError(row: nat, k: nat, assignee: string): ValidationError {
    if IsBlank(assignee) then AssigneeEmpty(row, k + 1) else AssigneeTooLong(row, Trim(assignee))
  }

  /** `labels[k]` is the first bad label at or after `index`. */
  predicate FirstBadLabel(labels: seq<string>, index: nat, k: nat) {
    index <= k < |labels| && !GoodLabel(labels[k]) && forall i :: index <= i < k ==> GoodLabel(labels[i])
  }

  predicate FirstBadAssignee(assignees: seq<string>, index: nat, k: nat) {
    index <= k < |assignees| && !GoodAssignee(assignees[k]) && forall i :: index <= i < k ==> GoodAssignee(assignees[i])
  }

  /** The label loop from position `index` on passes exactly when every remaining label is good;
      otherwise it throws for the first bad one. */
  lemma {:induction false} LabelsFromSpec(row: nat, labels: seq<string>, index: nat, warnings: seq<Warning>)
    requires index <= |labels|
    ensures var r := LabelsFrom(row, labels[index..], index, Scan(warnings, None));
      r.error.None? <==> forall i :: index <= i < |labels| ==> GoodLabel(labels[i])
    ensures var r := LabelsFrom(row, labels[index..], index, Scan(warnings, None));
      r.error.Some? ==> exists k: nat :: FirstBadLabel(labels, index, k) && r.error == Some(LabelError(row, k, labels[k]))
    decreases |labels| - index
  {
    if index < |labels| {
      var s := LabelStep(row, index, labels[index], warnings);
      assert labels[index..][1..] == labels[index + 1..];
      if s.error.None? {
        LabelsFromSpec(row, labels, index + 1, s.warnings);
      }
    }
  }

  /** The assignee loop from position `index` on passes exactly when every remaining assignee is good:
      a value outside the username pattern is never refused for that. */
  lemma {:induction false} AssigneesFromSpec(row: nat, assignees: seq<string>, index: nat, warnings: seq<Warning>)
    requires index <= |assignees|
    ensures var r := AssigneesFrom(row, assignees[index..], index, Scan(warnings, None));
      r.error.None? <==> forall i :: index <= i < |assignees| ==> GoodAssignee(assignees[i])
    ensures var r := AssigneesFrom(row, assignees[index..], index, Scan(warnings, None));
      r.error.Some? ==> exists k: nat :: FirstBadAssignee(assignees, index, k) && r.error == Some(AssigneeError(row, k, assignees[k]))
    decreases |assignees| - index
  {
    if index < |assignees| {
      var s := AssigneeStep(row, index, assignees[index], warnings);
      assert assignees[index..][1..] == assignees[index + 1..];
      if s.error.None? {
        AssigneesFromSpec(row, assignees, index + 1, s.warnings);
      }
    }
  }

  /** The label loop passes exactly when every label is good, and otherwise names the first bad one, 1-based. */
  lemma LabelScanSpec(row: nat, labels: seq<string>)
    ensures LabelScan(row, labels).error.None? <==> forall i :: 0 <= i < |labels| ==> GoodLabel(labels[i])
    ensures LabelScan(row, labels).error.Some? ==>
      exists k: nat :: FirstBadLabel(labels, 0, k) && LabelScan(row, labels).error == Some(LabelError(row, k, labels[k]))
  {
    assert labels[0..] == labels;
    LabelsFromSpec(row, labels, 0, []);
  }

  lemma AssigneeScanSpec(row: nat, assignees: seq<string>)
    ensures AssigneeScan(row, assignees).error.None? <==> forall i :: 0 <= i < |assignees| ==> GoodAssignee(assignees[i])
    ensures AssigneeScan(row, assignees).error.Some? ==>
      exists k: nat :: FirstBadAssignee(assignees, 0, k) && AssigneeScan(row, assignees).error == Some(AssigneeError(row, k, assignees[k]))
  {
    assert assignees[0..] == assignees;
    AssigneesFromSpec(row, assignees, 0, []);
  }

  /** `[...new Set(xs.map(x => x.trim()))]`, applied when the list is present. */
  function RepairList(xs: Option<seq<string>>): Option<seq<string>> {
    match xs
    case Some(l) => Some(Dedup(TrimEach(l)))
    case None => None
  }

  /** A non-empty milestone is trimmed; an empty or missing one stays as it is. */
  function RepairMilestone(m: Option<string>): Option<string> {
    if m.Some? && m.value != [] then Some(Trim(m.value)) else m
  }

  /** The label stage changes only the labels, and its errors name the row. */
  lemma LabelsStageFrame(row: nat, issue: IssueData)
    ensures var c := LabelsStage(row, issue); c.issue == issue.(labels := c.issue.labels)
    ensures LabelsStage(row, issue).error.Some? ==>
      !LabelsStage(row, issue).error.value.NoValidIssues? && LabelsStage(row, issue).error.value.row == row
  {
    if issue.labels.Some? {
      LabelScanSpec(row, issue.labels.value);
    }
  }

  /** The label stage passes exactly when every label is good and at most 100 remain once repaired,
      and then leaves the repaired list. */
  lemma LabelsStageSpec(row: nat, issue: IssueData)
    ensures LabelsStage(row, issue).error.None? <==>
      (issue.labels.Some? ==> (forall i :: 0 <= i < |issue.labels.value| ==> GoodLabel(issue.labels.value[i]))
                              && |RepairList(issue.labels).value| <= MaxLabels)
    ensures LabelsStage(row, issue).error.None? ==> LabelsStage(row, issue).issue.labels == RepairList(issue.labels)
  {
    if issue.labels.Some? {
      LabelScanSpec(row, issue.labels.value);
    }
  }

  /** The assignee stage changes only the assignees, and its errors name the row. */
  lemma AssigneesStageFrame(row: nat, issue: IssueData)
    ensures var c := AssigneesStage(row, issue); c.issue == issue.(assignees := c.issue.assignees)
    ensures AssigneesStage(row, issue).error.Some? ==>
      !AssigneesStage(row, issue).error.value.NoValidIssues? && AssigneesStage(row, issue).error.value.row == row
  {
    if issue.assignees.Some? {
      AssigneeScanSpec(row, issue.assignees.value);
    }
  }

  /** The assignee stage passes exactly when every assignee is good and at most 10 remain once repaired,
      and then leaves the repaired list. */
  lemma AssigneesStageSpec(row: nat, issue: IssueData)
    ensures AssigneesStage(row, issue).error.None? <==>
      (issue.assignees.Some? ==> (forall i :: 0 <= i < |issue.assignees.value| ==> GoodAssignee(issue.assignees.value[i]))
                                 && |RepairList(issue.assignees).value| <= MaxAssignees)
    ensures AssigneesStage(row, issue).error.None? ==> AssigneesStage(row, issue).issue.assignees == RepairList(issue.assignees)
  {
    if issue.assignees.Some? {
      AssigneeScanSpec(row, issue.assignees.value);
    }
  }

  /** The milestone stage changes only the milestone and passes unless a non-empty milestone is blank. */
  lemma MilestoneStageSpec(row: nat, issue: IssueData)
    ensures var c := MilestoneStage(row, issue); c.issue == issue.(milestone := c.issue.milestone)
    ensures MilestoneStage(row, issue).error.None? <==>
      (issue.milestone.Some? && issue.milestone.value != [] ==> !IsBlank(issue.milestone.value))
    ensures MilestoneStage(row, issue).error.None? ==> MilestoneStage(row, issue).issue.milestone == RepairMilestone(issue.milestone)
    ensures MilestoneStage(row, issue).error.Some? ==> MilestoneStage(row, issue).error == Some(MilestoneEmpty(row))
  {
  }

  /** The record an accepted `validateIssue` call leaves behind. */
  function Repaired(issue: IssueData): IssueData {
    issue.(labels := RepairList(issue.labels), assignees := RepairList(issue.assignees),
           milestone := RepairMilestone(issue.milestone))
  }

  /** What `validateIssue` accepts: a non-blank title of at most 256 characters, a body of at most
      65,536, good labels that are at most 100 once trimmed and deduplicated, good assignees that are at most
      10 once trimmed and deduplicated, and a milestone that is empty, missing or not blank. An accepted record
      keeps its title and body and gets its lists trimmed and deduplicated and its milestone trimmed. */
  lemma CheckIssueAccepts(issue: IssueData, row: nat)
    ensures Passes(issue, row) <==>
      && !IsBlank(issue.title) && |issue.title| <= MaxTitleLength
      && (issue.body.Some? ==> |issue.body.value| <= MaxBodyLength)
      && (issue.labels.Some? ==> (forall i :: 0 <= i < |issue.labels.value| ==> GoodLabel(issue.labels.value[i]))
                                 && |RepairList(issue.labels).value| <= MaxLabels)
      && (issue.assignees.Some? ==> (forall i :: 0 <= i < |issue.assignees.value| ==> GoodAssignee(issue.assignees.value[i]))
                                    && |RepairList(issue.assignees).value| <= MaxAssignees)
      && (issue.milestone.Some? && issue.milestone.value != [] ==> !IsBlank(issue.milestone.value))
    ensures Passes(issue, row) ==> CheckIssue(issue, row).issue == Repaired(issue)
  {
    LabelsStageFrame(row, issue);
    LabelsStageSpec(row, issue);
    var l := LabelsStage(row, issue);
    AssigneesStageFrame(row, l.issue);
    AssigneesStageSpec(row, l.issue);
    var a := AssigneesStage(row, l.issue);
    MilestoneStageSpec(row, a.issue);
  }

  /** The title and the body are never modified, whether the record passes or not. */
  lemma CheckIssueKeepsTitleAndBody(issue: IssueData, row: nat)
    ensures CheckIssue(issue, row).issue.title == issue.title
    ensures CheckIssue(issue, row).issue.body == issue.body
  {
    if !IsBlank(issue.title) && |issue.title| <= MaxTitleLength
       && !(issue.body.Some? && |issue.body.value| > MaxBodyLength) {
      var l := LabelsStage(row, issue);
      LabelsStageFrame(row, issue);
      if l.error.None? {
        var a := AssigneesStage(row, l.issue);
        AssigneesStageFrame(row, l.issue);
        if a.error.None? {
          MilestoneStageSpec(row, a.issue);
        }
      }
    }
  }

  /** Every error `validateIssue` throws names the row it was given. */
  lemma CheckIssueErrorNamesRow(issue: IssueData, row: nat)
    ensures CheckIssue(issue, row).error.Some? ==>
      !CheckIssue(issue, row).error.value.NoValidIssues? && CheckIssue(issue, row).error.value.row == row
  {
    if !IsBlank(issue.title) && |issue.title| <= MaxTitleLength
       && !(issue.body.Some? && |issue.body.value| > MaxBodyLength) {
      var l := LabelsStage(row, issue);
      LabelsStageFrame(row, issue);
      if l.error.None? {
        var a := AssigneesStage(row, l.issue);
        AssigneesStageFrame(row, l.issue);
        if a.error.None? {
          MilestoneStageSpec(row, a.issue);
        }
      }
    }
  }

  lemma GoodLabelTrimmed(name: string)
    requires GoodLabel(name)
    ensures GoodLabel(Trim(name)) && Trim(Trim(name)) == Trim(name)
  {
    TrimIdempotent(name);
  }

  lemma GoodAssigneeTrimmed(assignee: string)
    requires GoodAssignee(assignee)
    ensures GoodAssignee(Trim(assignee)) && Trim(Trim(assignee)) == Trim(assignee)
  {
    TrimIdempotent(assignee);
  }

  /** Repairing good labels yields good, trimmed, distinct labels which a second repair leaves alone. */
  lemma RepairedLabelsGood(labels: seq<string>)
    requires forall i :: 0 <= i < |labels| ==> GoodLabel(labels[i])
    ensures var r := Dedup(TrimEach(labels));
      && NoDuplicates(r)
      && (forall i :: 0 <= i < |r| ==> GoodLabel(r[i]) && Trim(r[i]) == r[i])
      && Dedup(TrimEach(r)) == r
  {
    var trimmed := TrimEach(labels);
    var r := Dedup(trimmed);
    TrimEachElements(labels);
    forall j | 0 <= j < |trimmed| ensures GoodLabel(trimmed[j]) && Trim(trimmed[j]) == trimmed[j] {
      GoodLabelTrimmed(labels[j]);
    }
    forall i | 0 <= i < |r| ensures GoodLabel(r[i]) && Trim(r[i]) == r[i] {
      assert r[i] in trimmed;
    }
    TrimEachOfTrimmed(r);
    DedupOfDistinct(r);
  }

  /** The same for assignees. */
  lemma RepairedAssigneesGood(assignees: seq<string>)
    requires forall i :: 0 <= i < |assignees| ==> GoodAssignee(assignees[i])
    ensures var r := Dedup(TrimEach(assignees));
      && NoDuplicates(r)
      && (forall i :: 0 <= i < |r| ==> GoodAssignee(r[i]) && Trim(r[i]) == r[i])
      && Dedup(TrimEach(r)) == r
  {
    var trimmed := TrimEach(assignees);
    var r := Dedup(trimmed);
    TrimEachElements(assignees);
    forall j | 0 <= j < |trimmed| ensures GoodAssignee(trimmed[j]) && Trim(trimmed[j]) == trimmed[j] {
      GoodAssigneeTrimmed(assignees[j]);
    }
    forall i | 0 <= i < |r| ensures GoodAssignee(r[i]) && Trim(r[i]) == r[i] {
      assert r[i] in trimmed;
    }
    TrimEachOfTrimmed(r);
    DedupOfDistinct(r);
  }

  /** Validating a record that has passed once changes nothing, under any row number. */
  lemma CheckIssueIdempotent(issue: IssueData, row: nat, again: nat)
    requires Passes(issue, row)
    ensures Passes(Repaired(issue), again)
    ensures CheckIssue(Repaired(issue), again).issue == Repaired(issue)
  {
    CheckIssueAccepts(issue, row);
    if issue.labels.Some? {
      RepairedLabelsGood(issue.labels.value);
    }
    if issue.assignees.Some? {
      RepairedAssigneesGood(issue.assignees.value);
    }
    if issue.milestone.Some? && issue.milestone.value != [] {
      TrimIdempotent(issue.milestone.value);
    }
    CheckIssueAccepts(Repaired(issue), again);
  }

  /** A 257-character title that does not start with whitespace is refused as too long. */
  lemma LongTitleRejected(issue: IssueData, row: nat)
    requires |issue.title| == MaxTitleLength + 1 && !IsWhitespace(issue.title[0])
    ensures CheckIssue(issue, row) == Checked(issue, [], Some(TitleTooLong(row, 257)))
  {
    TrimKeepsHead(issue.title);
  }

  /** The three token formats exclude one another, so `validateGitHubToken` accepts a well-formed token
      exactly when it is not a fine-grained one: `sanitizeGitHubToken` admits `github_pat_` tokens that
      `validateGitHubToken` refuses. */
  lemma TokenFormatsDisjoint(t: string)
    requires Security.HasTokenFormat(t)
    ensures ValidateGitHubToken(t) <==> !Security.IsFineGrainedToken(t)
  {
    if Security.IsFineGrainedToken(t) {
      assert t[..11] == "github_pat_";
      assert t[1] == 'i' && !Security.IsLowerHex(t[0]);
      assert !StartsWith(t, "ghp_") by { assert t[..4][1] == t[1]; }
    } else if StartsWith(t, "ghp_") {
      assert t[..4] == "ghp_" && t[0] == 'g';
    }
  }

  /** A token `validateGitHubToken` accepts, with no whitespace in it, passes `sanitizeGitHubToken`
      unchanged. */
  lemma ValidatedTokenSanitized(t: string)
    requires ValidateGitHubToken(t)
    requires forall i :: 0 <= i < |t| ==> !IsWhitespace(t[i])
    ensures Security.SanitizeGitHubToken(t) == Security.TokenValid(t)
  {
    TrimOfTrimmed(t);
  }

  /** The repository pattern, with its two alternatives merged: 1 to 100 characters from
      `[A-Za-z0-9._-]`, alphanumeric at both ends. */
  lemma RepositoryNameShape(repo: string)
    ensures ValidateRepositoryName(repo) <==>
      && 1 <= |repo| <= 100
      && IsAsciiAlnum(repo[0]) && IsAsciiAlnum(repo[|repo| - 1])
      && forall i :: 0 <= i < |repo| ==> IsRepoChar(repo[i])
  {
  }

  /** A name may not start with a period, hyphen or underscore, nor end with a period. */
  lemma RepositoryNameEnds(repo: string)
    requires repo != [] && (repo[0] in {'.', '-', '_'} || repo[|repo| - 1] == '.')
    ensures !ValidateRepositoryName(repo)
  {
  }

  predicate Accepts(check: RecordCheck, issue: IssueData, row: nat) {
    check(issue, row).error.None?
  }

  /** The index of the first record, at or after `k`, that does not pass as its row. */
  function FirstFailing(issues: seq<IssueData>, k: nat, check: RecordCheck): (f: nat)
    requires k <= |issues|
    ensures k <= f <= |issues|
    ensures forall j :: k <= j < f ==> Accepts(check, issues[j], j + 1)
    ensures f < |issues| ==> !Accepts(check, issues[f], f + 1)
    decreases |issues| - k
  {
    if k == |issues| || !Accepts(check, issues[k], k + 1) then k else FirstFailing(issues, k + 1, check)
  }

  lemma {:induction false} FirstFailingSame(a: seq<IssueData>, b: seq<IssueData>, k: nat, check: RecordCheck)
    requires k <= |a| == |b| && a[k..] == b[k..]
    ensures FirstFailing(a, k, check) == FirstFailing(b, k, check)
    decreases |a| - k
  {
    if k < |a| {
      assert a[k] == a[k..][0] == b[k..][0] == b[k];
      assert a[k + 1..] == a[k..][1..];
      assert b[k + 1..] == b[k..][1..];
      FirstFailingSame(a, b, k + 1, check);
    }
  }

  /** The loop from record `k` on never touches the records before `k`. */
  lemma {:induction false} CheckFromKeepsPrefix(o: Outcome, k: nat, check: RecordCheck)
    requires k <= |o.issues| && o.error.None?
    ensures var r := CheckFrom(o, k, check);
      forall j :: 0 <= j < k ==> r.issues[j] == o.issues[j]
    decreases |o.issues| - k
  {
    if k < |o.issues| {
      var c := check(o.issues[k], k + 1);
      var next := Outcome(o.issues[k := c.issue], o.warnings + c.warnings, c.error);
      if c.error.None? {
        CheckFromKeepsPrefix(next, k + 1, check);
      }
    }
  }

  /** The loop from record `k` on never touches the records after the first failing one. */
  lemma {:induction false} CheckFromKeepsSuffix(o: Outcome, k: nat, check: RecordCheck)
    requires k <= |o.issues| && o.error.None?
    ensures var r := CheckFrom(o, k, check);
      forall j :: FirstFailing(o.issues, k, check) < j < |o.issues| ==> r.issues[j] == o.issues[j]
    decreases |o.issues| - k
  {
    if k < |o.issues| {
      var c := check(o.issues[k], k + 1);
      var next := Outcome(o.issues[k := c.issue], o.warnings + c.warnings, c.error);
      if c.error.None? {
        CheckFromKeepsSuffix(next, k + 1, check);
        assert next.issues[k + 1..] == o.issues[k + 1..];
        FirstFailingSame(next.issues, o.issues, k + 1, check);
      }
    }
  }

  /** The loop from record `k` on passes exactly when no record from `k` on fails. */
  lemma {:induction false} CheckFromPasses(o: Outcome, k: nat, check: RecordCheck)
    requires k <= |o.issues| && o.error.None?
    ensures CheckFrom(o, k, check).error.None? <==> FirstFailing(o.issues, k, check) == |o.issues|
    decreases |o.issues| - k
  {
    if k < |o.issues| {
      var c := check(o.issues[k], k + 1);
      var next := Outcome(o.issues[k := c.issue], o.warnings + c.warnings, c.error);
      if c.error.None? {
        CheckFromPasses(next, k + 1, check);
        assert next.issues[k + 1..] == o.issues[k + 1..];
        FirstFailingSame(next.issues, o.issues, k + 1, check);
      }
    }
  }

  /** The records from `k` up to the first failing one are replaced by what `check` makes of them. */
  lemma {:induction false} CheckFromRepairsBefore(o: Outcome, k: nat, check: RecordCheck)
    requires k <= |o.issues| && o.error.None?
    ensures var r := CheckFrom(o, k, check);
      forall j :: k <= j < FirstFailing(o.issues, k, check) ==> r.issues[j] == check(o.issues[j], j + 1).issue
    decreases |o.issues| - k
  {
    if k < |o.issues| {
      var c := check(o.issues[k], k + 1);
      var next := Outcome(o.issues[k := c.issue], o.warnings + c.warnings, c.error);
      if c.error.None? {
        CheckFromRepairsBefore(next, k + 1, check);
        CheckFromKeepsPrefix(next, k + 1, check);
        assert next.issues[k + 1..] == o.issues[k + 1..];
        FirstFailingSame(next.issues, o.issues, k + 1, check);
        var f := FirstFailing(o.issues, k, check);
        forall j | k < j < f ensures next.issues[j] == o.issues[j] {
        }
      }
    }
  }

  /** The first failing record raises its error, and keeps its partial repair. */
  lemma {:induction false} CheckFromFailing(o: Outcome, k: nat, check: RecordCheck)
    requires k <= |o.issues| && o.error.None?
    ensures var r := CheckFrom(o, k, check); var f := FirstFailing(o.issues, k, check);
      f < |o.issues| ==> r.error == check(o.issues[f], f + 1).error && r.issues[f] == check(o.issues[f], f + 1).issue
    decreases |o.issues| - k
  {
    if k < |o.issues| {
      var c := check(o.issues[k], k + 1);
      var next := Outcome(o.issues[k := c.issue], o.warnings + c.warnings, c.error);
      if c.error.None? {
        CheckFromFailing(next, k + 1, check);
        assert next.issues[k + 1..] == o.issues[k + 1..];
        FirstFailingSame(next.issues, o.issues, k + 1, check);
        var f := FirstFailing(o.issues, k, check);
        assert f == FirstFailing(next.issues, k + 1, check);
        assert CheckFrom(o, k, check) == CheckFrom(next, k + 1, check);
        if f < |o.issues| {
          assert next.issues[f] == o.issues[f];
        }
      } else {
        assert FirstFailing(o.issues, k, check) == k;
        assert CheckFrom(o, k, check) == next;
      }
    }
  }

  /** `validateCsvData` refuses an empty list before looking at any record. */
  lemma CheckCsvDataEmpty(issues: seq<IssueData>)
    requires issues == []
    ensures CheckCsvData(issues) == Outcome([], [], Some(NoValidIssues))
  {
  }

  /** A non-empty list passes exactly when no record fails. */
  lemma CheckCsvDataPasses(issues: seq<IssueData>)
    requires issues != []
    ensures CheckCsvData(issues).error.None? <==> FirstFailing(issues, 0, CheckIssue) == |issues|
  {
    CheckFromPasses(Outcome(issues, [], None), 0, CheckIssue);
  }

  /** The loop from record `k` on replaces every record before the first failing one by `repair` of it,
      for any `repair` that describes what `check` does to the records it accepts. */
  lemma CheckFromRepairs(o: Outcome, k: nat, check: RecordCheck, repair: IssueData -> IssueData)
    requires k <= |o.issues| && o.error.None?
    requires forall x: IssueData, row: nat :: Accepts(check, x, row) ==> check(x, row).issue == repair(x)
    ensures var r := CheckFrom(o, k, check);
      forall j :: k <= j < FirstFailing(o.issues, k, check) ==> r.issues[j] == repair(o.issues[j])
  {
    CheckFromRepairsBefore(o, k, check);
  }

  /** An accepted record is left as `Repaired` says. */
  lemma AcceptedAreRepaired()
    ensures forall x: IssueData, row: nat :: Accepts(CheckIssue, x, row) ==> CheckIssue(x, row).issue == Repaired(x)
  {
    forall x: IssueData, row: nat | Accepts(CheckIssue, x, row) ensures CheckIssue(x, row).issue == Repaired(x) {
      CheckIssueAccepts(x, row);
    }
  }

  /** The records are checked in order as rows `1..n`: every record before the first failing one
      passes and is replaced by its repair. */
  lemma CheckCsvDataRepairsPrefix(issues: seq<IssueData>)
    requires issues != []
    ensures var r := CheckCsvData(issues);
      forall j :: 0 <= j < FirstFailing(issues, 0, CheckIssue) ==> Passes(issues[j], j + 1) && r.issues[j] == Repaired(issues[j])
  {
    AcceptedAreRepaired();
    CheckFromRepairs(Outcome(issues, [], None), 0, CheckIssue, Repaired);
  }

  /** The first failing record's error is the one thrown, and it names that record's row. */
  lemma CheckCsvDataFailingRow(issues: seq<IssueData>)
    requires issues != []
    ensures var r := CheckCsvData(issues); var f := FirstFailing(issues, 0, CheckIssue);
      f < |issues| ==> r.error.Some? && r.error.value != NoValidIssues && r.error.value.row == f + 1
  {
    CheckFromPasses(Outcome(issues, [], None), 0, CheckIssue);
    CheckFromFailing(Outcome(issues, [], None), 0, CheckIssue);
    var f := FirstFailing(issues, 0, CheckIssue);
    if f < |issues| {
      CheckIssueErrorNamesRow(issues[f], f + 1);
    }
  }

  /** The records after the first failing one are not examined, nor changed. */
  lemma CheckCsvDataKeepsRest(issues: seq<IssueData>)
    requires issues != []
    ensures var r := CheckCsvData(issues);
      forall j :: FirstFailing(issues, 0, CheckIssue) < j < |issues| ==> r.issues[j] == issues[j]
  {
    CheckFromKeepsSuffix(Outcome(issues, [], None), 0, CheckIssue);
  }
}
