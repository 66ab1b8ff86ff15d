/** Row normalisation: `parseRowToIssue` (src/utils/csv-parser.ts:31-155) and the filter/map
    that `parseCsvFile` applies to the rows of a file. */
module CsvParser {
  import opened Wrappers
  import opened Seqs
  import opened Strings
  import opened Types
  import Security

  /** One CSV row: column header to cell text. A column the file lacks is a missing key. */
  type Row = map<string, string>

  /** `new Date(s)` followed by `toLocaleDateString()`: the formatted date, or `None` for an invalid date. */
  type DateFormatter = string -> Option<string>

  // The column spellings probed per field, in the order of the source's `||` chains.
  const TitleKeys: seq<string> := ["Title", "title", "TITLE", "name", "Name", "NAME"]
  const BodyKeys: seq<string> :=
    ["Description", "description", "DESCRIPTION", "Body", "body", "BODY", "Content", "content", "CONTENT"]
  const LabelKeys: seq<string> := ["Labels", "labels", "LABELS", "Tags", "tags", "TAGS", "Label", "label", "LABEL"]
  const AssigneeKeys: seq<string> :=
    ["Assignee", "assignee", "ASSIGNEE", "Assignees", "assignees", "ASSIGNEES", "Assigned", "assigned", "ASSIGNED"]
  const MilestoneKeys: seq<string> :=
    ["Milestone", "milestone", "MILESTONE", "Project Milestone", "project milestone", "Sprint", "sprint", "SPRINT"]
  const PriorityKeys: seq<string> := ["Priority", "priority", "PRIORITY"]
  const StatusKeys: seq<string> := ["Status", "status", "STATUS", "State", "state"]
  const DueDateKeys: seq<string> := ["Due Date", "due date", "DueDate", "duedate", "deadline", "Deadline"]

  /** `/[,;|]/`, the label separators. */
  const LabelDelimiters: set<char> := {',', ';', '|'}

  /** `row[key]` is truthy: the column is present and its cell is not empty. */
  predicate Filled(row: Row, key: string) {
    key in row && row[key] != []
  }

  /** `keys[i]` is the first filled key. */
  predicate FirstFilled(row: Row, keys: seq<string>, i: nat) {
    i < |keys| && Filled(row, keys[i]) && forall j :: 0 <= j < i ==> !Filled(row, keys[j])
  }

  /** `row.k1 || row.k2 || ...`: the value of the first filled key, probed in order. */
  function Lookup(row: Row, keys: seq<string>): (r: Option<string>)
    ensures r.Some? ==> r.value != []
  {
    var i := FirstIndex(keys, k => Filled(row, k));
    if i < |keys| then Some(row[keys[i]]) else None
  }

  /** A lookup succeeds exactly when some key is filled, and then yields the first filled key's value. */
  lemma LookupSpec(row: Row, keys: seq<string>)
    ensures Lookup(row, keys).Some? <==> exists i :: 0 <= i < |keys| && Filled(row, keys[i])
    ensures Lookup(row, keys).Some? ==>
      exists i: nat :: FirstFilled(row, keys, i) && Lookup(row, keys).value == row[keys[i]]
  {
    var k := FirstIndex(keys, key => Filled(row, key));
    if k < |keys| {
      assert FirstFilled(row, keys, k);
    }
  }

  /** The first filled key wins, whatever the later keys hold. */
  lemma LookupFirstFilled(row: Row, keys: seq<string>, i: nat)
    requires FirstFilled(row, keys, i)
    ensures Lookup(row, keys) == Some(row[keys[i]])
  {
    var k := FirstIndex(keys, key => Filled(row, key));
    assert !(k > i);
  }

  // ---------------------------------------------------------------------------
  // Field extraction
  // ---------------------------------------------------------------------------

  /** Labels: split on `,` `;` `|`, trim each token, drop empty tokens (lines 61-64). */
  predicate NonEmpty(s: string) {
    s != []
  }

  function SplitLabels(s: string): seq<string> {
    Filter(TrimEach(Split(s, LabelDelimiters)), NonEmpty)
  }

  /** Every label is non-empty, already trimmed and free of separators. */
  lemma SplitLabelsClean(s: string)
    ensures forall i :: 0 <= i < |SplitLabels(s)| ==> SplitLabels(s)[i] != [] && Trim(SplitLabels(s)[i]) == SplitLabels(s)[i]
    ensures forall i, k :: 0 <= i < |SplitLabels(s)| && 0 <= k < |SplitLabels(s)[i]| ==> SplitLabels(s)[i][k] !in LabelDelimiters
  {
    var tokens := Split(s, LabelDelimiters);
    var trimmed := TrimEach(tokens);
    TrimEachElements(tokens);
    forall i, k | 0 <= i < |trimmed| && 0 <= k < |trimmed[i]|
      ensures trimmed[i][k] !in LabelDelimiters
    {
      TrimChars(tokens[i], k);
    }
    forall i | 0 <= i < |trimmed| ensures Trim(trimmed[i]) == trimmed[i] {
      TrimIdempotent(tokens[i]);
    }
    FilterMembers(trimmed, NonEmpty);
  }

  /** One assignee token: trimmed, then cut before its first `@` when it has one (lines 80-85). */
  function CleanAssignee(token: string): string {
    var cleaned := Trim(token);
    if '@' in cleaned then Split(cleaned, {'@'})[0] else cleaned
  }

  /** The cleaned assignee is the trimmed token up to its first `@`, so it holds no `@`. */
  lemma CleanAssigneeSpec(token: string)
    ensures CleanAssignee(token) == Trim(token)[..FirstDelimiter(Trim(token), {'@'})]
    ensures '@' !in CleanAssignee(token)
  {
    SplitFirstToken(Trim(token), {'@'});
  }

  /** Assignees: split on `,`, clean each token, drop the ones left empty (lines 77-87). */
  function SplitAssignees(s: string): seq<string> {
    Filter(CleanEach(Split(s, {','})), NonEmpty)
  }

  /** Every assignee is non-empty and holds no `@`. */
  lemma SplitAssigneesClean(s: string)
    ensures forall i :: 0 <= i < |SplitAssignees(s)| ==> SplitAssignees(s)[i] != [] && '@' !in SplitAssignees(s)[i]
  {
    var tokens := Split(s, {','});
    var cleaned := CleanEach(tokens);
    CleanEachElements(tokens);
    forall i | 0 <= i < |tokens| ensures '@' !in cleaned[i] {
      CleanAssigneeSpec(tokens[i]);
    }
    FilterMembers(cleaned, NonEmpty);
  }

  /** `.map(...)` of the assignee clean-up. */
  function CleanEach(tokens: seq<string>): seq<string> {
    if tokens == [] then [] else [CleanAssignee(tokens[0])] + CleanEach(tokens[1..])
  }

  lemma {:induction false} CleanEachElements(tokens: seq<string>)
    ensures |CleanEach(tokens)| == |tokens|
    ensures forall i :: 0 <= i < |tokens| ==> CleanEach(tokens)[i] == CleanAssignee(tokens[i])
  {
    if tokens != [] {
      CleanEachElements(tokens[1..]);
    }
  }

  /** The title: the first filled title alias, sanitised, then trimmed (line 38, 48). */
  function TitleOf(row: Row): string {
    Trim(Security.SanitizeCell(Lookup(row, TitleKeys).GetOr([])))
  }

  /** The description before any due date: sanitised and trimmed, absent when no alias is filled (lines 39-41, 49). */
  function BaseBody(row: Row): Option<string> {
    var body := Security.SanitizeCell(Lookup(row, BodyKeys).GetOr([]));
    if body != [] then Some(Trim(body)) else None
  }

  /** The labels from the label column, when it holds more than whitespace (lines 53-66). */
  function FieldLabels(row: Row): Option<seq<string>> {
    match Lookup(row, LabelKeys)
    case None => None
    case Some(v) => var s := Trim(v); if s != [] then Some(SplitLabels(s)) else None
  }

  /** The assignees from the assignee column, when it holds more than whitespace (lines 69-89). */
  function FieldAssignees(row: Row): Option<seq<string>> {
    match Lookup(row, AssigneeKeys)
    case None => None
    case Some(v) => var s := Trim(v); if s != [] then Some(SplitAssignees(s)) else None
  }

  /** The milestone title (lines 92-101). */
  function MilestoneOf(row: Row): (r: Option<string>)
    ensures r.Some? ==> r.value != [] && r.value != "undefined" && r.value != "null" && Trim(r.value) == r.value
    ensures r.None? <==> match Lookup(row, MilestoneKeys)
                         case None => true
                         case Some(v) => Trim(v) in {"", "undefined", "null"}
    ensures r.Some? ==> r.value == Trim(Lookup(row, MilestoneKeys).value)
  {
    match Lookup(row, MilestoneKeys)
    case None => None
    case Some(v) =>
      var s := Trim(v);
      TrimIdempotent(v);
      if s != [] && s != "undefined" && s != "null" then Some(s) else None
  }

  /** The synthesised priority label (lines 104-117). */
  function PriorityLabel(row: Row): (r: Option<string>)
    ensures r.Some? ==> StartsWith(r.value, "priority: ")
    ensures r.Some? <==> Lookup(row, PriorityKeys).Some?
                         && ToLower(Trim(Lookup(row, PriorityKeys).value)) !in {"", "none", "no priority"}
    ensures r.Some? ==> r.value == "priority: " + ToLower(Trim(Lookup(row, PriorityKeys).value))
  {
    match Lookup(row, PriorityKeys)
    case None => None
    case Some(v) =>
      var p := ToLower(Trim(v));
      if p != [] && p != "no priority" && p != "none" then Some("priority: " + p) else None
  }

  /** The synthesised status label (lines 120-133). */
  function StatusLabel(row: Row): (r: Option<string>)
    ensures r.Some? ==> StartsWith(r.value, "status: ")
    ensures r.Some? <==> Lookup(row, StatusKeys).Some?
                         && ToLower(Trim(Lookup(row, StatusKeys).value)) !in {"", "undefined", "null"}
    ensures r.Some? ==> r.value == "status: " + ToLower(Trim(Lookup(row, StatusKeys).value))
  {
    match Lookup(row, StatusKeys)
    case None => None
    case Some(v) =>
      var s := ToLower(Trim(v));
      if s != [] && s != "undefined" && s != "null" then Some("status: " + s) else None
  }

  /** The formatted due date, when the due-date column holds a date the formatter accepts (lines 136-144). */
  function DueDateOf(row: Row, formatDate: DateFormatter): Option<string> {
    match Lookup(row, DueDateKeys)
    case None => None
    case Some(v) =>
      var d := Trim(v);
      if d != [] && d != "undefined" && d != "null" then formatDate(d) else None
  }

  function DueDateLine(date: string): string {
    "**Due Date:** " + date
  }

  /** A non-empty body gets the due-date line after a blank line; an empty or absent body becomes the line (lines 145-149). */
  function WithDueDate(body: Option<string>, due: Option<string>): (r: Option<string>)
    ensures due.None? ==> r == body
    ensures due.Some? ==> r.Some? && |r.value| >= |DueDateLine(due.value)|
    ensures due.Some? ==> r.value[|r.value| - |DueDateLine(due.value)|..] == DueDateLine(due.value)
    ensures due.Some? && body.Some? && body.value != [] ==> r.value == body.value + "\n\n" + DueDateLine(due.value)
    ensures due.Some? && body.Some? && body.value != [] ==> r.value[..|body.value|] == body.value
    ensures due.Some? && (body.None? || body.value == []) ==> r.value == DueDateLine(due.value)
  {
    match due
    case None => body
    case Some(d) =>
      if body.Some? && body.value != [] then
        var r := body.value + "\n\n" + "**Due Date:** " + d;
        assert r == body.value + "\n\n" + DueDateLine(d);
        assert r[|r| - |DueDateLine(d)|..] == DueDateLine(d);
        assert r[..|body.value|] == body.value;
        Some(r)
      else Some(DueDateLine(d))
  }

  /** Adds a synthesised label unless the list already holds it; a missing list starts empty. The label is
      then held at least once, and no more often than before unless it was absent. */
  function AddMissing(labels: Option<seq<string>>, extra: Option<string>): (r: Option<seq<string>>)
    ensures extra.None? ==> r == labels
    ensures extra.Some? ==> r.Some? && extra.value in r.value
    ensures extra.Some? ==> var before := labels.GetOr([]);
      multiset(r.value)[extra.value] == if extra.value in before then multiset(before)[extra.value] else 1
    ensures extra.Some? ==> var before := labels.GetOr([]);
      |before| <= |r.value| <= |before| + 1 && r.value[..|before|] == before
    ensures extra.Some? ==> forall x :: x != extra.value ==> multiset(r.value)[x] == multiset(labels.GetOr([]))[x]
  {
    match extra
    case None => labels
    case Some(l) =>
      var before := labels.GetOr([]);
      if l in before then Some(before)
      else
        assert (before + [l])[..|before|] == before;
        Some(before + [l])
  }

  /** The labels of the issue: the label column, then the priority label, then the status label. */
  function LabelsOf(row: Row): Option<seq<string>> {
    AddMissing(AddMissing(FieldLabels(row), PriorityLabel(row)), StatusLabel(row))
  }

  /** The issue a row describes; `None` when neither `Title` nor `title` is filled (lines 33-35). */
  function ParseRow(row: Row, formatDate: DateFormatter): Option<IssueData> {
    if !Filled(row, "Title") && !Filled(row, "title") then None
    else Some(IssueData(
      title := TitleOf(row),
      body := WithDueDate(BaseBody(row), DueDateOf(row, formatDate)),
      labels := LabelsOf(row),
      assignees := FieldAssignees(row),
      milestone := MilestoneOf(row)))
  }

  /** `parseRowToIssue`: the issue's properties are set one step at a time, in the source's order. */
  method ParseRowToIssue(row: Row, formatDate: DateFormatter) returns (r: Option<IssueData>)
    ensures r == ParseRow(row, formatDate)
  {
    if !Filled(row, "Title") && !Filled(row, "title") {
      return None;
    }
    var title := Security.SanitizeCell(Lookup(row, TitleKeys).GetOr([]));
    var body := Security.SanitizeCell(Lookup(row, BodyKeys).GetOr([]));
    var issueBody: Option<string> := if body != [] then Some(Trim(body)) else None;
    var labels := ReadLabels(row);
    var assignees := ReadAssignees(row);
    var milestone := ReadMilestone(row);
    labels := ApplyPriority(row, labels);
    labels := ApplyStatus(row, labels);
    issueBody := ApplyDueDate(row, formatDate, issueBody);
    return Some(IssueData(Trim(title), issueBody, labels, assignees, milestone));
  }

  /** Lines 53-66: the label column, when it holds more than whitespace. */
  method ReadLabels(row: Row) returns (labels: Option<seq<string>>)
    ensures labels == FieldLabels(row)
  {
    labels := None;
    var labelsField := Lookup(row, LabelKeys);
    if labelsField.Some? {
      var labelsStr := Trim(labelsField.value);
      if labelsStr != [] {
        labels := Some(SplitLabels(labelsStr));
      }
    }
  }

  /** Lines 69-89: the assignee column, when it holds more than whitespace. */
  method ReadAssignees(row: Row) returns (assignees: Option<seq<string>>)
    ensures assignees == FieldAssignees(row)
  {
    assignees := None;
    var assigneeField := Lookup(row, AssigneeKeys);
    if assigneeField.Some? {
      var assigneeStr := Trim(assigneeField.value);
      if assigneeStr != [] {
        assignees := Some(SplitAssignees(assigneeStr));
      }
    }
  }

  /** Lines 92-101: the milestone column, unless blank or a sentinel. */
  method ReadMilestone(row: Row) returns (milestone: Option<string>)
    ensures milestone == MilestoneOf(row)
  {
    milestone := None;
    var milestoneField := Lookup(row, MilestoneKeys);
    if milestoneField.Some? {
      var milestoneStr := Trim(milestoneField.value);
      if milestoneStr != [] && milestoneStr != "undefined" && milestoneStr != "null" {
        milestone := Some(milestoneStr);
      }
    }
  }

  /** `if (!issue.labels) issue.labels = []` followed by a `push` guarded by `includes`. */
  method PushIfMissing(labels: Option<seq<string>>, extra: string) returns (r: Option<seq<string>>)
    ensures r == AddMissing(labels, Some(extra))
  {
    r := labels;
    if r.None? {
      r := Some([]);
    }
    if extra !in r.value {
      r := Some(r.value + [extra]);
    }
  }

  /** Lines 104-117: the priority label. */
  method ApplyPriority(row: Row, labels: Option<seq<string>>) returns (r: Option<seq<string>>)
    ensures r == AddMissing(labels, PriorityLabel(row))
  {
    r := labels;
    var priorityField := Lookup(row, PriorityKeys);
    if priorityField.Some? {
      var priorityStr := ToLower(Trim(priorityField.value));
      if priorityStr != [] && priorityStr != "no priority" && priorityStr != "none" {
        r := PushIfMissing(r, "priority: " + priorityStr);
      }
    }
  }

  /** Lines 120-133: the status label. */
  method ApplyStatus(row: Row, labels: Option<seq<string>>) returns (r: Option<seq<string>>)
    ensures r == AddMissing(labels, StatusLabel(row))
  {
    r := labels;
    var statusField := Lookup(row, StatusKeys);
    if statusField.Some? {
      var statusStr := ToLower(Trim(statusField.value));
      if statusStr != [] && statusStr != "undefined" && statusStr != "null" {
        r := PushIfMissing(r, "status: " + statusStr);
      }
    }
  }

  /** Lines 136-152: the due-date line, appended with `+=` to a body that has text. */
  method ApplyDueDate(row: Row, formatDate: DateFormatter, body: Option<string>) returns (r: Option<string>)
    ensures r == WithDueDate(body, DueDateOf(row, formatDate))
  {
    r := body;
    var dueDateField := Lookup(row, DueDateKeys);
    if dueDateField.Some? {
      var dueDateStr := Trim(dueDateField.value);
      if dueDateStr != [] && dueDateStr != "undefined" && dueDateStr != "null" {
        var formatted := formatDate(dueDateStr);
        assert DueDateOf(row, formatDate) == formatted;
        if formatted.Some? {
          if r.Some? && r.value != [] {
            r := Some(r.value + "\n\n" + "**Due Date:** " + formatted.value);
          } else {
            r := Some("**Due Date:** " + formatted.value);
          }
        }
      }
    }
  }

  /** What one row contributes to the list of issues. */
  function Yield(parsed: Option<IssueData>): seq<IssueData> {
    match parsed
    case Some(issue) => [issue]
    case None => []
  }

  lemma ParseRowsStep(rows: seq<Row>, formatDate: DateFormatter)
    requires rows != []
    ensures ParseRows(rows, formatDate) == Yield(ParseRow(rows[0], formatDate)) + ParseRows(rows[1..], formatDate)
  {
  }

  /** `parseCsvFile` without the stream: every row that yields an issue contributes it, in order. */
  function ParseRows(rows: seq<Row>, formatDate: DateFormatter): (issues: seq<IssueData>)
    ensures |issues| <= |rows|
  {
    if |rows| == 0 then []
    else
      Yield(ParseRow(rows[0], formatDate)) + ParseRows(rows[1..], formatDate)
  }

  /** `parseCsvFile` once the rows are read: each row goes through `parseRowToIssue` in file order, and
      the issues it yields are pushed onto the result. */
  method ParseCsvFile(rows: seq<Row>, formatDate: DateFormatter) returns (issues: seq<IssueData>)
    ensures issues == ParseRows(rows, formatDate)
  {
    issues := [];
    for i := 0 to |rows|
      invariant issues + ParseRows(rows[i..], formatDate) == ParseRows(rows, formatDate)
    {
      assert rows[i..][1..] == rows[i + 1..];
      ParseRowsStep(rows[i..], formatDate);
      var issue := ParseRowToIssue(rows[i], formatDate);
      ghost var before := issues;
      if issue.Some? {
        issues := issues + [issue.value];
      }
      assert issues == before + Yield(issue);
      AppendAssociative(before, Yield(issue), ParseRows(rows[i + 1..], formatDate));
    }
    assert rows[|rows|..] == [];
  }

  predicate HasTitle(row: Row) {
    Filled(row, "Title") || Filled(row, "title")
  }

  // ---------------------------------------------------------------------------
  // Properties
  // ---------------------------------------------------------------------------

  /** A row is skipped exactly when both `Title` and `title` are missing or empty; the other title
      aliases (`TITLE`, `name`, `Name`, `NAME`) never make a row count. */
  lemma SkippedExactlyWithoutTitle(row: Row, formatDate: DateFormatter)
    ensures ParseRow(row, formatDate).None? <==> !HasTitle(row)
  {
  }

  /** The number of issues is the number of rows minus the skipped ones. */
  lemma {:induction false} ParseRowsCount(rows: seq<Row>, formatDate: DateFormatter)
    ensures |ParseRows(rows, formatDate)| == |Filter(rows, HasTitle)|
  {
    if |rows| > 0 {
      ParseRowsCount(rows[1..], formatDate);
    }
  }

  /** The title comes from `Title`, or from `title` when `Title` is not filled: sanitised, then trimmed.
      It never starts with a character a spreadsheet reads as a formula. */
  lemma TitleFromTitleColumns(row: Row, formatDate: DateFormatter)
    requires HasTitle(row)
    ensures ParseRow(row, formatDate).value.title ==
      Trim(Security.SanitizeCell(if Filled(row, "Title") then row["Title"] else row["title"]))
    ensures var t := ParseRow(row, formatDate).value.title; t == [] || !Security.IsFormulaLead(t[0])
  {
    if Filled(row, "Title") {
      LookupFirstFilled(row, TitleKeys, 0);
    } else {
      LookupFirstFilled(row, TitleKeys, 1);
    }
    Security.SanitizedTrimSafe(if Filled(row, "Title") then row["Title"] else row["title"]);
  }

  /** Two synthesised labels added in turn: the original list stays in front, followed only by those labels. */
  lemma AddTwiceLayout(labels: Option<seq<string>>, first: Option<string>, second: Option<string>)
    ensures var before := labels.GetOr([]);
            var after := AddMissing(AddMissing(labels, first), second).GetOr([]);
      && |before| <= |after| <= |before| + 2
      && after[..|before|] == before
      && (forall i :: |before| <= i < |after| ==> Some(after[i]) == first || Some(after[i]) == second)
      && (first.Some? ==> first.value in after)
      && (second.Some? ==> second.value in after)
  {
    var mid := AddMissing(labels, first);
    AddMissingTail(labels, first);
    AddMissingTail(mid, second);
    AppendedTwice(labels.GetOr([]), mid.GetOr([]), AddMissing(mid, second).GetOr([]), first, second);
  }

  /** What `AddMissing` appends, if anything, is the extra label itself. */
  lemma AddMissingTail(labels: Option<seq<string>>, extra: Option<string>)
    ensures var before := labels.GetOr([]);
            var after := AddMissing(labels, extra).GetOr([]);
      && |before| <= |after| <= |before| + 1
      && after[..|before|] == before
      && (forall i :: |before| <= i < |after| ==> Some(after[i]) == extra)
      && (extra.Some? ==> extra.value in after)
  {
    if extra.Some? && extra.value !in labels.GetOr([]) {
      assert AddMissing(labels, extra).GetOr([]) == labels.GetOr([]) + [extra.value];
    }
  }

  lemma AppendedTwice(before: seq<string>, m: seq<string>, after: seq<string>, first: Option<string>, second: Option<string>)
    requires |before| <= |m| <= |before| + 1 && m[..|before|] == before
    requires |m| <= |after| <= |m| + 1 && after[..|m|] == m
    requires forall i :: |before| <= i < |m| ==> Some(m[i]) == first
    requires forall i :: |m| <= i < |after| ==> Some(after[i]) == second
    requires first.Some? ==> first.value in m
    requires second.Some? ==> second.value in after
    ensures |before| <= |after| <= |before| + 2
    ensures after[..|before|] == before
    ensures forall i :: |before| <= i < |after| ==> Some(after[i]) == first || Some(after[i]) == second
    ensures first.Some? ==> first.value in after
  {
    assert after[..|before|] == m[..|before|];
    forall i | |before| <= i < |after|
      ensures Some(after[i]) == first || Some(after[i]) == second
    {
      if i < |m| {
        assert after[i] == m[i];
      }
    }
    if first.Some? {
      var k :| 0 <= k < |m| && m[k] == first.value;
      assert after[k] == first.value;
    }
  }

  /** Labels keep the label column's order, followed by at most the priority label and then at most the status
      label; each synthesised label is present. */
  lemma LabelsLayout(row: Row)
    ensures var field := FieldLabels(row).GetOr([]);
            var labels := LabelsOf(row).GetOr([]);
      && |field| <= |labels| <= |field| + 2
      && labels[..|field|] == field
      && (forall i :: |field| <= i < |labels| ==> Some(labels[i]) == PriorityLabel(row) || Some(labels[i]) == StatusLabel(row))
      && (PriorityLabel(row).Some? ==> PriorityLabel(row).value in labels)
      && (StatusLabel(row).Some? ==> StatusLabel(row).value in labels)
    ensures LabelsOf(row).Some? <==> FieldLabels(row).Some? || PriorityLabel(row).Some? || StatusLabel(row).Some?
  {
    AddTwiceLayout(FieldLabels(row), PriorityLabel(row), StatusLabel(row));
  }

  lemma PriorityIsNotStatus(p: string, s: string)
    requires StartsWith(p, "priority: ") && StartsWith(s, "status: ")
    ensures p != s
  {
    assert p[0] == 'p' && s[0] == 's';
  }

  /** A priority label occurs exactly once unless the label column already held it, in which case its
      count is unchanged (`"High"` gives `"priority: high"` once). */
  lemma PriorityLabelOnce(row: Row)
    requires PriorityLabel(row).Some?
    ensures var l := PriorityLabel(row).value;
            var field := FieldLabels(row).GetOr([]);
      multiset(LabelsOf(row).value)[l] == if l in field then multiset(field)[l] else 1
  {
    if StatusLabel(row).Some? {
      PriorityIsNotStatus(PriorityLabel(row).value, StatusLabel(row).value);
    }
  }

  /** The description is present exactly when a description alias is filled, and the formula guard holds
      for the body as it does for the title: the parsed body never starts with `=`, `+`, `-` or `@`, the
      due-date line (which starts with `*`) included. */
  lemma BodyOfRow(row: Row, formatDate: DateFormatter)
    requires HasTitle(row)
    ensures BaseBody(row).None? <==> Lookup(row, BodyKeys).None?
    ensures ParseRow(row, formatDate).value.body.None? <==> BaseBody(row).None? && DueDateOf(row, formatDate).None?
    ensures var body := ParseRow(row, formatDate).value.body;
            body.Some? ==> body.value == [] || !Security.IsFormulaLead(body.value[0])
  {
    Security.SanitizedTrimSafe(Lookup(row, BodyKeys).GetOr([]));
    assert ParseRow(row, formatDate).value.body == WithDueDate(BaseBody(row), DueDateOf(row, formatDate));
    DueDateKeepsGuard(BaseBody(row), DueDateOf(row, formatDate));
  }

  /** Appending the due-date line keeps a body that does not start with a formula character so. */
  lemma DueDateKeepsGuard(base: Option<string>, due: Option<string>)
    requires base.Some? ==> base.value == [] || !Security.IsFormulaLead(base.value[0])
    ensures var body := WithDueDate(base, due);
            body.Some? ==> body.value == [] || !Security.IsFormulaLead(body.value[0])
  {
    var body := WithDueDate(base, due);
    if due.Some? {
      if base.Some? && base.value != [] {
        assert body.value[..|base.value|] == base.value;
        assert body.value[0] == base.value[0];
      } else {
        assert body.value[0] == '*';
      }
    }
  }

  /** A row whose priority cell reads `High` (in any case, with any surrounding blanks) carries the label
      `priority: high`. */
  lemma HighPriorityLabelled(row: Row, high: string)
    requires high == "high"
    requires Lookup(row, PriorityKeys).Some? && ToLower(Trim(Lookup(row, PriorityKeys).value)) == high
    ensures LabelsOf(row).Some? && "priority: " + high in LabelsOf(row).value
  {
    assert high != [] && high != "none" && high != "no priority";
    LabelsLayout(row);
  }

  // ---------------------------------------------------------------------------
  // Worked examples, taken one separator at a time.
  // ---------------------------------------------------------------------------

  predicate LowerWord(w: string) {
    w != [] && forall k :: 0 <= k < |w| ==> 'a' <= w[k] <= 'z'
  }

  lemma TrimWord(w: string)
    requires LowerWord(w)
    ensures Trim(w) == w
  {
    TrimNoWhitespace(w);
  }

  lemma TrimSpaceWord(s: string, w: string)
    requires s == [' '] + w && LowerWord(w)
    ensures Trim(s) == w
  {
    assert s[1..] == w;
    assert TrimStart(s) == TrimStart(w);
    TrimWord(w);
  }

  /** Trimming and dropping empties, one leading token at a time. */
  lemma TrimFilterCons(t: string, rest: seq<string>)
    ensures Filter(TrimEach([t] + rest), NonEmpty) ==
      (if Trim(t) != [] then [Trim(t)] else []) + Filter(TrimEach(rest), NonEmpty)
  {
    assert ([t] + rest)[1..] == rest;
  }

  /** The label list of a token, a separator and the rest is the token's label, if any, then the rest's labels. */
  lemma SplitLabelsStep(t: string, c: char, rest: string, whole: string)
    requires forall k :: 0 <= k < |t| ==> t[k] !in LabelDelimiters
    requires c in LabelDelimiters && whole == t + [c] + rest
    ensures SplitLabels(whole) == (if Trim(t) != [] then [Trim(t)] else []) + SplitLabels(rest)
  {
    SplitAfterToken(t, c, rest, LabelDelimiters);
    TrimFilterCons(t, Split(rest, LabelDelimiters));
  }

  /** A text without separators gives at most one label. */
  lemma SplitLabelsSingle(t: string)
    requires forall k :: 0 <= k < |t| ==> t[k] !in LabelDelimiters
    ensures SplitLabels(t) == if Trim(t) != [] then [Trim(t)] else []
  {
    SplitNoDelimiter(t, LabelDelimiters);
    var none: seq<string> := [];
    assert [t] == [t] + none;
    TrimFilterCons(t, none);
  }

  /** A lower-case word followed by a separator is one label, then the labels of the rest. */
  lemma LabelWordThen(w: string, c: char, rest: string)
    requires LowerWord(w) && c in LabelDelimiters
    ensures SplitLabels(w + [c] + rest) == [w] + SplitLabels(rest)
  {
    assert forall k :: 0 <= k < |w| ==> w[k] !in LabelDelimiters;
    TrimWord(w);
    SplitLabelsStep(w, c, rest, w + [c] + rest);
  }

  /** The same with one space before the word: the space is trimmed away. */
  lemma SpacedLabelWordThen(w: string, c: char, rest: string)
    requires LowerWord(w) && c in LabelDelimiters
    ensures SplitLabels([' '] + w + [c] + rest) == [w] + SplitLabels(rest)
  {
    var token := [' '] + w;
    assert forall k :: 0 <= k < |token| ==> token[k] !in LabelDelimiters by {
      assert forall k :: 1 <= k < |token| ==> token[k] == w[k - 1];
    }
    TrimSpaceWord(token, w);
    assert [' '] + w + [c] + rest == token + [c] + rest;
    SplitLabelsStep(token, c, rest, token + [c] + rest);
  }

  /** A lower-case word on its own is a single label. */
  lemma LabelWordAlone(w: string)
    requires LowerWord(w)
    ensures SplitLabels(w) == [w]
  {
    assert forall k :: 0 <= k < |w| ==> w[k] !in LabelDelimiters;
    TrimWord(w);
    SplitLabelsSingle(w);
  }

  /** Words separated by a comma, a comma and space, a semicolon and a vertical bar, as in
      `"bug, ui;docs|x"`, become one label each, in order. */
  lemma LabelsExample(s: string, bug: string, ui: string, docs: string, x: string)
    requires LowerWord(bug) && LowerWord(ui) && LowerWord(docs) && LowerWord(x)
    requires s == bug + [','] + ([' '] + ui + [';'] + (docs + ['|'] + x))
    ensures SplitLabels(s) == [bug, ui, docs, x]
  {
    var s2 := docs + ['|'] + x;
    var s1 := [' '] + ui + [';'] + s2;
    assert SplitLabels(s2) == [docs, x] by {
      LabelWordAlone(x);
      LabelWordThen(docs, '|', x);
    }
    assert SplitLabels(s1) == [ui, docs, x] by {
      SpacedLabelWordThen(ui, ';', s2);
    }
    assert SplitLabels(s) == [bug] + SplitLabels(s1) by {
      LabelWordThen(bug, ',', s1);
    }
    LabelsCons(SplitLabels(s), SplitLabels(s1), bug, ui, docs, x);
  }

  lemma LabelsCons(labels: seq<string>, rest: seq<string>, first: string, b: string, c: string, d: string)
    requires labels == [first] + rest && rest == [b, c, d]
    ensures labels == [first, b, c, d]
  {
  }

  /** An address-shaped assignee keeps the part before its `@`. */
  lemma CleanAddress(t: string, name: string, domain: string)
    requires t == name + ['@'] + domain && '@' !in name
    requires t != [] && !IsWhitespace(t[0]) && !IsWhitespace(t[|t| - 1])
    ensures CleanAssignee(t) == name
  {
    TrimOfTrimmed(t);
    assert t[|name|] == '@';
    SplitAfterToken(name, '@', domain, {'@'});
  }

  /** A token that starts with `@` once trimmed, such as `" @x"`, is cleaned to nothing and then dropped. */
  lemma CleanLeadingAt(t: string, rest: string)
    requires t == [' '] + ['@'] + rest && rest != [] && !IsWhitespace(rest[|rest| - 1])
    ensures CleanAssignee(t) == []
  {
    var trimmed := ['@'] + rest;
    assert t[1..] == trimmed;
    assert TrimStart(t) == TrimStart(trimmed);
    TrimOfTrimmed(trimmed);
    assert trimmed[0] == '@';
  }

  /** Lower-case letters and dots, as in a mail domain. */
  predicate DomainWord(w: string) {
    w != [] && forall k :: 0 <= k < |w| ==> ('a' <= w[k] <= 'z') || w[k] == '.'
  }

  lemma AssigneesExampleChain(s: string, first: string, second: string, name: string)
    requires Split(s, {','}) == [first, second] && CleanAssignee(first) == name && name != [] && CleanAssignee(second) == []
    ensures SplitAssignees(s) == [name]
  {
    var tokens := [first, second];
    CleanEachElements(tokens);
    var cleaned: seq<string> := [name, []];
    assert CleanEach(tokens) == cleaned;
    assert cleaned[1..] == [[]] && cleaned[1..][1..] == [];
    assert Filter(cleaned[1..], NonEmpty) == [];
    assert Filter(cleaned, NonEmpty) == [name];
  }

  /** An address followed by a comma and a handle starting with `@`, as in
      `"jane@example.com, @x"`, gives the single assignee `jane`: the address is cut at
      its `@` and the handle is cleaned to nothing and dropped. */
  lemma AssigneesExample(s: string, name: string, domain: string, handle: string)
    requires LowerWord(name) && DomainWord(domain) && LowerWord(handle)
    requires s == (name + ['@'] + domain) + [','] + ([' '] + ['@'] + handle)
    ensures SplitAssignees(s) == [name]
  {
    var first := name + ['@'] + domain;
    var second := [' '] + ['@'] + handle;
    assert forall k :: 0 <= k < |first| ==> first[k] != ',' by {
      assert forall k :: 0 <= k < |name| ==> first[k] == name[k];
      assert forall k :: |name| < k < |first| ==> first[k] == domain[k - |name| - 1];
    }
    SplitAfterToken(first, ',', second, {','});
    assert forall k :: 0 <= k < |second| ==> second[k] != ',' by {
      assert forall k :: 2 <= k < |second| ==> second[k] == handle[k - 2];
    }
    SplitNoDelimiter(second, {','});
    assert Split(s, {','}) == [first, second];
    assert first[0] == name[0] && first[|first| - 1] == domain[|domain| - 1];
    CleanAddress(first, name, domain);
    CleanLeadingAt(second, handle);
    AssigneesExampleChain(s, first, second, name);
  }
}
