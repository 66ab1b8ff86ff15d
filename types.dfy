/** The records passed between the stages (src/types/index.ts). */
module Types {
  import opened Wrappers

  /** `IssueData`: one issue to create; every field but the title is optional. */
  datatype IssueData = IssueData(
    title: string,
    body: Option<string>,
    labels: Option<seq<string>>,
    assignees: Option<seq<string>>,
    milestone: Option<string>)

  /** `CreatedIssue`: what the remote reports for an issue it created. */
  datatype CreatedIssue = CreatedIssue(number: int, title: string, htmlUrl: string)
}
