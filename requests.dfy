/** The request records of the HTTP layer and their `isValid` checks. A
    Java `null` is `None`; "blank" is Java's `trim().isEmpty()`. */
module AssistantRequests {
  import opened Wrappers
  import opened JavaText

  /** A text field that is present and not blank after `trim`. */
  predicate Filled(field: Option<string>) {
    field.Some? && Trim(field.value) != []
  }

  /** `Filled` holds exactly when the text has a character above U+0020. */
  lemma FilledVisible(field: Option<string>)
    ensures Filled(field) <==> field.Some? && HasVisibleChar(field.value)
  {
    if field.Some? {
      TrimEmpty(field.value);
    }
  }

  datatype AnalyzeGitHubFilesRequest = AnalyzeGitHubFilesRequest(
    repositoryName: Option<string>,
    selectedFilePaths: Option<seq<string>>,
    analysisType: Option<string>)

  /** `AnalyzeGitHubFilesRequest.isValid`: a repository name and an
      analysis type that are not blank, and at least one path. The paths
      themselves and the analysis type's value are not checked. */
  function AnalyzeIsValid(req: AnalyzeGitHubFilesRequest): (valid: bool)
    ensures valid <==>
      && req.repositoryName.Some? && HasVisibleChar(req.repositoryName.value)
      && req.selectedFilePaths.Some? && req.selectedFilePaths.value != []
      && req.analysisType.Some? && HasVisibleChar(req.analysisType.value)
  {
    FilledVisible(req.repositoryName);
    FilledVisible(req.analysisType);
    Filled(req.repositoryName)
    && req.selectedFilePaths.Some? && |req.selectedFilePaths.value| != 0
    && Filled(req.analysisType)
  }

  /** Any non-blank analysis type and any list of paths, even blank ones, is
      accepted. */
  lemma AnalyzeAcceptsAnyTypeAndPaths(name: string, paths: seq<string>, kind: string)
    requires HasVisibleChar(name) && HasVisibleChar(kind) && paths != []
    ensures AnalyzeIsValid(AnalyzeGitHubFilesRequest(Some(name), Some(paths), Some(kind)))
  {
  }

  datatype GitHubChatRequest = GitHubChatRequest(message: Option<string>)

  /** `GitHubChatRequest.isValid`: a message that is present and not blank. */
  function ChatIsValid(req: GitHubChatRequest): (valid: bool)
    ensures valid <==> req.message.Some? && HasVisibleChar(req.message.value)
  {
    FilledVisible(req.message);
    Filled(req.message)
  }

  /** A message made only of characters up to U+0020 is rejected, the
      empty message included. */
  lemma ChatRejectsBlank(message: string)
    requires forall i :: 0 <= i < |message| ==> IsTrimmable(message[i])
    ensures !ChatIsValid(GitHubChatRequest(Some(message)))
  {
  }
}
