/** The response records the parsers build (GitHubRepoResponse and
    GitHubFilesResponse). Java's nullable fields are `Option`s; the fields the
    parsers always set are plain values. */
module GitHubDtos {
  import opened Wrappers

  /** One repository of a listing. Fields never seen in the text stay `None`,
      never `0` or the empty string. */
  datatype RepoInfo = RepoInfo(
    name: string,
    description: Option<string>,
    url: Option<string>,
    language: Option<string>,
    stars: Option<int>,
    forks: Option<int>,
    isPrivate: Option<bool>)

  /** `total` is meant to be the number of `repositories`. */
  datatype RepoResponse = RepoResponse(total: int, repositories: seq<RepoInfo>)

  /** One entry of a directory listing; `children` defaults to empty. */
  datatype FileNode = FileNode(
    name: string,
    path: string,
    isDirectory: bool,
    size: Option<int>,
    loaded: bool,
    children: seq<FileNode>)

  /** `repositoryName` comes from the caller, not from the parsed text. */
  datatype FilesResponse = FilesResponse(repositoryName: string, totalFiles: int, files: seq<FileNode>)
}
