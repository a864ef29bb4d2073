/** The text-producing parts of `GithubAssistantTools`: the error message
    shown for a failed GitHub call, the commit limit, the issue-body
    excerpt, and the repository and file listings. The GitHub client is not
    modelled: each listing takes the objects it would have fetched. */
module AssistantTools {
  import opened Wrappers
  import opened JavaText
  import opened ListingMarkers

  // ---------------------------------------------------------------------
  // formatError
  // ---------------------------------------------------------------------

  /** The text used when the exception has no message. */
  const UnknownError: string := "Erro desconhecido"
  const AuthFailedMessage: string := "❌ Erro de autenticação: " + "Token GitHub inválido ou expirado"
  const NotFoundMessage: string := "❌ Recurso não encontrado: " + "Repositório ou arquivo não existe"
  const ForbiddenMessage: string := "❌ Acesso negado: " + "Token sem permissão suficiente"
  const GenericPrefix: string := "❌ Erro: "

  predicate SaysUnauthorized(m: string) { Contains(m, "401") || Contains(m, "Unauthorized") }
  predicate SaysNotFound(m: string) { Contains(m, "404") || Contains(m, "Not Found") }
  predicate SaysForbidden(m: string) { Contains(m, "403") || Contains(m, "Forbidden") }

  /** `formatError`: the exception message (`None` is null) is classified
      by the first of authentication, not found and forbidden that it
      mentions; anything else is shown after a generic prefix. Every
      answer opens with the cross glyph. */
  function FormatError(message: Option<string>): (r: string)
    ensures r != [] && r[0] == CrossGlyph
    ensures var m := message.GetOr(UnknownError);
      && (r == AuthFailedMessage <==> SaysUnauthorized(m))
      && (r == NotFoundMessage <==> !SaysUnauthorized(m) && SaysNotFound(m))
      && (r == ForbiddenMessage <==> !SaysUnauthorized(m) && !SaysNotFound(m) && SaysForbidden(m))
      && (r == GenericPrefix + m <==> !SaysUnauthorized(m) && !SaysNotFound(m) && !SaysForbidden(m))
  {
    var m := message.GetOr(UnknownError);
    // the four answers differ at index 2 or, for the two "Erro" ones, at 6
    assert (GenericPrefix + m)[2] == 'E' && (GenericPrefix + m)[6] == ':';
    assert AuthFailedMessage[2] == 'E' && AuthFailedMessage[6] == ' ';
    assert NotFoundMessage[2] == 'R' && ForbiddenMessage[2] == 'A';
    if SaysUnauthorized(m) then AuthFailedMessage
    else if SaysNotFound(m) then NotFoundMessage
    else if SaysForbidden(m) then ForbiddenMessage
    else GenericPrefix + m
  }

  /** A message without the characters `4`, `U`, `N` and `F` mentions no
      class. */
  lemma NoClassMentioned(m: string)
    requires '4' !in m && 'U' !in m && 'N' !in m && 'F' !in m
    ensures !SaysUnauthorized(m) && !SaysNotFound(m) && !SaysForbidden(m)
  {
    if Contains(m, "401") { assert "401"[0] == '4'; ContainsChars(m, "401", '4'); }
    if Contains(m, "404") { assert "404"[0] == '4'; ContainsChars(m, "404", '4'); }
    if Contains(m, "403") { assert "403"[0] == '4'; ContainsChars(m, "403", '4'); }
    if Contains(m, "Unauthorized") { assert "Unauthorized"[0] == 'U'; ContainsChars(m, "Unauthorized", 'U'); }
    if Contains(m, "Not Found") { assert "Not Found"[0] == 'N'; ContainsChars(m, "Not Found", 'N'); }
    if Contains(m, "Forbidden") { assert "Forbidden"[0] == 'F'; ContainsChars(m, "Forbidden", 'F'); }
  }

  /** A missing message matches no class: it is shown as the generic error
      with the placeholder text. */
  lemma FormatErrorWithoutMessage()
    ensures FormatError(None) == GenericPrefix + UnknownError
  {
    NoClassMentioned(UnknownError);
  }

  // ---------------------------------------------------------------------
  // listCommits: how many commits are shown
  // ---------------------------------------------------------------------

  const DefaultCommitLimit: int := 10

  /** `limit != null && limit > 0 ? limit : 10`. */
  function MaxCommits(limit: Option<int>): (n: int)
    ensures n > 0
    ensures limit.Some? && limit.value > 0 ==> n == limit.value
    ensures n != DefaultCommitLimit ==> limit == Some(n)
  {
    if limit.Some? && limit.value > 0 then limit.value else DefaultCommitLimit
  }

  /** `commits.subList(0, Math.min(maxCommits, commits.size()))`, over one
      listing of the repository's commits (newest first). */
  function CommitsShown<T>(limit: Option<int>, commits: seq<T>): (shown: seq<T>)
    ensures |shown| <= |commits| && shown == commits[..|shown|]
    ensures |shown| <= MaxCommits(limit)
    ensures |shown| < |commits| ==> |shown| == MaxCommits(limit)
  {
    var n := MaxCommits(limit);
    commits[..if n < |commits| then n else |commits|]
  }

  /** "No commit found" is answered only for a repository without commits:
      whatever the limit, at least one commit is shown when there is one. */
  lemma CommitsShownEmpty<T>(limit: Option<int>, commits: seq<T>)
    ensures CommitsShown(limit, commits) == [] <==> commits == []
  {
  }

  // ---------------------------------------------------------------------
  // listOpenIssues: the body excerpt
  // ---------------------------------------------------------------------

  const BodyLimit: nat := 100
  const Ellipsis: string := "..."

  /** A body longer than 100 characters keeps its first 100 and gains an ellipsis. */
  function TruncateBody(body: string): (r: string)
    ensures |r| <= BodyLimit + |Ellipsis|
    ensures |body| <= BodyLimit ==> r == body
    ensures |body| > BodyLimit ==> |r| == BodyLimit + |Ellipsis| && r[..BodyLimit] == body[..BodyLimit] && r[BodyLimit..] == Ellipsis
  {
    if |body| > BodyLimit then body[..BodyLimit] + Ellipsis else body
  }

  /** Truncating an excerpt again changes nothing. */
  lemma TruncateBodyIdempotent(body: string)
    ensures TruncateBody(TruncateBody(body)) == TruncateBody(body)
  {
    var r := TruncateBody(body);
    if |body| > BodyLimit {
      assert r == r[..BodyLimit] + r[BodyLimit..];
    }
  }

  /** The excerpt line of an issue: nothing for a null or empty body. */
  function IssueBodyLine(body: Option<string>): (line: Option<string>)
    ensures line.None? <==> body.None? || body.value == []
    ensures line.Some? ==> |line.value| <= |Indent| + BodyLimit + |Ellipsis| + 1
    ensures line.Some? ==> line.value == Indent + TruncateBody(body.value) + "\n"
  {
    if body.None? || |body.value| == 0 then None
    else Some(Indent + TruncateBody(body.value) + "\n")
  }

  // ---------------------------------------------------------------------
  // listRepositories
  // ---------------------------------------------------------------------

  /** What the tool reads from a `GHRepository`. */
  datatype GhRepo = GhRepo(
    name: string,
    description: Option<string>,
    htmlUrl: string,
    language: Option<string>,
    stars: int,
    forks: int,
    openIssues: int,
    isPrivate: bool)

  const Indent: string := "   "
  const NoRepositories: string := NoResults + " repositório encontrado."

  function RepoHeaderRow(count: int): string {
    [CheckGlyph] + " Total: " + IntToString(count) + " repositórios"
  }

  function NameRow(r: GhRepo): string {
    [PackageGlyph] + " " + r.name
  }

  /** `"   <label> %s"`, the shape of the description, URL and language
      lines. */
  function LabelRow(tag: string, value: string): string {
    Indent + tag + " " + value
  }

  /** The labelled line of an optional field, with its newline, or nothing. */
  function OptionalRow(tag: string, value: Option<string>): string {
    if value.Some? then LabelRow(tag, value.value) + "\n" else ""
  }

  function MetricsRow(r: GhRepo): string {
    Indent + [StarGlyph] + " " + IntToString(r.stars) + " | " + [ForkGlyph] + " " + IntToString(r.forks)
      + " | " + [IssueGlyph] + " " + IntToString(r.openIssues) + " issues"
  }

  function VisibilityRow(isPrivate: bool): string {
    Indent + (if isPrivate then [LockGlyph] + " " + PrivateWord else [GlobeGlyph] + " " + PublicWord)
  }

  /** The lines written for one repository; the block ends with an empty
      line. */
  function RepoBlock(r: GhRepo): string {
    NameRow(r) + "\n"
      + OptionalRow(DescriptionLabel, r.description)
      + LabelRow(UrlLabel, r.htmlUrl) + "\n"
      + OptionalRow(LanguageLabel, r.language)
      + MetricsRow(r) + "\n"
      + VisibilityRow(r.isPrivate) + "\n\n"
  }

  function RepoBlocks(repos: seq<GhRepo>): string {
    if repos == [] then "" else RepoBlock(repos[0]) + RepoBlocks(repos[1..])
  }

  lemma {:induction false} RepoBlocksSnoc(repos: seq<GhRepo>, r: GhRepo)
    ensures RepoBlocks(repos + [r]) == RepoBlocks(repos) + RepoBlock(r)
  {
    if repos == [] {
      assert [r][1..] == [];
      assert RepoBlocks([r]) == RepoBlock(r) + RepoBlocks([]);
    } else {
      assert (repos + [r])[0] == repos[0];
      assert (repos + [r])[1..] == repos[1..] + [r];
      RepoBlocksSnoc(repos[1..], r);
      AppendAssociative(RepoBlock(repos[0]), RepoBlocks(repos[1..]), RepoBlock(r));
    }
  }

  /** The answer of `listRepositories` for the repositories fetched. An
      empty account gets the "none found" sentence, which is what the
      data-structure service recognises; otherwise the text opens with the
      count. */
  function RepoListing(repos: seq<GhRepo>): (text: string)
    ensures repos == [] <==> text == NoRepositories
    ensures text != [] && (repos != [] ==> text[0] == CheckGlyph)
  {
    if repos == [] then NoRepositories
    else RepoHeaderRow(|repos|) + "\n\n" + RepoBlocks(repos)
  }

  /** The appends of one iteration of `listRepositories`. */
  method WriteRepository(repo: GhRepo) returns (block: string)
    ensures block == RepoBlock(repo)
  {
    block := NameRow(repo) + "\n";
    if repo.description.Some? {
      block := block + (LabelRow(DescriptionLabel, repo.description.value) + "\n");
    } else {
      assert block == block + "";
    }
    assert block == NameRow(repo) + "\n" + OptionalRow(DescriptionLabel, repo.description);
    block := block + LabelRow(UrlLabel, repo.htmlUrl) + "\n";
    ghost var upToUrl := block;
    if repo.language.Some? {
      block := block + (LabelRow(LanguageLabel, repo.language.value) + "\n");
    } else {
      assert block == block + "";
    }
    assert block == upToUrl + OptionalRow(LanguageLabel, repo.language);
    block := block + MetricsRow(repo) + "\n";
    block := block + VisibilityRow(repo.isPrivate) + "\n\n";
  }

  /** One more block after those of the first `i` repositories. */
  lemma RepoBlocksStep(header: string, repos: seq<GhRepo>, i: int)
    requires 0 <= i < |repos|
    ensures header + RepoBlocks(repos[..i]) + RepoBlock(repos[i]) == header + RepoBlocks(repos[..i + 1])
  {
    RepoBlocksSnoc(repos[..i], repos[i]);
    PrefixSnoc(repos, i);
    AppendAssociative(header, RepoBlocks(repos[..i]), RepoBlock(repos[i]));
  }

  /** `listRepositories`, appending to a builder as the source does. */
  method ListRepositories(repos: seq<GhRepo>) returns (text: string)
    ensures text == RepoListing(repos)
  {
    if |repos| == 0 {
      return NoRepositories;
    }
    var sb := RepoHeaderRow(|repos|) + "\n\n";
    var i := 0;
    ghost var header := sb;
    while i < |repos|
      invariant 0 <= i <= |repos|
      invariant sb == header + RepoBlocks(repos[..i])
    {
      var block := WriteRepository(repos[i]);
      RepoBlocksStep(header, repos, i);
      sb := sb + block;
      i := i + 1;
    }
    assert repos[..i] == repos;
    text := sb;
  }

  // ---------------------------------------------------------------------
  // listRepositoryFiles and listRepositoryFilesInDirectory
  // ---------------------------------------------------------------------

  /** `GHContent.isDirectory()` / `isFile()`; anything else (a symbolic
      link, a submodule) is neither. */
  datatype ContentKind = Directory | File | Other

  /** What the tool reads from a `GHContent`. */
  datatype GhContent = GhContent(name: string, kind: ContentKind, size: int)

  const EmptyRepository: string := "Repositório vazio."

  /** One entry: folder glyph for a directory, page glyph otherwise, and a
      size annotation for a file only. */
  function EntryRow(c: GhContent): string {
    [if c.kind.Directory? then FolderGlyph else PageGlyph] + " " + c.name
      + (if c.kind.File? then " (" + IntToString(c.size) + " " + BytesClose else "")
  }

  function Entries(contents: seq<GhContent>): string {
    if contents == [] then "" else EntryRow(contents[0]) + "\n" + Entries(contents[1..])
  }

  lemma {:induction false} EntriesSnoc(contents: seq<GhContent>, c: GhContent)
    ensures Entries(contents + [c]) == Entries(contents) + EntryRow(c) + "\n"
  {
    if contents == [] {
      assert Entries([c]) == EntryRow(c) + "\n" + Entries([]);
    } else {
      assert (contents + [c])[1..] == contents[1..] + [c];
      EntriesSnoc(contents[1..], c);
    }
  }

  function FilesHeaderRow(repositoryName: string): string {
    [CheckGlyph] + " Arquivos de " + repositoryName + ":"
  }

  /** The answer of `listRepositoryFiles` for the root entries fetched. */
  function FileListing(repositoryName: string, contents: seq<GhContent>): (text: string)
    ensures contents == [] <==> text == EmptyRepository
    ensures text != [] && (contents != [] ==> text[0] == CheckGlyph)
  {
    if contents == [] then EmptyRepository
    else FilesHeaderRow(repositoryName) + "\n\n" + Entries(contents)
  }

  function EmptyDirectory(path: string): string {
    "Diretório " + path + " está vazio."
  }

  function DirectoryHeaderRow(repositoryName: string, path: string): string {
    [CheckGlyph] + " " + repositoryName + " / " + path + ":"
  }

  /** The answer of `listRepositoryFilesInDirectory` for the entries of
      `path`. */
  function DirectoryListing(repositoryName: string, path: string, contents: seq<GhContent>): (text: string)
    ensures contents == [] <==> text == EmptyDirectory(path)
    ensures text != [] && (contents != [] ==> text[0] == CheckGlyph)
  {
    if contents == [] then EmptyDirectory(path)
    else
      var text := DirectoryHeaderRow(repositoryName, path) + "\n\n" + Entries(contents);
      assert text[0] != EmptyDirectory(path)[0];
      text
  }

  /** The appends for one entry, before its newline. */
  method WriteEntry(content: GhContent) returns (line: string)
    ensures line == EntryRow(content)
  {
    var icon := if content.kind.Directory? then FolderGlyph else PageGlyph;
    line := [icon] + " " + content.name;
    if content.kind.File? {
      line := line + " (" + IntToString(content.size) + " " + BytesClose;
    }
  }

  /** The loop both file listings share: one line per entry. */
  method AppendEntries(sb: string, contents: seq<GhContent>) returns (r: string)
    ensures r == sb + Entries(contents)
  {
    r := sb;
    var i := 0;
    while i < |contents|
      invariant 0 <= i <= |contents|
      invariant r == sb + Entries(contents[..i])
    {
      var line := WriteEntry(contents[i]);
      EntriesSnoc(contents[..i], contents[i]);
      PrefixSnoc(contents, i);
      r := r + line + "\n";
      i := i + 1;
    }
    assert contents[..i] == contents;
  }

  /** `listRepositoryFiles`. */
  method ListRepositoryFiles(repositoryName: string, contents: seq<GhContent>) returns (text: string)
    ensures text == FileListing(repositoryName, contents)
  {
    if |contents| == 0 {
      return EmptyRepository;
    }
    text := AppendEntries(FilesHeaderRow(repositoryName) + "\n\n", contents);
  }

  /** `listRepositoryFilesInDirectory`. */
  method ListDirectoryFiles(repositoryName: string, path: string, contents: seq<GhContent>) returns (text: string)
    ensures text == DirectoryListing(repositoryName, path, contents)
  {
    if |contents| == 0 {
      return EmptyDirectory(path);
    }
    text := AppendEntries(DirectoryHeaderRow(repositoryName, path) + "\n\n", contents);
  }
}
