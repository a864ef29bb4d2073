# GitHub assistant: listings, their parsers and the request/response records

The Spring AI GitHub assistant exposes "tools" that a language model calls.
Each tool asks GitHub for something and returns a piece of Portuguese text
decorated with emoji. A separate service turns two of those texts back
into structured responses:

- the repository listing (`listRepositories`) becomes a `GitHubRepoResponse`;
- the file listings (`listRepositoryFiles`, `listRepositoryFilesInDirectory`)
  become a `GitHubFilesResponse`.

This project models both sides of that exchange in Dafny.

The text builders are in module `AssistantTools` (`tools.dfy`):
- the repository listing, the file listing and the directory listing, each
  written as a `StringBuilder` loop (a `method`) proved equal to a
  specification function;
- the error message produced for a failed GitHub call (`formatError`);
- the commit limit and the number of commits shown (`listCommits`);
- the truncation of issue bodies (`listOpenIssues`).

The parsers of `GitHubDataStructureService` are in two modules:
- `RepoListParser` (`repo_parser.dfy`) holds `parseRepositories`: a line
  classifier, a builder state advanced line by line, the count parsing that
  may throw, and the stable sort by stars with absent counts last;
- `FileListParser` (`file_parser.dfy`) holds `parseFiles`: line skipping,
  name and size extraction with the exceptions it may throw, and the stable
  directories-first, case-insensitive sort.

Each parser is an imperative method proved equal to a function of the
response text. Further lemmas about that function are in `RepoListFacts`.

The request and response records are in `AssistantRequests` and
`AssistantResponses`:
- the two `isValid` checks;
- the `success` and `error` factories, with the clock reading passed in as
  `now`.

The behaviour of Java's string library that the code relies on is modelled
in `JavaText`:
- `split`, which drops trailing empty pieces;
- `split(" ", 2)`;
- `trim`, which removes every character up to U+0020;
- `contains`, `indexOf` and `substring`;
- `replaceAll("[^0-9]", "")`;
- `Integer.parseInt` and `Long.parseLong`, with their ranges;
- `compareToIgnoreCase`.

`StableSorting` models `List.sort`, a stable sort, as an insertion sort
over a total preorder.

Two modules compose the builders with the parsers:
- `RepoListingReadBack` proves that parsing a repository listing gives back
  every repository. The fields come back as written, and the order is by
  stars.
- `FileListingReadBack` proves the file listing does not round-trip. Every
  file line ends in `(N bytes)`, so it contains `bytes)`, and the parser
  skips exactly those lines. Only directories (and entries of other kinds)
  come back, all without a size.

Each emoji is one Dafny `char`. Uncaught Java exceptions are `Err` values
of `JavaException`. A Java `null` is `None`.

## Model

| member | source | states |
|---|---|---|
| AssistantTools.FormatError | src/main/java/br/com/sistema/github/tools/GithubAssistantTools.java:412-428 | the message is one of three fixed texts or the generic prefix followed by the exception message; which one is chosen exactly by the first matching test, "401"/"Unauthorized", then "404"/"Not Found", then "403"/"Forbidden"; a null message reads as "Erro desconhecido" |
| AssistantTools.NoClassMentioned | src/main/java/br/com/sistema/github/tools/GithubAssistantTools.java:415-425 | a message without the characters 4, U, N and F matches none of the three error classes |
| AssistantTools.FormatErrorWithoutMessage | src/main/java/br/com/sistema/github/tools/GithubAssistantTools.java:413 | an exception without a message gives "❌ Erro: Erro desconhecido" |
| AssistantTools.MaxCommits | src/main/java/br/com/sistema/github/tools/GithubAssistantTools.java:289 | the limit is always positive; it is the caller's value when that value is positive; otherwise it is 10 |
| AssistantTools.CommitsShown | src/main/java/br/com/sistema/github/tools/GithubAssistantTools.java:293-296 | the commits shown are a prefix of the repository's commits; there are at most the limit of them; fewer than all only when the limit is reached |
| AssistantTools.CommitsShownEmpty | src/main/java/br/com/sistema/github/tools/GithubAssistantTools.java:293-296 | nothing is shown exactly when the repository has no commits |
| AssistantTools.TruncateBody | src/main/java/br/com/sistema/github/tools/GithubAssistantTools.java:349-351 | a body of at most 100 characters is kept; a longer one becomes its first 100 characters followed by "..." |
| AssistantTools.TruncateBodyIdempotent | src/main/java/br/com/sistema/github/tools/GithubAssistantTools.java:349-351 | truncating twice is the same as truncating once |
| AssistantTools.IssueBodyLine | src/main/java/br/com/sistema/github/tools/GithubAssistantTools.java:348-353 | no body line is written for a null or empty body; a written line is the indent, the body cut to 100 characters with an ellipsis when longer, and a newline, so it is bounded by their lengths |
| AssistantTools.RepoListing | src/main/java/br/com/sistema/github/tools/GithubAssistantTools.java:56-83 | the "no repositories" text appears exactly when the list is empty; otherwise the listing opens with the check mark |
| AssistantTools.WriteRepository | src/main/java/br/com/sistema/github/tools/GithubAssistantTools.java:64-82 | the appends for one repository build its block: name; description when present; URL; language when present; counts; visibility; a blank line |
| AssistantTools.ListRepositories | src/main/java/br/com/sistema/github/tools/GithubAssistantTools.java:56-83 | the builder loop produces the listing: header, then one block per repository in order |
| AssistantTools.FileListing | src/main/java/br/com/sistema/github/tools/GithubAssistantTools.java:106-122 | "Repositório vazio." appears exactly when there are no entries; otherwise the listing opens with the check mark |
| AssistantTools.DirectoryListing | src/main/java/br/com/sistema/github/tools/GithubAssistantTools.java:145-161 | the empty-directory text appears exactly when there are no entries; otherwise the listing opens with the check mark |
| AssistantTools.WriteEntry | src/main/java/br/com/sistema/github/tools/GithubAssistantTools.java:114-121 | one entry line: folder or page glyph and name, and " (N bytes)" for a file |
| AssistantTools.AppendEntries | src/main/java/br/com/sistema/github/tools/GithubAssistantTools.java:113-122 | the loop appends every entry's line to the builder, in order |
| AssistantTools.ListRepositoryFiles | src/main/java/br/com/sistema/github/tools/GithubAssistantTools.java:106-124 | the tool's text is the file listing of the repository's root |
| AssistantTools.ListDirectoryFiles | src/main/java/br/com/sistema/github/tools/GithubAssistantTools.java:145-163 | the tool's text is the listing of the directory |
| RepoListParser.ClassifyField | src/main/java/br/com/sistema/github/service/GitHubDataStructureService.java:81-102 | a line that is not a package line never opens a repository |
| RepoListParser.ClassifyLabelled | src/main/java/br/com/sistema/github/service/GitHubDataStructureService.java:81-86 | a line opening with "Descrição:", "URL:" or "Linguagem:" sets that field to the trimmed rest of the line |
| RepoListParser.Update | src/main/java/br/com/sistema/github/service/GitHubDataStructureService.java:81-102 | a line fails exactly when it is a metrics line whose digits do not make an int; the name is never changed |
| RepoListParser.SortedByStars | src/main/java/br/com/sistema/github/service/GitHubDataStructureService.java:109 | a permutation sorted by stars, descending, with absent counts last; records that compare equal keep their order |
| RepoListParser.StarsFirstIsTotalPreorder | src/main/java/br/com/sistema/github/service/GitHubDataStructureService.java:109 | the star comparator is total and transitive |
| RepoListParser.RepositoriesOf | src/main/java/br/com/sistema/github/service/GitHubDataStructureService.java:62-111 | a null or empty response, or one containing "Nenhum", gives an empty result; the total equals the number of repositories; these are ordered by stars, with absent counts last |
| RepoListParser.ReadCount | src/main/java/br/com/sistema/github/service/GitHubDataStructureService.java:93-98 | an empty digit string leaves the count; otherwise `Integer.parseInt` sets it or throws |
| RepoListParser.ReadMetrics | src/main/java/br/com/sistema/github/service/GitHubDataStructureService.java:87-99 | the metrics branch: split on the bar, keep the digits of the first two pieces, parse each non-empty one |
| RepoListParser.UpdateRecord | src/main/java/br/com/sistema/github/service/GitHubDataStructureService.java:81-102 | the else-if chain applies the field change the classifier names |
| RepoListParser.ProcessLine | src/main/java/br/com/sistema/github/service/GitHubDataStructureService.java:73-102 | one iteration of the loop |
| RepoListParser.ParseRepositories | src/main/java/br/com/sistema/github/service/GitHubDataStructureService.java:62-111 | the imperative parser computes the response of the repository parser |
| RepoListFacts.ScanAppend | src/main/java/br/com/sistema/github/service/GitHubDataStructureService.java:72-103 | scanning a + b means scanning a, then b from where a ended |
| RepoListFacts.ScanSnoc | src/main/java/br/com/sistema/github/service/GitHubDataStructureService.java:72-103 | scanning one more line means one more step |
| RepoListFacts.StepNames | src/main/java/br/com/sistema/github/service/GitHubDataStructureService.java:75-80 | a step adds a record name exactly for a package line, and that name is the trimmed text after the glyph |
| RepoListFacts.ScanNames | src/main/java/br/com/sistema/github/service/GitHubDataStructureService.java:72-107 | the names of the records built are the names of the package lines, in order |
| RepoListFacts.RecordPerStart | src/main/java/br/com/sistema/github/service/GitHubDataStructureService.java:72-107 | one record per package line, none other |
| RepoListFacts.StepWithoutRecord | src/main/java/br/com/sistema/github/service/GitHubDataStructureService.java:81-102 | without an open record, a non-package line changes nothing |
| RepoListFacts.PreambleIgnored | src/main/java/br/com/sistema/github/service/GitHubDataStructureService.java:81-102 | lines before the first package line are ignored |
| RepoListFacts.LastSetUnseen | src/main/java/br/com/sistema/github/service/GitHubDataStructureService.java:81-101 | a field that no line sets keeps its value |
| RepoListFacts.LastSetLatest | src/main/java/br/com/sistema/github/service/GitHubDataStructureService.java:81-101 | a field takes the value of the last line that sets it |
| RepoListFacts.UpdateOverlays | src/main/java/br/com/sistema/github/service/GitHubDataStructureService.java:81-102 | a successful line overwrites only the field it names |
| RepoListFacts.BlockFields | src/main/java/br/com/sistema/github/service/GitHubDataStructureService.java:72-103 | the lines after a package line only fill in the open record; each field keeps the last value written; earlier records are untouched |
| RepoListFacts.UnsetFieldsAbsent | src/main/java/br/com/sistema/github/service/GitHubDataStructureService.java:75-80 | a new record whose block has no description or metrics line keeps those fields null |
| RepoListFacts.MetricsDigits | src/main/java/br/com/sistema/github/service/GitHubDataStructureService.java:88-98 | the trim after the digit filter does nothing; a count throws exactly when its digits exceed `Integer.MAX_VALUE` |
| RepoListFacts.DigitsTrimmed | src/main/java/br/com/sistema/github/service/GitHubDataStructureService.java:90-91 | trimming a digit string leaves it unchanged |
| RepoListFacts.UnlabelledPrecedence | src/main/java/br/com/sistema/github/service/GitHubDataStructureService.java:87-101 | a star line is a metrics line even when it mentions a visibility word; visibility is recognised only without the star; the record is private exactly when the line says "Privado" |
| RepoListFacts.RepositoriesReordered | src/main/java/br/com/sistema/github/service/GitHubDataStructureService.java:62-111 | the parser fails exactly when the loop fails; otherwise it returns the records built, one per package line, as a stable permutation |
| FileListParser.NameOf | src/main/java/br/com/sistema/github/service/GitHubDataStructureService.java:140 | a name read is trimmed and holds no parenthesis |
| FileListParser.NameOfSpec | src/main/java/br/com/sistema/github/service/GitHubDataStructureService.java:140 | the name is the trimmed text before the first parenthesis; the array index throws exactly when the text is all parentheses |
| FileListParser.SizeOfSpec | src/main/java/br/com/sistema/github/service/GitHubDataStructureService.java:142-150 | the size is read only when the text has both "(" and "bytes"; `substring` throws exactly when "bytes" comes before the first "("; when both are present in that order the size is `ParseLong` of the trimmed text between them, so a size that is not a long stays absent |
| FileListParser.Remainder | src/main/java/br/com/sistema/github/service/GitHubDataStructureService.java:136-139 | the text an entry line describes is everything after its first space, trimmed |
| FileListParser.ParseFileLine | src/main/java/br/com/sistema/github/service/GitHubDataStructureService.java:126-161 | a line is skipped exactly when, trimmed, it is empty, starts with the check mark, contains "bytes)", starts with neither the folder nor the page glyph, or has no space; a node read is flat and loaded, its path is its name, and it is a directory exactly when the line starts with the folder glyph; a kept line throws exactly when reading its name or its size throws, and otherwise its name and size are the ones read from the text after the first space |
| FileListParser.ParseFileLineSpec | src/main/java/br/com/sistema/github/service/GitHubDataStructureService.java:136-150 | for a kept line: the name is the text after the first space, up to the first "(", trimmed; when that text has both "(" and "bytes" the size is `ParseLong` of the trimmed text between them (absent when that is not a long), and when either is missing the size is absent; the line throws exactly when that text is all "("s or has "bytes" before its first "(" |
| FileListParser.NodesOf | src/main/java/br/com/sistema/github/service/GitHubDataStructureService.java:123-163 | one node per line not skipped, all flat |
| FileListParser.NodesOfFails | src/main/java/br/com/sistema/github/service/GitHubDataStructureService.java:123-163 | the loop throws exactly when one of its lines throws |
| FileListParser.NodesOfMembers | src/main/java/br/com/sistema/github/service/GitHubDataStructureService.java:123-163 | when the loop succeeds, a node is in its result exactly when some line reads as that node |
| FileListParser.NodesOfErrPrefix | src/main/java/br/com/sistema/github/service/GitHubDataStructureService.java:125-162 | an exception in a prefix is the result of the whole loop |
| FileListParser.DirsFirstIsTotalPreorder | src/main/java/br/com/sistema/github/service/GitHubDataStructureService.java:165-169 | the comparator is total and transitive |
| FileListParser.SortedDirsFirst | src/main/java/br/com/sistema/github/service/GitHubDataStructureService.java:165-169 | a permutation with directories first, each group ordered by name ignoring case; equal nodes keep their order |
| FileListParser.FilesOf | src/main/java/br/com/sistema/github/service/GitHubDataStructureService.java:116-172 | a null or empty response gives an empty result; the total equals the number of files; directories come first, then names in case-insensitive order |
| FileListParser.FilesReordered | src/main/java/br/com/sistema/github/service/GitHubDataStructureService.java:116-172 | for a non-empty response, the parser throws exactly when the loop does; otherwise the files are the loop's nodes, one per kept line, as a stable permutation |
| FileListParser.ReadSize | src/main/java/br/com/sistema/github/service/GitHubDataStructureService.java:142-150 | the size extraction, with its caught exception |
| FileListParser.ReadLine | src/main/java/br/com/sistema/github/service/GitHubDataStructureService.java:125-162 | one iteration of the loop |
| FileListParser.ParseFiles | src/main/java/br/com/sistema/github/service/GitHubDataStructureService.java:116-172 | the imperative parser computes the response of the file parser |
| JavaText.RawSplit | src/main/java/br/com/sistema/github/service/GitHubDataStructureService.java:69 | the pieces hold no separator, and joining them with it gives back the text |
| JavaText.JavaSplitEmpty | src/main/java/br/com/sistema/github/service/GitHubDataStructureService.java:123 | `split` returns no pieces exactly for a non-empty text made only of separators |
| JavaText.SplitOnce | src/main/java/br/com/sistema/github/service/GitHubDataStructureService.java:136 | `split(" ", 2)` cuts at the first space, or keeps the text whole |
| JavaText.Trim | src/main/java/br/com/sistema/github/service/GitHubDataStructureService.java:73 | the result neither starts nor ends with a character up to U+0020 |
| JavaText.TrimSpec | src/main/java/br/com/sistema/github/service/GitHubDataStructureService.java:73 | `trim` returns the slice of its input between the first and the last character above U+0020; everything it cuts off is at most U+0020 |
| JavaText.TrimFixpoint | src/main/java/br/com/sistema/github/service/GitHubDataStructureService.java:126 | trim leaves a text unchanged exactly when the text is trimmed |
| JavaText.KeepDigits | src/main/java/br/com/sistema/github/service/GitHubDataStructureService.java:90-91 | the filter keeps only digits, and keeps a digit string whole |
| JavaText.ParseInt | src/main/java/br/com/sistema/github/service/GitHubDataStructureService.java:94 | `Integer.parseInt` succeeds exactly on texts that denote an int in range; otherwise it throws `NumberFormatException` |
| JavaText.ParseLong | src/main/java/br/com/sistema/github/service/GitHubDataStructureService.java:146 | `Long.parseLong` succeeds exactly on an optional sign followed by at least one ASCII digit whose value is a long, and returns that signed value |
| JavaText.ParseRendered | src/main/java/br/com/sistema/github/tools/GithubAssistantTools.java:76 | a count written with `%d` parses back to itself |
| JavaText.IndexOfWord | src/main/java/br/com/sistema/github/service/GitHubDataStructureService.java:144 | the index of the first occurrence of the word |
| StableSorting.StableSort | src/main/java/br/com/sistema/github/service/GitHubDataStructureService.java:109 | for a total preorder, the result is sorted, a permutation, and keeps the order of equal elements |
| AssistantRequests.AnalyzeIsValid | src/main/java/br/com/sistema/github/dtos/request/AnalyzeGitHubFilesRequest.java:35-39 | valid exactly when the repository name and the analysis type are present and not blank, and the path list is present and non-empty |
| AssistantRequests.AnalyzeAcceptsAnyTypeAndPaths | src/main/java/br/com/sistema/github/dtos/request/AnalyzeGitHubFilesRequest.java:35-39 | the analysis type and the paths are not checked further: any non-blank type and any non-empty list pass |
| AssistantRequests.FilledVisible | src/main/java/br/com/sistema/github/dtos/request/GitHubChatRequest.java:20 | "not null and not empty after trim" means the text has a character above U+0020 |
| AssistantRequests.ChatIsValid | src/main/java/br/com/sistema/github/dtos/request/GitHubChatRequest.java:19-21 | valid exactly when the message is present and not blank |
| AssistantRequests.ChatRejectsBlank | src/main/java/br/com/sistema/github/dtos/request/GitHubChatRequest.java:19-21 | a message made of whitespace and control characters is rejected |
| AssistantResponses.Success | src/main/java/br/com/sistema/github/dtos/response/AssistantResponse.java:33-43 | a successful, consistent "chat" response carrying the question, the data and the given time |
| AssistantResponses.Error | src/main/java/br/com/sistema/github/dtos/response/AssistantResponse.java:48-58 | a failed, consistent "error" response carrying the question, the error and the given time |
| AssistantResponses.FactoriesDistinct | src/main/java/br/com/sistema/github/dtos/response/AssistantResponse.java:33-58 | the two factories never build the same response, and their types differ |
| AssistantResponses.ConsistentIsFactoryBuilt | src/main/java/br/com/sistema/github/dtos/response/AssistantResponse.java:33-58 | every consistent response is the one that its outcome's factory builds |
| RepoListingReadBack.RepoListingRoundTrip | src/main/java/br/com/sistema/github/tools/GithubAssistantTools.java:56-83 | parsing the listing of any list of listable repositories returns every repository: name, description, URL, language, stars, forks and visibility as written; the total is the list's length; the order is the stable star order |
| RepoListingReadBack.MetricsRowKind | src/main/java/br/com/sistema/github/tools/GithubAssistantTools.java:76-79 | the counts line is read as a metrics line holding the stars and forks digits |
| RepoListingReadBack.VisibilityRowKind | src/main/java/br/com/sistema/github/tools/GithubAssistantTools.java:81-82 | the visibility line is read as private exactly for a private repository |
| RepoListingReadBack.BlockScan | src/main/java/br/com/sistema/github/tools/GithubAssistantTools.java:64-82 | reading one repository block from any state flushes the open record and leaves exactly that repository's record open, with every field filled in |
| FileListingReadBack.FileListingReadBack | src/main/java/br/com/sistema/github/tools/GithubAssistantTools.java:106-124 | parsing a root file listing gives one node per directory or other entry, in directories-first order, and none for files |
| FileListingReadBack.DirectoryListingReadBack | src/main/java/br/com/sistema/github/tools/GithubAssistantTools.java:145-163 | the same for a directory listing |
| FileListingReadBack.FileRowSkipped | src/main/java/br/com/sistema/github/service/GitHubDataStructureService.java:128 | every file line is skipped, because it contains "bytes)" |
| FileListingReadBack.KeptNodesSpec | src/main/java/br/com/sistema/github/service/GitHubDataStructureService.java:128-161 | the nodes read back are exactly the nodes of the non-file entries; none has a size; any file entry makes the count smaller than the entry count |
| FileListingReadBack.FileListingLosesFiles | src/main/java/br/com/sistema/github/tools/GithubAssistantTools.java:117-119 | a listing that holds a file parses without error but reports fewer entries than it lists, and no size |

## Left out

- The GitHub client is left out: authentication, the network calls and the lazy initialisation of the client field (which is not synchronised). The listings take the repositories and contents they print as parameters.
- The clock is left out: the timestamp of `AssistantResponse` is the parameter `now`.
- Logging is left out.
- The controller, the language-model service and the configuration classes are not part of this model.
- `readFileContent`, `createFile`, `updateFile`, `deleteFile` and `searchRepository` are not part of this model. Neither are the `getRepositoryFiles`/`getRepositories` wrappers, which only call a tool and then a parser.
- `listOpenIssues` is modelled only through its body truncation. The issue number and title line is plain formatting.
- `listCommits` is modelled only through its limit and the `subList` bound. The `subList` is taken over one list of commits, where the source fetches the list twice. The commit lines themselves are plain formatting.
- A null repository name, URL or entry name is not modelled. `String.format` would print it as "null".
- Each emoji is one Dafny character, where Java counts two UTF-16 units. The truncation of an issue body counts characters, not UTF-16 units. `line.substring(2)` after the package glyph is taken as dropping that one glyph.
- Case-insensitive comparison folds ASCII letters only. It compares code points, not UTF-16 units.
- `replaceAll("[^0-9]", "")` is taken as keeping the ASCII digits.
- JavaText.ParseLong: accepts ASCII digits only. Java's `Long.parseLong` reads digits through `Character.digit`, which accepts any Unicode decimal digit. A size written in other scripts' digits (Arabic-Indic, for instance) is read by Java but stays absent here. `Integer.parseInt` on the repository side is unaffected: it only ever receives the ASCII digits that `replaceAll("[^0-9]", "")` keeps.
- Lombok's generated builders, getters and constructors are represented by plain datatype constructors.
- RepoListingReadBack.RepoListingRoundTrip: assumes listable repositories. Every text is on one line, already trimmed and free of "Nenhum". Star and fork counts are non-negative ints. Other input can be misread by the parser, so the round trip is not claimed for it.
- FileListingReadBack.FileListingReadBack: assumes readable entries. Names are on one line. Directory names are non-empty, trimmed, and free of "(" and of "bytes)".
- FileListingReadBack.DirectoryListingReadBack: the same assumption as the root listing.
