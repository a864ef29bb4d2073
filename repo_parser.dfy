/** `GitHubDataStructureService.parseRepositories`: the text of a repository
    listing is read line by line while one record is under construction; a
    package-glyph line closes the open record and opens the next, labelled
    lines fill fields of the open record, and the last record is flushed at
    end of input. The records are then stably sorted by stars, descending,
    with unknown star counts last. */
module RepoListParser {
  import opened Wrappers
  import opened JavaText
  import opened StableSorting
  import opened GitHubDtos
  import opened ListingMarkers

  /** What one trimmed line of a repository listing means. */
  datatype LineKind =
    | RepoStart(name: string)
    | DescriptionLine(description: string)
    | UrlLine(url: string)
    | LanguageLine(language: string)
    | MetricsLine(starDigits: string, forkDigits: string)
    | VisibilityLine(isPrivate: bool)
    | Noise

  /** The line classifier. The branches are tried in the source's order, so
      an earlier marker hides a later one (a description mentioning "Privado"
      is still a description). The source also demands an open record on
      every branch after the first; `Step` applies that condition. */
  function Classify(line: string): LineKind {
    if StartsWith(line, [PackageGlyph]) then RepoStart(Trim(line[1..]))
    else ClassifyField(line)
  }

  /** The labelled-field branches of the chain. */
  function ClassifyField(line: string): (k: LineKind)
    ensures !k.RepoStart?
  {
    if StartsWith(line, DescriptionLabel) then DescriptionLine(Trim(line[|DescriptionLabel|..]))
    else if StartsWith(line, UrlLabel) then UrlLine(Trim(line[|UrlLabel|..]))
    else if StartsWith(line, LanguageLabel) then LanguageLine(Trim(line[|LanguageLabel|..]))
    else ClassifyUnlabelled(line)
  }

  /** The metrics and visibility branches of the chain. */
  function ClassifyUnlabelled(line: string): (k: LineKind)
    ensures !k.RepoStart?
  {
    if StarGlyph in line then Metrics(line)
    else if Contains(line, PrivateWord) || Contains(line, PublicWord) then
      VisibilityLine(Contains(line, PrivateWord))
    else Noise
  }

  /** A metrics line: the digits of the segments before and after the first
      `|`; with fewer than two segments nothing is read. */
  function Metrics(line: string): LineKind {
    var parts := JavaSplit(line, '|');
    if |parts| >= 2 then MetricsLine(Trim(KeepDigits(parts[0])), Trim(KeepDigits(parts[1])))
    else MetricsLine([], [])
  }

  /** A line opening with a label takes that label's branch: the labels and
      the package glyph start with different characters. */
  lemma ClassifyLabelled(line: string)
    ensures StartsWith(line, DescriptionLabel) ==>
      Classify(line) == DescriptionLine(Trim(line[|DescriptionLabel|..]))
    ensures StartsWith(line, UrlLabel) ==> Classify(line) == UrlLine(Trim(line[|UrlLabel|..]))
    ensures StartsWith(line, LanguageLabel) ==>
      Classify(line) == LanguageLine(Trim(line[|LanguageLabel|..]))
  {
    if StartsWith(line, [PackageGlyph]) {
      StartsWithHead(line, [PackageGlyph]);
    }
    if StartsWith(line, DescriptionLabel) {
      StartsWithHead(line, DescriptionLabel);
    }
    if StartsWith(line, UrlLabel) {
      StartsWithHead(line, UrlLabel);
    }
    if StartsWith(line, LanguageLabel) {
      StartsWithHead(line, LanguageLabel);
    }
  }

  /** A record as the builder starts it: only the name is set. */
  function NewRecord(name: string): RepoInfo {
    RepoInfo(name, None, None, None, None, None, None)
  }

  /** The builder state: the records already built and the open one. */
  datatype Scan = Scan(built: seq<RepoInfo>, current: Option<RepoInfo>)

  const Start: Scan := Scan([], None)

  /** The records of a scan once the open one is flushed. */
  function Flush(st: Scan): seq<RepoInfo> {
    st.built + (if st.current.Some? then [st.current.value] else [])
  }

  /** A count that a metrics line sets: unchanged when no digits were found,
      otherwise `Integer.parseInt`, whose exception nothing catches. */
  function SetCount(count: Option<int>, digits: string): Result<Option<int>, JavaException> {
    if digits == [] then Ok(count)
    else
      match ParseInt(digits)
      case Ok(v) => Ok(Some(v))
      case Err(e) => Err(e)
  }

  /** A count that makes `Integer.parseInt` throw: digits were found but
      they do not denote an `int`. */
  predicate BadCount(digits: string) {
    digits != [] && ParseInt(digits).Err?
  }

  /** The effect of one non-start line on the open record. Only a metrics
      line can fail, and only through a count that does not parse; the name
      is never touched. */
  function Update(r: RepoInfo, kind: LineKind): (u: Result<RepoInfo, JavaException>)
    ensures u.Err? <==> kind.MetricsLine? && (BadCount(kind.starDigits) || BadCount(kind.forkDigits))
    ensures u.Ok? ==> u.value.name == r.name
  {
    match kind
    case RepoStart(_) => Ok(r)
    case DescriptionLine(d) => Ok(r.(description := Some(d)))
    case UrlLine(u) => Ok(r.(url := Some(u)))
    case LanguageLine(l) => Ok(r.(language := Some(l)))
    case MetricsLine(sd, fd) =>
      (match SetCount(r.stars, sd)
       case Err(e) => Err(e)
       case Ok(stars) =>
         match SetCount(r.forks, fd)
         case Err(e) => Err(e)
         case Ok(forks) => Ok(r.(stars := stars, forks := forks)))
    case VisibilityLine(p) => Ok(r.(isPrivate := Some(p)))
    case Noise => Ok(r)
  }

  /** One iteration of the source's loop over the (untrimmed) line `raw`. */
  function Step(st: Scan, raw: string): Result<Scan, JavaException> {
    var kind := Classify(Trim(raw));
    if kind.RepoStart? then Ok(Scan(Flush(st), Some(NewRecord(kind.name))))
    else if st.current.None? then Ok(st)
    else
      match Update(st.current.value, kind)
      case Err(e) => Err(e)
      case Ok(r) => Ok(Scan(st.built, Some(r)))
  }

  /** The loop over `lines`, stopping at the first exception. */
  function ScanLines(st: Scan, lines: seq<string>): Result<Scan, JavaException>
    decreases |lines|
  {
    if lines == [] then Ok(st)
    else
      match Step(st, lines[0])
      case Err(e) => Err(e)
      case Ok(next) => ScanLines(next, lines[1..])
  }

  lemma ScanCons(st: Scan, lines: seq<string>)
    requires lines != []
    ensures ScanLines(st, lines) ==
      match Step(st, lines[0])
      case Err(e) => Err(e)
      case Ok(next) => ScanLines(next, lines[1..])
  {
  }

  /** `Comparator.comparing(RepoInfo::stars, nullsLast(reverseOrder()))`:
      more stars first, unknown star counts last. */
  predicate StarsFirst(a: RepoInfo, b: RepoInfo) {
    match (a.stars, b.stars)
    case (Some(x), Some(y)) => x >= y
    case (Some(_), None) => true
    case (None, Some(_)) => false
    case (None, None) => true
  }

  lemma StarsFirstIsTotalPreorder()
    ensures TotalPreorder(StarsFirst)
  {
    forall x, y, z | StarsFirst(x, y) && StarsFirst(y, z) ensures StarsFirst(x, z) { }
  }

  /** `repos.sort(...)` with the comparator above: a stable sort. */
  function SortedByStars(repos: seq<RepoInfo>): (r: seq<RepoInfo>)
    ensures multiset(r) == multiset(repos) && |r| == |repos|
    ensures Sorted(r, StarsFirst)
    ensures forall p :: Ties(r, StarsFirst, p) == Ties(repos, StarsFirst, p)
  {
    StarsFirstIsTotalPreorder();
    assert |multiset(StableSort(repos, StarsFirst))| == |multiset(repos)|;
    StableSort(repos, StarsFirst)
  }

  /** The records the loop builds, in listing order. */
  function Built(lines: seq<string>): Result<seq<RepoInfo>, JavaException> {
    match ScanLines(Start, lines)
    case Err(e) => Err(e)
    case Ok(st) => Ok(Flush(st))
  }

  /** The repository parser as a function of the response (`None` is null). */
  function RepositoriesOf(response: Option<string>): (r: Result<RepoResponse, JavaException>)
    ensures response.None? || response.value == [] || Contains(response.value, NoResults) ==>
      r == Ok(RepoResponse(0, []))
    ensures r.Ok? ==> r.value.total == |r.value.repositories|
    ensures r.Ok? ==> forall i, j :: 0 <= i < j < |r.value.repositories| && r.value.repositories[j].stars.Some? ==>
      r.value.repositories[i].stars.Some? && r.value.repositories[i].stars.value >= r.value.repositories[j].stars.value
  {
    if response.None? || response.value == [] || Contains(response.value, NoResults) then
      Ok(RepoResponse(0, []))
    else
      match Built(JavaSplit(response.value, '\n'))
      case Err(e) => Err(e)
      case Ok(repos) =>
        var sorted := SortedByStars(repos);
        assert forall i, j :: 0 <= i < j < |sorted| ==> StarsFirst(sorted[i], sorted[j]);
        Ok(RepoResponse(|sorted|, sorted))
  }

  /** One count of the metrics branch: parsed only when digits were found. */
  method ReadCount(count: Option<int>, digits: string) returns (r: Result<Option<int>, JavaException>)
    ensures r == SetCount(count, digits)
  {
    if digits == [] {
      return Ok(count);
    }
    var n := ParseInt(digits);
    if n.Err? {
      return Err(n.error);
    }
    return Ok(Some(n.value));
  }

  /** The metrics branch: the star and fork counts are the digits of the
      first two `|`-separated segments. */
  method ReadMetrics(current: RepoInfo, line: string) returns (r: Result<RepoInfo, JavaException>)
    ensures r == Update(current, Metrics(line))
  {
    var parts := JavaSplit(line, '|');
    if |parts| < 2 {
      return Ok(current);
    }
    var starDigits := Trim(KeepDigits(parts[0]));
    var forkDigits := Trim(KeepDigits(parts[1]));
    assert Metrics(line) == MetricsLine(starDigits, forkDigits);
    r := ReadCounts(current, starDigits, forkDigits);
  }

  /** The two counts of a metrics line, the stars first. */
  method ReadCounts(current: RepoInfo, starDigits: string, forkDigits: string)
    returns (r: Result<RepoInfo, JavaException>)
    ensures r == Update(current, MetricsLine(starDigits, forkDigits))
  {
    var stars := ReadCount(current.stars, starDigits);
    if stars.Err? {
      return Err(stars.error);
    }
    var forks := ReadCount(current.forks, forkDigits);
    if forks.Err? {
      return Err(forks.error);
    }
    return Ok(current.(stars := stars.value, forks := forks.value));
  }

  /** The field branches of the chain, applied to the open record. */
  method UpdateRecord(current: RepoInfo, line: string) returns (r: Result<RepoInfo, JavaException>)
    requires !StartsWith(line, [PackageGlyph])
    ensures r == Update(current, Classify(line))
  {
    ClassifyLabelled(line);
    if StartsWith(line, DescriptionLabel) {
      return Ok(current.(description := Some(Trim(line[|DescriptionLabel|..]))));
    } else if StartsWith(line, UrlLabel) {
      return Ok(current.(url := Some(Trim(line[|UrlLabel|..]))));
    } else if StartsWith(line, LanguageLabel) {
      return Ok(current.(language := Some(Trim(line[|LanguageLabel|..]))));
    }
    assert Classify(line) == ClassifyUnlabelled(line);
    if StarGlyph in line {
      r := ReadMetrics(current, line);
    } else if Contains(line, PrivateWord) || Contains(line, PublicWord) {
      r := Ok(current.(isPrivate := Some(Contains(line, PrivateWord))));
    } else {
      r := Ok(current);
    }
  }

  /** The body of the source's loop: the `if`/`else if` chain over one line,
      applied to the records built so far and the open record. */
  method ProcessLine(repos: seq<RepoInfo>, currentRepo: Option<RepoInfo>, raw: string)
    returns (r: Result<Scan, JavaException>)
    ensures r == Step(Scan(repos, currentRepo), raw)
  {
    var line := Trim(raw);
    if StartsWith(line, [PackageGlyph]) {
      var built := repos;
      if currentRepo.Some? {
        built := built + [currentRepo.value];
      }
      assert built == Flush(Scan(repos, currentRepo));
      assert Classify(line) == RepoStart(Trim(line[1..]));
      return Ok(Scan(built, Some(NewRecord(Trim(line[1..])))));
    }
    assert !Classify(line).RepoStart?;
    if currentRepo.None? {
      // every other branch of the source demands an open record
      return Ok(Scan(repos, currentRepo));
    }
    var updated := UpdateRecord(currentRepo.value, line);
    if updated.Err? {
      return Err(updated.error);
    }
    return Ok(Scan(repos, Some(updated.value)));
  }

  /** The source's loop, proved to compute `RepositoriesOf`. */
  method ParseRepositories(response: Option<string>) returns (r: Result<RepoResponse, JavaException>)
    ensures r == RepositoriesOf(response)
  {
    if response.None? || |response.value| == 0 || Contains(response.value, NoResults) {
      return Ok(RepoResponse(0, []));
    }
    var lines := JavaSplit(response.value, '\n');
    var repos: seq<RepoInfo> := [];
    var currentRepo: Option<RepoInfo> := None;
    var i := 0;
    while i < |lines|
      invariant 0 <= i <= |lines|
      invariant ScanLines(Start, lines) == ScanLines(Scan(repos, currentRepo), lines[i..])
    {
      assert lines[i..][1..] == lines[i + 1..];
      ScanCons(Scan(repos, currentRepo), lines[i..]);
      var next := ProcessLine(repos, currentRepo, lines[i]);
      if next.Err? {
        assert Built(lines) == Err(next.error);
        return Err(next.error);
      }
      repos, currentRepo := next.value.built, next.value.current;
      i := i + 1;
    }
    assert lines[i..] == [];
    ghost var flushed := Flush(Scan(repos, currentRepo));
    if currentRepo.Some? {
      repos := repos + [currentRepo.value];
    }
    assert Built(lines) == Ok(repos) by {
      assert repos == flushed;
    }
    var sorted := SortedByStars(repos);
    r := Ok(RepoResponse(|sorted|, sorted));
  }
}
