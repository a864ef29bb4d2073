/** What the repository parser promises about the records it builds: one
    record per package line, field lines before the first package line
    ignored, each field of a record set by the last line of its block that
    sets it (and absent when no line does), metrics counts read from the
    digits of their segments, and the output a stable reordering by stars. */
module RepoListFacts {
  import opened Wrappers
  import opened JavaText
  import opened StableSorting
  import opened GitHubDtos
  import opened RepoListParser
  import opened ListingMarkers

  // ---------------------------------------------------------------------
  // the scan over concatenated inputs
  // ---------------------------------------------------------------------

  /** Scanning `a + b` scans `a`, then `b` from where `a` left off. */
  lemma {:induction false} ScanAppend(st: Scan, a: seq<string>, b: seq<string>)
    ensures ScanLines(st, a + b) ==
      match ScanLines(st, a)
      case Err(e) => Err(e)
      case Ok(mid) => ScanLines(mid, b)
    decreases |a|
  {
    if a != [] {
      assert (a + b)[0] == a[0];
      assert (a + b)[1..] == a[1..] + b;
      ScanCons(st, a + b);
      ScanCons(st, a);
      var s := Step(st, a[0]);
      if s.Ok? {
        ScanAppend(s.value, a[1..], b);
      }
    } else {
      assert a + b == b;
    }
  }

  /** Scanning one more line is one more `Step`. */
  lemma ScanSnoc(st: Scan, a: seq<string>, l: string)
    ensures ScanLines(st, a + [l]) ==
      match ScanLines(st, a)
      case Err(e) => Err(e)
      case Ok(mid) => Step(mid, l)
  {
    ScanAppend(st, a, [l]);
    match ScanLines(st, a)
    case Err(e) =>
    case Ok(mid) =>
      assert ScanLines(mid, [l]) == match Step(mid, l) case Err(e) => Err(e) case Ok(n) => ScanLines(n, []);
  }

  // ---------------------------------------------------------------------
  // one record per package line
  // ---------------------------------------------------------------------

  /** The trimmed line opens a record. */
  predicate IsStart(raw: string) {
    StartsWith(Trim(raw), [PackageGlyph])
  }

  /** The name each package line opens a record with: the rest of the
      trimmed line after the glyph, trimmed again (possibly empty). */
  function StartNames(lines: seq<string>): seq<string> {
    if lines == [] then []
    else (if IsStart(lines[0]) then [Trim(Trim(lines[0])[1..])] else []) + StartNames(lines[1..])
  }

  function Names(rs: seq<RepoInfo>): seq<string> {
    seq(|rs|, i requires 0 <= i < |rs| => rs[i].name)
  }

  lemma StepNames(st: Scan, raw: string)
    requires Step(st, raw).Ok?
    ensures Names(Flush(Step(st, raw).value)) ==
      Names(Flush(st)) + (if IsStart(raw) then [Trim(Trim(raw)[1..])] else [])
  {
    var next := Step(st, raw).value;
    var line := Trim(raw);
    if IsStart(raw) {
      assert Classify(line) == RepoStart(Trim(line[1..]));
      assert Flush(next) == Flush(st) + [NewRecord(Trim(line[1..]))];
    } else {
      assert Classify(line) == ClassifyField(line);
      if st.current.Some? {
        var u := Update(st.current.value, Classify(line));
        assert Flush(next) == st.built + [u.value];
        assert Flush(st) == st.built + [st.current.value];
      }
    }
  }

  lemma {:induction false} ScanNames(st: Scan, lines: seq<string>)
    requires ScanLines(st, lines).Ok?
    ensures Names(Flush(ScanLines(st, lines).value)) == Names(Flush(st)) + StartNames(lines)
    decreases |lines|
  {
    if lines != [] {
      var next := Step(st, lines[0]).value;
      StepNames(st, lines[0]);
      ScanNames(next, lines[1..]);
    }
  }

  /** Exactly one record per package line, carrying that line's name, in
      listing order. */
  lemma RecordPerStart(lines: seq<string>)
    requires Built(lines).Ok?
    ensures Names(Built(lines).value) == StartNames(lines)
    ensures |Built(lines).value| == |StartNames(lines)|
  {
    ScanNames(Start, lines);
    assert Names(Flush(Start)) == [];
  }

  // ---------------------------------------------------------------------
  // lines before the first record
  // ---------------------------------------------------------------------

  predicate NoStarts(lines: seq<string>) {
    forall i :: 0 <= i < |lines| ==> !IsStart(lines[i])
  }

  /** Without an open record, a line that does not open one changes
      nothing: the source tests for an open record on every other branch. */
  lemma StepWithoutRecord(st: Scan, raw: string)
    requires st.current.None? && !IsStart(raw)
    ensures Step(st, raw) == Ok(st)
  {
    assert Classify(Trim(raw)) == ClassifyField(Trim(raw));
  }

  /** Field lines before the first package line are ignored. */
  lemma {:induction false} PreambleIgnored(pre: seq<string>, rest: seq<string>)
    requires NoStarts(pre)
    ensures ScanLines(Start, pre + rest) == ScanLines(Start, rest)
    decreases |pre|
  {
    if pre != [] {
      assert (pre + rest)[0] == pre[0];
      assert (pre + rest)[1..] == pre[1..] + rest;
      StepWithoutRecord(Start, pre[0]);
      ScanCons(Start, pre + rest);
      PreambleIgnored(pre[1..], rest);
    } else {
      assert pre + rest == rest;
    }
  }

  // ---------------------------------------------------------------------
  // the fields of one record
  // ---------------------------------------------------------------------

  /** What a line sets, field by field (`None`: the field is left alone). */
  function DescriptionOf(k: LineKind): Option<string> {
    if k.DescriptionLine? then Some(k.description) else None
  }

  function UrlOf(k: LineKind): Option<string> {
    if k.UrlLine? then Some(k.url) else None
  }

  function LanguageOf(k: LineKind): Option<string> {
    if k.LanguageLine? then Some(k.language) else None
  }

  function StarsOf(k: LineKind): Option<int> {
    if k.MetricsLine? && k.starDigits != [] && ParseInt(k.starDigits).Ok? then Some(ParseInt(k.starDigits).value)
    else None
  }

  function ForksOf(k: LineKind): Option<int> {
    if k.MetricsLine? && k.forkDigits != [] && ParseInt(k.forkDigits).Ok? then Some(ParseInt(k.forkDigits).value)
    else None
  }

  function VisibilityOf(k: LineKind): Option<bool> {
    if k.VisibilityLine? then Some(k.isPrivate) else None
  }

  function OrElse<X>(a: Option<X>, b: Option<X>): Option<X> {
    if a.Some? then a else b
  }

  /** The value of a field after `block`: what the last line of `block`
      that sets it gives, or `init` when no line sets it. */
  function LastSet<X>(block: seq<string>, pick: LineKind -> Option<X>, init: Option<X>): Option<X> {
    if block == [] then init
    else OrElse(pick(Classify(Trim(block[|block| - 1]))), LastSet(block[..|block| - 1], pick, init))
  }

  /** A field that no line of `block` sets keeps its initial value. */
  lemma {:induction false} LastSetUnseen<X>(block: seq<string>, pick: LineKind -> Option<X>, init: Option<X>)
    requires forall i :: 0 <= i < |block| ==> pick(Classify(Trim(block[i]))).None?
    ensures LastSet(block, pick, init) == init
    decreases |block|
  {
    if block != [] {
      LastSetUnseen(block[..|block| - 1], pick, init);
    }
  }

  /** The line that sets a field last decides it, whatever came before. */
  lemma {:induction false} LastSetLatest<X>(block: seq<string>, pick: LineKind -> Option<X>, init: Option<X>, j: int)
    requires 0 <= j < |block| && pick(Classify(Trim(block[j]))).Some?
    requires forall i :: j < i < |block| ==> pick(Classify(Trim(block[i]))).None?
    ensures LastSet(block, pick, init) == pick(Classify(Trim(block[j])))
    decreases |block|
  {
    if j < |block| - 1 {
      var front := block[..|block| - 1];
      assert front[j] == block[j];
      forall i | j < i < |front| ensures pick(Classify(Trim(front[i]))).None? {
        assert front[i] == block[i];
      }
      LastSetLatest(front, pick, init, j);
    }
  }

  /** The record `r` after the line kind `k`, field by field. */
  function Overlay(r: RepoInfo, k: LineKind): RepoInfo {
    RepoInfo(r.name,
      OrElse(DescriptionOf(k), r.description),
      OrElse(UrlOf(k), r.url),
      OrElse(LanguageOf(k), r.language),
      OrElse(StarsOf(k), r.stars),
      OrElse(ForksOf(k), r.forks),
      OrElse(VisibilityOf(k), r.isPrivate))
  }

  lemma UpdateOverlays(r: RepoInfo, k: LineKind)
    requires Update(r, k).Ok?
    ensures Update(r, k).value == Overlay(r, k)
  {
  }

  /** The record opened as `r0` after the lines of `block`, field by field. */
  function Latest(r0: RepoInfo, block: seq<string>): RepoInfo {
    RepoInfo(r0.name,
      LastSet(block, DescriptionOf, r0.description),
      LastSet(block, UrlOf, r0.url),
      LastSet(block, LanguageOf, r0.language),
      LastSet(block, StarsOf, r0.stars),
      LastSet(block, ForksOf, r0.forks),
      LastSet(block, VisibilityOf, r0.isPrivate))
  }

  /** The lines after a package line, up to the next one, only fill in the
      record it opened: each field ends up as the last line setting it
      left it, and the records built before are untouched. */
  lemma {:induction false} BlockFields(built: seq<RepoInfo>, r0: RepoInfo, block: seq<string>)
    requires NoStarts(block)
    requires ScanLines(Scan(built, Some(r0)), block).Ok?
    ensures ScanLines(Scan(built, Some(r0)), block).value == Scan(built, Some(Latest(r0, block)))
    decreases |block|
  {
    if block != [] {
      var front := block[..|block| - 1];
      var l := block[|block| - 1];
      assert block == front + [l];
      ScanSnoc(Scan(built, Some(r0)), front, l);
      var mid := ScanLines(Scan(built, Some(r0)), front);
      assert mid.Ok?;
      BlockFields(built, r0, front);
      assert Classify(Trim(l)) == ClassifyField(Trim(l));
      UpdateOverlays(Latest(r0, front), Classify(Trim(l)));
    }
  }

  /** A record opened by a package line has no value for a field until a
      line of its block sets it. */
  lemma UnsetFieldsAbsent(name: string, block: seq<string>)
    ensures (forall i :: 0 <= i < |block| ==> !Classify(Trim(block[i])).DescriptionLine?) ==>
      Latest(NewRecord(name), block).description.None?
    ensures (forall i :: 0 <= i < |block| ==> !Classify(Trim(block[i])).MetricsLine?) ==>
      Latest(NewRecord(name), block).stars.None? && Latest(NewRecord(name), block).forks.None?
  {
    if forall i :: 0 <= i < |block| ==> !Classify(Trim(block[i])).DescriptionLine? {
      LastSetUnseen(block, DescriptionOf, None);
    }
    if forall i :: 0 <= i < |block| ==> !Classify(Trim(block[i])).MetricsLine? {
      LastSetUnseen(block, StarsOf, None);
      LastSetUnseen(block, ForksOf, None);
    }
  }

  // ---------------------------------------------------------------------
  // the metrics line and branch precedence
  // ---------------------------------------------------------------------

  /** A metrics line reads the ASCII digits of the first two `|` segments;
      with fewer than two segments it reads nothing. Digits read are digits
      only, so a count fails to parse exactly when it overflows an `int`. */
  lemma MetricsDigits(line: string)
    ensures var parts := JavaSplit(line, '|');
      Metrics(line) == if |parts| >= 2 then MetricsLine(KeepDigits(parts[0]), KeepDigits(parts[1]))
                       else MetricsLine([], [])
    ensures BadCount(Metrics(line).starDigits) <==> DigitsValue(Metrics(line).starDigits) > IntMax
    ensures BadCount(Metrics(line).forkDigits) <==> DigitsValue(Metrics(line).forkDigits) > IntMax
  {
    var parts := JavaSplit(line, '|');
    if |parts| >= 2 {
      DigitsTrimmed(KeepDigits(parts[0]));
      DigitsTrimmed(KeepDigits(parts[1]));
    }
    var k := Metrics(line);
    if k.starDigits != [] {
      ParseIntDigits(k.starDigits);
    }
    if k.forkDigits != [] {
      ParseIntDigits(k.forkDigits);
    }
  }

  lemma DigitsTrimmed(s: string)
    requires AllDigits(s)
    ensures Trim(s) == s
  {
    TrimFixpoint(s);
    if s != [] {
      assert IsDigit(s[0]) && IsDigit(s[|s| - 1]);
    }
  }

  /** Among the lines that are not package lines and carry no label, a line
      with the star glyph is a metrics line even when it also mentions a
      visibility word, and the visibility branch reports "private" exactly
      when the line contains "Privado". */
  lemma UnlabelledPrecedence(line: string)
    requires !StartsWith(line, [PackageGlyph]) && !StartsWith(line, DescriptionLabel)
    requires !StartsWith(line, UrlLabel) && !StartsWith(line, LanguageLabel)
    ensures StarGlyph in line ==> Classify(line).MetricsLine?
    ensures Classify(line).VisibilityLine? <==>
      StarGlyph !in line && (Contains(line, PrivateWord) || Contains(line, PublicWord))
    ensures Classify(line).VisibilityLine? ==> (Classify(line).isPrivate <==> Contains(line, PrivateWord))
  {
    assert Classify(line) == ClassifyUnlabelled(line);
  }

  // ---------------------------------------------------------------------
  // the sorted output
  // ---------------------------------------------------------------------

  /** When the listing is not the "no results" answer, the response holds
      exactly the records built from its lines (a permutation, one per
      package line), ordered by stars with ties in listing order, and the
      parse fails exactly when the scan does. */
  lemma RepositoriesReordered(text: string)
    requires text != [] && !Contains(text, NoResults)
    ensures RepositoriesOf(Some(text)).Err? <==> Built(JavaSplit(text, '\n')).Err?
    ensures RepositoriesOf(Some(text)).Ok? ==>
      var built := Built(JavaSplit(text, '\n')).value;
      var out := RepositoriesOf(Some(text)).value.repositories;
      && multiset(out) == multiset(built)
      && |out| == |StartNames(JavaSplit(text, '\n'))|
      && forall p :: Ties(out, StarsFirst, p) == Ties(built, StarsFirst, p)
  {
    var lines := JavaSplit(text, '\n');
    if Built(lines).Ok? {
      RecordPerStart(lines);
      var built := Built(lines).value;
      var out := SortedByStars(built);
      assert RepositoriesOf(Some(text)) == Ok(RepoResponse(|out|, out));
    }
  }
}
