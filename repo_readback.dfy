/** What `parseRepositories` makes of the text `listRepositories` writes.
    For repositories whose fields sit on one line, are already trimmed and
    never mention the "none" word, the parser rebuilds one record per
    repository with every field the text shows, and only the order changes:
    the records come back sorted by stars. */
module RepoListingReadBack {
  import opened Wrappers
  import opened JavaText
  import opened GitHubDtos
  import opened ListingMarkers
  import opened ListingLines
  import opened AssistantTools
  import opened RepoListParser
  import opened RepoListFacts

  /** A text field the listing carries and the parser gives back as it was. */
  predicate Faithful(s: string) {
    '\n' !in s && IsTrimmed(s) && !Contains(s, NoResults)
  }

  /** A repository whose block reads back: faithful texts, and counts that
      are non-negative (every count the API reports is a Java `int`). */
  predicate Listable(r: GhRepo) {
    && Faithful(r.name)
    && (r.description.Some? ==> Faithful(r.description.value))
    && Faithful(r.htmlUrl)
    && (r.language.Some? ==> Faithful(r.language.value))
    && 0 <= r.stars <= IntMax
    && 0 <= r.forks <= IntMax
  }

  predicate AllListable(repos: seq<GhRepo>) {
    forall i :: 0 <= i < |repos| ==> Listable(repos[i])
  }

  /** The record the parser is meant to rebuild from one block: the open
      issue count is not read back. */
  function Expected(r: GhRepo): RepoInfo {
    RepoInfo(r.name, r.description, Some(r.htmlUrl), r.language, Some(r.stars), Some(r.forks), Some(r.isPrivate))
  }

  function ExpectedAll(repos: seq<GhRepo>): seq<RepoInfo> {
    seq(|repos|, i requires 0 <= i < |repos| => Expected(repos[i]))
  }

  // ---------------------------------------------------------------------
  // the listing as lines
  // ---------------------------------------------------------------------

  function OptionalRows(tag: string, value: Option<string>): seq<string> {
    if value.Some? then [LabelRow(tag, value.value)] else []
  }

  /** The lines of one repository's block. */
  function RepoRows(r: GhRepo): seq<string> {
    [NameRow(r)] + OptionalRows(DescriptionLabel, r.description) + [LabelRow(UrlLabel, r.htmlUrl)]
      + OptionalRows(LanguageLabel, r.language) + [MetricsRow(r), VisibilityRow(r.isPrivate), ""]
  }

  function ListingRows(repos: seq<GhRepo>): seq<string> {
    if repos == [] then [] else RepoRows(repos[0]) + ListingRows(repos[1..])
  }

  lemma OptionalRowLines(tag: string, value: Option<string>)
    ensures OptionalRow(tag, value) == Terminated(OptionalRows(tag, value))
  {
    if value.Some? {
      assert Terminated([LabelRow(tag, value.value)]) == LabelRow(tag, value.value) + "\n" + Terminated([]);
    }
  }

  lemma RepoBlockLines(r: GhRepo)
    ensures RepoBlock(r) == Terminated(RepoRows(r))
  {
    var nl := "\n";
    var p1 := [NameRow(r)];
    var p2 := OptionalRows(DescriptionLabel, r.description);
    var p3 := [LabelRow(UrlLabel, r.htmlUrl)];
    var p4 := OptionalRows(LanguageLabel, r.language);
    var p5 := [MetricsRow(r), VisibilityRow(r.isPrivate), ""];
    // the prefixes of the block as the builder grows it
    var a1 := NameRow(r) + nl + OptionalRow(DescriptionLabel, r.description);
    var a3 := a1 + LabelRow(UrlLabel, r.htmlUrl) + nl;
    var a4 := a3 + OptionalRow(LanguageLabel, r.language);
    var a6 := a4 + MetricsRow(r) + nl;
    var a7 := a6 + VisibilityRow(r.isPrivate);
    assert RepoBlock(r) == a7 + "\n\n";
    OptionalRowLines(DescriptionLabel, r.description);
    OptionalRowLines(LanguageLabel, r.language);
    assert Terminated(p1) == NameRow(r) + nl;
    TerminatedAppend(p1, p2);
    assert Terminated(p1 + p2) == a1;
    assert Terminated(p3) == LabelRow(UrlLabel, r.htmlUrl) + nl;
    TerminatedAppend(p1 + p2, p3);
    AppendAssociative(a1, LabelRow(UrlLabel, r.htmlUrl), nl);
    assert Terminated(p1 + p2 + p3) == a3;
    TerminatedAppend(p1 + p2 + p3, p4);
    assert Terminated(p1 + p2 + p3 + p4) == a4;
    var x := VisibilityRow(r.isPrivate) + nl + nl;
    assert Terminated(p5) == MetricsRow(r) + nl + x by {
      assert p5[1..] == [VisibilityRow(r.isPrivate), ""];
      assert p5[1..][1..] == [""];
      assert Terminated([""]) == nl;
    }
    TerminatedAppend(p1 + p2 + p3 + p4, p5);
    assert RepoRows(r) == p1 + p2 + p3 + p4 + p5;
    AppendAssociative(a4, MetricsRow(r) + nl, x);
    AppendAssociative(a4, MetricsRow(r), nl);
    AppendAssociative(a6, VisibilityRow(r.isPrivate) + nl, nl);
    AppendAssociative(a6, VisibilityRow(r.isPrivate), nl);
    AppendAssociative(a7, nl, nl);
  }

  lemma {:induction false} RepoBlocksLines(repos: seq<GhRepo>)
    ensures RepoBlocks(repos) == Terminated(ListingRows(repos))
  {
    if repos != [] {
      RepoBlockLines(repos[0]);
      RepoBlocksLines(repos[1..]);
      TerminatedAppend(RepoRows(repos[0]), ListingRows(repos[1..]));
    }
  }

  /** The whole listing of a non-empty account, line by line. */
  lemma ListingLinesOf(repos: seq<GhRepo>)
    requires repos != []
    ensures RepoListing(repos) == Terminated([RepoHeaderRow(|repos|), ""] + ListingRows(repos))
  {
    var h := RepoHeaderRow(|repos|);
    RepoBlocksLines(repos);
    TerminatedAppend([h, ""], ListingRows(repos));
    TerminatedBlank(h);
  }

  // ---------------------------------------------------------------------
  // how each line is classified
  // ---------------------------------------------------------------------

  /** A line opening with none of the package glyph and the labels' first
      letters goes to the unlabelled branches. */
  lemma ClassifyByHead(t: string)
    requires t != [] && t[0] != PackageGlyph && t[0] != 'D' && t[0] != 'U' && t[0] != 'L'
    ensures Classify(t) == ClassifyUnlabelled(t)
  {
    if StartsWith(t, [PackageGlyph]) { StartsWithHead(t, [PackageGlyph]); }
    if StartsWith(t, DescriptionLabel) { StartsWithHead(t, DescriptionLabel); }
    if StartsWith(t, UrlLabel) { StartsWithHead(t, UrlLabel); }
    if StartsWith(t, LanguageLabel) { StartsWithHead(t, LanguageLabel); }
  }

  /** The package glyph, a space and a trimmed name open a record of
      that name. */
  lemma NameTextKind(name: string)
    requires IsTrimmed(name) && name != []
    ensures Classify([PackageGlyph] + " " + name) == RepoStart(name)
  {
    var t := [PackageGlyph] + " " + name;
    assert t[..1] == [PackageGlyph];
    assert t[1..] == " " + name;
    TrimSpaceBefore(name);
  }

  lemma NameRowKind(r: GhRepo)
    requires IsTrimmed(r.name)
    ensures Classify(Trim(NameRow(r))) == RepoStart(r.name)
  {
    TrimPadded("", [PackageGlyph], r.name);
    assert "" + [PackageGlyph] + " " + r.name == NameRow(r);
    if r.name == [] {
      var t := [PackageGlyph];
      assert t[..1] == [PackageGlyph];
      assert t[1..] == [];
    } else {
      NameTextKind(r.name);
    }
  }

  /** A labelled line trims to the label and its value. */
  lemma LabelRowTrim(tag: string, value: string)
    requires tag != [] && IsTrimmed(tag) && IsTrimmed(value)
    ensures StartsWith(Trim(LabelRow(tag, value)), tag)
    ensures Trim(Trim(LabelRow(tag, value))[|tag|..]) == value
  {
    TrimPadded(Indent, tag, value);
    var t := Trim(LabelRow(tag, value));
    if value == [] {
      assert t[|tag|..] == [];
    } else {
      assert t[..|tag|] == tag;
      assert t[|tag|..] == " " + value;
      TrimSpaceBefore(value);
    }
  }

  lemma DescriptionRowKind(d: string)
    requires IsTrimmed(d)
    ensures Classify(Trim(LabelRow(DescriptionLabel, d))) == DescriptionLine(d)
  {
    LabelRowTrim(DescriptionLabel, d);
    ClassifyLabelled(Trim(LabelRow(DescriptionLabel, d)));
  }

  lemma UrlRowKind(u: string)
    requires IsTrimmed(u)
    ensures Classify(Trim(LabelRow(UrlLabel, u))) == UrlLine(u)
  {
    LabelRowTrim(UrlLabel, u);
    ClassifyLabelled(Trim(LabelRow(UrlLabel, u)));
  }

  lemma LanguageRowKind(l: string)
    requires IsTrimmed(l)
    ensures Classify(Trim(LabelRow(LanguageLabel, l))) == LanguageLine(l)
  {
    LabelRowTrim(LanguageLabel, l);
    ClassifyLabelled(Trim(LabelRow(LanguageLabel, l)));
  }

  /** The digits kept from `p + s + q` are `s` when only `s` has digits. */
  lemma DigitsBetween(p: string, s: string, q: string)
    requires AllDigits(s) && KeepDigits(p) == [] && KeepDigits(q) == []
    ensures KeepDigits(p + s + q) == s
  {
    KeepDigitsConcat(p + s, q);
    KeepDigitsConcat(p, s);
  }

  /** The three `|`-separated segments of a metrics line. */
  lemma MetricsSegments(a: string, b: string, c: string)
    requires '|' !in a && '|' !in b && '|' !in c && c != []
    ensures JavaSplit(a + "|" + b + "|" + c, '|') == [a, b, c]
  {
    var t := a + "|" + b + "|" + c;
    var j := b + "|" + c;
    assert Join([b, c], '|') == j by {
      assert [b, c][1..] == [c];
    }
    assert Join([a, b, c], '|') == a + "|" + j by {
      assert [a, b, c][1..] == [b, c];
    }
    AppendAssociative(a + "|" + b, "|", c);
    AppendAssociative(a + "|", b, "|" + c);
    AppendAssociative(b, "|", c);
    SplitJoin([a, b, c], '|');
    assert t[|a|] == '|';
  }

  /** The text of a metrics line after the indentation, cut at the bars. */
  const StarsLead: string := [StarGlyph] + " "
  const ForksLead: string := " " + [ForkGlyph] + " "

  function StarsSegment(s: string): string { StarsLead + s + " " }
  function ForksSegment(f: string): string { ForksLead + f + " " }

  lemma LeadsWithoutDigits()
    ensures KeepDigits(StarsLead) == [] && KeepDigits(ForksLead) == [] && KeepDigits(" ") == []
  {
    KeepDigitsNone(StarsLead);
    KeepDigitsNone(ForksLead);
    KeepDigitsNone(" ");
  }
  function IssuesSegment(n: string): string { " " + [IssueGlyph] + " " + n + " issues" }

  lemma MetricsShape(s: string, f: string, n: string)
    requires s != [] && !IsTrimmable(s[0])
    ensures Trim(Indent + [StarGlyph] + " " + s + " | " + [ForkGlyph] + " " + f + " | " + [IssueGlyph] + " " + n + " issues")
      == StarsSegment(s) + "|" + ForksSegment(f) + "|" + IssuesSegment(n)
  {
    var x := s + " | " + [ForkGlyph] + " " + f + " | " + [IssueGlyph] + " " + n + " issues";
    assert Indent + [StarGlyph] + " " + s + " | " + [ForkGlyph] + " " + f + " | " + [IssueGlyph] + " " + n + " issues"
      == Indent + [StarGlyph] + " " + x;
    assert [StarGlyph] + " " + x == StarsSegment(s) + "|" + ForksSegment(f) + "|" + IssuesSegment(n);
    assert IsTrimmed(x) by {
      assert x[0] == s[0];
      assert x[|x| - 1] == 's';
    }
    TrimPadded(Indent, [StarGlyph], x);
  }

  /** A line opening with the star glyph is a metrics line. */
  lemma MetricsByStar(t: string)
    requires t != [] && t[0] == StarGlyph
    ensures Classify(t) == Metrics(t)
  {
    ClassifyByHead(t);
  }

  /** Three segments: the counts are the digits of the first two. */
  lemma MetricsOfSegments(a: string, b: string, c: string)
    requires '|' !in a && '|' !in b && '|' !in c && c != []
    ensures Metrics(a + "|" + b + "|" + c) == MetricsLine(KeepDigits(a), KeepDigits(b))
  {
    MetricsSegments(a, b, c);
    MetricsDigits(a + "|" + b + "|" + c);
  }

  /** A metrics line whose counts are digit strings reads as those counts. */
  lemma MetricsTextKind(s: string, f: string, n: string)
    requires s != [] && AllDigits(s) && AllDigits(f) && '|' !in n
    ensures Classify(StarsSegment(s) + "|" + ForksSegment(f) + "|" + IssuesSegment(n)) == MetricsLine(s, f)
  {
    var t := StarsSegment(s) + "|" + ForksSegment(f) + "|" + IssuesSegment(n);
    assert t[0] == StarGlyph;
    MetricsByStar(t);
    assert '|' !in StarsSegment(s) && '|' !in ForksSegment(f) && '|' !in IssuesSegment(n);
    MetricsOfSegments(StarsSegment(s), ForksSegment(f), IssuesSegment(n));
    LeadsWithoutDigits();
    DigitsBetween(StarsLead, s, " ");
    DigitsBetween(ForksLead, f, " ");
  }

  lemma MetricsRowKind(r: GhRepo)
    requires 0 <= r.stars && 0 <= r.forks
    ensures Classify(Trim(MetricsRow(r))) == MetricsLine(NatToString(r.stars), NatToString(r.forks))
  {
    var s := NatToString(r.stars);
    var f := NatToString(r.forks);
    var n := IntToString(r.openIssues);
    assert IsDigit(s[0]);
    MetricsShape(s, f, n);
    assert Trim(MetricsRow(r)) == StarsSegment(s) + "|" + ForksSegment(f) + "|" + IssuesSegment(n);
    assert '|' !in n by {
      if '|' in n { IntToStringChars(r.openIssues, '|'); }
    }
    MetricsTextKind(s, f, n);
  }

  /** A glyph, a space and one of the two visibility words. */
  lemma VisibilityTextKind(g: char, word: string)
    requires g == LockGlyph || g == GlobeGlyph
    requires word == PrivateWord || word == PublicWord
    ensures Classify([g] + " " + word) == VisibilityLine(word == PrivateWord)
  {
    var t := [g] + " " + word;
    ClassifyByHead(t);
    assert StarGlyph !in t;
    assert OccursAt(t, word, 2) by {
      assert t[2..2 + |word|] == word;
    }
    ContainsWitness(t, word, 2);
    if word == PublicWord {
      Lacks(t, PrivateWord, 'v');
    }
  }

  lemma VisibilityRowKind(isPrivate: bool)
    ensures Classify(Trim(VisibilityRow(isPrivate))) == VisibilityLine(isPrivate)
  {
    var g := if isPrivate then LockGlyph else GlobeGlyph;
    var word := if isPrivate then PrivateWord else PublicWord;
    assert VisibilityRow(isPrivate) == Indent + [g] + " " + word;
    TrimPadded(Indent, [g], word);
    VisibilityTextKind(g, word);
  }

  // ---------------------------------------------------------------------
  // scanning one block
  // ---------------------------------------------------------------------

  lemma ScanOne(st: Scan, l: string)
    ensures ScanLines(st, [l]) == Step(st, l)
  {
    assert [l][1..] == [];
  }

  /** A line that only fills a field of the open record. */
  lemma FieldStep(built: seq<RepoInfo>, rec: RepoInfo, l: string, next: RepoInfo)
    requires !Classify(Trim(l)).RepoStart? && Update(rec, Classify(Trim(l))) == Ok(next)
    ensures ScanLines(Scan(built, Some(rec)), [l]) == Ok(Scan(built, Some(next)))
  {
    ScanOne(Scan(built, Some(rec)), l);
  }

  lemma OptionalScan(built: seq<RepoInfo>, rec: RepoInfo, tag: string, value: Option<string>, next: RepoInfo)
    requires value.Some? ==> IsTrimmed(value.value)
    requires tag == DescriptionLabel || tag == LanguageLabel
    requires value.None? ==> next == rec
    requires value.Some? && tag == DescriptionLabel ==> next == rec.(description := value)
    requires value.Some? && tag == LanguageLabel ==> next == rec.(language := value)
    ensures ScanLines(Scan(built, Some(rec)), OptionalRows(tag, value)) == Ok(Scan(built, Some(next)))
  {
    if value.Some? {
      if tag == DescriptionLabel {
        DescriptionRowKind(value.value);
      } else {
        LanguageRowKind(value.value);
      }
      FieldStep(built, rec, LabelRow(tag, value.value), next);
    }
  }

  /** The metrics line sets both counts to the numbers written. */
  lemma MetricsStep(built: seq<RepoInfo>, rec: RepoInfo, r: GhRepo)
    requires 0 <= r.stars <= IntMax && 0 <= r.forks <= IntMax
    ensures ScanLines(Scan(built, Some(rec)), [MetricsRow(r)]) ==
      Ok(Scan(built, Some(rec.(stars := Some(r.stars), forks := Some(r.forks)))))
  {
    var sd := NatToString(r.stars);
    var fd := NatToString(r.forks);
    MetricsRowKind(r);
    SetCountRendered(rec.stars, r.stars);
    SetCountRendered(rec.forks, r.forks);
    MetricsUpdate(rec, sd, fd, r.stars, r.forks);
    FieldStep(built, rec, MetricsRow(r), rec.(stars := Some(r.stars), forks := Some(r.forks)));
  }

  /** A rendered count parses back to itself. */
  lemma SetCountRendered(count: Option<int>, n: int)
    requires 0 <= n <= IntMax
    ensures SetCount(count, NatToString(n)) == Ok(Some(n))
  {
    ParseRendered(n, IntMin, IntMax);
  }

  lemma MetricsUpdate(rec: RepoInfo, sd: string, fd: string, stars: int, forks: int)
    requires SetCount(rec.stars, sd) == Ok(Some(stars)) && SetCount(rec.forks, fd) == Ok(Some(forks))
    ensures Update(rec, MetricsLine(sd, fd)) == Ok(rec.(stars := Some(stars), forks := Some(forks)))
  {
  }

  lemma VisibilityStep(built: seq<RepoInfo>, rec: RepoInfo, isPrivate: bool)
    ensures ScanLines(Scan(built, Some(rec)), [VisibilityRow(isPrivate)]) ==
      Ok(Scan(built, Some(rec.(isPrivate := Some(isPrivate)))))
  {
    VisibilityRowKind(isPrivate);
    FieldStep(built, rec, VisibilityRow(isPrivate), rec.(isPrivate := Some(isPrivate)));
  }

  lemma BlankStep(st: Scan)
    ensures ScanLines(st, [""]) == Ok(st)
  {
    assert Classify(Trim("")) == Noise;
    ScanOne(st, "");
  }

  /** The metrics line, the visibility line and the closing empty line. */
  lemma TailScan(built: seq<RepoInfo>, rec: RepoInfo, r: GhRepo)
    requires 0 <= r.stars <= IntMax && 0 <= r.forks <= IntMax
    ensures ScanLines(Scan(built, Some(rec)), [MetricsRow(r), VisibilityRow(r.isPrivate), ""]) ==
      Ok(Scan(built, Some(rec.(stars := Some(r.stars), forks := Some(r.forks), isPrivate := Some(r.isPrivate)))))
  {
    var st := Scan(built, Some(rec));
    var r1 := rec.(stars := Some(r.stars), forks := Some(r.forks));
    var m := [MetricsRow(r)];
    var v := [VisibilityRow(r.isPrivate)];
    MetricsStep(built, rec, r);
    VisibilityStep(built, r1, r.isPrivate);
    BlankStep(Scan(built, Some(r1.(isPrivate := Some(r.isPrivate)))));
    ScanAppend(st, m, v);
    ScanAppend(st, m + v, [""]);
    assert m + v + [""] == [MetricsRow(r), VisibilityRow(r.isPrivate), ""];
  }

  lemma HeadScan(st: Scan, r: GhRepo)
    requires IsTrimmed(r.name)
    ensures ScanLines(st, [NameRow(r)]) == Ok(Scan(Flush(st), Some(NewRecord(r.name))))
  {
    NameRowKind(r);
    ScanOne(st, NameRow(r));
  }

  /** One block opens a record, fills it with every field it shows, and
      leaves it open. */
  lemma BlockScan(st: Scan, r: GhRepo)
    requires Listable(r)
    ensures ScanLines(st, RepoRows(r)) == Ok(Scan(Flush(st), Some(Expected(r))))
  {
    var built := Flush(st);
    var p1 := [NameRow(r)];
    var p2 := OptionalRows(DescriptionLabel, r.description);
    var p3 := [LabelRow(UrlLabel, r.htmlUrl)];
    var p4 := OptionalRows(LanguageLabel, r.language);
    var p5 := [MetricsRow(r), VisibilityRow(r.isPrivate), ""];
    var r1 := NewRecord(r.name);
    var r2 := r1.(description := r.description);
    var r3 := r2.(url := Some(r.htmlUrl));
    var r4 := r3.(language := r.language);
    HeadScan(st, r);
    OptionalScan(built, r1, DescriptionLabel, r.description, r2);
    ScanAppend(st, p1, p2);
    UrlRowKind(r.htmlUrl);
    FieldStep(built, r2, LabelRow(UrlLabel, r.htmlUrl), r3);
    ScanAppend(st, p1 + p2, p3);
    OptionalScan(built, r3, LanguageLabel, r.language, r4);
    ScanAppend(st, p1 + p2 + p3, p4);
    TailScan(built, r4, r);
    ScanAppend(st, p1 + p2 + p3 + p4, p5);
  }

  lemma ExpectedAllCons(repos: seq<GhRepo>)
    requires repos != []
    ensures ExpectedAll(repos) == [Expected(repos[0])] + ExpectedAll(repos[1..])
  {
  }

  lemma SeqAppendAssociative(a: seq<RepoInfo>, b: seq<RepoInfo>, c: seq<RepoInfo>)
    ensures a + b + c == a + (b + c)
  {
  }

  /** The blocks of `repos` append their records to those already built. */
  lemma {:induction false} BlocksScan(st: Scan, repos: seq<GhRepo>)
    requires AllListable(repos)
    ensures ScanLines(st, ListingRows(repos)).Ok?
    ensures Flush(ScanLines(st, ListingRows(repos)).value) == Flush(st) + ExpectedAll(repos)
    decreases |repos|
  {
    if repos == [] {
      assert Flush(st) + ExpectedAll(repos) == Flush(st);
    } else {
      var mid := Scan(Flush(st), Some(Expected(repos[0])));
      assert ListingRows(repos) == RepoRows(repos[0]) + ListingRows(repos[1..]);
      BlockScan(st, repos[0]);
      ScanAppend(st, RepoRows(repos[0]), ListingRows(repos[1..]));
      BlocksScan(mid, repos[1..]);
      assert Flush(mid) == Flush(st) + [Expected(repos[0])];
      ExpectedAllCons(repos);
      SeqAppendAssociative(Flush(st), [Expected(repos[0])], ExpectedAll(repos[1..]));
    }
  }

  // ---------------------------------------------------------------------
  // the whole listing
  // ---------------------------------------------------------------------

  /** Empty lines change nothing. */
  lemma {:induction false} EmptyLinesScan(st: Scan, lines: seq<string>)
    requires forall k :: 0 <= k < |lines| ==> lines[k] == []
    ensures ScanLines(st, lines) == Ok(st)
    decreases |lines|
  {
    if lines != [] {
      assert Classify(Trim(lines[0])) == Noise;
      EmptyLinesScan(st, lines[1..]);
    }
  }

  /** Dropping the trailing empty pieces of a split changes nothing. */
  lemma ScanDropTrailing(st: Scan, lines: seq<string>)
    ensures ScanLines(st, DropTrailingEmpty(lines)) == ScanLines(st, lines)
  {
    var kept := DropTrailingEmpty(lines);
    var tail := lines[|kept|..];
    assert lines == kept + tail;
    ScanAppend(st, kept, tail);
    if ScanLines(st, kept).Ok? {
      EmptyLinesScan(ScanLines(st, kept).value, tail);
    }
  }

  lemma RowsSingleLines(repos: seq<GhRepo>)
    requires AllListable(repos)
    ensures SingleLines(ListingRows(repos))
  {
    // all rows lack a newline; see `RowsWithoutSentinel` for the shape
    forall k | 0 <= k < |ListingRows(repos)| ensures '\n' !in ListingRows(repos)[k] {
      RowFacts(repos, k);
    }
  }

  lemma RowsWithoutSentinel(repos: seq<GhRepo>)
    requires AllListable(repos)
    ensures forall k :: 0 <= k < |ListingRows(repos)| ==> !Contains(ListingRows(repos)[k], NoResults)
  {
    forall k | 0 <= k < |ListingRows(repos)| ensures !Contains(ListingRows(repos)[k], NoResults) {
      RowFacts(repos, k);
    }
  }

  /** Every line of the blocks is one line and lacks the "none" word. */
  lemma {:induction false} RowFacts(repos: seq<GhRepo>, k: int)
    requires AllListable(repos) && 0 <= k < |ListingRows(repos)|
    ensures '\n' !in ListingRows(repos)[k] && !Contains(ListingRows(repos)[k], NoResults)
    decreases |repos|
  {
    var here := RepoRows(repos[0]);
    if k < |here| {
      assert ListingRows(repos)[k] == here[k];
      BlockRowFacts(repos[0], k);
    } else {
      assert ListingRows(repos)[k] == ListingRows(repos[1..])[k - |here|];
      RowFacts(repos[1..], k - |here|);
    }
  }

  /** A visible prefix, a space, a faithful field. */
  lemma FieldRowFacts(prefix: string, field: string)
    requires 'N' !in prefix && '\n' !in prefix
    requires Faithful(field)
    ensures '\n' !in prefix + " " + field && !Contains(prefix + " " + field, NoResults)
  {
    Lacks(prefix, NoResults, 'N');
    NotAcross(prefix, ' ', field, NoResults);
    assert prefix + " " + field == prefix + [' '] + field;
  }

  /** One line that holds no line break and not the "none" word. */
  predicate PlainRow(row: string) {
    '\n' !in row && !Contains(row, NoResults)
  }

  lemma OptionalRowsPlain(tag: string, value: Option<string>)
    requires tag == DescriptionLabel || tag == LanguageLabel
    requires value.Some? ==> Faithful(value.value)
    ensures forall row | row in OptionalRows(tag, value) :: PlainRow(row)
  {
    if value.Some? {
      FieldRowFacts(Indent + tag, value.value);
    }
  }

  lemma MetricsRowPlain(r: GhRepo)
    ensures PlainRow(MetricsRow(r))
  {
    var row := MetricsRow(r);
    var stars, forks, issues := IntToString(r.stars), IntToString(r.forks), IntToString(r.openIssues);
    NumberPlain(r.stars);
    NumberPlain(r.forks);
    NumberPlain(r.openIssues);
    var head := Indent + [StarGlyph] + " " + stars;
    assert 'N' !in head && '\n' !in head;
    var middle := head + " | " + [ForkGlyph] + " " + forks;
    assert 'N' !in middle && '\n' !in middle;
    assert row == middle + " | " + [IssueGlyph] + " " + issues + " issues";
    assert 'N' !in row && '\n' !in row;
    Lacks(row, NoResults, 'N');
  }

  /** A number's digits hold neither the `N` of the empty-result text nor
      a line break. */
  lemma NumberPlain(n: int)
    ensures 'N' !in IntToString(n) && '\n' !in IntToString(n)
  {
    if 'N' in IntToString(n) { IntToStringChars(n, 'N'); }
    if '\n' in IntToString(n) { IntToStringChars(n, '\n'); }
  }

  lemma VisibilityRowPlain(isPrivate: bool)
    ensures PlainRow(VisibilityRow(isPrivate)) && PlainRow("")
  {
    assert 'N' !in VisibilityRow(isPrivate);
    Lacks(VisibilityRow(isPrivate), NoResults, 'N');
    Lacks("", NoResults, 'N');
  }

  lemma BlockRowFacts(r: GhRepo, k: int)
    requires Listable(r) && 0 <= k < |RepoRows(r)|
    ensures '\n' !in RepoRows(r)[k] && !Contains(RepoRows(r)[k], NoResults)
  {
    FieldRowFacts([PackageGlyph], r.name);
    assert NameRow(r) == [PackageGlyph] + " " + r.name;
    OptionalRowsPlain(DescriptionLabel, r.description);
    FieldRowFacts(Indent + UrlLabel, r.htmlUrl);
    OptionalRowsPlain(LanguageLabel, r.language);
    MetricsRowPlain(r);
    VisibilityRowPlain(r.isPrivate);
    assert PlainRow(RepoRows(r)[k]) by {
      assert RepoRows(r)[k] in RepoRows(r);
    }
  }

  /** The header line of a non-empty listing. */
  lemma HeaderFacts(count: int)
    ensures '\n' !in RepoHeaderRow(count) && !Contains(RepoHeaderRow(count), NoResults)
    ensures !IsStart(RepoHeaderRow(count))
  {
    var h := RepoHeaderRow(count);
    forall c | c in IntToString(count) ensures c != 'N' && c != '\n' {
      IntToStringChars(count, c);
    }
    assert 'N' !in h && '\n' !in h;
    Lacks(h, NoResults, 'N');
    TrimKeepsHead(h);
    if StartsWith(Trim(h), [PackageGlyph]) {
      StartsWithHead(Trim(h), [PackageGlyph]);
    }
  }

  lemma SentinelIsWord()
    ensures NoResults != [] && '\n' !in NoResults
  {
    assert NoResults == ['N', 'e', 'n', 'h', 'u', 'm'];
  }

  /** The listing of a non-empty account never contains the "none" word,
      so the parser reads its lines. */
  lemma ListingWithoutSentinel(repos: seq<GhRepo>)
    requires repos != [] && AllListable(repos)
    ensures !Contains(RepoListing(repos), NoResults)
  {
    ListingLinesOf(repos);
    HeaderFacts(|repos|);
    RowsWithoutSentinel(repos);
    SentinelIsWord();
    HeaderBodyWithout(RepoHeaderRow(|repos|), ListingRows(repos), NoResults);
  }

  /** The listing splits into its header, its blank line, the rows of its
      blocks and the empty piece after the last line break. */
  lemma ListingSplit(repos: seq<GhRepo>)
    requires repos != [] && AllListable(repos)
    ensures '\n' in RepoListing(repos)
    ensures RawSplit(RepoListing(repos), '\n') == [RepoHeaderRow(|repos|), ""] + ListingRows(repos) + [""]
  {
    ListingLinesOf(repos);
    HeaderFacts(|repos|);
    RowsSingleLines(repos);
    SplitAfterHeader(RepoHeaderRow(|repos|), ListingRows(repos));
  }

  /** A closing empty line after a scan that succeeded changes nothing. */
  lemma ScanThenBlank(st: Scan, lines: seq<string>)
    requires ScanLines(st, lines).Ok?
    ensures ScanLines(st, lines + [""]) == ScanLines(st, lines)
  {
    ScanAppend(st, lines, [""]);
    BlankStep(ScanLines(st, lines).value);
  }

  /** A header line that opens no record and a blank line are ignored, and
      so is a closing empty piece. */
  lemma BuiltAfterHeader(h: string, body: seq<string>, expected: seq<RepoInfo>)
    requires !IsStart(h)
    requires ScanLines(Start, body).Ok? && Flush(ScanLines(Start, body).value) == Flush(Start) + expected
    ensures Built([h, ""] + body + [""]) == Ok(expected)
  {
    assert Flush(Start) + expected == expected;
    var header := [h, ""];
    assert NoStarts(header) by {
      assert !IsStart("") by { assert Trim("") == ""; }
    }
    assert header + body + [""] == header + (body + [""]);
    PreambleIgnored(header, body + [""]);
    ScanThenBlank(Start, body);
  }

  /** The header and the blank line are ignored, the blocks build the
      records, and the final empty piece changes nothing. */
  lemma ListingScan(repos: seq<GhRepo>)
    requires repos != [] && AllListable(repos)
    ensures Built([RepoHeaderRow(|repos|), ""] + ListingRows(repos) + [""]) == Ok(ExpectedAll(repos))
  {
    HeaderFacts(|repos|);
    BlocksScan(Start, repos);
    BuiltAfterHeader(RepoHeaderRow(|repos|), ListingRows(repos), ExpectedAll(repos));
  }

  /** The records the loop builds from a listing are the repositories, in
      listing order. */
  lemma ListingBuilt(repos: seq<GhRepo>)
    requires repos != [] && AllListable(repos)
    ensures Built(JavaSplit(RepoListing(repos), '\n')) == Ok(ExpectedAll(repos))
  {
    var text := RepoListing(repos);
    ListingSplit(repos);
    ScanDropTrailing(Start, RawSplit(text, '\n'));
    ListingScan(repos);
  }

  /** The cross-check of the repository listing: the parser gives back one
      record per repository, with name, description, URL, language, stars,
      forks and visibility as written, in the service's star order. */
  lemma RepoListingRoundTrip(repos: seq<GhRepo>)
    requires AllListable(repos)
    ensures RepositoriesOf(Some(RepoListing(repos))) ==
      Ok(RepoResponse(|repos|, SortedByStars(ExpectedAll(repos))))
  {
    if repos == [] {
      var text := RepoListing(repos);
      assert StartsWith(text, NoResults) by {
        assert text[..|NoResults|] == NoResults;
      }
      assert ExpectedAll(repos) == [];
      assert SortedByStars([]) == [];
    } else {
      ListingWithoutSentinel(repos);
      ListingBuilt(repos);
    }
  }
}
