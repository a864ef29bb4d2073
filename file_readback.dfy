/** What `parseFiles` makes of the text `listRepositoryFiles` and
    `listRepositoryFilesInDirectory` write. Unlike the repository listing,
    this one does not read back: every file entry carries a size annotation
    ending in "bytes)", and the parser skips every line that contains it.
    Only the folders (and the entries that are neither folder nor file)
    come back, without a size, directories first. */
module FileListingReadBack {
  import opened Wrappers
  import opened JavaText
  import opened GitHubDtos
  import opened ListingMarkers
  import opened ListingLines
  import opened AssistantTools
  import opened FileListParser

  /** An entry whose line reads back: one line, and for an entry without a
      size a name that is already trimmed, non-empty, without `(` and
      without the size marker. */
  predicate Readable(c: GhContent) {
    && '\n' !in c.name
    && (!c.kind.File? ==>
          c.name != [] && IsTrimmed(c.name) && '(' !in c.name && !Contains(c.name, BytesClose))
  }

  predicate AllReadable(contents: seq<GhContent>) {
    forall i :: 0 <= i < |contents| ==> Readable(contents[i])
  }

  /** The node the parser is meant to build for an entry it keeps. */
  function NodeFor(c: GhContent): FileNode {
    FileNode(c.name, c.name, c.kind.Directory?, None, true, [])
  }

  /** The nodes of the entries the parser keeps, in listing order. */
  function KeptNodes(contents: seq<GhContent>): seq<FileNode> {
    if contents == [] then []
    else
      var last := contents[|contents| - 1];
      KeptNodes(contents[..|contents| - 1]) + (if last.kind.File? then [] else [NodeFor(last)])
  }

  lemma KeptNodesSnoc(contents: seq<GhContent>)
    requires contents != []
    ensures contents[|contents| - 1].kind.File? ==> KeptNodes(contents) == KeptNodes(contents[..|contents| - 1])
    ensures !contents[|contents| - 1].kind.File? ==>
      KeptNodes(contents) == KeptNodes(contents[..|contents| - 1]) + [NodeFor(contents[|contents| - 1])]
  {
    var init := KeptNodes(contents[..|contents| - 1]);
    assert init + [] == init;
  }

  /** The lines of the entries. */
  function EntryRows(contents: seq<GhContent>): seq<string> {
    seq(|contents|, i requires 0 <= i < |contents| => EntryRow(contents[i]))
  }

  // ---------------------------------------------------------------------
  // the text as lines
  // ---------------------------------------------------------------------

  lemma {:induction false} EntriesLines(contents: seq<GhContent>)
    ensures Entries(contents) == Terminated(EntryRows(contents))
    decreases |contents|
  {
    if contents != [] {
      assert EntryRows(contents)[1..] == EntryRows(contents[1..]);
      EntriesLines(contents[1..]);
    }
  }

  /** A header, a blank line, then the entries. */
  lemma HeaderLines(h: string, contents: seq<GhContent>)
    ensures h + "\n\n" + Entries(contents) == Terminated([h, ""] + EntryRows(contents))
  {
    EntriesLines(contents);
    TerminatedAppend([h, ""], EntryRows(contents));
    TerminatedBlank(h);
  }

  /** An entry's line holds no line break of its own. */
  lemma EntryRowSingle(c: GhContent)
    requires '\n' !in c.name
    ensures '\n' !in EntryRow(c)
  {
    if '\n' in IntToString(c.size) {
      IntToStringChars(c.size, '\n');
    }
  }

  lemma RowsSingle(contents: seq<GhContent>)
    requires AllReadable(contents)
    ensures SingleLines(EntryRows(contents))
  {
    forall k | 0 <= k < |contents| ensures '\n' !in EntryRows(contents)[k] {
      EntryRowSingle(contents[k]);
    }
  }

  // ---------------------------------------------------------------------
  // one line at a time
  // ---------------------------------------------------------------------

  /** Text followed by the size marker, opening with a visible character,
      is skipped. */
  lemma SizedLineSkipped(p: string)
    requires p != [] && !IsTrimmable(p[0])
    ensures ParseFileLine(p + BytesClose) == Ok(None)
  {
    var line := p + BytesClose;
    assert line[|line| - 1] == ')';
    TrimFixpoint(line);
    assert OccursAt(line, BytesClose, |p|) by {
      assert line[|p|..|p| + |BytesClose|] == BytesClose;
    }
    ContainsWitness(line, BytesClose, |p|);
  }

  /** A file entry is skipped: its line ends in the size marker. */
  lemma FileRowSkipped(c: GhContent)
    requires c.kind.File?
    ensures ParseFileLine(EntryRow(c)) == Ok(None)
  {
    var x := [PageGlyph] + " " + c.name;
    var y := " (" + IntToString(c.size) + " ";
    AppendAssociative(x, y, BytesClose);
    assert EntryRow(c) == (x + y) + BytesClose;
    SizedLineSkipped(x + y);
  }

  /** A glyph, a space and a plain name: a kept line whose text after the
      space is the name. */
  lemma GlyphLineKept(g: char, name: string)
    requires g == FolderGlyph || g == PageGlyph
    requires name != [] && IsTrimmed(name) && !Contains(name, BytesClose)
    ensures var line := [g] + " " + name;
      && Trim(line) == line && !Skipped(line) && Remainder(line) == name
      && (StartsWith(line, [FolderGlyph]) <==> g == FolderGlyph)
  {
    var line := [g] + " " + name;
    assert line == [g] + [' '] + name;
    TrimFixpoint(line);
    TrimFixpoint(name);
    if StartsWith(line, [CheckGlyph]) {
      StartsWithHead(line, [CheckGlyph]);
    }
    Lacks([g], BytesClose, 'b');
    NotAcross([g], ' ', name, BytesClose);
    assert StartsWith(line, [g]);
    if StartsWith(line, [FolderGlyph]) {
      StartsWithHead(line, [FolderGlyph]);
    }
    assert IndexOf(line, ' ') == 1;
    assert line[2..] == name;
  }

  /** A trimmed name without a parenthesis reads as itself, with no size. */
  lemma PlainNameRead(name: string)
    requires IsTrimmed(name) && '(' !in name
    ensures NameOf(name) == Ok(name) && SizeOf(name) == Ok(None)
  {
    TrimFixpoint(name);
    assert JavaSplit(name, '(') == [name];
  }

  /** A glyph, a space and a plain name: the node of that name. */
  lemma GlyphLineRead(g: char, name: string)
    requires g == FolderGlyph || g == PageGlyph
    requires name != [] && IsTrimmed(name) && '(' !in name && !Contains(name, BytesClose)
    ensures ParseFileLine([g] + " " + name) == Ok(Some(FileNode(name, name, g == FolderGlyph, None, true, [])))
  {
    GlyphLineKept(g, name);
    PlainNameRead(name);
  }

  /** An entry without a size becomes its node. */
  lemma PlainRowRead(c: GhContent)
    requires !c.kind.File? && Readable(c)
    ensures ParseFileLine(EntryRow(c)) == Ok(Some(NodeFor(c)))
  {
    var g := if c.kind.Directory? then FolderGlyph else PageGlyph;
    assert EntryRow(c) == [g] + " " + c.name;
    GlyphLineRead(g, c.name);
  }

  lemma EntryRowRead(c: GhContent)
    requires Readable(c)
    ensures ParseFileLine(EntryRow(c)) == if c.kind.File? then Ok(None) else Ok(Some(NodeFor(c)))
  {
    if c.kind.File? {
      FileRowSkipped(c);
    } else {
      PlainRowRead(c);
    }
  }

  // ---------------------------------------------------------------------
  // the loop over the lines
  // ---------------------------------------------------------------------

  /** The loop over `a + b` is the loop over `a`, then over `b`. */
  lemma {:induction false} NodesOfAppend(a: seq<string>, b: seq<string>)
    ensures NodesOf(a + b) ==
      if NodesOf(a).Err? then NodesOf(a)
      else if NodesOf(b).Err? then NodesOf(b)
      else Ok(NodesOf(a).value + NodesOf(b).value)
    decreases |b|
  {
    if b == [] {
      assert a + b == a;
      if NodesOf(a).Ok? {
        assert NodesOf(a).value + [] == NodesOf(a).value;
      }
    } else {
      var init := b[..|b| - 1];
      assert (a + b)[..|a + b| - 1] == a + init;
      assert (a + b)[|a + b| - 1] == b[|b| - 1];
      NodesOfAppend(a, init);
      if NodesOf(a).Ok? && NodesOf(init).Ok? && ParseFileLine(b[|b| - 1]) == Ok(None) {
        assert NodesOf(b) == NodesOf(init);
      }
      if NodesOf(a).Ok? && NodesOf(init).Ok? && ParseFileLine(b[|b| - 1]).Ok? && ParseFileLine(b[|b| - 1]).value.Some? {
        var n := ParseFileLine(b[|b| - 1]).value.value;
        assert NodesOf(b) == Ok(NodesOf(init).value + [n]);
        assert NodesOf(a).value + (NodesOf(init).value + [n]) == NodesOf(a).value + NodesOf(init).value + [n];
      }
    }
  }

  /** The entries' lines yield the nodes of the entries that are kept. */
  lemma {:induction false} EntriesNodes(contents: seq<GhContent>)
    requires AllReadable(contents)
    ensures NodesOf(EntryRows(contents)) == Ok(KeptNodes(contents))
    decreases |contents|
  {
    if contents != [] {
      var init := contents[..|contents| - 1];
      var last := contents[|contents| - 1];
      var rows := EntryRows(contents);
      assert rows[..|rows| - 1] == EntryRows(init);
      assert rows[|rows| - 1] == EntryRow(last);
      assert AllReadable(init) by {
        forall k | 0 <= k < |init| ensures Readable(init[k]) {
          assert init[k] == contents[k];
        }
      }
      EntriesNodes(init);
      EntryRowRead(last);
      KeptNodesSnoc(contents);
      if last.kind.File? {
        SkipStep(rows, KeptNodes(init));
      } else {
        KeepStep(rows, KeptNodes(init), NodeFor(last));
      }
    }
  }

  /** A last line that is skipped adds nothing. */
  lemma SkipStep(rows: seq<string>, kept: seq<FileNode>)
    requires rows != [] && NodesOf(rows[..|rows| - 1]) == Ok(kept)
    requires ParseFileLine(rows[|rows| - 1]) == Ok(None)
    ensures NodesOf(rows) == Ok(kept)
  {
  }

  /** A last line that is read adds its node. */
  lemma KeepStep(rows: seq<string>, kept: seq<FileNode>, n: FileNode)
    requires rows != [] && NodesOf(rows[..|rows| - 1]) == Ok(kept)
    requires ParseFileLine(rows[|rows| - 1]) == Ok(Some(n))
    ensures NodesOf(rows) == Ok(kept + [n])
  {
  }

  /** A header line opening with the check glyph, and a blank line, yield
      nothing. */
  lemma HeaderSkipped(h: string)
    requires h != [] && h[0] == CheckGlyph
    ensures NodesOf([h, ""]) == Ok([])
  {
    TrimKeepsHead(h);
    assert StartsWith(Trim(h), [CheckGlyph]);
    assert ParseFileLine(h) == Ok(None);
    assert Trim("") == "";
    assert ParseFileLine("") == Ok(None);
    assert [h][..0] == [];
    assert NodesOf([h]) == Ok([]);
    assert [h, ""][..1] == [h];
  }

  /** A one-line text that is neither a folder nor a page entry yields
      nothing. */
  lemma PlainTextSkipped(s: string)
    requires s != [] && '\n' !in s && !IsTrimmable(s[0]) && s[0] != FolderGlyph && s[0] != PageGlyph
    ensures NodesOf(JavaSplit(s, '\n')) == Ok([])
  {
    TrimKeepsHead(s);
    if StartsWith(Trim(s), [FolderGlyph]) {
      StartsWithHead(Trim(s), [FolderGlyph]);
    }
    if StartsWith(Trim(s), [PageGlyph]) {
      StartsWithHead(Trim(s), [PageGlyph]);
    }
    assert [s][..0] == [];
  }

  /** A listing with a header splits into the header, the blank line and
      the entries' lines: the closing empty piece is dropped. */
  lemma ListingPieces(h: string, contents: seq<GhContent>)
    requires h != [] && h[0] == CheckGlyph && '\n' !in h
    requires contents != [] && AllReadable(contents)
    ensures JavaSplit(h + "\n\n" + Entries(contents), '\n') == [h, ""] + EntryRows(contents)
  {
    var text := h + "\n\n" + Entries(contents);
    var body := EntryRows(contents);
    HeaderLines(h, contents);
    RowsSingle(contents);
    LastRowShown(contents);
    SplitHeaderBody(h, body);
  }

  /** Every entry's line opens with its glyph, so the last line is not empty. */
  lemma LastRowShown(contents: seq<GhContent>)
    requires contents != []
    ensures EntryRows(contents) != [] && EntryRows(contents)[|EntryRows(contents)| - 1] != []
  {
    var last := contents[|contents| - 1];
    assert EntryRows(contents)[|contents| - 1] == EntryRow(last);
    assert EntryRow(last)[0] in [FolderGlyph, PageGlyph];
  }

  /** The header and the blank line add no node. */
  lemma NodesAfterHeader(h: string, body: seq<string>)
    requires h != [] && h[0] == CheckGlyph
    ensures NodesOf([h, ""] + body) == NodesOf(body)
  {
    NodesOfAppend([h, ""], body);
    HeaderSkipped(h);
    if NodesOf(body).Ok? {
      assert [] + NodesOf(body).value == NodesOf(body).value;
    }
  }

  /** A listing with a header: the loop yields the kept entries' nodes. */
  lemma ListingNodes(h: string, contents: seq<GhContent>)
    requires h != [] && h[0] == CheckGlyph && '\n' !in h
    requires contents != [] && AllReadable(contents)
    ensures NodesOf(JavaSplit(h + "\n\n" + Entries(contents), '\n')) == Ok(KeptNodes(contents))
  {
    ListingPieces(h, contents);
    NodesAfterHeader(h, EntryRows(contents));
    EntriesNodes(contents);
  }

  /** The header of `listRepositoryFiles`. */
  lemma FilesHeaderFacts(repositoryName: string)
    requires '\n' !in repositoryName
    ensures FilesHeaderRow(repositoryName) != [] && FilesHeaderRow(repositoryName)[0] == CheckGlyph
    ensures '\n' !in FilesHeaderRow(repositoryName)
  {
  }

  /** The header of `listRepositoryFilesInDirectory`. */
  lemma DirectoryHeaderFacts(repositoryName: string, path: string)
    requires '\n' !in repositoryName && '\n' !in path
    ensures DirectoryHeaderRow(repositoryName, path) != [] && DirectoryHeaderRow(repositoryName, path)[0] == CheckGlyph
    ensures '\n' !in DirectoryHeaderRow(repositoryName, path)
  {
  }

  lemma SortedNone()
    ensures SortedDirsFirst([]) == []
  {
  }

  // ---------------------------------------------------------------------
  // the cross-checks
  // ---------------------------------------------------------------------

  /** `parseFiles` on the answer of `listRepositoryFiles`: the entries kept
      (every one but the files), directories first, and a total that
      counts only them. */
  lemma FileListingReadBack(repositoryName: string, contents: seq<GhContent>)
    requires '\n' !in repositoryName && AllReadable(contents)
    ensures FilesOf(Some(FileListing(repositoryName, contents)), repositoryName) ==
      Ok(FilesResponse(repositoryName, |KeptNodes(contents)|, SortedDirsFirst(KeptNodes(contents))))
  {
    if contents == [] {
      assert EmptyRepository[0] == 'R';
      PlainTextSkipped(EmptyRepository);
      SortedNone();
    } else {
      FilesHeaderFacts(repositoryName);
      ListingNodes(FilesHeaderRow(repositoryName), contents);
    }
  }

  /** The same for `listRepositoryFilesInDirectory`. */
  lemma DirectoryListingReadBack(repositoryName: string, path: string, contents: seq<GhContent>)
    requires '\n' !in repositoryName && '\n' !in path && AllReadable(contents)
    ensures FilesOf(Some(DirectoryListing(repositoryName, path, contents)), repositoryName) ==
      Ok(FilesResponse(repositoryName, |KeptNodes(contents)|, SortedDirsFirst(KeptNodes(contents))))
  {
    if contents == [] {
      assert EmptyDirectory(path)[0] == 'D';
      PlainTextSkipped(EmptyDirectory(path));
      SortedNone();
    } else {
      DirectoryHeaderFacts(repositoryName, path);
      ListingNodes(DirectoryHeaderRow(repositoryName, path), contents);
    }
  }

  /** The kept nodes are exactly those of the entries that are not files,
      none with a size; a single file makes the count fall short. */
  lemma {:induction false} KeptNodesSpec(contents: seq<GhContent>)
    ensures |KeptNodes(contents)| <= |contents|
    ensures forall n :: n in KeptNodes(contents) <==>
      exists i :: 0 <= i < |contents| && !contents[i].kind.File? && n == NodeFor(contents[i])
    ensures forall n :: n in KeptNodes(contents) ==> n.size.None?
    ensures (exists i :: 0 <= i < |contents| && contents[i].kind.File?) ==> |KeptNodes(contents)| < |contents|
    decreases |contents|
  {
    if contents != [] {
      var init := contents[..|contents| - 1];
      var last := contents[|contents| - 1];
      KeptNodesSpec(init);
      forall n | n in KeptNodes(contents)
        ensures exists i :: 0 <= i < |contents| && !contents[i].kind.File? && n == NodeFor(contents[i])
      {
        if n in KeptNodes(init) {
          var i :| 0 <= i < |init| && !init[i].kind.File? && n == NodeFor(init[i]);
          assert contents[i] == init[i];
        } else {
          assert n == NodeFor(last);
        }
      }
      forall n | exists i :: 0 <= i < |contents| && !contents[i].kind.File? && n == NodeFor(contents[i])
        ensures n in KeptNodes(contents)
      {
        var i :| 0 <= i < |contents| && !contents[i].kind.File? && n == NodeFor(contents[i]);
        if i < |init| {
          assert init[i] == contents[i];
        }
      }
      if exists i :: 0 <= i < |contents| && contents[i].kind.File? {
        var i :| 0 <= i < |contents| && contents[i].kind.File?;
        if i < |init| {
          assert init[i].kind.File?;
        }
      }
    }
  }

  /** The file listing does not round-trip: as soon as one entry is a file,
      the parsed total is below the number of entries listed, and no node
      comes back with a size. */
  lemma FileListingLosesFiles(repositoryName: string, contents: seq<GhContent>, i: int)
    requires '\n' !in repositoryName && AllReadable(contents)
    requires 0 <= i < |contents| && contents[i].kind.File?
    ensures FilesOf(Some(FileListing(repositoryName, contents)), repositoryName).Ok?
    ensures FilesOf(Some(FileListing(repositoryName, contents)), repositoryName).value.totalFiles < |contents|
    ensures forall n :: n in FilesOf(Some(FileListing(repositoryName, contents)), repositoryName).value.files ==>
      n.size.None?
  {
    FileListingReadBack(repositoryName, contents);
    KeptNodesSpec(contents);
    var sorted := SortedDirsFirst(KeptNodes(contents));
    forall n | n in sorted ensures n.size.None? {
      assert n in multiset(sorted);
    }
  }
}
