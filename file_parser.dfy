/** `GitHubDataStructureService.parseFiles`: every line of a file listing is
    read on its own; a folder or page line with a space after the glyph
    becomes one flat, loaded `FileNode`, everything else is skipped. The
    nodes are then stably sorted, directories first and each group by name
    ignoring case. */
module FileListParser {
  import opened Wrappers
  import opened JavaText
  import opened StableSorting
  import opened GitHubDtos
  import opened ListingMarkers

  /** The lines the source skips (the trimmed `line`): empty, a header, a
      line with a size annotation, a line that is neither a folder nor a
      page entry, and an entry with no space after its glyph. */
  predicate Skipped(line: string) {
    || line == []
    || StartsWith(line, [CheckGlyph])
    || Contains(line, BytesClose)
    || !(StartsWith(line, [FolderGlyph]) || StartsWith(line, [PageGlyph]))
    || ' ' !in line
  }

  /** The text after the first space of an entry line, trimmed. */
  function Remainder(line: string): (rest: string)
    requires ' ' in line
    ensures rest == Trim(line[IndexOf(line, ' ') + 1..])
  {
    Trim(SplitOnce(line, ' ')[1])
  }

  /** `nameAndSize.split("\\(")[0].trim()`, or the exception that
      indexing an empty split raises. */
  function NameOf(rest: string): (r: Result<string, JavaException>)
    ensures r.Ok? ==> '(' !in r.value && IsTrimmed(r.value)
  {
    var pieces := JavaSplit(rest, '(');
    if pieces == [] then Err(ArrayIndexOutOfBounds)
    else
      var name := Trim(pieces[0]);
      TrimChars(pieces[0], '(');
      Ok(name)
  }

  /** The name is the text before the first `(`, trimmed; the split is
      empty, and indexing it throws, exactly when the text is nothing but
      `(`s. */
  lemma NameOfSpec(rest: string)
    ensures NameOf(rest).Err? <==> rest != [] && forall i :: 0 <= i < |rest| ==> rest[i] == '('
    ensures NameOf(rest).Err? ==> NameOf(rest).error == ArrayIndexOutOfBounds
    ensures NameOf(rest).Ok? ==> NameOf(rest).value == Trim(if '(' in rest then rest[..IndexOf(rest, '(')] else rest)
  {
    JavaSplitEmpty(rest, '(');
    if JavaSplit(rest, '(') != [] {
      JavaSplitHead(rest, '(');
    }
  }

  /** `nameAndSize.substring(indexOf("(") + 1, indexOf("bytes")).trim()`
      parsed as a `long`, when both markers are present. */
  function SizeOf(rest: string): Result<Option<int>, JavaException> {
    if '(' in rest && Contains(rest, BytesWord) then
      var begin := IndexOf(rest, '(') + 1;
      var end := IndexOfWord(rest, BytesWord);
      if begin > end then Err(StringIndexOutOfBounds)
      else Ok(ParseLong(Trim(rest[begin..end])))
    else Ok(None)
  }

  /** The size is read only when the text holds a `(` and the word `bytes`;
      a `bytes` before the first `(` makes `substring` throw, and a text
      that is not a `long` leaves the size absent (that exception is
      caught). */
  lemma SizeOfSpec(rest: string)
    ensures SizeOf(rest).Err? <==>
      '(' in rest && Contains(rest, BytesWord) && IndexOf(rest, '(') + 1 > IndexOfWord(rest, BytesWord)
    ensures SizeOf(rest).Err? ==> SizeOf(rest).error == StringIndexOutOfBounds
    ensures SizeOf(rest).Ok? && SizeOf(rest).value.Some? ==>
      && '(' in rest && Contains(rest, BytesWord)
      && LongMin <= SizeOf(rest).value.value <= LongMax
    ensures !('(' in rest) || !Contains(rest, BytesWord) ==> SizeOf(rest) == Ok(None)
    ensures '(' in rest && Contains(rest, BytesWord) && IndexOf(rest, '(') + 1 <= IndexOfWord(rest, BytesWord) ==>
      SizeOf(rest) == Ok(ParseLong(Trim(rest[IndexOf(rest, '(') + 1..IndexOfWord(rest, BytesWord)])))
  {
  }

  /** One line of the loop: `None` for a skipped line, otherwise the node
      it describes, or the exception that reading it raises. */
  function ParseFileLine(raw: string): (r: Result<Option<FileNode>, JavaException>)
    ensures r == Ok(None) <==> Skipped(Trim(raw))
    ensures r.Ok? && r.value.Some? ==>
      var n := r.value.value;
      && n.path == n.name && n.loaded && n.children == []
      && (n.isDirectory <==> StartsWith(Trim(raw), [FolderGlyph]))
      && '(' !in n.name && IsTrimmed(n.name)
    ensures !Skipped(Trim(raw)) ==>
      var rest := Remainder(Trim(raw));
      && (r.Err? <==> NameOf(rest).Err? || SizeOf(rest).Err?)
      && (r.Ok? ==> r.value.Some? && r.value.value.name == NameOf(rest).value && r.value.value.size == SizeOf(rest).value)
  {
    var line := Trim(raw);
    if Skipped(line) then Ok(None)
    else
      var rest := Remainder(line);
      match NameOf(rest)
      case Err(e) => Err(e)
      case Ok(name) =>
        match SizeOf(rest)
        case Err(e) => Err(e)
        case Ok(size) => Ok(Some(FileNode(name, name, StartsWith(line, [FolderGlyph]), size, true, [])))
  }

  /** The node a kept line yields, flat and loaded. */
  predicate FlatNode(n: FileNode) {
    n.path == n.name && n.loaded && n.children == []
  }

  /** The number of lines the loop does not skip. */
  function KeptCount(lines: seq<string>): nat {
    if lines == [] then 0
    else KeptCount(lines[..|lines| - 1]) + (if Skipped(Trim(lines[|lines| - 1])) then 0 else 1)
  }

  /** The nodes of `lines`, in order, or the first exception. */
  function NodesOf(lines: seq<string>): (r: Result<seq<FileNode>, JavaException>)
    ensures r.Ok? ==> |r.value| == KeptCount(lines)
    ensures r.Ok? ==> forall k :: 0 <= k < |r.value| ==> FlatNode(r.value[k])
  {
    if lines == [] then Ok([])
    else
      match NodesOf(lines[..|lines| - 1])
      case Err(e) => Err(e)
      case Ok(nodes) =>
        match ParseFileLine(lines[|lines| - 1])
        case Err(e) => Err(e)
        case Ok(None) => Ok(nodes)
        case Ok(Some(n)) => Ok(nodes + [n])
  }

  /** What a kept line reads as, in the source's terms: the name is the
      text after the first space, up to the first `(`, trimmed; the size is
      the `long` between that `(` and the first `bytes`; and the line throws
      exactly when the text after the space is all `(`s or has `bytes`
      before its first `(`. */
  lemma ParseFileLineSpec(raw: string)
    requires !Skipped(Trim(raw))
    ensures var rest := Remainder(Trim(raw));
      ParseFileLine(raw).Err? <==>
        || (rest != [] && forall i :: 0 <= i < |rest| ==> rest[i] == '(')
        || ('(' in rest && Contains(rest, BytesWord) && IndexOf(rest, '(') + 1 > IndexOfWord(rest, BytesWord))
    ensures var rest := Remainder(Trim(raw));
      ParseFileLine(raw).Ok? ==>
        && ParseFileLine(raw).value.Some?
        && ParseFileLine(raw).value.value.name == Trim(if '(' in rest then rest[..IndexOf(rest, '(')] else rest)
        && ('(' in rest && Contains(rest, BytesWord) ==>
              && IndexOf(rest, '(') + 1 <= IndexOfWord(rest, BytesWord)
              && ParseFileLine(raw).value.value.size
                 == ParseLong(Trim(rest[IndexOf(rest, '(') + 1..IndexOfWord(rest, BytesWord)])))
        && (!('(' in rest) || !Contains(rest, BytesWord) ==> ParseFileLine(raw).value.value.size.None?)
  {
    var rest := Remainder(Trim(raw));
    NameOfSpec(rest);
    SizeOfSpec(rest);
  }

  /** The comparator: a directory before a non-directory, otherwise
      `compareToIgnoreCase` on the names (`le(a, b)`: `compare(a, b) <= 0`). */
  predicate DirsFirst(a: FileNode, b: FileNode) {
    (a.isDirectory && !b.isDirectory) || (a.isDirectory == b.isDirectory && LeIgnoreCase(a.name, b.name))
  }

  lemma DirsFirstIsTotalPreorder()
    ensures TotalPreorder(DirsFirst)
  {
    forall x: FileNode, y: FileNode ensures DirsFirst(x, y) || DirsFirst(y, x) {
      LexLeTotal(FoldCase(x.name), FoldCase(y.name));
    }
    forall x: FileNode, y: FileNode, z: FileNode | DirsFirst(x, y) && DirsFirst(y, z)
      ensures DirsFirst(x, z)
    {
      if x.isDirectory == y.isDirectory == z.isDirectory {
        LexLeTransitive(FoldCase(x.name), FoldCase(y.name), FoldCase(z.name));
      }
    }
  }

  /** `files.sort(...)` with the comparator above: a stable sort. */
  function SortedDirsFirst(nodes: seq<FileNode>): (r: seq<FileNode>)
    ensures multiset(r) == multiset(nodes) && |r| == |nodes|
    ensures Sorted(r, DirsFirst)
    ensures forall p :: Ties(r, DirsFirst, p) == Ties(nodes, DirsFirst, p)
  {
    DirsFirstIsTotalPreorder();
    assert |multiset(StableSort(nodes, DirsFirst))| == |multiset(nodes)|;
    StableSort(nodes, DirsFirst)
  }

  /** The file parser as a function of the response (`None` is null). */
  function FilesOf(response: Option<string>, repositoryName: string): (r: Result<FilesResponse, JavaException>)
    ensures response.None? || response.value == [] ==> r == Ok(FilesResponse(repositoryName, 0, []))
    ensures r.Ok? ==> r.value.repositoryName == repositoryName && r.value.totalFiles == |r.value.files|
    ensures r.Ok? ==> forall i, j :: 0 <= i < j < |r.value.files| && r.value.files[j].isDirectory ==>
      r.value.files[i].isDirectory
    ensures r.Ok? ==> forall i, j :: 0 <= i < j < |r.value.files| && r.value.files[i].isDirectory == r.value.files[j].isDirectory ==>
      LeIgnoreCase(r.value.files[i].name, r.value.files[j].name)
  {
    if response.None? || response.value == [] then Ok(FilesResponse(repositoryName, 0, []))
    else
      match NodesOf(JavaSplit(response.value, '\n'))
      case Err(e) => Err(e)
      case Ok(nodes) =>
        var sorted := SortedDirsFirst(nodes);
        assert forall i, j :: 0 <= i < j < |sorted| ==> DirsFirst(sorted[i], sorted[j]);
        Ok(FilesResponse(repositoryName, |sorted|, sorted))
  }

  /** The last line of a non-empty loop: one step after the others. */
  lemma NodesOfLast(lines: seq<string>)
    requires lines != []
    ensures NodesOf(lines) ==
      match NodesOf(lines[..|lines| - 1])
      case Err(e) => Err(e)
      case Ok(nodes) =>
        match ParseFileLine(lines[|lines| - 1])
        case Err(e) => Err(e)
        case Ok(None) => Ok(nodes)
        case Ok(Some(n)) => Ok(nodes + [n])
  {
  }

  /** Some element of `s` satisfies `p` exactly when one before the last
      does or the last does. */
  lemma ExistsSnoc(s: seq<string>, init: seq<string>, p: string -> bool)
    requires s != [] && init == s[..|s| - 1]
    ensures (exists i :: 0 <= i < |s| && p(s[i])) <==>
      (exists i :: 0 <= i < |init| && p(init[i])) || p(s[|s| - 1])
  {
    assert forall i :: 0 <= i < |init| ==> init[i] == s[i];
  }

  /** The loop fails exactly when one of its lines throws. */
  lemma {:induction false} NodesOfFails(lines: seq<string>)
    ensures NodesOf(lines).Err? <==> exists i :: 0 <= i < |lines| && ParseFileLine(lines[i]).Err?
    decreases |lines|
  {
    if lines != [] {
      var k := |lines| - 1;
      var init := lines[..k];
      NodesOfLast(lines);
      NodesOfFails(init);
      assert NodesOf(lines).Err? <==> NodesOf(init).Err? || ParseFileLine(lines[k]).Err?;
      ExistsSnoc(lines, init, raw => ParseFileLine(raw).Err?);
    }
  }

  /** `raw` is a line the loop reads as the node `n`. */
  predicate Yields(raw: string, n: FileNode) {
    ParseFileLine(raw) == Ok(Some(n))
  }

  /** Every node the loop returns is the node of one of its lines, and every
      line that yields a node contributes it. */
  lemma {:induction false} NodesOfMembers(lines: seq<string>, n: FileNode)
    requires NodesOf(lines).Ok?
    ensures n in NodesOf(lines).value <==> exists i :: 0 <= i < |lines| && Yields(lines[i], n)
    decreases |lines|
  {
    if lines != [] {
      var k := |lines| - 1;
      var init := lines[..k];
      NodesOfLast(lines);
      NodesOfMembers(init, n);
      var nodes := NodesOf(init).value;
      var last := ParseFileLine(lines[k]);
      assert last.Ok?;
      if last.value.Some? {
        assert NodesOf(lines).value == nodes + [last.value.value];
        assert n in nodes + [last.value.value] <==> n in nodes || n == last.value.value;
      } else {
        assert NodesOf(lines).value == nodes;
      }
      ExistsSnoc(lines, init, raw => Yields(raw, n));
    }
  }

  /** On a non-empty response, the files returned are exactly the nodes the
      loop read, one per kept line, stably reordered; and the parser throws
      exactly when the loop does. */
  lemma FilesReordered(response: string, repositoryName: string)
    requires response != []
    ensures var nodes := NodesOf(JavaSplit(response, '\n'));
      && (FilesOf(Some(response), repositoryName).Err? <==> nodes.Err?)
      && (FilesOf(Some(response), repositoryName).Ok? ==>
            var files := FilesOf(Some(response), repositoryName).value.files;
            && multiset(files) == multiset(nodes.value)
            && |files| == KeptCount(JavaSplit(response, '\n'))
            && forall p :: Ties(files, DirsFirst, p) == Ties(nodes.value, DirsFirst, p))
  {
  }

  lemma NodesOfSnoc(lines: seq<string>, i: nat)
    requires i < |lines|
    ensures NodesOf(lines[..i + 1]) ==
      match NodesOf(lines[..i])
      case Err(e) => Err(e)
      case Ok(nodes) =>
        match ParseFileLine(lines[i])
        case Err(e) => Err(e)
        case Ok(None) => Ok(nodes)
        case Ok(Some(n)) => Ok(nodes + [n])
  {
    assert lines[..i + 1][..i] == lines[..i];
  }

  /** The first exception ends the loop: it is the result of the whole. */
  lemma {:induction false} NodesOfErrPrefix(lines: seq<string>, k: nat)
    requires k <= |lines| && NodesOf(lines[..k]).Err?
    ensures NodesOf(lines) == NodesOf(lines[..k])
    decreases |lines| - k
  {
    if k < |lines| {
      NodesOfSnoc(lines, k);
      NodesOfErrPrefix(lines, k + 1);
    } else {
      assert lines[..k] == lines;
    }
  }

  /** The size part of the loop body, with its caught exception. */
  method ReadSize(nameAndSize: string) returns (r: Result<Option<int>, JavaException>)
    ensures r == SizeOf(nameAndSize)
  {
    r := Ok(None);
    if '(' in nameAndSize && Contains(nameAndSize, BytesWord) {
      var begin := IndexOf(nameAndSize, '(') + 1;
      var end := IndexOfWord(nameAndSize, BytesWord);
      if begin > end {
        r := Err(StringIndexOutOfBounds);
      } else {
        // a NumberFormatException here is caught and leaves the size null
        r := Ok(ParseLong(Trim(nameAndSize[begin..end])));
      }
    }
  }

  /** The body of the source's loop over one line; `continue` is
      `Ok(None)`. */
  method ReadLine(raw: string) returns (r: Result<Option<FileNode>, JavaException>)
    ensures r == ParseFileLine(raw)
  {
    var line := Trim(raw);
    if line == [] || StartsWith(line, [CheckGlyph]) || Contains(line, BytesClose) {
      return Ok(None);
    }
    var isDirectory := StartsWith(line, [FolderGlyph]);
    var isFile := StartsWith(line, [PageGlyph]);
    if !(isDirectory || isFile) {
      return Ok(None);
    }
    var parts := SplitOnce(line, ' ');
    if |parts| < 2 {
      return Ok(None);
    }
    assert !Skipped(line);
    var nameAndSize := Trim(parts[1]);
    var nameParts := JavaSplit(nameAndSize, '(');
    if |nameParts| == 0 {
      assert NameOf(nameAndSize).Err?;
      return Err(ArrayIndexOutOfBounds);
    }
    var name := Trim(nameParts[0]);
    assert NameOf(nameAndSize) == Ok(name);
    var size := ReadSize(nameAndSize);
    if size.Err? {
      return Err(size.error);
    }
    r := Ok(Some(FileNode(name, name, isDirectory, size.value, true, [])));
    assert ParseFileLine(raw) == r by {
      assert Remainder(line) == nameAndSize;
    }
  }

  /** The source's loop, proved to compute `FilesOf`. */
  method ParseFiles(response: Option<string>, repositoryName: string) returns (r: Result<FilesResponse, JavaException>)
    ensures r == FilesOf(response, repositoryName)
  {
    var files: seq<FileNode> := [];
    if response.None? || |response.value| == 0 {
      return Ok(FilesResponse(repositoryName, 0, files));
    }
    var lines := JavaSplit(response.value, '\n');
    var i := 0;
    while i < |lines|
      invariant 0 <= i <= |lines|
      invariant NodesOf(lines[..i]) == Ok(files)
    {
      NodesOfSnoc(lines, i);
      var node := ReadLine(lines[i]);
      if node.Err? {
        NodesOfErrPrefix(lines, i + 1);
        return Err(node.error);
      }
      if node.value.Some? {
        files := files + [node.value.value];
      }
      assert NodesOf(lines[..i + 1]) == Ok(files);
      i := i + 1;
    }
    assert lines[..i] == lines;
    var sorted := SortedDirsFirst(files);
    r := Ok(FilesResponse(repositoryName, |sorted|, sorted));
  }
}
