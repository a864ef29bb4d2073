/** Text as a sequence of lines, each followed by a newline: the shape of
    every listing the tools write and the parsers split on `\n`. */
module ListingLines {
  import opened JavaText

  /** The lines `rows`, each followed by a newline. */
  function Terminated(rows: seq<string>): string {
    if rows == [] then "" else rows[0] + "\n" + Terminated(rows[1..])
  }

  lemma TerminatedOne(x: string)
    ensures Terminated([x]) == x + "\n"
  {
    assert [x][1..] == [];
  }

  /** A line and an empty line: the text ends in two newlines. */
  lemma TerminatedBlank(x: string)
    ensures Terminated([x, ""]) == x + "\n\n"
  {
    TerminatedAppend([x], [""]);
    assert [x] + [""] == [x, ""];
    TerminatedOne(x);
    TerminatedOne("");
    AppendAssociative(x, "\n", "\n");
    assert "\n" + "\n" == "\n\n";
  }

  /** No line holds a newline of its own. */
  predicate SingleLines(rows: seq<string>) {
    forall k :: 0 <= k < |rows| ==> '\n' !in rows[k]
  }

  lemma {:induction false} TerminatedAppend(a: seq<string>, b: seq<string>)
    ensures Terminated(a + b) == Terminated(a) + Terminated(b)
    decreases |a|
  {
    if a == [] {
      assert a + b == b;
    } else {
      assert (a + b)[1..] == a[1..] + b;
      TerminatedAppend(a[1..], b);
      AppendAssociative(a[0] + "\n", Terminated(a[1..]), Terminated(b));
    }
  }

  /** Splitting terminated lines on `\n` gives the lines back, followed by
      the pieces of whatever comes after them. */
  lemma {:induction false} SplitTerminated(rows: seq<string>, rest: string)
    requires SingleLines(rows)
    ensures RawSplit(Terminated(rows) + rest, '\n') == rows + RawSplit(rest, '\n')
    decreases |rows|
  {
    if rows == [] {
      assert Terminated(rows) + rest == rest;
    } else {
      var tail := Terminated(rows[1..]) + rest;
      assert Terminated(rows) + rest == rows[0] + ['\n'] + tail by {
        AppendAssociative(rows[0] + "\n", Terminated(rows[1..]), rest);
      }
      assert RawSplit(rows[0] + ['\n'] + tail, '\n') == [rows[0]] + RawSplit(tail, '\n') by {
        SplitAfter(rows[0], '\n', tail);
      }
      assert RawSplit(tail, '\n') == rows[1..] + RawSplit(rest, '\n') by {
        SplitTerminated(rows[1..], rest);
      }
      ConsAppend(rows, RawSplit(rest, '\n'));
    }
  }

  lemma TerminatedHasBreak(rows: seq<string>)
    requires rows != []
    ensures '\n' in Terminated(rows)
  {
    assert Terminated(rows)[|rows[0]|] == '\n';
  }

  /** A split whose pieces end in a non-empty line and one empty piece
      loses only that empty piece to `String.split`. */
  lemma DropOneEmpty(xs: seq<string>)
    requires xs != [] && xs[|xs| - 1] != []
    ensures DropTrailingEmpty(xs + [""]) == xs
  {
    assert (xs + [""])[..|xs|] == xs;
  }

  /** Lines after a header line and a blank line, each closed by a line
      break, split back into those lines and one empty piece. */
  lemma SplitAfterHeader(h: string, body: seq<string>)
    requires '\n' !in h && SingleLines(body)
    ensures '\n' in Terminated([h, ""] + body)
    ensures RawSplit(Terminated([h, ""] + body), '\n') == [h, ""] + body + [""]
  {
    var rows := [h, ""] + body;
    assert SingleLines(rows) by {
      forall k | 0 <= k < |rows| ensures '\n' !in rows[k] {
        if k >= 2 {
          assert rows[k] == body[k - 2];
        }
      }
    }
    SplitTerminated(rows, "");
    assert Terminated(rows) + "" == Terminated(rows);
    TerminatedHasBreak(rows);
  }

  /** `String.split` of a header line, a blank line and a body whose last
      line is not empty gives exactly those lines back. */
  lemma SplitHeaderBody(h: string, body: seq<string>)
    requires '\n' !in h && SingleLines(body)
    requires body != [] && body[|body| - 1] != []
    ensures JavaSplit(Terminated([h, ""] + body), '\n') == [h, ""] + body
  {
    var rows := [h, ""] + body;
    SplitAfterHeader(h, body);
    assert rows[|rows| - 1] == body[|body| - 1];
    DropOneEmpty(rows);
  }

  lemma ConsAppend<T>(a: seq<T>, b: seq<T>)
    requires a != []
    ensures [a[0]] + (a[1..] + b) == a + b
  {
    assert a == [a[0]] + a[1..];
  }

  /** A word without a newline that no line contains is not in the text. */
  lemma {:induction false} TerminatedWithout(rows: seq<string>, w: string)
    requires w != [] && '\n' !in w
    requires forall k :: 0 <= k < |rows| ==> !Contains(rows[k], w)
    ensures !Contains(Terminated(rows), w)
    decreases |rows|
  {
    if rows != [] {
      TerminatedWithout(rows[1..], w);
      NotAcross(rows[0], '\n', Terminated(rows[1..]), w);
      assert Terminated(rows) == rows[0] + ['\n'] + Terminated(rows[1..]);
    }
  }

  /** A word without a newline is in no listing of a header, a blank line
      and body lines when neither the header nor any body line holds it. */
  lemma HeaderBodyWithout(h: string, body: seq<string>, w: string)
    requires w != [] && '\n' !in w
    requires !Contains(h, w)
    requires forall k :: 0 <= k < |body| ==> !Contains(body[k], w)
    ensures !Contains(Terminated([h, ""] + body), w)
  {
    var tail := Terminated(body);
    TerminatedWithout(body, w);
    HeaderBodyShape(h, body);
    assert !Contains("", w);
    NotAcross("", '\n', tail, w);
    NotAcross(h, '\n', [] + ['\n'] + tail, w);
  }

  lemma HeaderBodyShape(h: string, body: seq<string>)
    ensures Terminated([h, ""] + body) == h + ['\n'] + ([] + ['\n'] + Terminated(body))
  {
    TerminatedAppend([h, ""], body);
    TerminatedBlank(h);
    AppendAssociative(h, "\n\n", Terminated(body));
    assert "\n\n" + Terminated(body) == ['\n'] + ([] + ['\n'] + Terminated(body));
    AppendAssociative(h, ['\n'], [] + ['\n'] + Terminated(body));
  }

  /** `trim` keeps a visible first character in front. */
  lemma TrimKeepsHead(s: string)
    requires s != [] && !IsTrimmable(s[0])
    ensures Trim(s) != [] && Trim(s)[0] == s[0]
  {
    assert TrimStart(s) == s;
    TrimEndSpec(s);
  }

  /** A character missing from `s` rules out every word holding it. */
  lemma Lacks(s: string, w: string, c: char)
    requires c in w && c !in s
    ensures !Contains(s, w)
  {
    if Contains(s, w) {
      ContainsChars(s, w, c);
    }
  }

  /** `w` found at position `i`. */
  lemma ContainsWitness(s: string, w: string, i: int)
    requires OccursAt(s, w, i)
    ensures Contains(s, w)
  {
    ContainsAt(s, w);
  }
}
