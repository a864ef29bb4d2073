/** The parts of Java's String API that the parsers and formatters rely on,
    over Dafny strings whose characters are Unicode code points. */
module JavaText {
  import opened Wrappers

  /** The unchecked Java exceptions that the modelled code can raise. */
  datatype JavaException =
    | NumberFormat                 // Integer.parseInt on an out-of-range number
    | ArrayIndexOutOfBounds        // `split(...)[0]` on an empty split result
    | StringIndexOutOfBounds       // `substring(begin, end)` with begin > end

  // ---------------------------------------------------------------------
  // trim
  // ---------------------------------------------------------------------

  /** Java's `trim` removes every character whose code is at most U+0020. */
  predicate IsTrimmable(c: char) { c <= ' ' }

  /** True when `s` has at least one character that `trim` keeps. */
  predicate HasVisibleChar(s: string) {
    exists i :: 0 <= i < |s| && !IsTrimmable(s[i])
  }

  /** `s` without its leading trimmable characters. */
  function TrimStart(s: string): string {
    if |s| > 0 && IsTrimmable(s[0]) then TrimStart(s[1..]) else s
  }

  /** `s` without its trailing trimmable characters. */
  function TrimEnd(s: string): string {
    if |s| > 0 && IsTrimmable(s[|s| - 1]) then TrimEnd(s[..|s| - 1]) else s
  }

  /** `TrimStart` removes a prefix of trimmable characters and stops at the
      first character it keeps. */
  lemma {:induction false} TrimStartSpec(s: string)
    ensures |TrimStart(s)| <= |s| && TrimStart(s) == s[|s| - |TrimStart(s)|..]
    ensures TrimStart(s) == [] || !IsTrimmable(TrimStart(s)[0])
    ensures forall i :: 0 <= i < |s| - |TrimStart(s)| ==> IsTrimmable(s[i])
    decreases |s|
  {
    if |s| > 0 && IsTrimmable(s[0]) {
      TrimStartSpec(s[1..]);
    }
  }

  /** `TrimEnd` removes a suffix of trimmable characters and stops at the
      last character it keeps. */
  lemma {:induction false} TrimEndSpec(s: string)
    ensures |TrimEnd(s)| <= |s| && TrimEnd(s) == s[..|TrimEnd(s)|]
    ensures TrimEnd(s) == [] || !IsTrimmable(TrimEnd(s)[|TrimEnd(s)| - 1])
    ensures forall i :: |TrimEnd(s)| <= i < |s| ==> IsTrimmable(s[i])
    decreases |s|
  {
    if |s| > 0 && IsTrimmable(s[|s| - 1]) {
      TrimEndSpec(s[..|s| - 1]);
    }
  }

  /** `String.trim()`. */
  function Trim(s: string): (r: string)
    ensures r == [] || (!IsTrimmable(r[0]) && !IsTrimmable(r[|r| - 1]))
  {
    TrimStartSpec(s);
    TrimEndSpec(TrimStart(s));
    var r := TrimEnd(TrimStart(s));
    assert r != [] ==> r[0] == TrimStart(s)[0];
    r
  }

  /** What `trim` removes: `Trim(s)` is the slice of `s` from its first to
      its last character above U+0020, and only characters up to U+0020 lie
      outside that slice. */
  lemma TrimSpec(s: string)
    ensures var a := |s| - |TrimStart(s)|;
      && 0 <= a && a + |Trim(s)| <= |s| && Trim(s) == s[a..a + |Trim(s)|]
      && (forall i :: 0 <= i < a ==> IsTrimmable(s[i]))
      && (forall i :: a + |Trim(s)| <= i < |s| ==> IsTrimmable(s[i]))
  {
    var a := |s| - |TrimStart(s)|;
    var t := TrimStart(s);
    TrimStartSpec(s);
    TrimEndSpec(t);
    var r := Trim(s);
    assert r == TrimEnd(t) == t[..|r|];
    assert t == s[a..];
    forall i | a + |r| <= i < |s| ensures IsTrimmable(s[i]) {
      assert s[i] == t[i - a];
    }
  }

  /** A string is its own trim exactly when it has no trimmable character at
      either end. */
  predicate IsTrimmed(s: string) {
    s == [] || (!IsTrimmable(s[0]) && !IsTrimmable(s[|s| - 1]))
  }

  lemma TrimFixpoint(s: string)
    ensures Trim(s) == s <==> IsTrimmed(s)
  {
    if IsTrimmed(s) && s != [] {
      assert TrimStart(s) == s;
      assert TrimEnd(s) == s;
    }
  }

  /** Trimming leaves nothing exactly when every character is trimmable. */
  lemma TrimEmpty(s: string)
    ensures Trim(s) == [] <==> !HasVisibleChar(s)
  {
    var t := TrimStart(s);
    TrimStartSpec(s);
    TrimEndSpec(t);
    if Trim(s) == [] {
      assert t == [];
    } else {
      assert Trim(s)[0] == t[0] == s[|s| - |t|];
    }
  }

  /** Trimming only removes characters. */
  lemma TrimChars(s: string, c: char)
    requires c !in s
    ensures c !in Trim(s)
  {
    var t := TrimStart(s);
    TrimStartSpec(s);
    TrimEndSpec(t);
    assert t == s[|s| - |t|..];
    assert Trim(s) == t[..|Trim(s)|];
  }

  /** Leading and trailing whitespace around a trimmed string disappear. */
  lemma TrimSpaceBefore(x: string)
    requires IsTrimmed(x)
    ensures Trim(" " + x) == x
  {
    assert (" " + x)[1..] == x;
    assert TrimStart(" " + x) == TrimStart(x);
    TrimFixpoint(x);
    assert TrimStart(x) == x;
  }

  /** `w + p + " " + x` trims to `p + " " + x` (or to `p` alone when `x` is
      empty) when `w` is whitespace, `p` is a non-empty trimmed word and `x`
      is trimmed: the shape of every labelled line the listings produce. */
  lemma TrimPadded(w: string, p: string, x: string)
    requires forall i :: 0 <= i < |w| ==> IsTrimmable(w[i])
    requires p != [] && IsTrimmed(p)
    requires IsTrimmed(x)
    ensures Trim(w + p + " " + x) == if x == [] then p else p + " " + x
  {
    var body := p + " " + x;
    assert w + p + " " + x == w + body;
    TrimStartSkips(w, body);
    if x == [] {
      assert body == p + " ";
      assert body[..|body| - 1] == p;
      assert TrimEnd(body) == TrimEnd(p);
    } else {
      assert body[|body| - 1] == x[|x| - 1];
    }
  }

  lemma {:induction false} TrimStartSkips(w: string, body: string)
    requires forall i :: 0 <= i < |w| ==> IsTrimmable(w[i])
    requires body != [] && !IsTrimmable(body[0])
    ensures TrimStart(w + body) == body
  {
    if w != [] {
      assert (w + body)[1..] == w[1..] + body;
      TrimStartSkips(w[1..], body);
    }
  }

  // ---------------------------------------------------------------------
  // prefixes and substrings
  // ---------------------------------------------------------------------

  /** A prefix one element longer. */
  lemma PrefixSnoc<T>(s: seq<T>, i: int)
    requires 0 <= i < |s|
    ensures s[..i + 1] == s[..i] + [s[i]]
  {
  }

  /** Concatenation regrouped, for proofs about text built by appending. */
  lemma AppendAssociative(a: string, b: string, c: string)
    ensures (a + b) + c == a + (b + c)
  {
  }

  /** `String.startsWith`. */
  predicate StartsWith(s: string, prefix: string) {
    |prefix| <= |s| && s[..|prefix|] == prefix
  }

  /** A non-empty prefix fixes the first character, so prefixes with
      different first characters exclude each other. */
  lemma StartsWithHead(s: string, p: string)
    requires p != [] && StartsWith(s, p)
    ensures s[0] == p[0]
  {
    assert s[..|p|][0] == s[0];
  }

  /** `String.contains`. */
  predicate Contains(s: string, w: string)
    decreases |s|
  {
    StartsWith(s, w) || (|s| > 0 && Contains(s[1..], w))
  }

  /** `w` occurs in `s` at position `i`. */
  predicate OccursAt(s: string, w: string, i: int) {
    0 <= i <= |s| - |w| && s[i..i + |w|] == w
  }

  /** `Contains` agrees with the positional reading: some window of `s`
      equals `w`. */
  lemma {:induction false} ContainsAt(s: string, w: string)
    ensures Contains(s, w) <==> exists i :: OccursAt(s, w, i)
    decreases |s|
  {
    if StartsWith(s, w) {
      assert OccursAt(s, w, 0);
    } else if |s| > 0 {
      ContainsAt(s[1..], w);
      if Contains(s[1..], w) {
        var i :| OccursAt(s[1..], w, i);
        assert s[i + 1..i + 1 + |w|] == s[1..][i..i + |w|];
        assert OccursAt(s, w, i + 1);
      }
      if exists i :: OccursAt(s, w, i) {
        var i :| OccursAt(s, w, i);
        assert i != 0;
        assert s[1..][i - 1..i - 1 + |w|] == s[i..i + |w|];
        assert OccursAt(s[1..], w, i - 1);
      }
    } else {
      assert forall i :: !OccursAt(s, w, i);
    }
  }

  /** Every character of a word found in `s` occurs in `s`. */
  lemma ContainsChars(s: string, w: string, c: char)
    requires Contains(s, w) && c in w
    ensures c in s
  {
    ContainsAt(s, w);
    var i :| OccursAt(s, w, i);
    var k :| 0 <= k < |w| && w[k] == c;
    assert s[i..i + |w|][k] == c;
  }

  /** A word that does not hold the separator `sep` cannot straddle it: it
      lies inside `a` or inside `b`. */
  lemma NotAcross(a: string, sep: char, b: string, w: string)
    requires sep !in w && w != []
    requires !Contains(a, w) && !Contains(b, w)
    ensures !Contains(a + [sep] + b, w)
  {
    var s := a + [sep] + b;
    ContainsAt(a, w);
    ContainsAt(b, w);
    ContainsAt(s, w);
    forall i ensures OccursAt(s, w, i) ==> OccursAt(a, w, i) || OccursAt(b, w, i - |a| - 1) || sep in w {
      OccurrenceSides(a, sep, b, w, i);
    }
  }

  /** Where an occurrence in `a + [sep] + b` can sit. */
  lemma OccurrenceSides(a: string, sep: char, b: string, w: string, i: int)
    ensures OccursAt(a + [sep] + b, w, i) ==>
      OccursAt(a, w, i) || OccursAt(b, w, i - |a| - 1) || sep in w
  {
    var s := a + [sep] + b;
    if OccursAt(s, w, i) {
      assert s[|a| + 1..] == b;
      if i + |w| <= |a| {
        assert a[i..i + |w|] == s[i..i + |w|];
      } else if i > |a| {
        assert b[i - |a| - 1..i - |a| - 1 + |w|] == s[i..i + |w|];
      } else {
        assert s[i..i + |w|][|a| - i] == sep;
      }
    }
  }

  /** Index of the first occurrence of character `c` (`indexOf`). */
  function IndexOf(s: string, c: char): (i: nat)
    requires c in s
    ensures i < |s| && s[i] == c && c !in s[..i]
  {
    if s[0] == c then 0 else 1 + IndexOf(s[1..], c)
  }

  /** A window of the tail is the window of `s` one further on. */
  lemma TailWindow(s: string, a: int, b: int)
    requires 1 <= a <= b <= |s|
    ensures s[1..][a - 1..b - 1] == s[a..b]
  {
    forall i | 0 <= i < b - a ensures s[1..][a - 1..b - 1][i] == s[a..b][i] {
      assert s[1..][a - 1..b - 1][i] == s[1..][a - 1 + i] == s[a + i];
    }
  }

  /** Index of the first occurrence of word `w` (`indexOf(String)`). */
  function IndexOfWord(s: string, w: string): (i: nat)
    requires Contains(s, w)
    ensures OccursAt(s, w, i)
    ensures forall j :: 0 <= j < i ==> !OccursAt(s, w, j)
    decreases |s|
  {
    if StartsWith(s, w) then
      assert s[0..|w|] == s[..|w|];
      0
    else
      var k := IndexOfWord(s[1..], w);
      OccursLater(s, w, k);
      1 + k
  }

  /** The first occurrence in the tail, one further on, is the first in
      `s` when `s` does not start with the word. */
  lemma OccursLater(s: string, w: string, k: nat)
    requires s != [] && !StartsWith(s, w)
    requires OccursAt(s[1..], w, k) && forall j :: 0 <= j < k ==> !OccursAt(s[1..], w, j)
    ensures OccursAt(s, w, k + 1) && forall j :: 0 <= j < k + 1 ==> !OccursAt(s, w, j)
  {
    assert !OccursAt(s, w, 0) by {
      assert s[0..|w|] == s[..|w|];
    }
    forall j | 1 <= j <= k + 1 ensures OccursAt(s, w, j) <==> OccursAt(s[1..], w, j - 1) {
      if j + |w| <= |s| {
        TailWindow(s, j, j + |w|);
      }
    }
  }

  // ---------------------------------------------------------------------
  // split
  // ---------------------------------------------------------------------

  /** The pieces of `s` between occurrences of `c`, empty pieces included. */
  function RawSplit(s: string, c: char): (pieces: seq<string>)
    ensures |pieces| >= 1
    ensures forall k :: 0 <= k < |pieces| ==> c !in pieces[k]
    ensures Join(pieces, c) == s
    decreases |s|
  {
    if c in s then
      var i := IndexOf(s, c);
      var rest := RawSplit(s[i + 1..], c);
      assert s == s[..i] + [c] + s[i + 1..];
      [s[..i]] + rest
    else [s]
  }

  /** The inverse of `RawSplit`: the pieces glued back with `c`. */
  function Join(pieces: seq<string>, c: char): string
    requires |pieces| >= 1
  {
    if |pieces| == 1 then pieces[0] else pieces[0] + [c] + Join(pieces[1..], c)
  }

  /** Splitting undoes joining when no piece holds the separator. */
  lemma {:induction false} SplitJoin(pieces: seq<string>, c: char)
    requires |pieces| >= 1
    requires forall k :: 0 <= k < |pieces| ==> c !in pieces[k]
    ensures RawSplit(Join(pieces, c), c) == pieces
  {
    if |pieces| > 1 {
      var rest := Join(pieces[1..], c);
      assert Join(pieces, c) == pieces[0] + [c] + rest;
      SplitAfter(pieces[0], c, rest);
      SplitJoin(pieces[1..], c);
      assert [pieces[0]] + pieces[1..] == pieces;
    }
  }

  /** Splitting `l + [c] + rest` where `l` has no `c`. */
  lemma SplitAfter(l: string, c: char, rest: string)
    requires c !in l
    ensures RawSplit(l + [c] + rest, c) == [l] + RawSplit(rest, c)
  {
    var s := l + [c] + rest;
    assert s[|l|] == c && s[..|l|] == l;
    assert IndexOf(s, c) == |l|;
    assert s[|l| + 1..] == rest;
  }

  /** Drops the empty strings at the end of a split result. */
  function DropTrailingEmpty(xs: seq<string>): (r: seq<string>)
    ensures |r| <= |xs| && r == xs[..|r|]
    ensures r == [] || r[|r| - 1] != []
    ensures forall k :: |r| <= k < |xs| ==> xs[k] == []
  {
    if xs != [] && xs[|xs| - 1] == [] then DropTrailingEmpty(xs[..|xs| - 1]) else xs
  }

  /** `String.split` with a one-character pattern and no limit: a string
      without the separator splits to itself; otherwise the pieces, with
      trailing empty pieces removed (so `"|".split("\\|")` is empty). */
  function JavaSplit(s: string, c: char): seq<string> {
    if c !in s then [s] else DropTrailingEmpty(RawSplit(s, c))
  }

  /** The first piece of a split is the text before the first separator. */
  lemma JavaSplitHead(s: string, c: char)
    requires JavaSplit(s, c) != []
    ensures JavaSplit(s, c)[0] == if c in s then s[..IndexOf(s, c)] else s
  {
    if c in s {
      var raw := RawSplit(s, c);
      assert JavaSplit(s, c) == raw[..|JavaSplit(s, c)|];
    }
  }

  /** Every piece of `pieces` is empty. */
  predicate AllEmpty(pieces: seq<string>) {
    forall k :: 0 <= k < |pieces| ==> pieces[k] == []
  }

  /** Every character of `s` is `c`. */
  predicate OnlySeparators(s: string, c: char) {
    forall i :: 0 <= i < |s| ==> s[i] == c
  }

  lemma AllEmptyCons(head: string, rest: seq<string>)
    ensures AllEmpty([head] + rest) <==> head == [] && AllEmpty(rest)
  {
    var all := [head] + rest;
    assert all[0] == head;
    if AllEmpty(all) {
      forall k | 0 <= k < |rest| ensures rest[k] == [] {
        assert rest[k] == all[k + 1];
      }
    }
    if head == [] && AllEmpty(rest) {
      forall k | 0 < k < |all| ensures all[k] == [] {
        assert all[k] == rest[k - 1];
      }
    }
  }

  lemma OnlySeparatorsCons(s: string, c: char)
    requires s != []
    ensures OnlySeparators(s, c) <==> s[0] == c && OnlySeparators(s[1..], c)
  {
    if OnlySeparators(s, c) {
      forall j | 0 <= j < |s| - 1 ensures s[1..][j] == c {
        assert s[1..][j] == s[j + 1];
      }
    }
    if s[0] == c && OnlySeparators(s[1..], c) {
      forall j | 0 < j < |s| ensures s[j] == c {
        assert s[j] == s[1..][j - 1];
      }
    }
  }

  /** A split with every piece empty is a string of separators. */
  lemma {:induction false} RawSplitOnlySeparators(s: string, c: char)
    ensures AllEmpty(RawSplit(s, c)) <==> OnlySeparators(s, c)
    decreases |s|
  {
    var pieces := RawSplit(s, c);
    if c in s {
      var i := IndexOf(s, c);
      var rest := RawSplit(s[i + 1..], c);
      assert pieces == [s[..i]] + rest;
      AllEmptyCons(s[..i], rest);
      RawSplitOnlySeparators(s[i + 1..], c);
      OnlySeparatorsCons(s, c);
      if i == 0 {
        assert s[i + 1..] == s[1..];
        assert s[..i] == [];
      } else {
        assert s[0] == s[..i][0] != c;
        assert s[..i] != [];
      }
    } else {
      assert pieces == [s];
      if s != [] {
        assert s[0] in s;
        assert pieces[0] != [];
      }
    }
  }

  /** `s.split(c)` is empty (so `split(c)[0]` throws) exactly when `s` is a
      non-empty run of separators. */
  lemma JavaSplitEmpty(s: string, c: char)
    ensures JavaSplit(s, c) == [] <==> s != [] && forall i :: 0 <= i < |s| ==> s[i] == c
  {
    if c in s {
      RawSplitOnlySeparators(s, c);
      DropTrailingEmptyNone(RawSplit(s, c));
      assert s != [];
    } else if s != [] {
      assert s[0] in s;
    }
  }

  /** Dropping the trailing empty pieces leaves nothing exactly when every
      piece is empty. */
  lemma DropTrailingEmptyNone(xs: seq<string>)
    ensures DropTrailingEmpty(xs) == [] <==> AllEmpty(xs)
  {
    var r := DropTrailingEmpty(xs);
    if r != [] {
      assert xs[|r| - 1] == r[|r| - 1] != [];
    }
  }

  /** `s.split(" ", 2)` and the like: with a positive limit Java keeps
      trailing empty pieces, so the result is `s` itself when the separator
      is absent and otherwise the text before and after its first
      occurrence. */
  function SplitOnce(s: string, c: char): (parts: seq<string>)
    ensures c !in s ==> parts == [s]
    ensures c in s ==> |parts| == 2 && s == parts[0] + [c] + parts[1] && c !in parts[0]
  {
    if c in s then
      var i := IndexOf(s, c);
      assert s == s[..i] + [c] + s[i + 1..];
      [s[..i], s[i + 1..]]
    else [s]
  }

  // ---------------------------------------------------------------------
  // digits and numbers
  // ---------------------------------------------------------------------

  predicate IsDigit(c: char) { '0' <= c <= '9' }

  predicate AllDigits(s: string) { forall i :: 0 <= i < |s| ==> IsDigit(s[i]) }

  /** `s.replaceAll("[^0-9]", "")`: the ASCII digits of `s`, in order. */
  function KeepDigits(s: string): (r: string)
    ensures AllDigits(r) && |r| <= |s|
    ensures AllDigits(s) ==> r == s
  {
    if s == [] then []
    else (if IsDigit(s[0]) then [s[0]] else []) + KeepDigits(s[1..])
  }

  lemma {:induction false} KeepDigitsConcat(a: string, b: string)
    ensures KeepDigits(a + b) == KeepDigits(a) + KeepDigits(b)
  {
    if a != [] {
      assert (a + b)[1..] == a[1..] + b;
      KeepDigitsConcat(a[1..], b);
    } else {
      assert a + b == b;
    }
  }

  lemma KeepDigitsNone(s: string)
    requires forall i :: 0 <= i < |s| ==> !IsDigit(s[i])
    ensures KeepDigits(s) == []
  {
  }

  function DigitChar(d: nat): (c: char)
    requires d < 10
    ensures IsDigit(c)
  {
    (('0' as int) + d) as char
  }

  /** The value of a string of decimal digits. */
  function DigitsValue(s: string): (v: nat)
    requires AllDigits(s)
  {
    if s == [] then 0
    else DigitsValue(s[..|s| - 1]) * 10 + (s[|s| - 1] as int - '0' as int)
  }

  /** Decimal rendering of a natural number, as `%d` prints it. */
  function NatToString(n: nat): (s: string)
    ensures s != [] && AllDigits(s)
  {
    if n < 10 then [DigitChar(n)] else NatToString(n / 10) + [DigitChar(n % 10)]
  }

  /** `%d` of a Java integer. */
  function IntToString(i: int): (s: string)
    ensures s != []
  {
    if i < 0 then "-" + NatToString(-i) else NatToString(i)
  }

  /** A rendered integer holds digits and at most a minus sign. */
  lemma IntToStringChars(i: int, c: char)
    requires c in IntToString(i)
    ensures IsDigit(c) || c == '-'
  {
    var s := IntToString(i);
    var k :| 0 <= k < |s| && s[k] == c;
    if i < 0 {
      assert k == 0 || s[k] == NatToString(-i)[k - 1];
    }
  }

  /** Reading back a rendered number gives the number. */
  lemma {:induction false} NatToStringValue(n: nat)
    ensures DigitsValue(NatToString(n)) == n
  {
    if n >= 10 {
      var s := NatToString(n);
      assert s[..|s| - 1] == NatToString(n / 10);
      NatToStringValue(n / 10);
    }
  }

  /** Java's `parseInt`/`parseLong` over the range `lo..hi`: an optional sign
      followed by at least one decimal digit, with the value in range;
      anything else is a `NumberFormatException` (`None` here). */
  function ParseSigned(s: string, lo: int, hi: int): (r: Option<int>)
    ensures r.Some? ==> lo <= r.value <= hi
    ensures r.Some? ==> s != [] && AllDigits(if s[0] == '-' || s[0] == '+' then s[1..] else s)
  {
    if s == [] then None
    else
      var digits := if s[0] == '-' || s[0] == '+' then s[1..] else s;
      if digits == [] || !AllDigits(digits) then None
      else
        var v: int := if s[0] == '-' then 0 - DigitsValue(digits) else DigitsValue(digits);
        if lo <= v <= hi then Some(v) else None
  }

  const IntMin: int := -0x8000_0000
  const IntMax: int := 0x7FFF_FFFF
  const LongMin: int := -0x8000_0000_0000_0000
  const LongMax: int := 0x7FFF_FFFF_FFFF_FFFF

  /** `Integer.parseInt`, whose failure is an exception. */
  function ParseInt(s: string): (r: Result<int, JavaException>)
    ensures r.Ok? <==> ParseSigned(s, IntMin, IntMax).Some?
    ensures r.Err? ==> r.error == NumberFormat
    ensures r.Ok? ==> IntMin <= r.value <= IntMax
  {
    match ParseSigned(s, IntMin, IntMax)
    case Some(v) => Ok(v)
    case None => Err(NumberFormat)
  }

  /** `Long.parseLong`, whose failure the file parser swallows: the text is
      an optional sign and at least one digit, and its value is a `long`. */
  function ParseLong(s: string): (r: Option<int>)
    ensures r.Some? ==> LongMin <= r.value <= LongMax
    ensures var digits := if s != [] && (s[0] == '-' || s[0] == '+') then s[1..] else s;
      && (r.Some? <==>
            && digits != [] && AllDigits(digits)
            && if s[0] == '-' then DigitsValue(digits) <= -LongMin else DigitsValue(digits) <= LongMax)
      && (r.Some? ==> r.value == if s[0] == '-' then -(DigitsValue(digits) as int) else DigitsValue(digits) as int)
  {
    ParseSigned(s, LongMin, LongMax)
  }

  /** A rendered number within range parses back to itself. */
  lemma ParseRendered(n: nat, lo: int, hi: int)
    requires lo <= n <= hi
    ensures ParseSigned(NatToString(n), lo, hi) == Some(n)
  {
    var s := NatToString(n);
    assert IsDigit(s[0]);
    NatToStringValue(n);
  }

  /** A digit string parses as an `int` exactly when its value fits. */
  lemma ParseIntDigits(s: string)
    requires s != [] && AllDigits(s)
    ensures ParseInt(s).Ok? <==> DigitsValue(s) <= IntMax
    ensures ParseInt(s).Ok? ==> ParseInt(s).value == DigitsValue(s)
  {
    assert IsDigit(s[0]);
  }

  // ---------------------------------------------------------------------
  // case-insensitive comparison
  // ---------------------------------------------------------------------

  /** The case folding `compareToIgnoreCase` applies, on ASCII letters. */
  function FoldChar(c: char): (d: char)
    ensures !('A' <= d <= 'Z')
    ensures 'a' <= c <= 'z' ==> d == c
  {
    if 'A' <= c <= 'Z' then (c as int + 32) as char else c
  }

  function FoldCase(s: string): (r: string)
    ensures |r| == |s|
    ensures forall i :: 0 <= i < |s| ==> r[i] == FoldChar(s[i])
  {
    seq(|s|, i requires 0 <= i < |s| => FoldChar(s[i]))
  }

  /** Lexicographic order on code points: `a.compareTo(b) <= 0`. */
  predicate LexLe(a: string, b: string) {
    a == [] || (b != [] && (a[0] < b[0] || (a[0] == b[0] && LexLe(a[1..], b[1..]))))
  }

  /** `a.compareToIgnoreCase(b) <= 0`. */
  predicate LeIgnoreCase(a: string, b: string) {
    LexLe(FoldCase(a), FoldCase(b))
  }

  lemma {:induction false} LexLeTotal(a: string, b: string)
    ensures LexLe(a, b) || LexLe(b, a)
  {
    if a != [] && b != [] && a[0] == b[0] {
      LexLeTotal(a[1..], b[1..]);
    }
  }

  lemma {:induction false} LexLeTransitive(a: string, b: string, c: string)
    requires LexLe(a, b) && LexLe(b, c)
    ensures LexLe(a, c)
  {
    if a != [] && b != [] && c != [] && a[0] == b[0] == c[0] {
      LexLeTransitive(a[1..], b[1..], c[1..]);
    }
  }

  lemma {:induction false} LexLeAntisymmetric(a: string, b: string)
    requires LexLe(a, b) && LexLe(b, a)
    ensures a == b
  {
    if a != [] {
      LexLeAntisymmetric(a[1..], b[1..]);
    }
  }
}
