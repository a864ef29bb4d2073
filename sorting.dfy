/** `List.sort` with a comparator: Java sorts lists with a stable merge
    sort, so the result is the unique ordering of the input that respects the
    comparator and keeps tied elements in their input order. It is modelled
    here by insertion sort, with exactly those three properties proved. */
module StableSorting {

  /** `le(a, b)` holds when the comparator puts `a` no later than `b`
      (`compare(a, b) <= 0`); a comparator that Java can sort with is a
      total preorder. */
  ghost predicate TotalPreorder<T(!new)>(le: (T, T) -> bool) {
    && (forall x, y :: le(x, y) || le(y, x))
    && (forall x, y, z :: le(x, y) && le(y, z) ==> le(x, z))
  }

  /** Every element may come before every later one. */
  predicate Sorted<T>(s: seq<T>, le: (T, T) -> bool) {
    forall i, j :: 0 <= i < j < |s| ==> le(s[i], s[j])
  }

  /** The comparator cannot tell `x` and `y` apart (`compare(x, y) == 0`). */
  predicate Tied<T>(le: (T, T) -> bool, x: T, y: T) {
    le(x, y) && le(y, x)
  }

  /** The elements of `s` tied with `pivot`, in their order in `s`. */
  function Ties<T>(s: seq<T>, le: (T, T) -> bool, pivot: T): seq<T> {
    if s == [] then []
    else (if Tied(le, s[0], pivot) then [s[0]] else []) + Ties(s[1..], le, pivot)
  }

  /** Inserts `x` into `s` just before the first element it may precede
      (`le(x, s[i])`). Inserting the head of a list into its sorted tail this
      way keeps it ahead of the tail's elements tied with it. */
  function Insert<T>(x: T, s: seq<T>, le: (T, T) -> bool): (r: seq<T>)
    ensures multiset(r) == multiset(s) + multiset{x}
  {
    if s == [] then [x]
    else if le(x, s[0]) then [x] + s
    else
      assert s == [s[0]] + s[1..];
      [s[0]] + Insert(x, s[1..], le)
  }

  lemma SortedTail<T>(s: seq<T>, le: (T, T) -> bool)
    requires s != [] && Sorted(s, le)
    ensures Sorted(s[1..], le)
    ensures forall k :: 0 <= k < |s[1..]| ==> le(s[0], s[1..][k])
  {
  }

  /** A common lower bound of `x` and of `s` bounds the insertion too. */
  lemma {:induction false} InsertBounded<T>(y: T, x: T, s: seq<T>, le: (T, T) -> bool)
    requires le(y, x) && forall k :: 0 <= k < |s| ==> le(y, s[k])
    ensures forall j :: 0 <= j < |Insert(x, s, le)| ==> le(y, Insert(x, s, le)[j])
  {
    if s != [] && !le(x, s[0]) {
      InsertBounded(y, x, s[1..], le);
    }
  }

  lemma {:induction false} InsertSorted<T(!new)>(x: T, s: seq<T>, le: (T, T) -> bool)
    requires TotalPreorder(le) && Sorted(s, le)
    ensures Sorted(Insert(x, s, le), le)
  {
    if s == [] {
    } else if le(x, s[0]) {
      var r := [x] + s;
      forall i, j | 0 <= i < j < |r| ensures le(r[i], r[j]) {
        if i == 0 {
          assert le(s[0], s[j - 1]) || j == 1;
        }
      }
    } else {
      var rest := Insert(x, s[1..], le);
      SortedTail(s, le);
      InsertSorted(x, s[1..], le);
      InsertBounded(s[0], x, s[1..], le);
      var r := [s[0]] + rest;
      forall i, j | 0 <= i < j < |r| ensures le(r[i], r[j]) {
        if i > 0 {
          assert r[i] == rest[i - 1] && r[j] == rest[j - 1];
        } else {
          assert r[j] == rest[j - 1];
        }
      }
    }
  }

  /** Inserting `x` adds it in front of the elements it is tied with. */
  lemma {:induction false} InsertTies<T(!new)>(x: T, s: seq<T>, le: (T, T) -> bool, p: T)
    requires TotalPreorder(le) && Sorted(s, le)
    ensures Ties(Insert(x, s, le), le, p) == if Tied(le, x, p) then [x] + Ties(s, le, p) else Ties(s, le, p)
  {
    if s == [] {
    } else if le(x, s[0]) {
      var r := [x] + s;
      assert r[1..] == s;
    } else {
      var rest := Insert(x, s[1..], le);
      var r := [s[0]] + rest;
      assert r[1..] == rest;
      SortedTail(s, le);
      InsertTies(x, s[1..], le, p);
      assert Ties(r, le, p) == (if Tied(le, s[0], p) then [s[0]] else []) + Ties(rest, le, p);
      if Tied(le, x, p) {
        assert !Tied(le, s[0], p);
      }
    }
  }

  /** The stable sort of `s` under `le`. */
  function StableSort<T(!new)>(s: seq<T>, le: (T, T) -> bool): (r: seq<T>)
    requires TotalPreorder(le)
    ensures Sorted(r, le)
    ensures multiset(r) == multiset(s)
    ensures forall p :: Ties(r, le, p) == Ties(s, le, p)
  {
    if s == [] then []
    else
      var rest := StableSort(s[1..], le);
      assert s == [s[0]] + s[1..];
      InsertSorted(s[0], rest, le);
      forall p ensures Ties(Insert(s[0], rest, le), le, p) == Ties(s, le, p) {
        InsertTies(s[0], rest, le, p);
      }
      Insert(s[0], rest, le)
  }
}
