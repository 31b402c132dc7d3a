/** Orders and sorts: Python's string comparison, a stable sort by an integer
    key (`list.sort(key=...)`), `sorted(set(xs))` for strings, and
    order-preserving removal of duplicates. */
module Order {

  /** Python's `a < b` on strings: lexicographic by code point, with a proper
      prefix first. */
  predicate Less(a: string, b: string)
    decreases |a|
  {
    if |a| == 0 then |b| > 0
    else if |b| == 0 then false
    else if a[0] != b[0] then a[0] < b[0]
    else Less(a[1..], b[1..])
  }

  lemma {:induction false} LessIrreflexive(a: string)
    ensures !Less(a, a)
    decreases |a|
  {
    if |a| > 0 {
      LessIrreflexive(a[1..]);
    }
  }

  lemma {:induction false} LessTransitive(a: string, b: string, c: string)
    requires Less(a, b) && Less(b, c)
    ensures Less(a, c)
    decreases |a|
  {
    if |a| > 0 && a[0] == b[0] && b[0] == c[0] {
      LessTransitive(a[1..], b[1..], c[1..]);
    }
  }

  lemma {:induction false} LessTotal(a: string, b: string)
    ensures a == b || Less(a, b) || Less(b, a)
    decreases |a|
  {
    if |a| > 0 && |b| > 0 && a[0] == b[0] {
      LessTotal(a[1..], b[1..]);
      assert a == [a[0]] + a[1..] && b == [b[0]] + b[1..];
    }
  }

  lemma {:induction false} LessAsymmetric(a: string, b: string)
    requires Less(a, b)
    ensures !Less(b, a)
    decreases |a|
  {
    if |a| > 0 && |b| > 0 && a[0] == b[0] {
      LessAsymmetric(a[1..], b[1..]);
    }
  }

  predicate StrictlySorted(s: seq<string>) {
    forall i, j | 0 <= i < j < |s| :: Less(s[i], s[j])
  }

  /** Inserts `x` into a strictly sorted list unless it is already there. */
  function InsertUnique(x: string, s: seq<string>): (r: seq<string>)
    requires StrictlySorted(s)
    ensures StrictlySorted(r)
    ensures forall y :: y in r <==> y in s || y == x
  {
    if s == [] then [x]
    else if x == s[0] then s
    else if Less(x, s[0]) then
      assert forall j | 0 < j < |s| :: Less(x, s[j]) by {
        forall j | 0 < j < |s| ensures Less(x, s[j]) { LessTransitive(x, s[0], s[j]); }
      }
      [x] + s
    else
      LessTotal(x, s[0]);
      var t := InsertUnique(x, s[1..]);
      assert forall y | y in t :: Less(s[0], y) by {
        forall y | y in t ensures Less(s[0], y) {
          if y != x { var k :| 0 <= k < |s[1..]| && s[1..][k] == y; assert s[k + 1] == y; }
        }
      }
      [s[0]] + t
  }

  /** Python's `sorted(set(xs))` for strings. */
  function SortedUnique(xs: seq<string>): (r: seq<string>)
    ensures StrictlySorted(r)
    ensures forall y :: y in r <==> y in xs
  {
    if xs == [] then [] else InsertUnique(xs[|xs| - 1], SortedUnique(xs[..|xs| - 1]))
  }

  /** In a strictly sorted list the position of an element is determined by the
      elements below it: `r[i] < r[j]` exactly when `i < j`. */
  lemma SortedPositions(r: seq<string>, i: nat, j: nat)
    requires StrictlySorted(r) && i < |r| && j < |r|
    ensures Less(r[i], r[j]) <==> i < j
    ensures r[i] == r[j] <==> i == j
  {
    if i < j {
      LessAsymmetric(r[i], r[j]);
      LessIrreflexive(r[i]);
    } else if j < i {
      LessAsymmetric(r[j], r[i]);
      LessIrreflexive(r[j]);
    } else {
      LessIrreflexive(r[i]);
    }
  }

  // ------------------------------------------------------------ stable sort by key

  predicate SortedBy<T>(s: seq<T>, key: T -> int) {
    forall i, j | 0 <= i < j < |s| :: key(s[i]) <= key(s[j])
  }

  /** Inserts `x` after every element whose key is at most `key(x)`, so that
      equal keys keep their input order. */
  function InsertBy<T>(s: seq<T>, x: T, key: T -> int): (r: seq<T>)
    ensures multiset(r) == multiset(s) + multiset{x}
    ensures |r| == |s| + 1
  {
    if s == [] || key(s[|s| - 1]) <= key(x) then s + [x]
    else
      assert s == s[..|s| - 1] + [s[|s| - 1]];
      InsertBy(s[..|s| - 1], x, key) + [s[|s| - 1]]
  }

  /** An element whose key is at least the last key goes at the end. */
  lemma InsertAtEnd<T>(s: seq<T>, x: T, key: T -> int)
    requires s != [] ==> key(s[|s| - 1]) <= key(x)
    ensures InsertBy(s, x, key) == s + [x]
  {
  }

  /** Inserting keeps every key below a common bound. */
  lemma {:induction false} InsertByBounded<T>(s: seq<T>, x: T, key: T -> int, b: int)
    requires forall k | 0 <= k < |s| :: key(s[k]) <= b
    requires key(x) <= b
    ensures forall k | 0 <= k < |InsertBy(s, x, key)| :: key(InsertBy(s, x, key)[k]) <= b
  {
    if s != [] && key(s[|s| - 1]) > key(x) {
      InsertByBounded(s[..|s| - 1], x, key, b);
    }
  }

  /** Inserting into a sorted list gives a sorted list. */
  lemma {:induction false} InsertBySorted<T>(s: seq<T>, x: T, key: T -> int)
    requires SortedBy(s, key)
    ensures SortedBy(InsertBy(s, x, key), key)
  {
    if s != [] && key(s[|s| - 1]) > key(x) {
      var init := s[..|s| - 1];
      InsertBySorted(init, x, key);
      InsertByBounded(init, x, key, key(s[|s| - 1]));
    }
  }

  /** Python's stable `list.sort(key=key)`, as an insertion sort. */
  function SortBy<T>(s: seq<T>, key: T -> int): (r: seq<T>)
    ensures SortedBy(r, key)
    ensures multiset(r) == multiset(s)
    ensures |r| == |s|
  {
    if s == [] then []
    else
      assert s == s[..|s| - 1] + [s[|s| - 1]];
      var t := SortBy(s[..|s| - 1], key);
      InsertBySorted(t, s[|s| - 1], key);
      InsertBy(t, s[|s| - 1], key)
  }

  /** Sorting a list that is already sorted leaves it as it is. */
  lemma {:induction false} SortBySorted<T>(s: seq<T>, key: T -> int)
    requires SortedBy(s, key)
    ensures SortBy(s, key) == s
  {
    if s != [] {
      var init := s[..|s| - 1];
      var x := s[|s| - 1];
      SortedPrefix(s, key);
      SortBySorted(init, key);
      InsertAtEnd(init, x, key);
      assert SortBy(s, key) == InsertBy(SortBy(init, key), x, key);
    }
  }

  lemma SortedPrefix<T>(s: seq<T>, key: T -> int)
    requires SortedBy(s, key) && s != []
    ensures SortedBy(s[..|s| - 1], key)
    ensures |s| > 1 ==> key(s[|s| - 2]) <= key(s[|s| - 1])
    ensures s == s[..|s| - 1] + [s[|s| - 1]]
  {
  }

  // ------------------------------------------------------------ duplicates

  predicate NoDuplicates<T(==)>(s: seq<T>) {
    forall i, j | 0 <= i < j < |s| :: s[i] != s[j]
  }

  /** The elements of `s` with every repetition after the first dropped; a
      valid iteration order of Python's `list(set(s))`. */
  function Dedup<T(==)>(s: seq<T>): (r: seq<T>)
    ensures NoDuplicates(r)
    ensures forall i | 0 <= i < |s| :: s[i] in r
    ensures forall i | 0 <= i < |r| :: r[i] in s
    ensures |r| <= |s|
  {
    if s == [] then []
    else
      var r := Dedup(s[..|s| - 1]);
      if s[|s| - 1] in r then r else r + [s[|s| - 1]]
  }
}
