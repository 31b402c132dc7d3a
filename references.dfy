/** `format_references`: every reference `[r](p)` of an answer, `r` a
    reference number and `p` a page number, is rewritten so that each page
    has one reference number, chosen as the number most often written for
    that page (the lowest on a tie), and these numbers are renumbered
    1, 2, ... in ascending order; the page becomes the link
    `doc1.pdf#page-p`. */
module References {
  import opened Wrappers
  import opened Strings
  import opened Dicts

  /** One match of `\[(\d+)\]\((\d+)\)`: where it starts, its two
      groups, and the first group as a number, `int(match.group(1))`. */
  datatype RefMatch = RefMatch(start: nat, ref: string, number: nat, page: string)

  /** How many characters a match spans. */
  function Length(m: RefMatch): nat {
    |m.ref| + |m.page| + 4
  }

  /** The text of a match, `match.group(0)`. */
  function Written(m: RefMatch): string {
    "[" + m.ref + "](" + m.page + ")"
  }

  // ------------------------------------------------------------ matching

  /** The match of the pattern at `i`, if there is one. `]` and `)` are not
      digits, so each `\d+` can only take the whole digit run. */
  function MatchAt(s: string, i: nat): (r: Option<RefMatch>)
    ensures r.Some? ==> r.value.start == i && i + Length(r.value) <= |s|
  {
    if i < |s| && s[i] == '[' then
      var a := DigitRun(s, i + 1);
      var j := i + 1 + a;
      if a > 0 && j + 1 < |s| && s[j] == ']' && s[j + 1] == '(' then
        var b := DigitRun(s, j + 2);
        var e := j + 2 + b;
        if b > 0 && e < |s| && s[e] == ')' then
          DigitRunNumeral(s, i + 1);
          Some(RefMatch(i, s[i + 1..j], ParseNat(s[i + 1..j]), s[j + 2..e]))
        else None
      else None
    else None
  }

  /** A match at `i` is the text `[r](p)` with `r` and `p` numerals, and
      its number is the value of `r`. */
  lemma MatchAtWritten(s: string, i: nat)
    requires i <= |s| && MatchAt(s, i).Some?
    ensures IsNumeral(MatchAt(s, i).value.ref) && IsNumeral(MatchAt(s, i).value.page)
    ensures MatchAt(s, i).value.number == ParseNat(MatchAt(s, i).value.ref)
    ensures s[i..i + Length(MatchAt(s, i).value)] == Written(MatchAt(s, i).value)
  {
    var m := MatchAt(s, i).value;
    MatchAtPieces(s, i);
    WrittenFrom(s, i, m.ref, m.page);
  }

  /** The pieces of a match at `i`. */
  lemma MatchAtPieces(s: string, i: nat)
    requires MatchAt(s, i).Some?
    ensures var m := MatchAt(s, i).value;
      && IsNumeral(m.ref) && IsNumeral(m.page) && m.number == ParseNat(m.ref)
      && i + |m.ref| + |m.page| + 4 <= |s|
      && s[i] == '[' && s[i + 1 + |m.ref|] == ']' && s[i + 2 + |m.ref|] == '(' && s[i + 3 + |m.ref| + |m.page|] == ')'
      && s[i + 1..i + 1 + |m.ref|] == m.ref && s[i + 3 + |m.ref|..i + 3 + |m.ref| + |m.page|] == m.page
  {
    var j := i + 1 + DigitRun(s, i + 1);
    DigitRunNumeral(s, i + 1);
    DigitRunNumeral(s, j + 2);
  }

  /** Conversely, `[`, `r`, `](`, `p` and `)` one after the other spell
      `[r](p)`. */
  lemma WrittenFrom(s: string, i: nat, r: string, p: string)
    requires i + |r| + |p| + 4 <= |s|
    requires s[i] == '[' && s[i + 1 + |r|] == ']' && s[i + 2 + |r|] == '(' && s[i + 3 + |r| + |p|] == ')'
    requires s[i + 1..i + 1 + |r|] == r && s[i + 3 + |r|..i + 3 + |r| + |p|] == p
    ensures s[i..i + |r| + |p| + 4] == "[" + r + "](" + p + ")"
  {
    var w := "[" + r + "](" + p + ")";
    WrittenParts(r, p);
    forall k | 0 <= k < |w| ensures s[i + k] == w[k] {
      if 1 <= k < 1 + |r| {
        assert s[i + k] == s[i + 1..i + 1 + |r|][k - 1] && w[k] == w[1..1 + |r|][k - 1];
      } else if 3 + |r| <= k < 3 + |r| + |p| {
        assert s[i + k] == s[i + 3 + |r|..i + 3 + |r| + |p|][k - 3 - |r|] && w[k] == w[3 + |r|..3 + |r| + |p|][k - 3 - |r|];
      }
    }
  }

  /** Where the pieces of `[r](p)` sit. */
  lemma WrittenParts(r: string, p: string)
    ensures var w := "[" + r + "](" + p + ")";
      && |w| == |r| + |p| + 4
      && w[0] == '[' && w[1..1 + |r|] == r && w[1 + |r|] == ']' && w[2 + |r|] == '('
      && w[3 + |r|..3 + |r| + |p|] == p && w[3 + |r| + |p|] == ')'
  {
    var w := "[" + r + "](" + p + ")";
    assert w == ("[" + r) + ("](" + p + ")");
    assert w == ("[" + r + "](") + p + ")";
  }

  /** A numeral written at `i` and followed by a non-digit is the digit
      run there. */
  lemma NumeralRun(s: string, i: nat, r: string)
    requires IsNumeral(r) && i + |r| < |s| && s[i..i + |r|] == r && !IsDigit(s[i + |r|])
    ensures DigitRun(s, i) == |r|
  {
    assert forall k | i <= k < i + |r| :: s[k] == r[k - i];
    DigitRunExact(s, i, |r|);
  }

  /** Where the pieces of `[r](p)` sit when it is written at `i`. */
  lemma WrittenAt(s: string, i: nat, r: string, p: string)
    requires i + |r| + |p| + 4 <= |s| && s[i..i + |r| + |p| + 4] == "[" + r + "](" + p + ")"
    ensures s[i] == '[' && s[i + 1 + |r|] == ']' && s[i + 2 + |r|] == '(' && s[i + 3 + |r| + |p|] == ')'
    ensures s[i + 1..i + 1 + |r|] == r && s[i + 3 + |r|..i + 3 + |r| + |p|] == p
  {
    var w := s[i..i + |r| + |p| + 4];
    WrittenParts(r, p);
    assert forall k | 0 <= k < |r| :: s[i + 1 + k] == w[1 + k] == r[k];
    assert forall k | 0 <= k < |p| :: s[i + 3 + |r| + k] == w[3 + |r| + k] == p[k];
  }

  /** The pattern matches `[`, a numeral, `](`, a numeral and `)` found
      one after the other. */
  lemma PiecesMatch(s: string, i: nat, r: string, p: string)
    requires IsNumeral(r) && IsNumeral(p)
    requires i + |r| + |p| + 4 <= |s|
    requires s[i] == '[' && s[i + 1 + |r|] == ']' && s[i + 2 + |r|] == '(' && s[i + 3 + |r| + |p|] == ')'
    requires s[i + 1..i + 1 + |r|] == r && s[i + 3 + |r|..i + 3 + |r| + |p|] == p
    ensures MatchAt(s, i) == Some(RefMatch(i, r, ParseNat(r), p))
  {
    NumeralRun(s, i + 1, r);
    NumeralRun(s, i + 3 + |r|, p);
    var j := i + 1 + DigitRun(s, i + 1);
    assert j == i + 1 + |r| && s[j] == ']' && s[j + 1] == '(';
    var e := j + 2 + DigitRun(s, j + 2);
    assert e == i + 3 + |r| + |p| && s[e] == ')';
  }

  /** Conversely, wherever `[r](p)` is written with numerals `r` and `p`,
      the pattern matches it there. */
  lemma WrittenMatches(s: string, i: nat, r: string, p: string)
    requires IsNumeral(r) && IsNumeral(p)
    requires i + |r| + |p| + 4 <= |s| && s[i..i + |r| + |p| + 4] == "[" + r + "](" + p + ")"
    ensures MatchAt(s, i) == Some(RefMatch(i, r, ParseNat(r), p))
  {
    WrittenAt(s, i, r, p);
    PiecesMatch(s, i, r, p);
  }

  /** A matcher: the match at a position of a text, if any. The scans
      below are stated for any matcher, and used with `MatchAt`. */
  type Matcher = (string, nat) -> Option<RefMatch>

  /** `re.finditer` with matcher `mat`: the matches from `i` on, left to
      right, the search resuming after each match. */
  function Scan(mat: Matcher, s: string, i: nat): seq<RefMatch>
    decreases |s| - i
  {
    if i >= |s| then []
    else
      match mat(s, i)
      case Some(m) => [m] + Scan(mat, s, i + Length(m))
      case None => Scan(mat, s, i + 1)
  }

  /** `re.finditer`: the matches from `i` on. */
  function MatchesFrom(s: string, i: nat): seq<RefMatch> {
    Scan(MatchAt, s, i)
  }

  function Matches(text: string): seq<RefMatch> {
    MatchesFrom(text, 0)
  }

  // ------------------------------------------------------------ step 2: page_to_refs

  /** `page_to_refs`: for every page, in order of first appearance, the
      reference numbers written for it. */
  function PageToRefs(ms: seq<RefMatch>): (d: seq<(string, seq<nat>)>)
    ensures UniqueKeys(d)
    ensures forall k | 0 <= k < |d| :: |d[k].1| > 0
  {
    if ms == [] then []
    else Extend(PageToRefs(ms[..|ms| - 1]), ms[|ms| - 1].page, [ms[|ms| - 1].number])
  }

  /** The reference numbers of the matches on page `p`, in order. */
  function RefsOn(ms: seq<RefMatch>, p: string): seq<nat> {
    if ms == [] then []
    else RefsOn(ms[..|ms| - 1], p) + (if ms[|ms| - 1].page == p then [ms[|ms| - 1].number] else [])
  }

  /** The dictionary holds exactly the pages that occur. */
  lemma {:induction false} PageToRefsKeys(ms: seq<RefMatch>)
    ensures forall p :: KeyIndex(PageToRefs(ms), p) < |PageToRefs(ms)| <==> RefsOn(ms, p) != []
  {
    if ms != [] {
      var init := ms[..|ms| - 1];
      var m := ms[|ms| - 1];
      PageToRefsKeys(init);
      var d := PageToRefs(init);
      var r := PageToRefs(ms);
      if KeyIndex(d, m.page) < |d| {
        forall p ensures KeyIndex(r, p) == KeyIndex(d, p) {
          KeyIndexSameKeys(r, d, p);
        }
      } else {
        assert r == d + [(m.page, [m.number])];
        forall p ensures KeyIndex(r, p) < |r| <==> KeyIndex(d, p) < |d| || p == m.page {
          KeyIndexAppend(d, (m.page, [m.number]), p);
        }
      }
    }
  }

  /** Each page's list holds the numbers written for it, in order. */
  lemma {:induction false} PageToRefsValues(ms: seq<RefMatch>)
    ensures forall k | 0 <= k < |PageToRefs(ms)| :: PageToRefs(ms)[k].1 == RefsOn(ms, PageToRefs(ms)[k].0)
  {
    if ms != [] {
      var init := ms[..|ms| - 1];
      var m := ms[|ms| - 1];
      PageToRefsValues(init);
      PageToRefsKeys(init);
      var d := PageToRefs(init);
      var r := PageToRefs(ms);
      var i := KeyIndex(d, m.page);
      forall k | 0 <= k < |r| ensures r[k].1 == RefsOn(ms, r[k].0) {
        if k < |d| && k != i {
          assert r[k] == d[k];
          assert d[k].0 != m.page;
        }
      }
    }
  }

  /** Every matched page is in the dictionary. */
  lemma {:induction false} MatchedPagesKnown(ms: seq<RefMatch>, k: nat)
    requires k < |ms|
    ensures KeyIndex(PageToRefs(ms), ms[k].page) < |PageToRefs(ms)|
  {
    PageToRefsKeys(ms);
    RefsOnMatch(ms, k);
  }

  lemma {:induction false} RefsOnMatch(ms: seq<RefMatch>, k: nat)
    requires k < |ms|
    ensures RefsOn(ms, ms[k].page) != []
  {
    if k < |ms| - 1 {
      RefsOnMatch(ms[..|ms| - 1], k);
    }
  }

  // ------------------------------------------------------------ step 3: canonical_refs

  /** `a` is preferred to `b` as a page's number: written more often, or
      as often and lower. */
  predicate Beats(xs: seq<nat>, a: nat, b: nat) {
    multiset(xs)[a] > multiset(xs)[b] || (multiset(xs)[a] == multiset(xs)[b] && a < b)
  }

  /** `c` is the most frequent number in `xs`, the lowest of them on a tie. */
  predicate IsCanonical(xs: seq<nat>, c: nat) {
    c in xs && forall y | y in xs :: multiset(xs)[y] < multiset(xs)[c] || (multiset(xs)[y] == multiset(xs)[c] && c <= y)
  }

  /** The preferred number among the first `n` of `xs`. */
  function Best(xs: seq<nat>, n: nat): (c: nat)
    requires 1 <= n <= |xs|
    ensures c in xs[..n]
  {
    if n == 1 then xs[0]
    else
      var b := Best(xs, n - 1);
      assert xs[..n - 1] <= xs[..n];
      if Beats(xs, xs[n - 1], b) then xs[n - 1] else b
  }

  lemma {:induction false} BestBeatsRest(xs: seq<nat>, n: nat)
    requires 1 <= n <= |xs|
    ensures forall y | y in xs[..n] :: y == Best(xs, n) || Beats(xs, Best(xs, n), y)
  {
    if n > 1 {
      BestBeatsRest(xs, n - 1);
      assert xs[..n] == xs[..n - 1] + [xs[n - 1]];
    }
  }

  /** The canonical number of a page with numbers `xs`. */
  function Canonical(xs: seq<nat>): nat
    requires |xs| > 0
  {
    Best(xs, |xs|)
  }

  lemma CanonicalSpec(xs: seq<nat>)
    requires |xs| > 0
    ensures IsCanonical(xs, Canonical(xs))
  {
    BestBeatsRest(xs, |xs|);
    assert xs[..|xs|] == xs;
  }

  /** At most one number is canonical. */
  lemma CanonicalUnique(xs: seq<nat>, c: nat, d: nat)
    requires IsCanonical(xs, c) && IsCanonical(xs, d)
    ensures c == d
  {
  }

  /** `ref_counts`: how often each number occurs. */
  method CountRefs(refNums: seq<nat>) returns (counts: map<nat, nat>)
    ensures forall r :: r in counts <==> r in refNums
    ensures forall r | r in counts :: counts[r] == multiset(refNums)[r]
  {
    counts := map[];
    for i := 0 to |refNums|
      invariant forall r :: r in counts <==> r in refNums[..i]
      invariant forall r | r in counts :: counts[r] == multiset(refNums[..i])[r]
    {
      assert refNums[..i + 1] == refNums[..i] + [refNums[i]];
      counts := counts[refNums[i] := (if refNums[i] in counts then counts[refNums[i]] else 0) + 1];
    }
    assert refNums[..|refNums|] == refNums;
  }

  /** `max(ref_counts.values())`. */
  method MaxCount(counts: map<nat, nat>) returns (maxCount: nat)
    requires counts != map[]
    ensures forall r | r in counts :: counts[r] <= maxCount
    ensures exists r | r in counts :: counts[r] == maxCount
  {
    var first :| first in counts;
    maxCount := counts[first];
    ghost var top := first;
    var pending := counts.Keys - {first};
    while pending != {}
      invariant pending <= counts.Keys
      invariant forall r | r in counts && r !in pending :: counts[r] <= maxCount
      invariant top in counts && counts[top] == maxCount
      decreases pending
    {
      var r :| r in pending;
      if counts[r] > maxCount {
        maxCount := counts[r];
        top := r;
      }
      pending := pending - {r};
    }
  }

  /** `min(most_common_refs)`. */
  method Least(xs: set<nat>) returns (c: nat)
    requires xs != {}
    ensures c in xs && forall r | r in xs :: c <= r
  {
    c :| c in xs;
    var rest := xs - {c};
    while rest != {}
      invariant rest <= xs && c in xs
      invariant forall r | r in xs && r !in rest :: c <= r
      decreases rest
    {
      var r :| r in rest;
      if r < c {
        c := r;
      }
      rest := rest - {r};
    }
  }

  /** The canonical number of one page, as step 3 finds it: count each
      number, take the highest count, then the lowest number with it. */
  method MostFrequent(refNums: seq<nat>) returns (c: nat)
    requires |refNums| > 0
    ensures c == Canonical(refNums)
  {
    var counts := CountRefs(refNums);
    assert refNums[0] in counts;
    var maxCount := MaxCount(counts);
    var mostCommon := set r | r in counts.Keys && counts[r] == maxCount;
    ghost var top :| top in counts && counts[top] == maxCount;
    assert top in mostCommon;
    c := Least(mostCommon);
    assert IsCanonical(refNums, c) by {
      forall y | y in refNums
        ensures multiset(refNums)[y] < multiset(refNums)[c] || (multiset(refNums)[y] == multiset(refNums)[c] && c <= y)
      {
        assert y in counts;
        if counts[y] == maxCount {
          assert y in mostCommon;
        }
      }
    }
    CanonicalSpec(refNums);
    CanonicalUnique(refNums, c, Canonical(refNums));
  }

  /** `canonical_refs`: the canonical number of every page, in the
      dictionary's order. */
  function CanonicalRefs(d: seq<(string, seq<nat>)>): (c: seq<(string, nat)>)
    requires forall k | 0 <= k < |d| :: |d[k].1| > 0
    ensures |c| == |d|
    ensures forall k | 0 <= k < |d| :: c[k] == (d[k].0, Canonical(d[k].1))
  {
    seq(|d|, k requires 0 <= k < |d| => (d[k].0, Canonical(d[k].1)))
  }

  // ------------------------------------------------------------ step 4: ref_to_new_ref

  predicate Ascending(r: seq<nat>) {
    forall i, j | 0 <= i < j < |r| :: r[i] < r[j]
  }

  /** Inserts `x` into an ascending list unless it is already there. */
  function InsertAscending(x: nat, s: seq<nat>): (r: seq<nat>)
    requires Ascending(s)
    ensures Ascending(r)
    ensures forall y :: y in r <==> y in s || y == x
  {
    if s == [] then [x]
    else if x == s[0] then s
    else if x < s[0] then [x] + s
    else
      assert Ascending(s[1..]) by {
        forall i, j | 0 <= i < j < |s| - 1 ensures s[1..][i] < s[1..][j] {
          assert s[1..][i] == s[i + 1] && s[1..][j] == s[j + 1];
        }
      }
      var t := InsertAscending(x, s[1..]);
      assert forall y | y in s[1..] :: s[0] < y by {
        forall y | y in s[1..] ensures s[0] < y {
          var k :| 0 <= k < |s| - 1 && s[1..][k] == y;
          assert s[k + 1] == y;
        }
      }
      var r := [s[0]] + t;
      assert Ascending(r) by {
        forall i, j | 0 <= i < j < |r| ensures r[i] < r[j] {
          assert r[j] == t[j - 1] && t[j - 1] in t;
          if i > 0 {
            assert r[i] == t[i - 1];
          }
        }
      }
      r
  }

  /** `sorted(set(xs))`. */
  function SortedSet(xs: seq<nat>): (r: seq<nat>)
    ensures Ascending(r)
    ensures forall y :: y in r <==> y in xs
  {
    if xs == [] then []
    else
      var init := xs[..|xs| - 1];
      assert xs == init + [xs[|xs| - 1]];
      assert forall y :: y in xs <==> y in init || y == xs[|xs| - 1];
      InsertAscending(xs[|xs| - 1], SortedSet(init))
  }

  /** The position of `c` in `r`, counting from 0. */
  function IndexIn(r: seq<nat>, c: nat): (i: nat)
    requires c in r
    ensures i < |r| && r[i] == c
    ensures forall k | 0 <= k < i :: r[k] != c
  {
    if r[0] == c then 0 else 1 + IndexIn(r[1..], c)
  }

  /** `ref_to_new_ref[c]`: one more than the position of `c` in the
      ascending list of the distinct canonical numbers `vals`. */
  function Rank(vals: seq<nat>, c: nat): nat
    requires c in vals
  {
    IndexIn(SortedSet(vals), c) + 1
  }

  /** The new numbers are exactly 1 .. k, k the number of distinct
      canonical numbers: the one at position j of the ascending list
      gets j + 1. */
  lemma RankDense(vals: seq<nat>)
    ensures forall c | c in vals :: 1 <= Rank(vals, c) <= |SortedSet(vals)|
    ensures forall j | 0 <= j < |SortedSet(vals)| :: SortedSet(vals)[j] in vals && Rank(vals, SortedSet(vals)[j]) == j + 1
  {
    var r := SortedSet(vals);
    forall j | 0 <= j < |r| ensures Rank(vals, r[j]) == j + 1 {
      var i := IndexIn(r, r[j]);
      assert r[i] == r[j];
    }
  }

  /** Renumbering keeps the order of the canonical numbers, both ways. */
  lemma RankOrder(vals: seq<nat>, a: nat, b: nat)
    requires a in vals && b in vals
    ensures a < b <==> Rank(vals, a) < Rank(vals, b)
  {
    var r := SortedSet(vals);
    var i, j := IndexIn(r, a), IndexIn(r, b);
    if i < j {
      assert r[i] < r[j];
    } else if j < i {
      assert r[j] < r[i];
    }
  }

  // ------------------------------------------------------------ steps 5 and 6: the rewrite

  /** The canonical numbers of the pages of `ms`, in the dictionary's order. */
  function CanonicalValues(ms: seq<RefMatch>): seq<nat> {
    Values(CanonicalRefs(PageToRefs(ms)))
  }

  /** The new number of page `p` of the dictionary `d`: the rank of its
      canonical number among all pages' canonical numbers. */
  function NewNumberIn(d: seq<(string, seq<nat>)>, p: string): nat
    requires forall k | 0 <= k < |d| :: |d[k].1| > 0
  {
    var canon := CanonicalRefs(d);
    var i := KeyIndex(canon, p);
    if i < |canon| then Rank(Values(canon), canon[i].1) else 0
  }

  /** The new number of page `p` when the matches are `ms`. */
  function NewNumber(ms: seq<RefMatch>, p: string): nat {
    NewNumberIn(PageToRefs(ms), p)
  }

  /** `[n](doc1.pdf#page-p)` for a match on page `p`. */
  function Link(n: nat, m: RefMatch): string {
    "[" + NatToString(n) + "](doc1.pdf#page-" + m.page + ")"
  }

  /** What a match is replaced by. */
  function Replacement(ms: seq<RefMatch>, m: RefMatch): string {
    Link(NewNumber(ms, m.page), m)
  }

  /** The text from `i` on with every match `mat` finds replaced by `f`
      of it, in one pass. */
  function RewriteWith(mat: Matcher, s: string, i: nat, f: RefMatch -> string): string
    decreases |s| - i
  {
    if i >= |s| then []
    else
      match mat(s, i)
      case Some(m) => f(m) + RewriteWith(mat, s, i + Length(m), f)
      case None => [s[i]] + RewriteWith(mat, s, i + 1, f)
  }

  /** The text from `i` on with every match replaced, in one pass. */
  function RewriteFrom(s: string, i: nat, f: RefMatch -> string): string {
    RewriteWith(MatchAt, s, i, f)
  }

  /** The answer `format_references` returns. */
  function Formatted(text: string): string {
    RewriteFrom(text, 0, m => Replacement(Matches(text), m))
  }

  /** Step 2: `page_to_refs`, filled in order of appearance. */
  method BuildPageToRefs(ms: seq<RefMatch>) returns (pageToRefs: seq<(string, seq<nat>)>)
    ensures pageToRefs == PageToRefs(ms)
  {
    pageToRefs := [];
    for i := 0 to |ms|
      invariant pageToRefs == PageToRefs(ms[..i])
    {
      assert ms[..i + 1][..i] == ms[..i];
      var m := ms[i];
      pageToRefs := Extend(pageToRefs, m.page, [m.number]);
    }
    assert ms[..|ms|] == ms;
  }

  /** Step 3: `canonical_refs`, one page at a time. */
  method BuildCanonicalRefs(pageToRefs: seq<(string, seq<nat>)>) returns (canonicalRefs: seq<(string, nat)>)
    requires forall k | 0 <= k < |pageToRefs| :: |pageToRefs[k].1| > 0
    ensures canonicalRefs == CanonicalRefs(pageToRefs)
  {
    canonicalRefs := [];
    for i := 0 to |pageToRefs|
      invariant canonicalRefs == CanonicalRefs(pageToRefs[..i])
    {
      var c := MostFrequent(pageToRefs[i].1);
      canonicalRefs := canonicalRefs + [(pageToRefs[i].0, c)];
    }
    assert pageToRefs[..|pageToRefs|] == pageToRefs;
  }

  /** Step 4: `ref_to_new_ref`, from the ascending list of the values. */
  method BuildNewRefs(vals: seq<nat>) returns (refToNewRef: map<nat, nat>)
    ensures forall c | c in vals :: c in refToNewRef && refToNewRef[c] == Rank(vals, c)
  {
    var unique := SortedSet(vals);
    refToNewRef := map[];
    for i := 0 to |unique|
      invariant forall c :: c in refToNewRef <==> c in unique[..i]
      invariant forall c | c in refToNewRef :: refToNewRef[c] == IndexIn(unique, c) + 1
    {
      assert unique[..i + 1] == unique[..i] + [unique[i]];
      refToNewRef := refToNewRef[unique[i] := i + 1];
    }
    assert unique[..|unique|] == unique;
  }

  /** One step of the rewrite: a match at `i` is replaced, any other
      character is kept. */
  lemma RewriteStep(mat: Matcher, s: string, i: nat, f: RefMatch -> string, next: Option<RefMatch>)
    requires i < |s| && next == mat(s, i)
    ensures next.Some? ==> RewriteWith(mat, s, i, f) == f(next.value) + RewriteWith(mat, s, i + Length(next.value), f)
    ensures next.None? ==> RewriteWith(mat, s, i, f) == [s[i]] + RewriteWith(mat, s, i + 1, f)
  {
  }

  /** One step of the search. */
  lemma ScanStep(mat: Matcher, s: string, i: nat, next: Option<RefMatch>)
    requires i < |s| && next == mat(s, i)
    ensures next.Some? ==> Scan(mat, s, i) == [next.value] + Scan(mat, s, i + Length(next.value))
    ensures next.None? ==> Scan(mat, s, i) == Scan(mat, s, i + 1)
  {
  }

  /** The text with every match replaced by `replace` of it, in one
      left-to-right pass. */
  method Rewrite(text: string, replace: RefMatch -> string) returns (r: string)
    ensures r == RewriteFrom(text, 0, replace)
  {
    ghost var mat: Matcher := MatchAt;
    r := "";
    var i := 0;
    while i < |text|
      invariant RewriteWith(mat, text, 0, replace) == r + RewriteWith(mat, text, i, replace)
      decreases |text| - i
    {
      var next := MatchAt(text, i);
      RewriteAdvance(mat, text, i, replace, next, r);
      if next.Some? {
        r := r + replace(next.value);
        i := i + Length(next.value);
      } else {
        r := r + [text[i]];
        i := i + 1;
      }
    }
    assert RewriteWith(mat, text, i, replace) == [];
  }

  /** The loop invariant of `Rewrite` survives one step. */
  lemma RewriteAdvance(mat: Matcher, s: string, i: nat, f: RefMatch -> string, next: Option<RefMatch>, r: string)
    requires i < |s| && next == mat(s, i)
    requires RewriteWith(mat, s, 0, f) == r + RewriteWith(mat, s, i, f)
    ensures next.Some? ==> RewriteWith(mat, s, 0, f) == (r + f(next.value)) + RewriteWith(mat, s, i + Length(next.value), f)
    ensures next.None? ==> RewriteWith(mat, s, 0, f) == (r + [s[i]]) + RewriteWith(mat, s, i + 1, f)
  {
    RewriteStep(mat, s, i, f, next);
    if next.Some? {
      AppendAssoc(r, f(next.value), RewriteWith(mat, s, i + Length(next.value), f));
    } else {
      AppendAssoc(r, [s[i]], RewriteWith(mat, s, i + 1, f));
    }
  }

  /** `f` and `g` agree on every match in `ms`. */
  predicate AgreeOn(f: RefMatch -> string, g: RefMatch -> string, ms: seq<RefMatch>) {
    ms == [] || (f(ms[0]) == g(ms[0]) && AgreeOn(f, g, ms[1..]))
  }

  lemma {:induction false} AgreeOnAll(f: RefMatch -> string, g: RefMatch -> string, ms: seq<RefMatch>)
    requires forall k | 0 <= k < |ms| :: f(ms[k]) == g(ms[k])
    ensures AgreeOn(f, g, ms)
  {
    if ms != [] {
      assert forall k | 0 <= k < |ms| - 1 :: ms[1..][k] == ms[k + 1];
      AgreeOnAll(f, g, ms[1..]);
    }
  }

  lemma AgreeSplit(f: RefMatch -> string, g: RefMatch -> string, m: RefMatch, rest: seq<RefMatch>)
    requires AgreeOn(f, g, [m] + rest)
    ensures f(m) == g(m) && AgreeOn(f, g, rest)
  {
    assert ([m] + rest)[0] == m;
    assert ([m] + rest)[1..] == rest;
  }

  /** The rewrite only applies the replacement to the matches. */
  lemma {:induction false} RewriteAgree(mat: Matcher, s: string, i: nat, f: RefMatch -> string, g: RefMatch -> string)
    requires AgreeOn(f, g, Scan(mat, s, i))
    ensures RewriteWith(mat, s, i, f) == RewriteWith(mat, s, i, g)
    decreases |s| - i
  {
    if i < |s| {
      var next := mat(s, i);
      RewriteStep(mat, s, i, f, next);
      RewriteStep(mat, s, i, g, next);
      ScanStep(mat, s, i, next);
      var j := if next.Some? then i + Length(next.value) else i + 1;
      if next.Some? {
        AgreeSplit(f, g, next.value, Scan(mat, s, j));
      }
      RewriteAgree(mat, s, j, f, g);
    }
  }

  /** `ref_to_new_ref[canonical_refs[p]]`, 0 for a page not in the
      dictionaries (which the rewrite never looks up). */
  function NewRefOf(canonicalRefs: seq<(string, nat)>, refToNewRef: map<nat, nat>, p: string): nat {
    var k := KeyIndex(canonicalRefs, p);
    if k < |canonicalRefs| && canonicalRefs[k].1 in refToNewRef then refToNewRef[canonicalRefs[k].1] else 0
  }

  /** The dictionaries built by steps 3 and 4 give every page of `d` its
      new number. */
  lemma NewRefOfPages(d: seq<(string, seq<nat>)>, canonicalRefs: seq<(string, nat)>, refToNewRef: map<nat, nat>, p: string)
    requires forall k | 0 <= k < |d| :: |d[k].1| > 0
    requires canonicalRefs == CanonicalRefs(d)
    requires forall c | c in Values(canonicalRefs) :: c in refToNewRef && refToNewRef[c] == Rank(Values(canonicalRefs), c)
    requires KeyIndex(d, p) < |d|
    ensures NewRefOf(canonicalRefs, refToNewRef, p) == NewNumberIn(d, p)
  {
    KeyIndexSameKeys(canonicalRefs, d, p);
    var i := KeyIndex(canonicalRefs, p);
    assert Values(canonicalRefs)[i] == canonicalRefs[i].1;
  }

  /** `format_references`: steps 2 to 4 build the dictionaries, steps 5
      and 6 rewrite every match. */
  method FormatReferences(text: string) returns (r: string)
    ensures r == Formatted(text)
  {
    var ms := Matches(text);
    var pageToRefs := BuildPageToRefs(ms);
    var canonicalRefs := BuildCanonicalRefs(pageToRefs);
    var refToNewRef := BuildNewRefs(Values(canonicalRefs));
    var replace := (m: RefMatch) => Link(NewRefOf(canonicalRefs, refToNewRef, m.page), m);
    r := Rewrite(text, replace);
    forall k | 0 <= k < |ms| ensures replace(ms[k]) == Replacement(ms, ms[k]) {
      MatchedPagesKnown(ms, k);
      NewRefOfPages(pageToRefs, canonicalRefs, refToNewRef, ms[k].page);
    }
    AgreeOnAll(replace, (m: RefMatch) => Replacement(ms, m), ms);
    RewriteAgree(MatchAt, text, 0, replace, (m: RefMatch) => Replacement(ms, m));
  }
}
