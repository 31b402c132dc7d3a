/** Section helpers of the text utilities: `extract_section`,
    `remove_hash_lines`, `remove_reference_section` and the part of
    `extract_section_numbers` that follows the regular-expression search
    (trimming, de-duplication and the numeric sort). Each pattern is
    matched by a scan; the character classes each pattern chains do not
    overlap, so the scan reads them the only way the pattern can. */
module Sections {
  import opened Wrappers
  import opened Strings
  import opened Order

  // ------------------------------------------------------------ extract_section

  /** Position of the first digit at or after `i`, or `|s|`. */
  function FirstDigit(s: string, i: nat): (p: nat)
    requires i <= |s|
    ensures i <= p <= |s|
    ensures p < |s| ==> IsDigit(s[p])
    ensures forall k | i <= k < p :: !IsDigit(s[k])
    decreases |s| - i
  {
    if i == |s| || IsDigit(s[i]) then i else FirstDigit(s, i + 1)
  }

  /** `extract_section`: the first run of digits (`\d+`), `None` when the
      text has no digit. */
  function ExtractSection(text: string): (r: Option<string>)
    ensures r.None? <==> forall k | 0 <= k < |text| :: !IsDigit(text[k])
    ensures r.Some? ==> IsNumeral(r.value)
  {
    var p := FirstDigit(text, 0);
    if p == |text| then None
    else
      DigitRunDigits(text, p);
      Some(text[p..p + DigitRun(text, p)])
  }

  /** The section found is the whole first number: for a text made of a
      digit-free prefix, a number, and a rest that does not continue the
      number, it is that number. */
  lemma ExtractSectionFirst(prefix: string, n: string, rest: string)
    requires forall k | 0 <= k < |prefix| :: !IsDigit(prefix[k])
    requires IsNumeral(n)
    requires rest == [] || !IsDigit(rest[0])
    ensures ExtractSection(prefix + n + rest) == Some(n)
  {
    var s := prefix + n + rest;
    assert IsDigit(s[|prefix|]);
    assert FirstDigit(s, 0) == |prefix|;
    assert forall k | |prefix| <= k < |prefix| + |n| :: IsDigit(s[k]);
    DigitRunExact(s, |prefix|, |n|);
    assert s[|prefix|..|prefix| + |n|] == n;
  }

  // ------------------------------------------------------------ remove_hash_lines

  /** Length of a `\n#+\n` match at the start of `s`, or 0. */
  function HashLine(s: string): (m: nat)
    ensures m <= |s|
    ensures m > 0 ==> m >= 3 && s[0] == '\n' && s[m - 1] == '\n'
  {
    if |s| > 0 && s[0] == '\n' then
      var h := CharRun(s, 1, '#');
      if h > 0 && 1 + h < |s| && s[1 + h] == '\n' then h + 2 else 0
    else 0
  }

  /** `remove_hash_lines`: every line made only of `#`, with the line
      breaks around it, is deleted, scanning left to right. */
  function RemoveHashLines(s: string): (r: string)
    ensures |r| <= |s|
    decreases |s|
  {
    if |s| == 0 then ""
    else
      var m := HashLine(s);
      if m > 0 then RemoveHashLines(s[m..]) else [s[0]] + RemoveHashLines(s[1..])
  }

  /** The text without its line breaks and `#` characters. */
  function Visible(s: string): string {
    if |s| == 0 then "" else (if s[0] == '\n' || s[0] == '#' then "" else [s[0]]) + Visible(s[1..])
  }

  lemma {:induction false} VisibleAppend(a: string, b: string)
    ensures Visible(a + b) == Visible(a) + Visible(b)
  {
    if |a| > 0 {
      assert (a + b)[1..] == a[1..] + b;
      VisibleAppend(a[1..], b);
    } else {
      assert a + b == b;
    }
  }

  lemma {:induction false} VisibleNone(s: string)
    requires forall k | 0 <= k < |s| :: s[k] == '\n' || s[k] == '#'
    ensures Visible(s) == ""
  {
    if |s| > 0 {
      VisibleNone(s[1..]);
    }
  }

  /** A `\n#+\n` line holds nothing visible. */
  lemma HashLineInvisible(s: string)
    requires HashLine(s) > 0
    ensures Visible(s) == Visible(s[HashLine(s)..])
  {
    var m := HashLine(s);
    var line, rest := s[..m], s[m..];
    CharRunChars(s, 1, '#');
    assert forall k | 0 <= k < m :: line[k] == '\n' || line[k] == '#' by {
      forall k | 0 <= k < m ensures line[k] == '\n' || line[k] == '#' {
        assert line[k] == s[k];
      }
    }
    VisibleNone(line);
    assert s == line + rest;
    VisibleAppend(line, rest);
  }

  /** Only line breaks and `#` characters are deleted: every other
      character is kept, in order. */
  lemma {:induction false} RemoveHashLinesKeepsText(s: string)
    ensures Visible(RemoveHashLines(s)) == Visible(s)
    decreases |s|
  {
    if |s| > 0 {
      if HashLine(s) > 0 {
        RemoveHashLinesKeepsText(s[HashLine(s)..]);
        HashLineInvisible(s);
      } else {
        RemoveHashLinesKeepsText(s[1..]);
        assert ([s[0]] + RemoveHashLines(s[1..]))[1..] == RemoveHashLines(s[1..]);
      }
    }
  }

  /** A text in which no line starts with `#` is left as it is. */
  lemma {:induction false} RemoveHashLinesNoop(s: string)
    requires forall k | 0 <= k < |s| - 1 :: !(s[k] == '\n' && s[k + 1] == '#')
    ensures RemoveHashLines(s) == s
    decreases |s|
  {
    if |s| > 0 {
      assert HashLine(s) == 0 by {
        if |s| > 1 && s[0] == '\n' {
          assert s[1] != '#';
        }
      }
      RemoveHashLinesNoop(s[1..]);
    }
  }

  // ------------------------------------------------------------ remove_reference_section

  /** `\s*#{1,}\s*Reference` matches at `i`. */
  predicate HeadingAt(s: string, i: nat)
    requires i <= |s|
  {
    var a := i + SpaceRun(s, i);
    var b := a + CharRun(s, a, '#');
    b > a && OccursAt(s, "Reference", b + SpaceRun(s, b))
  }

  /** The first position at or after `i` where a references heading
      starts, as the lazy group in front of it stops there. */
  function FirstHeading(s: string, i: nat): (r: Option<nat>)
    requires i <= |s|
    ensures r.Some? ==> i <= r.value <= |s| && HeadingAt(s, r.value)
    ensures r.Some? ==> forall k | i <= k < r.value :: !HeadingAt(s, k)
    ensures r.None? ==> forall k | i <= k <= |s| :: !HeadingAt(s, k)
    decreases |s| - i
  {
    if HeadingAt(s, i) then Some(i)
    else if i == |s| then None
    else FirstHeading(s, i + 1)
  }

  /** `remove_reference_section`: the stripped text before the first
      `# References` heading, or the whole text when there is none. */
  function RemoveReferenceSection(s: string): string {
    match FirstHeading(s, 0)
    case Some(p) => Strip(s[..p])
    case None => s
  }

  /** A heading contains the word, so a text without "Reference" has no
      heading and is returned whole. */
  lemma RemoveReferenceSectionNoop(s: string)
    requires !Contains(s, "Reference")
    ensures RemoveReferenceSection(s) == s
  {
    match FirstHeading(s, 0)
    case Some(p) =>
      assert false;
    case None =>
  }

  /** With a heading, the result is what comes before the first one,
      stripped: a slice of the text ending before the heading. */
  lemma RemoveReferenceSectionCut(s: string)
    requires FirstHeading(s, 0).Some?
    ensures var p := FirstHeading(s, 0).value;
      && RemoveReferenceSection(s) == s[StripStart(s[..p])..StripEnd(s[..p])]
      && StripEnd(s[..p]) <= p
      && HeadingAt(s, p)
  {
  }

  // ------------------------------------------------------------ extract_section_numbers

  /** `rstrip(". ")`. */
  function TrimEnd(s: string): (r: string)
    ensures |r| <= |s|
  {
    if |s| > 0 && (s[|s| - 1] == '.' || s[|s| - 1] == ' ') then TrimEnd(s[..|s| - 1]) else s
  }

  /** `int(n)` of one component (every component of a section number is
      a numeral; anything else reads as 0 and does not occur). */
  function Component(p: string): nat {
    if AllDigits(p) then ParseNat(p) else 0
  }

  /** The sort key `[int(n) for n in section.split(".")]`. */
  function Key(s: string): (k: seq<nat>)
    ensures |k| == |Split(s, '.')|
  {
    seq(|Split(s, '.')|, i requires 0 <= i < |Split(s, '.')| => Component(Split(s, '.')[i]))
  }

  /** Python's `<=` on lists of integers: lexicographic. */
  predicate LexLe(a: seq<nat>, b: seq<nat>)
    decreases |a|
  {
    |a| == 0 || (|b| > 0 && (a[0] < b[0] || (a[0] == b[0] && LexLe(a[1..], b[1..]))))
  }

  lemma {:induction false} LexLeTotal(a: seq<nat>, b: seq<nat>)
    ensures LexLe(a, b) || LexLe(b, a)
    decreases |a|
  {
    if |a| > 0 && |b| > 0 && a[0] == b[0] {
      LexLeTotal(a[1..], b[1..]);
    }
  }

  lemma {:induction false} LexLeTransitive(a: seq<nat>, b: seq<nat>, c: seq<nat>)
    requires LexLe(a, b) && LexLe(b, c)
    ensures LexLe(a, c)
    decreases |a|
  {
    if |a| > 0 && a[0] == b[0] && b[0] == c[0] {
      LexLeTransitive(a[1..], b[1..], c[1..]);
    }
  }

  predicate SortedByKey<T>(xs: seq<T>, key: T -> seq<nat>) {
    forall i, j | 0 <= i < j < |xs| :: LexLe(key(xs[i]), key(xs[j]))
  }

  /** Inserts `x` in front of the first element whose key is not below it. */
  function Insert<T>(xs: seq<T>, x: T, key: T -> seq<nat>): (r: seq<T>)
    ensures multiset(r) == multiset(xs) + multiset{x}
    ensures forall k | 0 <= k < |r| :: r[k] == x || r[k] in xs
  {
    if |xs| == 0 then [x]
    else if LexLe(key(x), key(xs[0])) then [x] + xs
    else
      assert xs == [xs[0]] + xs[1..];
      [xs[0]] + Insert(xs[1..], x, key)
  }

  lemma {:induction false} InsertSorted<T>(xs: seq<T>, x: T, key: T -> seq<nat>)
    requires SortedByKey(xs, key)
    ensures SortedByKey(Insert(xs, x, key), key)
  {
    if |xs| > 0 {
      if LexLe(key(x), key(xs[0])) {
        forall j | 0 < j < |xs| ensures LexLe(key(x), key(xs[j])) {
          LexLeTransitive(key(x), key(xs[0]), key(xs[j]));
        }
      } else {
        LexLeTotal(key(x), key(xs[0]));
        InsertSorted(xs[1..], x, key);
        var r := Insert(xs[1..], x, key);
        forall j | 0 <= j < |r| ensures LexLe(key(xs[0]), key(r[j])) {
          if r[j] != x {
            var k :| 0 <= k < |xs[1..]| && xs[1..][k] == r[j];
            assert xs[k + 1] == r[j];
          }
        }
      }
    }
  }

  /** Insertion sort by key (Python sorts a set, whose order among equal
      keys is not specified; this is one valid order). */
  function SortByKey<T>(xs: seq<T>, key: T -> seq<nat>): (r: seq<T>)
    ensures SortedByKey(r, key)
    ensures multiset(r) == multiset(xs)
  {
    if |xs| == 0 then []
    else
      var init := xs[..|xs| - 1];
      assert xs == init + [xs[|xs| - 1]];
      InsertSorted(SortByKey(init, key), xs[|xs| - 1], key);
      Insert(SortByKey(init, key), xs[|xs| - 1], key)
  }

  /** The numeric sort of `extract_section_numbers`: each match trimmed,
      collected in a set, sorted by its integer components. */
  function SectionNumbers(matches: seq<string>): seq<string>
  {
    SortByKey(Dedup(Trimmed(matches)), Key)
  }

  /** Two equal entries of a sequence make its multiset count the value twice. */
  lemma CountTwo<T>(r: seq<T>, i: nat, j: nat)
    requires i < j < |r| && r[i] == r[j]
    ensures multiset(r)[r[i]] >= 2
  {
    assert r == r[..j] + [r[j]] + r[j + 1..];
    assert r[i] in r[..j];
  }

  /** In a duplicate-free sequence every element occurs once. */
  lemma {:induction false} CountOne<T>(xs: seq<T>, x: T)
    requires NoDuplicates(xs)
    ensures multiset(xs)[x] <= 1
  {
    if |xs| > 0 {
      var init := xs[..|xs| - 1];
      assert xs == init + [xs[|xs| - 1]];
      CountOne(init, x);
      assert xs[|xs| - 1] !in init;
    }
  }

  /** A permutation of a duplicate-free sequence is duplicate-free. */
  lemma PermutationNoDuplicates<T>(xs: seq<T>, r: seq<T>)
    requires multiset(r) == multiset(xs) && NoDuplicates(xs)
    ensures NoDuplicates(r)
  {
    forall i, j | 0 <= i < j < |r| ensures r[i] != r[j] {
      if r[i] == r[j] {
        CountTwo(r, i, j);
        CountOne(xs, r[i]);
      }
    }
  }

  /** Sequences with the same multiset have the same elements. */
  lemma PermutationMembers<T>(xs: seq<T>, r: seq<T>)
    requires multiset(r) == multiset(xs)
    ensures forall x :: x in r <==> x in xs
  {
    forall x ensures x in r <==> x in xs {
      assert x in r <==> x in multiset(r);
      assert x in xs <==> x in multiset(xs);
    }
  }

  /** The trimmed matches. */
  function Trimmed(matches: seq<string>): (t: seq<string>)
    ensures |t| == |matches|
    ensures forall k | 0 <= k < |matches| :: t[k] == TrimEnd(matches[k])
  {
    seq(|matches|, i requires 0 <= i < |matches| => TrimEnd(matches[i]))
  }

  /** The result holds each trimmed match exactly once, ordered by its
      integer components. */
  lemma SectionNumbersSpec(matches: seq<string>)
    ensures NoDuplicates(SectionNumbers(matches))
    ensures SortedByKey(SectionNumbers(matches), Key)
    ensures forall x :: x in SectionNumbers(matches) <==> x in Trimmed(matches)
  {
    var unique := Dedup(Trimmed(matches));
    var r := SectionNumbers(matches);
    PermutationNoDuplicates(unique, r);
    PermutationMembers(unique, r);
    forall x ensures x in unique <==> x in Trimmed(matches) {
      if x in unique {
        var k :| 0 <= k < |unique| && unique[k] == x;
      }
    }
  }
}
