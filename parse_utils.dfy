/** The reference and image helpers of the answer post-processing:
    `extract_page_numbers`, `extract_references_with_context`,
    `order_dict_by_keys`, `extract_image_references`, and the grouping,
    page lookup and placeholder rewriting of `process_content_references`
    and `process_images_parallel`. The fact checker and the image
    extractor are given functions; the thread pools are modelled as the
    sequential order in which their results are read. */
module ParseUtils {
  import opened Wrappers
  import opened Strings
  import opened Order
  import opened Dicts
  import opened SubTemplate

  // ------------------------------------------------------------ extract_page_numbers

  /** `[Pp]age\s+(\d+)` matches at `i`. The whitespace run and the digit
      run are both maximal, as the pattern's classes do not overlap. */
  predicate PageAt(s: string, i: nat)
    requires i <= |s|
  {
    i + 4 <= |s| && (s[i] == 'P' || s[i] == 'p') && s[i + 1..i + 4] == "age"
    && SpaceRun(s, i + 4) > 0 && DigitRun(s, i + 4 + SpaceRun(s, i + 4)) > 0
  }

  /** Where the number of a page match at `i` starts. */
  function NumberStart(s: string, i: nat): (j: nat)
    requires i + 4 <= |s|
    ensures j <= |s|
  {
    i + 4 + SpaceRun(s, i + 4)
  }

  /** The number captured by a page match at `i`. */
  function PageNumberAt(s: string, i: nat): string
    requires i + 4 <= |s|
  {
    var j := NumberStart(s, i);
    s[j..j + DigitRun(s, j)]
  }

  /** `re.findall` from `i`: matches are taken left to right, and the
      search resumes after the end of each match. */
  function PageNumbersFrom(s: string, i: nat): seq<string>
    requires i <= |s|
    decreases |s| - i
  {
    if i == |s| then []
    else if PageAt(s, i) then
      var j := NumberStart(s, i);
      [PageNumberAt(s, i)] + PageNumbersFrom(s, j + DigitRun(s, j))
    else PageNumbersFrom(s, i + 1)
  }

  /** `extract_page_numbers`. */
  function ExtractPageNumbers(text: string): seq<string> {
    PageNumbersFrom(text, 0)
  }

  /** Every page number found is a run of digits. */
  lemma {:induction false} PageNumbersNumerals(s: string, i: nat)
    requires i <= |s|
    ensures forall k | 0 <= k < |PageNumbersFrom(s, i)| :: IsNumeral(PageNumbersFrom(s, i)[k])
    decreases |s| - i
  {
    if i < |s| {
      if PageAt(s, i) {
        var j := NumberStart(s, i);
        PageNumbersNumerals(s, j + DigitRun(s, j));
        DigitRunDigits(s, j);
      } else {
        PageNumbersNumerals(s, i + 1);
      }
    }
  }

  /** No page number is found exactly when no `Page`/`page` match starts
      at or after `i`. */
  lemma {:induction false} PageNumbersNone(s: string, i: nat)
    requires i <= |s|
    ensures PageNumbersFrom(s, i) == [] <==> forall p | i <= p < |s| :: !PageAt(s, p)
    decreases |s| - i
  {
    if i < |s| && !PageAt(s, i) {
      PageNumbersNone(s, i + 1);
    }
  }

  // ------------------------------------------------------------ reference markers

  /** `\[(\d+)\]` matches at `i`. */
  predicate RefAt(s: string, i: nat)
    requires i <= |s|
  {
    i < |s| && s[i] == '[' && DigitRun(s, i + 1) > 0
    && i + 1 + DigitRun(s, i + 1) < |s| && s[i + 1 + DigitRun(s, i + 1)] == ']'
  }

  /** The reference numbers of the `[n]` markers from `i` on, in order. */
  function RefsFrom(s: string, i: nat): seq<string>
    requires i <= |s|
    decreases |s| - i
  {
    if i == |s| then []
    else if RefAt(s, i) then
      var d := DigitRun(s, i + 1);
      [s[i + 1..i + 1 + d]] + RefsFrom(s, i + 2 + d)
    else RefsFrom(s, i + 1)
  }

  lemma {:induction false} RefsNumerals(s: string, i: nat)
    requires i <= |s|
    ensures forall k | 0 <= k < |RefsFrom(s, i)| :: IsNumeral(RefsFrom(s, i)[k])
    decreases |s| - i
  {
    if i < |s| {
      if RefAt(s, i) {
        RefsNumerals(s, i + 2 + DigitRun(s, i + 1));
        DigitRunDigits(s, i + 1);
      } else {
        RefsNumerals(s, i + 1);
      }
    }
  }

  /** A text has reference numbers exactly when some `[n]` marker occurs. */
  lemma {:induction false} RefsNone(s: string, i: nat)
    requires i <= |s|
    ensures RefsFrom(s, i) == [] <==> forall p | i <= p < |s| :: !RefAt(s, p)
    decreases |s| - i
  {
    if i < |s| && !RefAt(s, i) {
      RefsNone(s, i + 1);
    }
  }

  // ------------------------------------------------------------ extract_references_with_context

  /** `re.split(r"(?<=\.)\s+|(?<=\n)", s)`, scanning positions from `p`
      with the current piece starting at `start`. At `p` the first
      alternative matches a maximal whitespace run after a `.`; otherwise
      the second matches the empty string after a line break. The
      separators are dropped. */
  function Pieces(s: string, start: nat, p: nat): seq<string>
    requires 1 <= p <= |s| + 1 && start <= p && start <= |s|
    decreases |s| + 1 - p
  {
    if p > |s| then [s[start..]]
    else if s[p - 1] == '.' && SpaceRun(s, p) > 0 then
      [s[start..p]] + Pieces(s, p + SpaceRun(s, p), p + SpaceRun(s, p))
    else if s[p - 1] == '\n' then [s[start..p]] + Pieces(s, p, p + 1)
    else Pieces(s, start, p + 1)
  }

  function SplitSentences(s: string): seq<string> {
    Pieces(s, 0, 1)
  }

  /** A line break can only be the last character of a piece: the text
      is also split after every line break. */
  lemma {:induction false} PiecesWithinLines(s: string, start: nat, p: nat)
    requires 1 <= p <= |s| + 1 && start <= p && start <= |s|
    requires forall q | start <= q < p - 1 :: s[q] != '\n'
    ensures forall k, q | 0 <= k < |Pieces(s, start, p)| && 0 <= q < |Pieces(s, start, p)[k]| - 1 ::
      Pieces(s, start, p)[k][q] != '\n'
    decreases |s| + 1 - p
  {
    if p <= |s| {
      if s[p - 1] == '.' && SpaceRun(s, p) > 0 {
        PiecesWithinLines(s, p + SpaceRun(s, p), p + SpaceRun(s, p));
      } else if s[p - 1] == '\n' {
        PiecesWithinLines(s, p, p + 1);
      } else {
        PiecesWithinLines(s, start, p + 1);
      }
    }
  }

  /** The text without its whitespace. */
  function Ink(s: string): string {
    if |s| == 0 then "" else (if IsSpace(s[0]) then "" else [s[0]]) + Ink(s[1..])
  }

  lemma {:induction false} InkAppend(a: string, b: string)
    ensures Ink(a + b) == Ink(a) + Ink(b)
  {
    if |a| > 0 {
      assert (a + b)[1..] == a[1..] + b;
      InkAppend(a[1..], b);
    } else {
      assert a + b == b;
    }
  }

  lemma {:induction false} InkBlank(s: string)
    requires forall k | 0 <= k < |s| :: IsSpace(s[k])
    ensures Ink(s) == ""
  {
    if |s| > 0 {
      InkBlank(s[1..]);
    }
  }

  /** Dropping a whitespace run from the middle of a text keeps its ink. */
  lemma InkSkip(s: string, start: nat, p: nat, e: nat)
    requires start <= p <= e <= |s|
    requires forall k | p <= k < e :: IsSpace(s[k])
    ensures Ink(s[start..]) == Ink(s[start..p]) + Ink(s[e..])
  {
    assert s[start..] == s[start..p] + s[p..e] + s[e..];
    InkAppend(s[start..p] + s[p..e], s[e..]);
    InkAppend(s[start..p], s[p..e]);
    InkBlank(s[p..e]);
  }

  /** Splitting only drops whitespace: the pieces hold every other
      character of the text, in order. */
  lemma {:induction false} PiecesKeepInk(s: string, start: nat, p: nat)
    requires 1 <= p <= |s| + 1 && start <= p && start <= |s|
    ensures Ink(Concat(Pieces(s, start, p))) == Ink(s[start..])
    decreases |s| + 1 - p
  {
    if p > |s| {
      LastPiece(s, start, p);
    } else {
      var cut, e, next := PiecesStep(s, start, p);
      if cut {
        PiecesKeepInk(s, e, next);
        CutKeepsInk(s, start, p, e, Pieces(s, e, next));
      } else {
        PiecesKeepInk(s, start, next);
      }
    }
  }

  /** One step of the split at `p`: either a cut, after which the next
      piece starts at `e` past the dropped whitespace, or no cut. */
  lemma PiecesStep(s: string, start: nat, p: nat) returns (cut: bool, e: nat, next: nat)
    requires 1 <= p <= |s| && start <= p
    ensures p < next <= |s| + 1
    ensures cut ==> p <= e <= next && e <= |s| && (forall k | p <= k < e :: IsSpace(s[k]))
    ensures cut ==> Pieces(s, start, p) == [s[start..p]] + Pieces(s, e, next)
    ensures !cut ==> Pieces(s, start, p) == Pieces(s, start, next)
  {
    if s[p - 1] == '.' && SpaceRun(s, p) > 0 {
      cut, e := true, p + SpaceRun(s, p);
      next := e;
      SpaceRunSpaces(s, p);
    } else if s[p - 1] == '\n' {
      cut, e, next := true, p, p + 1;
    } else {
      cut, e, next := false, start, p + 1;
    }
  }

  /** Past the end of the text the rest is one piece. */
  lemma LastPiece(s: string, start: nat, p: nat)
    requires |s| < p <= |s| + 1 && start <= |s|
    ensures Concat(Pieces(s, start, p)) == s[start..]
  {
    assert Pieces(s, start, p) == [s[start..]] + [];
    ConcatCons(s[start..], []);
  }

  /** One cut of the split: the piece before it, the dropped whitespace,
      and the pieces after it. */
  lemma CutKeepsInk(s: string, start: nat, p: nat, e: nat, rest: seq<string>)
    requires start <= p <= e <= |s|
    requires forall k | p <= k < e :: IsSpace(s[k])
    requires Ink(Concat(rest)) == Ink(s[e..])
    ensures Ink(Concat([s[start..p]] + rest)) == Ink(s[start..])
  {
    ConcatCons(s[start..p], rest);
    InkAppend(s[start..p], Concat(rest));
    InkSkip(s, start, p, e);
  }

  /** The pieces that hold a reference marker, stripped, each with its
      reference numbers. */
  function WithRefs(pieces: seq<string>): seq<(string, seq<string>)>
  {
    if |pieces| == 0 then []
    else
      var last := pieces[|pieces| - 1];
      WithRefs(pieces[..|pieces| - 1]) + (if RefsFrom(last, 0) != [] then [(Strip(last), RefsFrom(last, 0))] else [])
  }

  /** `extract_references_with_context`. */
  function ReferencesWithContext(text: string): seq<(string, seq<string>)> {
    WithRefs(SplitSentences(text))
  }

  lemma {:induction false} WithRefsSpec(pieces: seq<string>)
    requires forall k, q | 0 <= k < |pieces| && 0 <= q < |pieces[k]| - 1 :: pieces[k][q] != '\n'
    ensures forall k | 0 <= k < |WithRefs(pieces)| :: '\n' !in WithRefs(pieces)[k].0
    ensures forall k | 0 <= k < |WithRefs(pieces)| :: WithRefs(pieces)[k].1 != []
    ensures forall k, j | 0 <= k < |WithRefs(pieces)| && 0 <= j < |WithRefs(pieces)[k].1| :: IsNumeral(WithRefs(pieces)[k].1[j])
  {
    if |pieces| > 0 {
      var last := pieces[|pieces| - 1];
      WithRefsSpec(pieces[..|pieces| - 1]);
      RefsNumerals(last, 0);
      StripOneLine(last);
    }
  }

  /** A piece whose only newline is its last character strips to a
      fragment without newlines. */
  lemma StripOneLine(last: string)
    requires forall q | 0 <= q < |last| - 1 :: last[q] != '\n'
    ensures '\n' !in Strip(last)
  {
    var r := Strip(last);
    forall q | 0 <= q < |r| ensures r[q] != '\n' {
      assert r[q] == last[StripStart(last) + q];
      if StripStart(last) + q == |last| - 1 {
        assert q == |r| - 1;
      }
    }
  }

  /** Every fragment returned lies within one line, holds at least one
      reference, and its references are numerals. */
  lemma ReferencesWithContextSpec(text: string)
    ensures forall k | 0 <= k < |ReferencesWithContext(text)| :: '\n' !in ReferencesWithContext(text)[k].0
    ensures forall k | 0 <= k < |ReferencesWithContext(text)| :: ReferencesWithContext(text)[k].1 != []
    ensures forall k, j | 0 <= k < |ReferencesWithContext(text)| && 0 <= j < |ReferencesWithContext(text)[k].1| ::
      IsNumeral(ReferencesWithContext(text)[k].1[j])
  {
    PiecesWithinLines(text, 0, 1);
    WithRefsSpec(SplitSentences(text));
  }

  // ------------------------------------------------------------ order_dict_by_keys

  predicate KeysSorted<V>(d: seq<(string, V)>) {
    forall i, j | 0 <= i < j < |d| :: Less(d[i].0, d[j].0)
  }

  /** Everything drawn from the tail of a sorted list, or above its head,
      is above its head. */
  lemma AboveHead<V>(d: seq<(string, V)>, x: (string, V), t: seq<(string, V)>)
    requires KeysSorted(d) && |d| > 0 && Less(d[0].0, x.0)
    requires forall k | 0 <= k < |t| :: t[k] == x || t[k] in d[1..]
    ensures forall k | 0 <= k < |t| :: Less(d[0].0, t[k].0)
  {
    forall k | 0 <= k < |t| ensures Less(d[0].0, t[k].0) {
      if t[k] != x {
        var m :| 0 <= m < |d[1..]| && d[1..][m] == t[k];
        assert d[m + 1] == t[k];
      }
    }
  }

  lemma SortedCons<V>(y: (string, V), t: seq<(string, V)>)
    requires KeysSorted(t)
    requires forall k | 0 <= k < |t| :: Less(y.0, t[k].0)
    ensures KeysSorted([y] + t)
  {
    var r := [y] + t;
    forall i, j | 0 <= i < j < |r| ensures Less(r[i].0, r[j].0) {
      if i > 0 {
        assert r[i] == t[i - 1] && r[j] == t[j - 1];
      } else {
        assert r[j] == t[j - 1];
      }
    }
  }

  /** An item below the head of a sorted list goes in front of it. */
  lemma BelowHead<V>(d: seq<(string, V)>, x: (string, V))
    requires KeysSorted(d) && |d| > 0 && Less(x.0, d[0].0)
    ensures KeysSorted([x] + d)
  {
    forall j | 0 < j < |d| ensures Less(x.0, d[j].0) {
      LessTransitive(x.0, d[0].0, d[j].0);
    }
    SortedCons(x, d);
  }

  /** Inserts an item whose key is not yet present at its place by key. */
  function InsertItem<V>(d: seq<(string, V)>, x: (string, V)): (r: seq<(string, V)>)
    requires KeysSorted(d)
    requires forall k | 0 <= k < |d| :: d[k].0 != x.0
    ensures KeysSorted(r)
    ensures multiset(r) == multiset(d) + multiset{x}
    ensures forall k | 0 <= k < |r| :: r[k] == x || r[k] in d
  {
    if d == [] then [x]
    else if Less(x.0, d[0].0) then
      BelowHead(d, x);
      [x] + d
    else
      LessTotal(x.0, d[0].0);
      assert d == [d[0]] + d[1..];
      var t := InsertItem(d[1..], x);
      AboveHead(d, x, t);
      SortedCons(d[0], t);
      [d[0]] + t
  }

  /** `order_dict_by_keys`: the same items, with the keys in ascending
      string order. */
  function OrderByKeys<V>(d: seq<(string, V)>): (r: seq<(string, V)>)
    requires UniqueKeys(d)
    ensures KeysSorted(r)
    ensures multiset(r) == multiset(d)
  {
    if d == [] then []
    else
      var init := d[..|d| - 1];
      var x := d[|d| - 1];
      assert d == init + [x];
      var t := OrderByKeys(init);
      forall k | 0 <= k < |t| ensures t[k].0 != x.0 {
        assert t[k] in multiset(init);
        var m :| 0 <= m < |init| && init[m] == t[k];
      }
      InsertItem(t, x)
  }

  /** The ordered dictionary has the same items and the same lookups. */
  lemma OrderByKeysSameItems<V>(d: seq<(string, V)>)
    requires UniqueKeys(d)
    ensures |OrderByKeys(d)| == |d|
    ensures forall x :: x in OrderByKeys(d) <==> x in d
  {
    var r := OrderByKeys(d);
    assert |r| == |multiset(r)| == |multiset(d)| == |d|;
    forall x ensures x in r <==> x in d {
      assert x in r <==> x in multiset(r);
      assert x in d <==> x in multiset(d);
    }
  }

  // ------------------------------------------------------------ grouping by first reference

  /** `references[ref[0]] += content + "\n\n"` on a `defaultdict(str)`,
      applied to the fragments in order. */
  function Grouped(results: seq<(string, seq<string>)>): (g: seq<(string, string)>)
    requires forall k | 0 <= k < |results| :: results[k].1 != []
    ensures UniqueKeys(g)
    ensures forall i | 0 <= i < |g| :: exists k | 0 <= k < |results| :: results[k].1[0] == g[i].0
  {
    if |results| == 0 then []
    else
      var init := results[..|results| - 1];
      var g := Grouped(init);
      var item := results[|results| - 1];
      Extend(g, item.1[0], item.0 + "\n\n")
  }

  /** What `key` collects: the fragments whose first reference is `key`,
      each followed by a blank line, in order. */
  function Collected(results: seq<(string, seq<string>)>, key: string): string
    requires forall k | 0 <= k < |results| :: results[k].1 != []
  {
    if |results| == 0 then ""
    else
      var item := results[|results| - 1];
      Collected(results[..|results| - 1], key) + (if item.1[0] == key then item.0 + "\n\n" else "")
  }

  /** Each fragment is filed under its first reference only: every first
      reference has an entry. */
  lemma {:induction false} GroupedKeys(results: seq<(string, seq<string>)>)
    requires forall k | 0 <= k < |results| :: results[k].1 != []
    ensures forall k | 0 <= k < |results| :: KeyIndex(Grouped(results), results[k].1[0]) < |Grouped(results)|
  {
    if |results| > 0 {
      var init := results[..|results| - 1];
      GroupedKeys(init);
      var g := Grouped(init);
      var item := results[|results| - 1];
      forall k | 0 <= k < |results|
        ensures KeyIndex(Extend(g, item.1[0], item.0 + "\n\n"), results[k].1[0]) < |Extend(g, item.1[0], item.0 + "\n\n")|
      {
        if k < |results| - 1 {
          assert results[k] == init[k];
        }
        ExtendFinds(g, item.1[0], item.0 + "\n\n", results[k].1[0]);
      }
    }
  }

  /** A key that no fragment is filed under collects nothing. */
  lemma {:induction false} CollectedAbsent(results: seq<(string, seq<string>)>, key: string)
    requires forall k | 0 <= k < |results| :: results[k].1 != [] && results[k].1[0] != key
    ensures Collected(results, key) == ""
  {
    if |results| > 0 {
      CollectedAbsent(results[..|results| - 1], key);
    }
  }

  /** Every entry holds exactly what its reference collects. */
  lemma {:induction false} GroupedValues(results: seq<(string, seq<string>)>)
    requires forall k | 0 <= k < |results| :: results[k].1 != []
    ensures forall i | 0 <= i < |Grouped(results)| :: Grouped(results)[i].1 == Collected(results, Grouped(results)[i].0)
  {
    if |results| > 0 {
      var init := results[..|results| - 1];
      GroupedValues(init);
      var g := Grouped(init);
      var item := results[|results| - 1];
      var i := KeyIndex(g, item.1[0]);
      if i == |g| {
        GroupedKeys(init);
        CollectedAbsent(init, item.1[0]);
      }
    }
  }

  /** The grouped contents, each stripped. */
  function StripValues(g: seq<(string, string)>): (r: seq<(string, string)>)
    ensures |r| == |g|
    ensures forall i | 0 <= i < |g| :: r[i] == (g[i].0, Strip(g[i].1))
  {
    seq(|g|, i requires 0 <= i < |g| => (g[i].0, Strip(g[i].1)))
  }

  // ------------------------------------------------------------ matching pages

  /** `int(p)` of a page number (always a run of digits, by
      `PageNumbersNumerals`; anything else reads as 0 and does not occur). */
  function Int(p: string): nat {
    if AllDigits(p) then ParseNat(p) else 0
  }

  /** `[int(p) for p in page]`. */
  function Ints(ps: seq<string>): (r: seq<nat>)
    ensures |r| == |ps|
    ensures forall k | 0 <= k < |ps| :: r[k] == Int(ps[k])
  {
    seq(|ps|, i requires 0 <= i < |ps| => Int(ps[i]))
  }

  /** `find_matching_pages` for one reference: the page numbers of the
      first chunk, in knowledge order, that the fact checker answers
      "yes" for. */
  function MatchingPages(content: string, knowledge: seq<string>, yes: (string, string) -> bool): (r: Option<seq<nat>>)
    ensures r.None? <==> forall k | 0 <= k < |knowledge| :: !yes(content, knowledge[k])
  {
    if |knowledge| == 0 then None
    else if yes(content, knowledge[0]) then
      Some(Ints(ExtractPageNumbers(knowledge[0])))
    else
      assert forall k | 1 <= k < |knowledge| :: knowledge[k] == knowledge[1..][k - 1];
      MatchingPages(content, knowledge[1..], yes)
  }

  /** The found pages are those of the first chunk judged to match. */
  lemma {:induction false} MatchingPagesFirst(content: string, knowledge: seq<string>, yes: (string, string) -> bool, k: nat)
    requires k < |knowledge| && yes(content, knowledge[k])
    requires forall m | 0 <= m < k :: !yes(content, knowledge[m])
    ensures MatchingPages(content, knowledge, yes) == Some(Ints(ExtractPageNumbers(knowledge[k])))
  {
    if k > 0 {
      MatchingPagesFirst(content, knowledge[1..], yes, k - 1);
    }
  }

  /** `ref_pages`: the references for which some chunk matched, in the
      order of the grouped references. */
  function RefPages(groups: seq<(string, string)>, knowledge: seq<string>, yes: (string, string) -> bool): (r: seq<(string, seq<nat>)>)
    ensures |r| <= |groups|
    ensures forall i | 0 <= i < |r| ::
      exists k | 0 <= k < |groups| :: groups[k].0 == r[i].0 && MatchingPages(groups[k].1, knowledge, yes) == Some(r[i].1)
  {
    if |groups| == 0 then []
    else
      var rest := RefPages(groups[..|groups| - 1], knowledge, yes);
      var g := groups[|groups| - 1];
      match MatchingPages(g.1, knowledge, yes)
      case Some(pages) => rest + [(g.0, pages)]
      case None => rest
  }

  /** Dropping unmatched references keeps the keys unique. */
  lemma {:induction false} RefPagesUnique(groups: seq<(string, string)>, knowledge: seq<string>, yes: (string, string) -> bool)
    requires UniqueKeys(groups)
    ensures UniqueKeys(RefPages(groups, knowledge, yes))
  {
    if |groups| > 0 {
      var init := groups[..|groups| - 1];
      RefPagesUnique(init, knowledge, yes);
      var rest := RefPages(init, knowledge, yes);
      forall i | 0 <= i < |rest| ensures rest[i].0 != groups[|groups| - 1].0 {
        var k :| 0 <= k < |init| && init[k].0 == rest[i].0;
      }
    }
  }

  // ------------------------------------------------------------ replacement pairs

  function SeqMin(xs: seq<nat>): (m: nat)
    requires |xs| > 0
    ensures m in xs && forall k | 0 <= k < |xs| :: m <= xs[k]
  {
    if |xs| == 1 then xs[0]
    else
      var m := SeqMin(xs[1..]);
      if xs[0] <= m then xs[0] else m
  }

  function SeqMax(xs: seq<nat>): (m: nat)
    requires |xs| > 0
    ensures m in xs && forall k | 0 <= k < |xs| :: xs[k] <= m
  {
    if |xs| == 1 then xs[0]
    else
      var m := SeqMax(xs[1..]);
      if xs[0] >= m then xs[0] else m
  }

  /** `[n]`. */
  function Label(n: nat): string {
    "[" + NatToString(n) + "]"
  }

  /** The page part of a link: one page, or the lowest and highest. */
  function PageSpan(pages: seq<nat>): string
    requires |pages| > 0
  {
    if |pages| == 1 then NatToString(pages[0])
    else NatToString(SeqMin(pages)) + "-" + NatToString(SeqMax(pages))
  }

  /** The replacement for the entry at sorted position `idx`: the key is
      a string and never equals `idx + 1`, so the label is always the
      position's. */
  function Link(idx: nat, pages: seq<nat>): (string, string)
    requires |pages| > 0
  {
    (Label(idx + 1), Label(idx + 1) + "(PATH_PLACEHOLDER#page=" + PageSpan(pages) + ")")
  }

  /** The replacement list as written: an entry with no pages matches
      neither branch, so it re-appends the previous entry's pair, and
      raises `UnboundLocalError` when it is the first. */
  function ReplacementsAsWritten(refPages: seq<(string, seq<nat>)>): (r: Result<seq<(string, string)>>)
    ensures r.Success? ==> forall k | 0 <= k < |r.value| :: |r.value[k].0| > 0
  {
    if |refPages| == 0 then Success([])
    else
      var idx := |refPages| - 1;
      match ReplacementsAsWritten(refPages[..idx])
      case Failure(e) => Failure(e)
      case Success(reps) =>
        if |refPages[idx].1| > 0 then Success(reps + [Link(idx, refPages[idx].1)])
        else if |reps| == 0 then Failure("UnboundLocalError")
        else Success(reps + [reps[|reps| - 1]])
  }

  /** The positions of the entries that have pages, in increasing order. */
  function Linked(refPages: seq<(string, seq<nat>)>): (r: seq<nat>)
    ensures forall k | 0 <= k < |r| :: r[k] < |refPages| && |refPages[r[k]].1| > 0
    ensures forall k, l | 0 <= k < l < |r| :: r[k] < r[l]
  {
    if |refPages| == 0 then []
    else
      var idx := |refPages| - 1;
      Linked(refPages[..idx]) + (if |refPages[idx].1| > 0 then [idx] else [])
  }

  /** The replacement list as intended: one pair per entry with pages,
      in order. */
  function Replacements(refPages: seq<(string, seq<nat>)>): (r: seq<(string, string)>)
    ensures |r| == |Linked(refPages)|
  {
    var ps := Linked(refPages);
    seq(|ps|, i requires 0 <= i < |ps| => Link(ps[i], refPages[ps[i]].1))
  }

  /** A reference found only in a chunk without any `Page n` mark makes
      the original raise, and after an entry with pages it repeats that
      entry's pair instead of leaving its own label alone. */
  lemma EmptyPagesAsWritten()
    ensures ReplacementsAsWritten([("1", [])]).Failure?
    ensures ReplacementsAsWritten([("1", [4]), ("2", [])]) == Success([Link(0, [4]), Link(0, [4])])
  {
    var one: seq<(string, seq<nat>)> := [("1", [])];
    assert one[..0] == [];
    var two: seq<(string, seq<nat>)> := [("1", [4]), ("2", [])];
    assert two[..1] == [("1", [4])];
    assert two[..1][..0] == [];
    assert ReplacementsAsWritten(two[..1][..0]) == Success([]);
    assert two[..1][0].1 == [4];
    assert ReplacementsAsWritten(two[..1]) == Success([] + [Link(0, [4])]);
    assert [] + [Link(0, [4])] == [Link(0, [4])];
    assert |two| - 1 == 1 && two[1].1 == [];
    assert ReplacementsAsWritten(two) == Success([Link(0, [4])] + [Link(0, [4])]);
    assert [Link(0, [4])] + [Link(0, [4])] == [Link(0, [4]), Link(0, [4])];
  }

  /** In the intended list the labels are pairwise distinct: each pair
      rewrites its own entry's position. */
  lemma ReplacementsDistinct(refPages: seq<(string, seq<nat>)>)
    ensures forall i, j | 0 <= i < j < |Replacements(refPages)| :: Replacements(refPages)[i].0 != Replacements(refPages)[j].0
  {
    var ps := Linked(refPages);
    var r := Replacements(refPages);
    forall i, j | 0 <= i < j < |r| ensures r[i].0 != r[j].0 {
      if r[i].0 == r[j].0 {
        assert r[i].0 == Label(ps[i] + 1) && r[j].0 == Label(ps[j] + 1);
        LabelInjective(ps[i] + 1, ps[j] + 1);
      }
    }
  }

  /** Every entry with pages, and only those, is linked. */
  lemma {:induction false} LinkedCoversEntries(refPages: seq<(string, seq<nat>)>)
    ensures forall idx | 0 <= idx < |refPages| :: idx in Linked(refPages) <==> |refPages[idx].1| > 0
  {
    if |refPages| > 0 {
      var idx := |refPages| - 1;
      var init := refPages[..idx];
      LinkedCoversEntries(init);
      forall m | 0 <= m < idx ensures refPages[m] == init[m] { }
    }
  }

  lemma LabelInjective(m: nat, n: nat)
    requires Label(m) == Label(n)
    ensures m == n
  {
    var a := NatToString(m);
    var b := NatToString(n);
    assert a == Label(m)[1..|Label(m)| - 1];
    assert b == Label(n)[1..|Label(n)| - 1];
    NatToStringInjective(m, n);
  }

  /** Where every entry has pages the two lists agree. */
  lemma {:induction false} ReplacementsAgree(refPages: seq<(string, seq<nat>)>)
    requires forall k | 0 <= k < |refPages| :: |refPages[k].1| > 0
    ensures ReplacementsAsWritten(refPages) == Success(Replacements(refPages))
  {
    if |refPages| > 0 {
      var init := refPages[..|refPages| - 1];
      ReplacementsAgree(init);
      ReplacementsAppend(refPages);
    }
  }

  /** The intended list grows by the last entry's pair, if it has pages. */
  lemma ReplacementsAppend(refPages: seq<(string, seq<nat>)>)
    requires |refPages| > 0
    ensures var idx := |refPages| - 1;
      Replacements(refPages) == Replacements(refPages[..idx]) + (if |refPages[idx].1| > 0 then [Link(idx, refPages[idx].1)] else [])
  {
    var idx := |refPages| - 1;
    var init := refPages[..idx];
    var a := Replacements(init);
    var ps := Linked(init);
    var tail := if |refPages[idx].1| > 0 then [idx] else [];
    assert Linked(refPages) == ps + tail;
    forall i | 0 <= i < |a| ensures Replacements(refPages)[i] == a[i] {
      assert Linked(refPages)[i] == ps[i];
      assert refPages[ps[i]] == init[ps[i]];
    }
  }

  lemma {:induction false} LinkedAll(refPages: seq<(string, seq<nat>)>)
    requires forall k | 0 <= k < |refPages| :: |refPages[k].1| > 0
    ensures |Linked(refPages)| == |refPages|
    ensures forall k | 0 <= k < |refPages| :: Linked(refPages)[k] == k
  {
    if |refPages| > 0 {
      LinkedAll(refPages[..|refPages| - 1]);
    }
  }

  // ------------------------------------------------------------ rewriting unlinked occurrences

  /** `pat` occurs at `k` and is not followed by `(`: what
      `re.escape(pat) + r"(?!\()"` matches. */
  predicate Unlinked(s: string, pat: string, k: nat) {
    k + |pat| <= |s| && s[k..k + |pat|] == pat && !(k + |pat| < |s| && s[k + |pat|] == '(')
  }

  /** `re.sub(re.escape(pat) + r"(?!\()", rep, s)`: every occurrence of
      `pat` not followed by `(` is replaced, left to right. */
  function ReplaceUnlinked(s: string, pat: string, rep: string): string
    requires |pat| > 0
    decreases |s|
  {
    if |s| == 0 then ""
    else if Unlinked(s, pat, 0) then rep + ReplaceUnlinked(s[|pat|..], pat, rep)
    else [s[0]] + ReplaceUnlinked(s[1..], pat, rep)
  }

  /** The replacements built by the rewriting steps link the pattern:
      `pat(...`, where the pattern's first character occurs nowhere else
      in the pattern or the link. */
  predicate LinkShape(pat: string, rep: string) {
    && |pat| > 0 && pat[0] != '('
    && |rep| > |pat| && rep[..|pat|] == pat && rep[|pat|] == '('
    && (forall k | 1 <= k < |rep| :: rep[k] != pat[0])
  }

  /** Up to the first occurrence of the pattern's first character the
      text is copied as it is. */
  lemma {:induction false} CopyUntil(s: string, pat: string, rep: string, m: nat)
    requires |pat| > 0 && m <= |s|
    requires forall q | 0 <= q < m :: s[q] != pat[0]
    ensures ReplaceUnlinked(s, pat, rep) == s[..m] + ReplaceUnlinked(s[m..], pat, rep)
  {
    if m > 0 {
      assert s[0] != pat[0];
      assert !Unlinked(s, pat, 0);
      CopyUntil(s[1..], pat, rep, m - 1);
      assert s[1..][m - 1..] == s[m..];
      assert s[..m] == [s[0]] + s[1..][..m - 1];
    }
  }

  /** A text starting with the pattern's first character still does so
      after rewriting, when the replacement starts with the pattern. */
  lemma StartsKept(s: string, pat: string, rep: string)
    requires LinkShape(pat, rep) && |s| > 0 && s[0] == pat[0]
    ensures |ReplaceUnlinked(s, pat, rep)| > 0 && ReplaceUnlinked(s, pat, rep)[0] == pat[0]
  {
  }

  /** The first position after `i` holding `c`, or `|s|`. */
  function NextChar(s: string, c: char, i: nat): (m: nat)
    requires i <= |s|
    ensures i <= m <= |s|
    ensures m < |s| ==> s[m] == c
    ensures forall q | i <= q < m :: s[q] != c
    decreases |s| - i
  {
    if i == |s| || s[i] == c then i else NextChar(s, c, i + 1)
  }

  /** A copied prefix shorter than the pattern, followed by the pattern's
      first character or by nothing, cannot start an occurrence. */
  lemma CutShort(s: string, pat: string, rep: string, m: nat, tail: string)
    requires LinkShape(pat, rep) && 1 <= m < |pat| && m <= |s|
    requires m < |s| ==> |tail| > 0 && tail[0] == pat[0]
    requires m == |s| ==> tail == []
    ensures !Unlinked(s[..m] + tail, pat, 0)
  {
    var t := s[..m] + tail;
    if m < |s| {
      assert t[m] == pat[0];
      assert pat[m] == rep[m] != pat[0];
      assert |pat| <= |t| ==> t[..|pat|][m] != pat[m];
    } else {
      assert |t| < |pat|;
    }
  }

  /** A copied prefix at least as long as the pattern starts an
      occurrence only where the text did, and keeps the `(` after it. */
  lemma CutLong(s: string, pat: string, m: nat, tail: string)
    requires 0 < |pat| <= m <= |s| && pat[0] != '('
    requires !Unlinked(s, pat, 0)
    requires m < |s| ==> s[m] == pat[0]
    ensures !Unlinked(s[..m] + tail, pat, 0)
  {
    var t := s[..m] + tail;
    if |pat| <= |t| && t[..|pat|] == pat {
      assert t[..|pat|] == s[..|pat|];
      assert s[|pat|] == '(';
      assert t[|pat|] == '(';
    }
  }

  /** The first character and what follows it up to the next occurrence
      of the pattern's first character are copied. */
  lemma CopyAfterFirst(s: string, pat: string, rep: string, m: nat)
    requires |pat| > 0 && 1 <= m <= |s|
    requires forall q | 1 <= q < m :: s[q] != pat[0]
    ensures [s[0]] + ReplaceUnlinked(s[1..], pat, rep) == s[..m] + ReplaceUnlinked(s[m..], pat, rep)
  {
    var t := s[1..];
    CopyUntil(t, pat, rep, m - 1);
    assert t[m - 1..] == s[m..];
    assert s[..m] == [s[0]] + t[..m - 1];
    AppendAssoc([s[0]], t[..m - 1], ReplaceUnlinked(s[m..], pat, rep));
  }

  /** Copying a character never completes an unlinked occurrence at it. */
  lemma NoUnlinkedAtCopy(s: string, pat: string, rep: string)
    requires LinkShape(pat, rep) && |s| > 0 && !Unlinked(s, pat, 0)
    ensures !Unlinked([s[0]] + ReplaceUnlinked(s[1..], pat, rep), pat, 0)
  {
    var c := pat[0];
    if s[0] == c {
      var m := NextChar(s, c, 1);
      CopyAfterFirst(s, pat, rep, m);
      var tail := ReplaceUnlinked(s[m..], pat, rep);
      if m < |pat| {
        if m < |s| {
          StartsKept(s[m..], pat, rep);
        }
        CutShort(s, pat, rep, m, tail);
      } else {
        CutLong(s, pat, m, tail);
      }
    }
  }

  /** An occurrence past a prefix is an occurrence in the rest. */
  lemma UnlinkedShift(h: string, u: string, pat: string, k: nat)
    requires |h| <= k
    ensures Unlinked(h + u, pat, k) <==> Unlinked(u, pat, k - |h|)
  {
    var t := h + u;
    if k + |pat| <= |t| {
      assert t[k..k + |pat|] == u[k - |h|..k - |h| + |pat|];
    }
  }

  /** No unlinked occurrence of the pattern starts inside a replacement
      after its first character. */
  lemma InsideLink(pat: string, rep: string, u: string, k: nat)
    requires LinkShape(pat, rep) && 0 < k < |rep|
    ensures !Unlinked(rep + u, pat, k)
  {
    assert (rep + u)[k] == rep[k];
  }

  /** After rewriting, every occurrence of the pattern is followed by
      `(`: nothing is left to rewrite. */
  lemma {:induction false} NoUnlinkedLeft(s: string, pat: string, rep: string)
    requires LinkShape(pat, rep)
    ensures forall k: nat :: !Unlinked(ReplaceUnlinked(s, pat, rep), pat, k)
    decreases |s|
  {
    if |s| > 0 {
      var t := ReplaceUnlinked(s, pat, rep);
      if Unlinked(s, pat, 0) {
        var u := ReplaceUnlinked(s[|pat|..], pat, rep);
        NoUnlinkedLeft(s[|pat|..], pat, rep);
        forall k: nat ensures !Unlinked(t, pat, k) {
          if k == 0 {
            assert t[..|pat|] == pat && t[|pat|] == '(';
          } else if k < |rep| {
            InsideLink(pat, rep, u, k);
          } else {
            UnlinkedShift(rep, u, pat, k);
          }
        }
      } else {
        var u := ReplaceUnlinked(s[1..], pat, rep);
        NoUnlinkedLeft(s[1..], pat, rep);
        NoUnlinkedAtCopy(s, pat, rep);
        forall k: nat | k > 0 ensures !Unlinked(t, pat, k) {
          UnlinkedShift([s[0]], u, pat, k);
        }
      }
    }
  }

  /** A text without unlinked occurrences is left as it is. */
  lemma {:induction false} ReplaceUnlinkedNoop(t: string, pat: string, rep: string)
    requires |pat| > 0
    requires forall k: nat :: !Unlinked(t, pat, k)
    ensures ReplaceUnlinked(t, pat, rep) == t
    decreases |t|
  {
    if |t| > 0 {
      assert !Unlinked(t, pat, 0);
      forall k: nat ensures !Unlinked(t[1..], pat, k) {
        assert t == [t[0]] + t[1..];
        UnlinkedShift([t[0]], t[1..], pat, k + 1);
      }
      ReplaceUnlinkedNoop(t[1..], pat, rep);
    }
  }

  /** Rewriting twice is rewriting once: links already made are skipped. */
  lemma ReplaceUnlinkedIdempotent(s: string, pat: string, rep: string)
    requires LinkShape(pat, rep)
    ensures ReplaceUnlinked(ReplaceUnlinked(s, pat, rep), pat, rep) == ReplaceUnlinked(s, pat, rep)
  {
    NoUnlinkedLeft(s, pat, rep);
    ReplaceUnlinkedNoop(ReplaceUnlinked(s, pat, rep), pat, rep);
  }

  lemma DigitsNoBracket(n: string)
    requires AllDigits(n)
    ensures '[' !in n
  {
  }

  /** `pat(x` links `pat` when the first character of `pat` is not `(`
      and occurs neither later in `pat` nor in `x`. */
  lemma ShapeOf(pat: string, x: string)
    requires |pat| > 0 && pat[0] != '(' && pat[0] !in pat[1..] && pat[0] !in x
    ensures LinkShape(pat, pat + "(" + x)
  {
    var rep := pat + "(" + x;
    forall k | 1 <= k < |rep| ensures rep[k] != pat[0] {
      if k < |pat| {
        assert rep[k] == pat[1..][k - 1];
      } else if k > |pat| {
        assert rep[k] == x[k - |pat| - 1];
      }
    }
    assert rep[..|pat|] == pat;
  }

  lemma SpanNoBracket(pages: seq<nat>)
    requires |pages| > 0
    ensures '[' !in PageSpan(pages)
  {
    if |pages| > 1 {
      DigitsNoBracket(NatToString(SeqMin(pages)));
      DigitsNoBracket(NatToString(SeqMax(pages)));
    } else {
      DigitsNoBracket(NatToString(pages[0]));
    }
  }

  lemma LabelNoBracket(n: nat)
    ensures Label(n)[0] == '[' && '[' !in Label(n)[1..]
  {
    DigitsNoBracket(NatToString(n));
    assert Label(n)[1..] == NatToString(n) + "]";
  }

  /** The links built for references have the shape the rewrite relies on. */
  lemma LinkHasShape(idx: nat, pages: seq<nat>)
    requires |pages| > 0
    ensures LinkShape(Link(idx, pages).0, Link(idx, pages).1)
  {
    var lab, head, span := Label(idx + 1), "(PATH_PLACEHOLDER#page=", PageSpan(pages);
    SpanNoBracket(pages);
    LabelNoBracket(idx + 1);
    assert '[' !in head;
    var y := head + span + ")";
    assert '[' !in y;
    assert Link(idx, pages).1 == lab + y by {
      AppendAssoc(lab + head, span, ")");
      AppendAssoc(lab, head, span + ")");
      AppendAssoc(head, span, ")");
    }
    ShapeOfTail(lab, y);
  }

  /** `pat` followed by a tail that opens with `(` and never repeats the
      first character of `pat` links `pat`. */
  lemma ShapeOfTail(pat: string, y: string)
    requires |pat| > 0 && pat[0] != '(' && pat[0] !in pat[1..]
    requires |y| > 0 && y[0] == '(' && pat[0] !in y
    ensures LinkShape(pat, pat + y)
  {
    var rep := pat + y;
    forall k | 1 <= k < |rep| ensures rep[k] != pat[0] {
      if k < |pat| {
        assert rep[k] == pat[1..][k - 1];
      } else {
        assert rep[k] == y[k - |pat|];
      }
    }
    assert rep[..|pat|] == pat;
  }

  // ------------------------------------------------------------ extract_image_references

  /** `!\[([^\]]+)\]` matches at `i`: the description runs to the first
      `]` and is not empty. */
  predicate ImageAt(s: string, i: nat)
    requires i <= |s|
  {
    i + 2 <= |s| && s[i] == '!' && s[i + 1] == '[' && 0 < IndexOf(s[i + 2..], ']') < |s| - (i + 2)
  }

  /** The `![desc]` references from `i` on, in order. */
  function ImagesFrom(s: string, i: nat): seq<string>
    requires i <= |s|
    decreases |s| - i
  {
    if i == |s| then []
    else if ImageAt(s, i) then
      var n := IndexOf(s[i + 2..], ']');
      ["![" + s[i + 2..i + 2 + n] + "]"] + ImagesFrom(s, i + 3 + n)
    else ImagesFrom(s, i + 1)
  }

  /** `extract_image_references`. */
  function ExtractImageReferences(text: string): (r: seq<string>)
    ensures forall k | 0 <= k < |r| :: IsImageRef(r[k])
  {
    ImagesWellFormed(text, 0);
    ImagesFrom(text, 0)
  }

  /** `![d]` with a non-empty description free of `]`. */
  predicate IsImageRef(r: string) {
    |r| >= 4 && r[..2] == "![" && r[|r| - 1] == ']' && ']' !in r[2..|r| - 1]
  }

  /** Every reference found is `![d]` with a non-empty description that
      holds no `]`. */
  lemma {:induction false} ImagesWellFormed(s: string, i: nat)
    requires i <= |s|
    ensures forall k | 0 <= k < |ImagesFrom(s, i)| :: IsImageRef(ImagesFrom(s, i)[k])
    decreases |s| - i
  {
    if i < |s| {
      if ImageAt(s, i) {
        var n := IndexOf(s[i + 2..], ']');
        ImagesWellFormed(s, i + 3 + n);
        var d := s[i + 2..i + 2 + n];
        var r := "![" + d + "]";
        assert r[2..|r| - 1] == d;
        assert d == s[i + 2..][..n];
      } else {
        ImagesWellFormed(s, i + 1);
      }
    }
  }

  /** An empty description is not an image reference. */
  lemma EmptyImageNotMatched()
    ensures ExtractImageReferences("![]") == []
  {
    var s := "![]";
    assert s[2..] == "]";
    assert IndexOf(s[2..], ']') == 0;
    assert !ImageAt(s, 0) && !ImageAt(s, 1) && !ImageAt(s, 2);
  }

  /** A path cleaned as `process_images_parallel` does: parentheses
      deleted, `images/` replaced by `IMG_PLACEHOLDER/`. */
  function CleanImagePath(image: string): (r: string)
    ensures '(' !in r && ')' !in r
  {
    var noOpen := DeleteChar(image, '(');
    var noParens := DeleteChar(noOpen, ')');
    DeleteCharKeeps(noOpen, ')', '(');
    ReplaceAllAvoids(noParens, "images/", "IMG_PLACEHOLDER/", '(');
    ReplaceAllAvoids(noParens, "images/", "IMG_PLACEHOLDER/", ')');
    ReplaceAll(noParens, "images/", "IMG_PLACEHOLDER/")
  }

  /** Deleting one character adds no other. */
  lemma {:induction false} DeleteCharKeeps(s: string, c: char, d: char)
    requires d !in s
    ensures d !in DeleteChar(s, c)
  {
    if |s| > 0 {
      DeleteCharKeeps(s[1..], c, d);
    }
  }

  // ------------------------------------------------------------ applying the rewrites

  /** The rewrites applied one after the other. */
  function ApplyAll(s: string, reps: seq<(string, string)>): string
    requires forall k | 0 <= k < |reps| :: |reps[k].0| > 0
  {
    if |reps| == 0 then s
    else
      var last := reps[|reps| - 1];
      ReplaceUnlinked(ApplyAll(s, reps[..|reps| - 1]), last.0, last.1)
  }

  /** A text in which no rewrite's pattern occurs is unchanged. */
  lemma {:induction false} ApplyAllAbsent(s: string, reps: seq<(string, string)>)
    requires forall k | 0 <= k < |reps| :: |reps[k].0| > 0
    requires forall k, i: nat | 0 <= k < |reps| :: !OccursAt(s, reps[k].0, i)
    ensures ApplyAll(s, reps) == s
  {
    if |reps| > 0 {
      var last := reps[|reps| - 1];
      ApplyAllAbsent(s, reps[..|reps| - 1]);
      forall k: nat ensures !Unlinked(s, last.0, k) {
        assert !OccursAt(s, last.0, k);
      }
      ReplaceUnlinkedNoop(s, last.0, last.1);
    }
  }

  /** The rewrite loop of both functions: each pair in turn. */
  method ApplyReplacements(answer: string, reps: seq<(string, string)>) returns (r: string)
    requires forall k | 0 <= k < |reps| :: |reps[k].0| > 0
    ensures r == ApplyAll(answer, reps)
  {
    r := answer;
    for i := 0 to |reps|
      invariant r == ApplyAll(answer, reps[..i])
    {
      assert reps[..i + 1][..i] == reps[..i];
      r := ReplaceUnlinked(r, reps[i].0, reps[i].1);
    }
    assert reps[..|reps|] == reps;
  }

  /** The rewrites as `re.sub` performs them, one after the other: each
      replacement is a template expanded for a match of its key, and the
      first one that is not a valid template raises. */
  function ApplyTemplates(s: string, reps: seq<(string, string)>): (r: Result<string>)
    requires forall k | 0 <= k < |reps| :: |reps[k].0| > 0
    ensures r.Failure? <==> exists k | 0 <= k < |reps| :: Expand(reps[k].1, reps[k].0).Failure?
  {
    if |reps| == 0 then Success(s)
    else
      var init := reps[..|reps| - 1];
      var last := reps[|reps| - 1];
      assert forall k | 0 <= k < |init| :: init[k] == reps[k];
      match ApplyTemplates(s, init)
      case Failure(e) => Failure(e)
      case Success(t) =>
        match Expand(last.1, last.0)
        case Failure(e) => Failure(e)
        case Success(rep) => Success(ReplaceUnlinked(t, last.0, rep))
  }

  /** Replacements without a backslash are taken literally. */
  lemma {:induction false} ApplyTemplatesLiteral(s: string, reps: seq<(string, string)>)
    requires forall k | 0 <= k < |reps| :: |reps[k].0| > 0 && '\\' !in reps[k].1
    ensures ApplyTemplates(s, reps) == Success(ApplyAll(s, reps))
  {
    if |reps| > 0 {
      var last := reps[|reps| - 1];
      ApplyTemplatesLiteral(s, reps[..|reps| - 1]);
      LiteralTemplate(last.1, last.0);
    }
  }

  /** Once a rewrite raises, the later ones are never reached. */
  lemma {:induction false} ApplyTemplatesFailed(s: string, reps: seq<(string, string)>, i: nat)
    requires forall k | 0 <= k < |reps| :: |reps[k].0| > 0
    requires i <= |reps| && ApplyTemplates(s, reps[..i]).Failure?
    ensures ApplyTemplates(s, reps) == ApplyTemplates(s, reps[..i])
  {
    if i < |reps| {
      var init := reps[..|reps| - 1];
      assert init[..i] == reps[..i];
      ApplyTemplatesFailed(s, init, i);
    } else {
      assert reps[..i] == reps;
    }
  }

  /** The rewrite loop as the original runs it, stopping at the first
      replacement that is not a valid template. */
  method ApplyTemplateReplacements(answer: string, reps: seq<(string, string)>) returns (r: Result<string>)
    requires forall k | 0 <= k < |reps| :: |reps[k].0| > 0
    ensures r == ApplyTemplates(answer, reps)
  {
    var out := answer;
    for i := 0 to |reps|
      invariant ApplyTemplates(answer, reps[..i]) == Success(out)
    {
      assert reps[..i + 1][..i] == reps[..i];
      var rep := Expand(reps[i].1, reps[i].0);
      if rep.Failure? {
        ApplyTemplatesFailed(answer, reps, i + 1);
        return Failure(rep.error);
      }
      out := ReplaceUnlinked(out, reps[i].0, rep.value);
    }
    assert reps[..|reps|] == reps;
    r := Success(out);
  }

  /** The reference links hold no backslash, so `re.sub` inserts them
      literally and the content-reference rewrite is `ApplyAll`. */
  lemma LinkIsLiteral(idx: nat, pages: seq<nat>)
    requires |pages| > 0
    ensures '\\' !in Link(idx, pages).1
    ensures Expand(Link(idx, pages).1, Link(idx, pages).0) == Success(Link(idx, pages).1)
  {
    NumeralNoBackslash(idx + 1);
    if |pages| == 1 {
      NumeralNoBackslash(pages[0]);
    } else {
      NumeralNoBackslash(SeqMin(pages));
      NumeralNoBackslash(SeqMax(pages));
    }
    LiteralTemplate(Link(idx, pages).1, Link(idx, pages).0);
  }

  lemma NumeralNoBackslash(n: nat)
    ensures '\\' !in NatToString(n)
  {
  }

  /** The intended content-reference rewrite never raises in `re.sub`. */
  lemma ContentReferencesLiteral(answer: string, refPages: seq<(string, seq<nat>)>)
    ensures forall k | 0 <= k < |Replacements(refPages)| :: |Replacements(refPages)[k].0| > 0
    ensures ApplyTemplates(answer, Replacements(refPages)) == Success(ApplyAll(answer, Replacements(refPages)))
  {
    var reps := Replacements(refPages);
    var ps := Linked(refPages);
    forall k | 0 <= k < |reps| ensures |reps[k].0| > 0 && '\\' !in reps[k].1 {
      assert reps[k] == Link(ps[k], refPages[ps[k]].1);
      LinkIsLiteral(ps[k], refPages[ps[k]].1);
    }
    ApplyTemplatesLiteral(answer, reps);
  }

  /** Every pair of the list as written is a link or a repeat of one, so
      no replacement holds a backslash. */
  lemma {:induction false} AsWrittenNoBackslash(refPages: seq<(string, seq<nat>)>)
    ensures ReplacementsAsWritten(refPages).Success? ==>
      forall k | 0 <= k < |ReplacementsAsWritten(refPages).value| :: '\\' !in ReplacementsAsWritten(refPages).value[k].1
  {
    if |refPages| > 0 {
      var idx := |refPages| - 1;
      AsWrittenNoBackslash(refPages[..idx]);
      if |refPages[idx].1| > 0 {
        LinkIsLiteral(idx, refPages[idx].1);
      }
    }
  }

  /** The content-reference rewrite as written never raises in `re.sub`
      either: its pairs are taken literally. */
  lemma ContentReferencesAsWrittenLiteral(answer: string, refPages: seq<(string, seq<nat>)>)
    requires ReplacementsAsWritten(refPages).Success?
    ensures ApplyTemplates(answer, ReplacementsAsWritten(refPages).value)
         == Success(ApplyAll(answer, ReplacementsAsWritten(refPages).value))
  {
    AsWrittenNoBackslash(refPages);
    ApplyTemplatesLiteral(answer, ReplacementsAsWritten(refPages).value);
  }

  // ------------------------------------------------------------ process_content_references

  /** `ref_pages` after `order_dict_by_keys`: the answer's fragments
      grouped by first reference, each group looked up in the knowledge,
      the matched ones ordered by reference. */
  function OrderedRefPages(answer: string, knowledge: seq<string>, yes: (string, string) -> bool): (r: seq<(string, seq<nat>)>)
    ensures KeysSorted(r)
  {
    var results := ReferencesWithContext(answer);
    ReferencesWithContextSpec(answer);
    var grouped := Grouped(results);
    var groups := StripValues(grouped);
    assert UniqueKeys(groups) by {
      forall i, j | 0 <= i < j < |groups| ensures groups[i].0 != groups[j].0 {
        assert groups[i].0 == grouped[i].0 && groups[j].0 == grouped[j].0;
      }
    }
    RefPagesUnique(groups, knowledge, yes);
    OrderByKeys(RefPages(groups, knowledge, yes))
  }

  /** Once the original raises it does not recover. */
  lemma {:induction false} AsWrittenFailurePersists(refPages: seq<(string, seq<nat>)>, n: nat)
    requires n <= |refPages| && ReplacementsAsWritten(refPages[..n]).Failure?
    ensures ReplacementsAsWritten(refPages) == ReplacementsAsWritten(refPages[..n])
    decreases |refPages| - n
  {
    if n < |refPages| {
      assert refPages[..n + 1][..n] == refPages[..n];
      AsWrittenFailurePersists(refPages, n + 1);
    } else {
      assert refPages[..n] == refPages;
    }
  }

  /** The replacement loop of `process_content_references` as written:
      an entry without pages keeps `old_ref` and `new_ref` from the
      previous entry, and the first entry without pages raises. */
  method BuildReplacementsAsWritten(refPages: seq<(string, seq<nat>)>) returns (r: Result<seq<(string, string)>>)
    ensures r == ReplacementsAsWritten(refPages)
  {
    var replacements: seq<(string, string)> := [];
    var bound := false;
    var oldRef, newRef := "", "";
    for idx := 0 to |refPages|
      invariant ReplacementsAsWritten(refPages[..idx]) == Success(replacements)
      invariant bound <==> replacements != []
      invariant bound ==> replacements[|replacements| - 1] == (oldRef, newRef)
    {
      var page := refPages[idx].1;
      assert refPages[..idx + 1][..idx] == refPages[..idx];
      if |page| == 1 {
        oldRef := Label(idx + 1);
        newRef := Label(idx + 1) + "(PATH_PLACEHOLDER#page=" + NatToString(page[0]) + ")";
        bound := true;
        assert (oldRef, newRef) == Link(idx, page);
      } else if |page| > 1 {
        oldRef := Label(idx + 1);
        var span := NatToString(SeqMin(page)) + "-" + NatToString(SeqMax(page));
        newRef := Label(idx + 1) + "(PATH_PLACEHOLDER#page=" + span + ")";
        bound := true;
        assert (oldRef, newRef) == Link(idx, page);
      }
      if !bound {
        AsWrittenFailurePersists(refPages, idx + 1);
        return Failure("UnboundLocalError");
      }
      replacements := replacements + [(oldRef, newRef)];
    }
    assert refPages[..|refPages|] == refPages;
    r := Success(replacements);
  }

  /** The replacement loop with entries without pages skipped. */
  method BuildReplacements(refPages: seq<(string, seq<nat>)>) returns (r: seq<(string, string)>)
    ensures r == Replacements(refPages)
  {
    r := [];
    for idx := 0 to |refPages|
      invariant r == Replacements(refPages[..idx])
    {
      var page := refPages[idx].1;
      assert refPages[..idx + 1][..idx] == refPages[..idx];
      ReplacementsAppend(refPages[..idx + 1]);
      if |page| > 0 {
        r := r + [Link(idx, page)];
      }
    }
    assert refPages[..|refPages|] == refPages;
  }

  /** `process_content_references` as written: it fails exactly when the
      replacement loop raises, and otherwise rewrites the answer. */
  method ProcessContentReferences(answer: string, knowledge: seq<string>, yes: (string, string) -> bool)
    returns (r: Result<string>)
    ensures var reps := ReplacementsAsWritten(OrderedRefPages(answer, knowledge, yes));
      && (reps.Failure? ==> r.Failure?)
      && (reps.Success? ==> r == Success(ApplyAll(answer, reps.value)))
  {
    var refPages := OrderedRefPages(answer, knowledge, yes);
    var reps := BuildReplacementsAsWritten(refPages);
    if reps.Failure? {
      return Failure(reps.error);
    }
    var out := ApplyReplacements(answer, reps.value);
    r := Success(out);
  }

  /** `process_content_references` with entries without pages skipped. */
  method ProcessContentReferencesCorrected(answer: string, knowledge: seq<string>, yes: (string, string) -> bool)
    returns (r: string)
    ensures r == ApplyAll(answer, Replacements(OrderedRefPages(answer, knowledge, yes)))
  {
    var refPages := OrderedRefPages(answer, knowledge, yes);
    var reps := BuildReplacements(refPages);
    r := ApplyReplacements(answer, reps);
  }

  // ------------------------------------------------------------ process_images_parallel

  /** `process_image`: the cleaned path the extractor gives for the
      first chunk, in knowledge order, that holds an image reference and
      is recognised as holding this one. */
  function ImagePath(image: string, knowledge: seq<string>, extract: (string, string) -> (bool, string)): (r: Option<string>)
    ensures r.None? <==> forall k | 0 <= k < |knowledge| :: !(Contains(knowledge[k], "![") && extract(image, knowledge[k]).0)
  {
    if |knowledge| == 0 then None
    else if Contains(knowledge[0], "![") && extract(image, knowledge[0]).0 then
      Some(CleanImagePath(extract(image, knowledge[0]).1))
    else
      assert forall k | 1 <= k < |knowledge| :: knowledge[k] == knowledge[1..][k - 1];
      ImagePath(image, knowledge[1..], extract)
  }

  /** `output_image`: each image with a found path, in the order the
      results are read. */
  function OutputImages(images: seq<string>, knowledge: seq<string>, extract: (string, string) -> (bool, string)): (r: seq<(string, string)>)
    ensures UniqueKeys(r)
    ensures forall k | 0 <= k < |r| :: r[k].0 in images
  {
    if |images| == 0 then []
    else
      var prev := OutputImages(images[..|images| - 1], knowledge, extract);
      var image := images[|images| - 1];
      match ImagePath(image, knowledge, extract)
      case Some(path) => Put(prev, image, path)
      case None => prev
  }

  /** Every image whose path is found is in the dictionary with that
      path, exactly once. */
  lemma {:induction false} OutputImagesFound(images: seq<string>, knowledge: seq<string>, extract: (string, string) -> (bool, string))
    ensures forall k | 0 <= k < |images| && ImagePath(images[k], knowledge, extract).Some? ::
      (images[k], ImagePath(images[k], knowledge, extract).value) in OutputImages(images, knowledge, extract)
  {
    if |images| > 0 {
      var init := images[..|images| - 1];
      var image := images[|images| - 1];
      OutputImagesFound(init, knowledge, extract);
      var prev := OutputImages(init, knowledge, extract);
      var r := OutputImages(images, knowledge, extract);
      forall k | 0 <= k < |images| && ImagePath(images[k], knowledge, extract).Some?
        ensures (images[k], ImagePath(images[k], knowledge, extract).value) in r
      {
        var x := (images[k], ImagePath(images[k], knowledge, extract).value);
        if images[k] != image {
          assert images[k] == init[k];
          var m :| 0 <= m < |prev| && prev[m] == x;
          match ImagePath(image, knowledge, extract)
          case None =>
          case Some(path) =>
            PutKeepsOthers(prev, image, path, m);
        }
      }
    }
  }

  /** The rewrites `(key, key(path))`. */
  function ImageLinks(output: seq<(string, string)>): (r: seq<(string, string)>)
    ensures |r| == |output|
    ensures forall k | 0 <= k < |r| :: r[k] == (output[k].0, output[k].0 + "(" + output[k].1 + ")")
  {
    seq(|output|, i requires 0 <= i < |output| => (output[i].0, output[i].0 + "(" + output[i].1 + ")"))
  }

  lemma OutputImagesSnoc(images: seq<string>, knowledge: seq<string>, extract: (string, string) -> (bool, string), i: nat)
    requires i < |images|
    ensures OutputImages(images[..i + 1], knowledge, extract) ==
      match ImagePath(images[i], knowledge, extract)
      case Some(path) => Put(OutputImages(images[..i], knowledge, extract), images[i], path)
      case None => OutputImages(images[..i], knowledge, extract)
  {
    assert images[..i + 1][..i] == images[..i];
  }

  lemma ImageLinksSnoc(output: seq<(string, string)>, i: nat)
    requires i < |output|
    ensures ImageLinks(output[..i + 1]) == ImageLinks(output[..i]) + [(output[i].0, output[i].0 + "(" + output[i].1 + ")")]
  {
  }

  /** An image link has the rewrite's shape when `!` occurs only at the
      start of the reference and not in the path. */
  lemma ImageLinkShape(key: string, path: string)
    requires IsImageRef(key) && '!' !in key[1..] && '!' !in path
    ensures LinkShape(key, key + "(" + path + ")")
  {
    assert '!' !in path + ")";
    ShapeOf(key, path + ")");
    assert key + "(" + (path + ")") == key + "(" + path + ")";
  }

  /** The image rewrite as the original performs it: `re.sub` reads the
      link `key(path)` as a template, so a backslash in the description
      or the path is an escape, and an escape it does not know raises. */
  method ProcessImages(answer: string, knowledge: seq<string>, extract: (string, string) -> (bool, string))
    returns (r: Result<string>)
    ensures r == ApplyTemplates(answer, ImageLinks(OutputImages(ExtractImageReferences(answer), knowledge, extract)))
  {
    var output := FindImagePaths(answer, knowledge, extract);
    var replacements := BuildImageLinks(output);
    r := ApplyTemplateReplacements(answer, replacements);
  }

  /** `process_images_parallel` with each link inserted literally: find a
      path for every image reference, then link each found reference that
      is not yet followed by `(` to exactly `key(path)`. */
  method ProcessImagesCorrected(answer: string, knowledge: seq<string>, extract: (string, string) -> (bool, string))
    returns (r: string)
    ensures r == ApplyAll(answer, ImageLinks(OutputImages(ExtractImageReferences(answer), knowledge, extract)))
  {
    var output := FindImagePaths(answer, knowledge, extract);
    var replacements := BuildImageLinks(output);
    r := ApplyReplacements(answer, replacements);
  }

  /** The first thread pool: `output_image`, read in image order. */
  method FindImagePaths(answer: string, knowledge: seq<string>, extract: (string, string) -> (bool, string))
    returns (output: seq<(string, string)>)
    ensures output == OutputImages(ExtractImageReferences(answer), knowledge, extract)
  {
    var images := ExtractImageReferences(answer);
    output := [];
    for i := 0 to |images|
      invariant output == OutputImages(images[..i], knowledge, extract)
    {
      OutputImagesSnoc(images, knowledge, extract, i);
      var path := ImagePath(images[i], knowledge, extract);
      if path.Some? {
        output := Put(output, images[i], path.value);
      }
    }
    assert images[..|images|] == images;
  }

  /** The loop building the replacement list. */
  method BuildImageLinks(output: seq<(string, string)>) returns (replacements: seq<(string, string)>)
    ensures replacements == ImageLinks(output)
  {
    replacements := [];
    for i := 0 to |output|
      invariant replacements == ImageLinks(output[..i])
    {
      ImageLinksSnoc(output, i);
      replacements := replacements + [(output[i].0, output[i].0 + "(" + output[i].1 + ")")];
    }
    assert output[..|output|] == output;
  }

  /** A found image whose reference holds an escape of an ASCII letter
      that templates do not know makes the original raise. */
  lemma BadEscapeImageRaises(s: string, output: seq<(string, string)>, k: nat, p: string, c: char, u: string)
    requires forall j | 0 <= j < |output| :: |output[j].0| > 0
    requires k < |output| && output[k].0 == p + ['\\', c] + u
    requires '\\' !in p && IsAsciiLetter(c) && c != 'g' && EscapeChar(c).None?
    ensures ApplyTemplates(s, ImageLinks(output)).Failure?
  {
    var key := output[k].0;
    var tail := u + "(" + output[k].1 + ")";
    assert key + "(" + output[k].1 + ")" == p + ['\\', c] + tail;
    BadEscapeFails(p, c, tail, key);
    assert Expand(ImageLinks(output)[k].1, ImageLinks(output)[k].0).Failure?;
  }

  /** An answer on which the original raises: the description `a\d`
      holds an escape templates do not know. */
  lemma BadDescriptionAsWritten()
    ensures ApplyTemplates("See ![a\\d] here", ImageLinks([("![a\\d]", "IMG_PLACEHOLDER/a.png")])).Failure?
  {
    var key := "![a\\d]";
    assert key == "![a" + ['\\', 'd'] + "]";
    BadEscapeImageRaises("See ![a\\d] here", [(key, "IMG_PLACEHOLDER/a.png")], 0, "![a", 'd', "]");
  }

  /** A path holding `\n`, such as `imgs\new.png`, is written with a
      newline in its place when the link holds no other backslash. */
  lemma EscapedPathAsWritten(key: string, before: string, after: string)
    requires '\\' !in key && '\\' !in before && '\\' !in after
    ensures Expand((key + "(" + before) + "\\n" + (after + ")"), key) == Success((key + "(" + before) + "\n" + (after + ")"))
  {
    var p, u := key + "(" + before, after + ")";
    assert '\\' !in p && '\\' !in u;
    TranslatedEscape(p, 'n', u, key);
    LiteralTemplate(u, key);
  }

  /** Where neither a reference nor its path holds a backslash, the
      original and the literal rewrite agree. */
  lemma ImagesWithoutBackslash(answer: string, knowledge: seq<string>, extract: (string, string) -> (bool, string))
    requires forall k | 0 <= k < |OutputImages(ExtractImageReferences(answer), knowledge, extract)| ::
      '\\' !in OutputImages(ExtractImageReferences(answer), knowledge, extract)[k].0 &&
      '\\' !in OutputImages(ExtractImageReferences(answer), knowledge, extract)[k].1
    ensures ApplyTemplates(answer, ImageLinks(OutputImages(ExtractImageReferences(answer), knowledge, extract)))
      == Success(ApplyAll(answer, ImageLinks(OutputImages(ExtractImageReferences(answer), knowledge, extract))))
  {
    var output := OutputImages(ExtractImageReferences(answer), knowledge, extract);
    var links := ImageLinks(output);
    forall k | 0 <= k < |links| ensures '\\' !in links[k].1 {
      assert links[k].1 == output[k].0 + "(" + output[k].1 + ")";
    }
    ApplyTemplatesLiteral(answer, links);
  }
}
