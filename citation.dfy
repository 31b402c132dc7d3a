/** Citation attribution (`add_citations_parallel` and its helpers): each
    answer segment is offered a page by a similarity gate, repeated
    citations are collapsed, the cited pages are numbered densely in string
    order, and the answer is rebuilt with `[n](page)` marks. Similarity
    scores are given per segment, one score per page. */
module Citation {
  import opened Wrappers
  import opened Strings
  import opened Order
  import Segmenter
  import PageMarkers
  import Dicts

  type Segment = Segmenter.Segment

  // ================================================================ the gate

  /** `t in segment_type.split(",")`. */
  predicate HasTag(kind: string, t: string) { t in Split(kind, ',') }

  /** Segments that never get a citation: protected ones and those tagged as
      an image, a header, code or a table. */
  predicate NeverCited(seg: Segment) {
    || seg.protected
    || HasTag(seg.kind, "image") || HasTag(seg.kind, "header")
    || HasTag(seg.kind, "code") || HasTag(seg.kind, "table")
  }

  predicate IsHeader(seg: Segment) { Contains(seg.kind, "header") }

  predicate IsList(seg: Segment) { Contains(seg.kind, "list") }

  /** Neither a header nor a list item. */
  predicate IsPlain(seg: Segment) { !IsHeader(seg) && !IsList(seg) }

  /** The reasons, independent of the scores, for which the gate refuses a
      segment. */
  predicate Refused(seg: Segment, minLen: int) {
    || NeverCited(seg)
    || (IsList(seg) && (Contains(seg.content, "Remedy:") || Contains(seg.content, "remedy:")))
    || |seg.content| < minLen
    || Contains(Lower(seg.content), "refer to section")
    || Contains(Lower(seg.content), "see section")
  }

  /** `np.argmax`: the first index of a maximal score. */
  function FirstMax(xs: seq<real>): (i: nat)
    requires |xs| > 0
    ensures i < |xs|
    ensures forall j | 0 <= j < |xs| :: xs[j] <= xs[i]
    ensures forall j | 0 <= j < i :: xs[j] < xs[i]
  {
    if |xs| == 1 then 0
    else
      var i := FirstMax(xs[..|xs| - 1]);
      if xs[|xs| - 1] > xs[i] then |xs| - 1 else i
  }

  /** `process_segment_for_citation`: the page index for one segment, or -1.
      `scores` is `None` when computing them raised. */
  function CitationFor(seg: Segment, scores: Option<seq<real>>, threshold: real, minLen: int): (idx: int)
    ensures idx == -1 || (scores.Some? && 0 <= idx < |scores.value|)
    ensures idx != -1 <==>
      && !Refused(seg, minLen) && scores.Some?
      && exists j | 0 <= j < |scores.value| :: scores.value[j] > threshold
    ensures idx != -1 ==> forall j | 0 <= j < |scores.value| :: scores.value[j] <= scores.value[idx]
    ensures idx != -1 ==> forall j | 0 <= j < idx :: scores.value[j] < scores.value[idx]
  {
    var parts := Split(seg.kind, ',');
    if "image" in parts || "header" in parts || "code" in parts || "table" in parts || seg.protected then -1
    else if IsList(seg) && (Contains(seg.content, "Remedy:") || Contains(seg.content, "remedy:") || |seg.content| < minLen) then -1
    else if |seg.content| < minLen then -1
    else if Contains(Lower(seg.content), "refer to section") || Contains(Lower(seg.content), "see section") then -1
    else
      match scores
      case None => -1
      case Some(xs) =>
        if |xs| == 0 then -1
        else
          var i := FirstMax(xs);
          if xs[i] > threshold then i else -1
  }

  // ================================================================ post-processing

  /** Where the post-processing loop stands before a segment: scanning,
      looking at the list items after a cited header, or inside a group of
      segments sharing one citation (`size` of them so far). */
  datatype Mode = Scanning | AfterHeader(header: int) | Grouping(citation: int, size: nat)

  /** A segment met while scanning: a cited header opens a look at the list
      items after it, any other cited segment opens a group. */
  function Start(seg: Segment, idx: int): (Mode, int) {
    if IsHeader(seg) && idx != -1 then (AfterHeader(idx), idx)
    else if idx != -1 then (Grouping(idx, 1), idx)
    else (Scanning, idx)
  }

  /** One segment through the post-processing loop: the mode for the next
      segment and the citation kept for this one. */
  function Step(m: Mode, seg: Segment, idx: int): (Mode, int) {
    match m
    case Scanning => Start(seg, idx)
    case AfterHeader(h) =>
      if IsList(seg) then (m, if idx == h then -1 else idx) else Start(seg, idx)
    case Grouping(c, size) =>
      if idx == c && size < 3 && IsPlain(seg) then (Grouping(c, size + 1), -1) else Start(seg, idx)
  }

  /** The mode before segment `k`. */
  function ModeAt(sel: seq<(Segment, int)>, k: nat): Mode
    requires k <= |sel|
  {
    if k == 0 then Scanning else Step(ModeAt(sel, k - 1), sel[k - 1].0, sel[k - 1].1).0
  }

  /** The citation segment `k` keeps. */
  function Kept(sel: seq<(Segment, int)>, k: nat): int
    requires k < |sel|
  {
    Step(ModeAt(sel, k), sel[k].0, sel[k].1).1
  }

  /** The loop keeps each segment's citation or drops it; it never adds one. */
  lemma KeptOrDropped(sel: seq<(Segment, int)>, k: nat)
    requires k < |sel|
    ensures Kept(sel, k) == sel[k].1 || Kept(sel, k) == -1
  {
  }

  /** The citations the loop keeps for segments `i .. i + |part| - 1`. */
  predicate KeptFrom(sel: seq<(Segment, int)>, i: nat, part: seq<(Segment, int)>) {
    && i + |part| <= |sel|
    && forall k | 0 <= k < |part| :: part[k] == (sel[i + k].0, Kept(sel, i + k))
  }

  lemma KeptFromAppend(sel: seq<(Segment, int)>, i: nat, a: seq<(Segment, int)>, b: seq<(Segment, int)>)
    requires KeptFrom(sel, i, a) && KeptFrom(sel, i + |a|, b)
    ensures KeptFrom(sel, i, a + b)
  {
  }

  /** The inner loop after a cited header: the list items that follow it,
      each losing a citation equal to the header's. */
  method TakeLists(sel: seq<(Segment, int)>, i: nat, header: int) returns (lists: seq<(Segment, int)>)
    requires i <= |sel| && ModeAt(sel, i) == AfterHeader(header)
    ensures KeptFrom(sel, i, lists)
    ensures i + |lists| < |sel| ==> Step(ModeAt(sel, i + |lists|), sel[i + |lists|].0, sel[i + |lists|].1)
                                     == Start(sel[i + |lists|].0, sel[i + |lists|].1)
  {
    lists := [];
    var j := i;
    while j < |sel| && IsList(sel[j].0)
      invariant i <= j <= |sel| && |lists| == j - i
      invariant KeptFrom(sel, i, lists)
      invariant ModeAt(sel, j) == AfterHeader(header)
      decreases |sel| - j
    {
      var (listSegment, listIdx) := sel[j];
      if listIdx == header {
        lists := lists + [(listSegment, -1)];
      } else {
        lists := lists + [(listSegment, listIdx)];
      }
      j := j + 1;
    }
  }

  /** The inner loop grouping up to three consecutive plain segments that
      share the citation of segment `i`; all but the first lose it. */
  method TakeGroup(sel: seq<(Segment, int)>, i: nat) returns (group: seq<(Segment, int)>)
    requires i < |sel| && sel[i].1 != -1 && !IsHeader(sel[i].0)
    requires Step(ModeAt(sel, i), sel[i].0, sel[i].1) == Start(sel[i].0, sel[i].1)
    ensures |group| >= 1
    ensures KeptFrom(sel, i, group)
    ensures i + |group| < |sel| ==> Step(ModeAt(sel, i + |group|), sel[i + |group|].0, sel[i + |group|].1)
                                     == Start(sel[i + |group|].0, sel[i + |group|].1)
  {
    var (segment, current) := sel[i];
    group := [(segment, current)];
    var j := i + 1;
    while j < |sel| && sel[j].1 == current && |group| < 3 && !IsHeader(sel[j].0) && !IsList(sel[j].0)
      invariant i < j <= |sel| && |group| == j - i
      invariant ModeAt(sel, j) == Grouping(current, |group|)
      invariant KeptFrom(sel, i, group)
      decreases |sel| - j
    {
      GroupAdvance(sel, i, j, current, group);
      group := group + [(sel[j].0, -1)];
      j := j + 1;
    }
  }

  /** One more plain segment with the group's citation joins the group
      and loses its citation. */
  lemma GroupAdvance(sel: seq<(Segment, int)>, i: nat, j: nat, current: int, group: seq<(Segment, int)>)
    requires i < j < |sel| && |group| == j - i && KeptFrom(sel, i, group)
    requires ModeAt(sel, j) == Grouping(current, |group|)
    requires sel[j].1 == current && |group| < 3 && !IsHeader(sel[j].0) && !IsList(sel[j].0)
    ensures KeptFrom(sel, i, group + [(sel[j].0, -1)])
    ensures ModeAt(sel, j + 1) == Grouping(current, |group| + 1)
  {
    assert Kept(sel, j) == -1;
    KeptFromAppend(sel, i, group, [(sel[j].0, -1)]);
  }

  /** The post-processing loop of `add_citations_parallel`: the same segments
      in the same order, each with the citation `Kept` gives it. */
  method PostProcess(sel: seq<(Segment, int)>) returns (out: seq<(Segment, int)>)
    ensures |out| == |sel|
    ensures forall k | 0 <= k < |sel| :: out[k].0 == sel[k].0 && out[k].1 == Kept(sel, k)
  {
    out := [];
    var i := 0;
    while i < |sel|
      invariant i <= |sel| && |out| == i
      invariant KeptFrom(sel, 0, out)
      invariant i < |sel| ==> Step(ModeAt(sel, i), sel[i].0, sel[i].1) == Start(sel[i].0, sel[i].1)
      decreases |sel| - i
    {
      var (segment, idx) := sel[i];
      if IsHeader(segment) && idx != -1 {
        KeptFromAppend(sel, 0, out, [(segment, idx)]);
        out := out + [(segment, idx)];
        i := i + 1;
        var lists := TakeLists(sel, i, idx);
        KeptFromAppend(sel, 0, out, lists);
        out := out + lists;
        i := i + |lists|;
      } else if idx != -1 {
        var group := TakeGroup(sel, i);
        KeptFromAppend(sel, 0, out, group);
        out := out + group;
        i := i + |group|;
      } else {
        KeptFromAppend(sel, 0, out, [(segment, idx)]);
        out := out + [(segment, idx)];
        i := i + 1;
      }
    }
  }

  /** A grouping mode carries the citation of the segment just consumed. */
  lemma GroupingCitedBefore(sel: seq<(Segment, int)>, k: nat)
    requires 0 < k <= |sel| && ModeAt(sel, k).Grouping?
    ensures ModeAt(sel, k).citation == sel[k - 1].1
  {
  }

  /** A header that is not also a list item keeps its citation, and the list
      items right after it lose a citation equal to the header's and keep
      any other. */
  lemma HeaderListsStripped(sel: seq<(Segment, int)>, i: nat, j: nat)
    requires i < j <= |sel|
    requires IsHeader(sel[i].0) && !IsList(sel[i].0) && sel[i].1 != -1
    requires forall k | i < k < j :: IsList(sel[k].0)
    ensures Kept(sel, i) == sel[i].1
    ensures forall k | i < k < j :: Kept(sel, k) == if sel[k].1 == sel[i].1 then -1 else sel[k].1
  {
    forall k | i < k < j ensures Kept(sel, k) == if sel[k].1 == sel[i].1 then -1 else sel[k].1 {
      AfterHeaderModes(sel, i, k);
    }
  }

  lemma {:induction false} AfterHeaderModes(sel: seq<(Segment, int)>, i: nat, k: nat)
    requires i < k <= |sel|
    requires IsHeader(sel[i].0) && !IsList(sel[i].0) && sel[i].1 != -1
    requires forall q | i < q < k :: IsList(sel[q].0)
    ensures ModeAt(sel, k) == AfterHeader(sel[i].1)
    decreases k
  {
    if k > i + 1 {
      AfterHeaderModes(sel, i, k - 1);
    }
  }

  /** Segments `i .. i + n - 1` are plain, all cite `c`, and the segment
      before them (if any) cites something else. */
  predicate PlainRun(sel: seq<(Segment, int)>, i: nat, n: nat, c: int) {
    && i + n <= |sel| && c != -1
    && (forall k | i <= k < i + n :: sel[k].1 == c && IsPlain(sel[k].0))
    && (i == 0 || sel[i - 1].1 != c)
  }

  lemma {:induction false} RunModes(sel: seq<(Segment, int)>, i: nat, n: nat, c: int)
    requires 1 <= n && PlainRun(sel, i, n, c)
    ensures ModeAt(sel, i + n) == Grouping(c, (n - 1) % 3 + 1)
    ensures Kept(sel, i + n - 1) == if (n - 1) % 3 == 0 then c else -1
    decreases n
  {
    if n == 1 {
      if i > 0 && ModeAt(sel, i).Grouping? {
        GroupingCitedBefore(sel, i);
      }
    } else {
      RunModes(sel, i, n - 1, c);
    }
  }

  /** In a maximal run of plain segments citing the same page, the citation
      is kept on the first of each group of three and dropped on the others. */
  lemma GroupsOfThree(sel: seq<(Segment, int)>, i: nat, n: nat, c: int)
    requires PlainRun(sel, i, n, c)
    ensures forall k | i <= k < i + n :: Kept(sel, k) == if (k - i) % 3 == 0 then c else -1
  {
    forall k | i <= k < i + n ensures Kept(sel, k) == if (k - i) % 3 == 0 then c else -1 {
      RunModes(sel, i, k - i + 1, c);
    }
  }

  // ================================================================ numbering

  /** The page a kept citation points at, or `None`. */
  function PageOf(pages: seq<PageMarkers.Boundary>, idx: int): Option<string>
    requires -1 <= idx < |pages|
  {
    if idx == -1 then None else Some(pages[idx].pageNumber)
  }

  /** The cited pages, in segment order, repetitions included. */
  function Present(ps: seq<Option<string>>): (r: seq<string>)
    ensures forall x | x in r :: Some(x) in ps
    ensures forall o | o in ps && o.Some? :: o.value in r
  {
    if ps == [] then []
    else
      var rest := Present(ps[1..]);
      assert ps == [ps[0]] + ps[1..];
      match ps[0]
      case None => rest
      case Some(p) => [p] + rest
  }

  /** `sorted(set(unique_indexes))`: the distinct cited page strings in
      string order. */
  function Numbering(ps: seq<Option<string>>): seq<string> {
    SortedUnique(Present(ps))
  }

  function PositionOf(r: seq<string>, x: string): (i: nat)
    requires x in r
    ensures i < |r| && r[i] == x
  {
    if r[0] == x then 0 else 1 + PositionOf(r[1..], x)
  }

  /** `citation_map[page]`: the page's position in the numbering, from 1. */
  function Number(unique: seq<string>, page: string): nat
    requires page in unique
  {
    PositionOf(unique, page) + 1
  }

  /** The numbers are dense: every cited page gets a number in `1..k`, where
      `k` is the number of distinct cited pages, and every number in `1..k`
      is given to some cited segment. */
  lemma NumberingDense(ps: seq<Option<string>>)
    ensures forall k | 0 <= k < |ps| && ps[k].Some? ::
      ps[k].value in Numbering(ps) && 1 <= Number(Numbering(ps), ps[k].value) <= |Numbering(ps)|
    ensures forall n | 0 <= n < |Numbering(ps)| ::
      Number(Numbering(ps), Numbering(ps)[n]) == n + 1 &&
      exists k | 0 <= k < |ps| :: ps[k] == Some(Numbering(ps)[n])
  {
    var u := Numbering(ps);
    forall n | 0 <= n < |u|
      ensures Number(u, u[n]) == n + 1 && exists k | 0 <= k < |ps| :: ps[k] == Some(u[n])
    {
      assert Some(u[n]) in ps;
      SortedPositions(u, PositionOf(u, u[n]), n);
    }
  }

  /** Numbers follow string order, not first appearance: for two cited pages
      `a` and `b`, `a < b` exactly when `a`'s number is below `b`'s, and equal
      pages are exactly those with equal numbers. */
  lemma NumberingOrder(ps: seq<Option<string>>, a: string, b: string)
    requires Some(a) in ps && Some(b) in ps
    ensures a in Numbering(ps) && b in Numbering(ps)
    ensures Less(a, b) <==> Number(Numbering(ps), a) < Number(Numbering(ps), b)
    ensures a == b <==> Number(Numbering(ps), a) == Number(Numbering(ps), b)
  {
    var u := Numbering(ps);
    SortedPositions(u, PositionOf(u, a), PositionOf(u, b));
  }

  // ================================================================ reconstruction

  /** `f"{content} [{citation_index}]({page})"` for a cited segment, the
      content alone otherwise. */
  function Decorate(content: string, page: Option<string>, unique: seq<string>): string
    requires page.Some? ==> page.value in unique
  {
    match page
    case None => content
    case Some(p) => content + " [" + NatToString(Number(unique, p)) + "](" + p + ")"
  }

  function EntryStart(e: (Segment, string)): int { e.0.start }

  /** The text of each segment before the final sort. */
  function Decorated(segments: seq<Segment>, ps: seq<Option<string>>): (r: seq<(Segment, string)>)
    requires |ps| == |segments|
    ensures |r| == |segments|
    ensures forall k | 0 <= k < |segments| :: r[k].0 == segments[k]
  {
    seq(|segments|, k requires 0 <= k < |segments| =>
      assert ps[k].Some? ==> Some(ps[k].value) in ps;
      (segments[k], Decorate(segments[k].content, ps[k], Numbering(ps))))
  }

  /** What the spacing loop appends for one segment of type `t` and text
      `content`, `prev` the previous segment's type (`""` at the start,
      which Python's `None` behaves like): images and tables between empty
      markers, a header after a non-header behind one, two consecutive
      sentences separated by one, everything else as is. */
  function Spacing(t: string, prev: string, content: string): seq<string> {
    if Contains(t, "image") || Contains(t, "table") then ["", content, ""]
    else if Contains(t, "header") then (if prev != "" && prev != "header" then ["", content] else [content])
    else if Contains(t, "list") then [content]
    else if Contains(prev, "header") then [content]
    else if prev == "sentence" && t == "sentence" then ["", content]
    else [content]
  }

  /** The spacing loop. */
  function Spaced(entries: seq<(Segment, string)>, prev: string): seq<string>
    decreases |entries|
  {
    if entries == [] then []
    else Spacing(entries[0].0.kind, prev, entries[0].1) + Spaced(entries[1..], entries[0].0.kind)
  }

  const BreakMarker := "__PARAGRAPH_BREAK__"

  /** The two marker loops: empty strings become the break marker, and
      markers are skipped (so is a segment whose text is the marker). */
  function Parts(xs: seq<string>): (r: seq<string>)
    ensures forall k | 0 <= k < |r| :: r[k] != "" && r[k] != BreakMarker
  {
    if xs == [] then []
    else if xs[0] == "" || xs[0] == BreakMarker then Parts(xs[1..])
    else [xs[0]] + Parts(xs[1..])
  }

  lemma {:induction false} PartsAppend(a: seq<string>, b: seq<string>)
    ensures Parts(a + b) == Parts(a) + Parts(b)
  {
    if a == [] {
      assert a + b == b;
    } else {
      assert (a + b)[0] == a[0];
      assert (a + b)[1..] == a[1..] + b;
      PartsAppend(a[1..], b);
    }
  }

  /** The spacing markers have no effect: what reaches the join is the
      segments' texts, in order, without the empty ones. */
  lemma {:induction false} SpacingHasNoEffect(entries: seq<(Segment, string)>, prev: string)
    ensures Parts(Spaced(entries, prev)) == Parts(Dicts.Values(entries))
    decreases |entries|
  {
    if entries != [] {
      var t := entries[0].0.kind;
      var content := entries[0].1;
      var here := Spacing(t, prev, content);
      SpacingHasNoEffect(entries[1..], t);
      PartsAppend(here, Spaced(entries[1..], t));
      assert Dicts.Values(entries) == [content] + Dicts.Values(entries[1..]);
      PartsAppend([content], Dicts.Values(entries[1..]));
      SpacingParts(t, prev, content);
    }
  }

  /** The empty markers around one segment's text are dropped again. */
  lemma SpacingParts(t: string, prev: string, content: string)
    ensures Parts(Spacing(t, prev, content)) == Parts([content])
  {
    var h := Spacing(t, prev, content);
    assert h == ["", content, ""] || h == ["", content] || h == [content];
    MarkersDropped(content);
  }

  lemma MarkersDropped(content: string)
    ensures Parts(["", content, ""]) == Parts([content])
    ensures Parts(["", content]) == Parts([content])
  {
    assert Parts([""]) == [];
    PartsAppend([""], [content]);
    PartsAppend([content], [""]);
    PartsAppend([""], [content, ""]);
    assert ["", content, ""] == [""] + [content, ""];
    assert [content, ""] == [content] + [""];
    assert ["", content] == [""] + [content];
  }

  // ================================================================ the final text

  /** Length of the run of newlines at the start of `s`. */
  function NewlineRun(s: string): (n: nat)
    ensures n <= |s|
    ensures forall k | 0 <= k < n :: s[k] == '\n'
    ensures n < |s| ==> s[n] != '\n'
  {
    if s != [] && s[0] == '\n' then 1 + NewlineRun(s[1..]) else 0
  }

  /** `re.sub(r"\n{3,}", "\n\n", s)`: every maximal run of three or more
      newlines becomes two. */
  function CollapseNewlines(s: string): string
    decreases |s|
  {
    if s == [] then []
    else if s[0] != '\n' then [s[0]] + CollapseNewlines(s[1..])
    else
      var n := NewlineRun(s);
      (if n >= 3 then "\n\n" else s[..n]) + CollapseNewlines(s[n..])
  }

  predicate NoTripleNewline(t: string) {
    forall i | 0 <= i < |t| - 2 :: !(t[i] == '\n' && t[i + 1] == '\n' && t[i + 2] == '\n')
  }

  /** After the collapse no three newlines are left in a row. */
  lemma {:induction false} CollapseNoTriple(s: string)
    ensures NoTripleNewline(CollapseNewlines(s))
    ensures |CollapseNewlines(s)| > 0 <==> |s| > 0
    ensures |s| > 0 ==> CollapseNewlines(s)[0] == s[0]
    decreases |s|
  {
    if s != [] {
      var r := CollapseNewlines(s);
      if s[0] != '\n' {
        var c := CollapseNewlines(s[1..]);
        CollapseNoTriple(s[1..]);
        assert r == [s[0]] + c;
        forall i | 0 <= i < |r| - 2 ensures !(r[i] == '\n' && r[i + 1] == '\n' && r[i + 2] == '\n') {
          if i > 0 {
            assert r[i] == c[i - 1] && r[i + 1] == c[i] && r[i + 2] == c[i + 1];
          }
        }
      } else {
        var n := NewlineRun(s);
        var head := if n >= 3 then "\n\n" else s[..n];
        var c := CollapseNewlines(s[n..]);
        CollapseNoTriple(s[n..]);
        assert r == head + c;
        assert |head| <= 2;
        assert |c| > 0 ==> c[0] != '\n';
        forall i | 0 <= i < |r| - 2 ensures !(r[i] == '\n' && r[i + 1] == '\n' && r[i + 2] == '\n') {
          if i >= |head| {
            assert r[i] == c[i - |head|] && r[i + 1] == c[i - |head| + 1] && r[i + 2] == c[i - |head| + 2];
          } else {
            assert r[|head|] == c[0];
          }
        }
      }
    }
  }

  /** A text without three newlines in a row is left as it is. */
  lemma {:induction false} CollapseIdentity(s: string)
    requires NoTripleNewline(s)
    ensures CollapseNewlines(s) == s
    decreases |s|
  {
    if s != [] {
      var n := if s[0] != '\n' then 1 else NewlineRun(s);
      NoTripleSlice(s, n, |s|);
      CollapseIdentity(s[n..]);
      if s[0] == '\n' {
        ShortRuns(s);
      }
      assert s == s[..n] + s[n..];
    }
  }

  lemma ShortRuns(s: string)
    requires NoTripleNewline(s)
    ensures NewlineRun(s) < 3
  {
    if |s| >= 3 {
      assert !(s[0] == '\n' && s[1] == '\n' && s[2] == '\n');
    }
  }

  lemma NoTripleSlice(t: string, a: nat, b: nat)
    requires NoTripleNewline(t) && a <= b <= |t|
    ensures NoTripleNewline(t[a..b])
  {
    var u := t[a..b];
    forall i | 0 <= i < |u| - 2 ensures !(u[i] == '\n' && u[i + 1] == '\n' && u[i + 2] == '\n') {
      assert u[i] == t[a + i] && u[i + 1] == t[a + i + 1] && u[i + 2] == t[a + i + 2];
    }
  }

  // ================================================================ add_citations_parallel

  /** Every score list has one score per page. */
  predicate ScoresFit(scores: seq<Option<seq<real>>>, pageCount: nat) {
    forall k | 0 <= k < |scores| :: scores[k].Some? ==> |scores[k].value| == pageCount
  }

  /** `selected_idxs`: each segment with the gate's answer. */
  function Selection(segments: seq<Segment>, scores: seq<Option<seq<real>>>, threshold: real, minLen: int)
    : (sel: seq<(Segment, int)>)
    requires |scores| == |segments|
    ensures |sel| == |segments|
    ensures forall k | 0 <= k < |sel| :: sel[k] == (segments[k], CitationFor(segments[k], scores[k], threshold, minLen))
  {
    seq(|segments|, k requires 0 <= k < |segments| =>
      (segments[k], CitationFor(segments[k], scores[k], threshold, minLen)))
  }

  /** `updated_sections`: the page each segment cites after post-processing. */
  function PagesOf(pages: seq<PageMarkers.Boundary>, sel: seq<(Segment, int)>): (ps: seq<Option<string>>)
    requires forall k | 0 <= k < |sel| :: -1 <= sel[k].1 < |pages|
    ensures |ps| == |sel|
  {
    seq(|sel|, k requires 0 <= k < |sel| =>
      KeptOrDropped(sel, k);
      PageOf(pages, Kept(sel, k)))
  }

  /** Post-processing can only take a citation away: a segment the gate
      left uncited has no page, and a page that remains is the one the
      gate chose. */
  lemma PagesOfCited(pages: seq<PageMarkers.Boundary>, sel: seq<(Segment, int)>, k: nat)
    requires forall q | 0 <= q < |sel| :: -1 <= sel[q].1 < |pages|
    requires k < |sel|
    ensures sel[k].1 == -1 ==> PagesOf(pages, sel)[k].None?
    ensures PagesOf(pages, sel)[k].Some? ==> 0 <= sel[k].1 && PagesOf(pages, sel)[k].value == pages[sel[k].1].pageNumber
  {
    PagesOfAt(pages, sel, k);
  }

  lemma SelectionInRange(segments: seq<Segment>, pages: seq<PageMarkers.Boundary>,
                         scores: seq<Option<seq<real>>>, threshold: real, minLen: int)
    requires |scores| == |segments| && ScoresFit(scores, |pages|)
    ensures forall k | 0 <= k < |segments| :: -1 <= Selection(segments, scores, threshold, minLen)[k].1 < |pages|
  {
  }

  function Contents(segments: seq<Segment>): (r: seq<string>)
    ensures |r| == |segments|
  {
    seq(|segments|, k requires 0 <= k < |segments| => segments[k].content)
  }

  /** What `add_citations_parallel` returns once an embedding function is
      given. Without pages or segments, or when the page vectors cannot be
      stacked (`stacked` false), the contents are joined unchanged. */
  function CitedText(segments: seq<Segment>, pages: seq<PageMarkers.Boundary>, scores: seq<Option<seq<real>>>,
                     threshold: real, minLen: int, stacked: bool): string
    requires |scores| == |segments| && ScoresFit(scores, |pages|)
  {
    if pages == [] || segments == [] || !stacked then Join("\n\n", Contents(segments))
    else
      SelectionInRange(segments, pages, scores, threshold, minLen);
      var ps := PagesOf(pages, Selection(segments, scores, threshold, minLen));
      var entries := SortBy(Decorated(segments, ps), EntryStart);
      Strip(CollapseNewlines(Join("\n\n", Parts(Spaced(entries, "")))))
  }

  /** The cited text never holds three newlines in a row. */
  lemma CitedTextNoTriple(segments: seq<Segment>, pages: seq<PageMarkers.Boundary>, scores: seq<Option<seq<real>>>,
                          threshold: real, minLen: int, stacked: bool)
    requires |scores| == |segments| && ScoresFit(scores, |pages|)
    requires pages != [] && segments != [] && stacked
    ensures NoTripleNewline(CitedText(segments, pages, scores, threshold, minLen, stacked))
  {
    SelectionInRange(segments, pages, scores, threshold, minLen);
    var ps := PagesOf(pages, Selection(segments, scores, threshold, minLen));
    var entries := SortBy(Decorated(segments, ps), EntryStart);
    var c := CollapseNewlines(Join("\n\n", Parts(Spaced(entries, ""))));
    CollapseNoTriple(Join("\n\n", Parts(Spaced(entries, ""))));
    NoTripleSlice(c, StripStart(c), StripEnd(c));
  }

  /** For segments in text order (as `split_text` produces them) the sort
      and the spacing change nothing: the result is the decorated texts, in
      segment order, without the empty ones, joined by a blank line,
      collapsed and stripped. */
  lemma CitedTextInOrder(segments: seq<Segment>, pages: seq<PageMarkers.Boundary>, scores: seq<Option<seq<real>>>,
                         threshold: real, minLen: int)
    requires |scores| == |segments| && ScoresFit(scores, |pages|)
    requires pages != [] && segments != [] && SortedBy(segments, Segmenter.SegmentStart)
    ensures forall k | 0 <= k < |segments| :: -1 <= Selection(segments, scores, threshold, minLen)[k].1 < |pages|
    ensures CitedText(segments, pages, scores, threshold, minLen, true)
         == Strip(CollapseNewlines(Join("\n\n", Parts(Dicts.Values(Decorated(segments,
              PagesOf(pages, Selection(segments, scores, threshold, minLen))))))))
  {
    SelectionInRange(segments, pages, scores, threshold, minLen);
    var ps := PagesOf(pages, Selection(segments, scores, threshold, minLen));
    var d := Decorated(segments, ps);
    assert SortedBy(d, EntryStart) by {
      forall i, j | 0 <= i < j < |d| ensures EntryStart(d[i]) <= EntryStart(d[j]) {
        assert Segmenter.SegmentStart(segments[i]) <= Segmenter.SegmentStart(segments[j]);
      }
    }
    SortBySorted(d, EntryStart);
    SpacingHasNoEffect(d, "");
  }

  /** A protected segment is never cited. */
  lemma ProtectedNeverCited(segments: seq<Segment>, pages: seq<PageMarkers.Boundary>,
                            scores: seq<Option<seq<real>>>, threshold: real, minLen: int, k: nat)
    requires |scores| == |segments| && ScoresFit(scores, |pages|)
    requires k < |segments| && NeverCited(segments[k])
    ensures forall q | 0 <= q < |segments| :: -1 <= Selection(segments, scores, threshold, minLen)[q].1 < |pages|
    ensures PagesOf(pages, Selection(segments, scores, threshold, minLen))[k] == None
  {
    SelectionInRange(segments, pages, scores, threshold, minLen);
    KeptOrDropped(Selection(segments, scores, threshold, minLen), k);
  }

  lemma PagesOfAt(pages: seq<PageMarkers.Boundary>, sel: seq<(Segment, int)>, k: nat)
    requires forall q | 0 <= q < |sel| :: -1 <= sel[q].1 < |pages|
    requires k < |sel|
    ensures -1 <= Kept(sel, k) < |pages|
    ensures PagesOf(pages, sel)[k] == PageOf(pages, Kept(sel, k))
  {
    KeptOrDropped(sel, k);
  }

  /** `updated_sections`: the page number each post-processed citation
      points at, or none. */
  method UpdatedPages(pages: seq<PageMarkers.Boundary>, sel: seq<(Segment, int)>, processed: seq<(Segment, int)>)
    returns (updated: seq<Option<string>>)
    requires forall k | 0 <= k < |sel| :: -1 <= sel[k].1 < |pages|
    requires |processed| == |sel| && forall k | 0 <= k < |sel| :: processed[k].1 == Kept(sel, k)
    ensures updated == PagesOf(pages, sel)
  {
    ghost var ps := PagesOf(pages, sel);
    updated := [];
    for k := 0 to |processed|
      invariant updated == ps[..k]
    {
      PagesOfAt(pages, sel, k);
      var idx := processed[k].1;
      var page := if idx == -1 then None else Some(pages[idx].pageNumber);
      assert ps[..k + 1] == ps[..k] + [page];
      updated := updated + [page];
    }
    assert ps[..|processed|] == ps;
  }

  /** `add_citations_parallel`: without an embedding function it raises;
      otherwise it returns `CitedText`. */
  method AddCitations(segments: seq<Segment>, pages: seq<PageMarkers.Boundary>, scores: seq<Option<seq<real>>>,
                      threshold: real, minLen: int, hasEmbedder: bool, stacked: bool)
    returns (r: Result<string>)
    requires |scores| == |segments| && ScoresFit(scores, |pages|)
    ensures !hasEmbedder ==> r == Failure("A function to get embeddings must be provided")
    ensures hasEmbedder ==> r == Success(CitedText(segments, pages, scores, threshold, minLen, stacked))
  {
    if !hasEmbedder {
      return Failure("A function to get embeddings must be provided");
    }
    if pages == [] || segments == [] || !stacked {
      return Success(Join("\n\n", Contents(segments)));
    }
    var sel: seq<(Segment, int)> := [];
    for k := 0 to |segments|
      invariant sel == Selection(segments, scores, threshold, minLen)[..k]
    {
      sel := sel + [(segments[k], CitationFor(segments[k], scores[k], threshold, minLen))];
    }
    assert sel == Selection(segments, scores, threshold, minLen);
    SelectionInRange(segments, pages, scores, threshold, minLen);
    var processed := PostProcess(sel);
    var updated := UpdatedPages(pages, sel, processed);
    var withCitations := Decorated(segments, updated);
    withCitations := SortBy(withCitations, EntryStart);
    var parts := Parts(Spaced(withCitations, ""));
    r := Success(Strip(CollapseNewlines(Join("\n\n", parts))));
  }

  // ================================================================ chunk_list

  /** The consecutive slices of `size` elements, the last one possibly
      shorter. */
  function Chunks<T>(lst: seq<T>, size: nat): seq<seq<T>>
    requires size > 0
    decreases |lst|
  {
    if lst == [] then []
    else if |lst| <= size then [lst]
    else [lst[..size]] + Chunks(lst[size..], size)
  }

  /** `list(chunk_list(lst, size))`: `range` rejects a zero step (`None`)
      and yields nothing for a negative one. */
  function ChunkList<T>(lst: seq<T>, size: int): (r: Option<seq<seq<T>>>)
    ensures r.None? <==> size == 0
  {
    if size == 0 then None else if size < 0 then Some([]) else Some(Chunks(lst, size))
  }

  function Min(a: int, b: int): int { if a <= b then a else b }

  /** There are `ceil(len(lst) / size)` chunks: the fewest that hold the
      whole list. */
  lemma {:induction false} ChunkCount<T>(lst: seq<T>, size: nat)
    requires size > 0
    ensures |Chunks(lst, size)| * size >= |lst|
    ensures |Chunks(lst, size)| > 0 ==> (|Chunks(lst, size)| - 1) * size < |lst|
    ensures |Chunks(lst, size)| == 0 <==> lst == []
    decreases |lst|
  {
    if |lst| > size {
      var c := |Chunks(lst[size..], size)|;
      ChunkCount(lst[size..], size);
      assert |Chunks(lst, size)| == c + 1;
      assert (c + 1) * size == c * size + size;
      assert c > 0;
      assert c * size == (c - 1) * size + size;
    }
  }

  /** Chunk `k` is `lst[k * size : k * size + size]`, as `range(0, len(lst),
      size)` gives it. */
  lemma {:induction false} ChunkAt<T>(lst: seq<T>, size: nat, k: nat)
    requires size > 0 && k < |Chunks(lst, size)|
    ensures k * size < |lst|
    ensures Chunks(lst, size)[k] == lst[k * size..Min(k * size + size, |lst|)]
    decreases |lst|
  {
    if k > 0 {
      var rest := lst[size..];
      ChunkAt(rest, size, k - 1);
      assert Chunks(lst, size)[k] == Chunks(rest, size)[k - 1];
      var a := (k - 1) * size;
      assert a + size == k * size;
      assert rest[a..Min(a + size, |rest|)] == lst[a + size..Min(a + size + size, |lst|)];
    }
  }

  /** Together the chunks are the list. */
  lemma {:induction false} ChunksConcat<T>(lst: seq<T>, size: nat)
    requires size > 0
    ensures Concat(Chunks(lst, size)) == lst
    decreases |lst|
  {
    if |lst| > size {
      ChunksConcat(lst[size..], size);
      assert lst == lst[..size] + lst[size..];
    } else if lst != [] {
      assert Concat([lst]) == lst + Concat([]);
    }
  }
}
