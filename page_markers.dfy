/** The page-marker parser of the citation system
    (`parse_chunks_with_position`): the knowledge text carries markers
    `{n}---` (the pattern `\{(\d+)\}-+`); each marker opens the page `n + 1`,
    whose content runs to the next marker or to the end of the text. */
module PageMarkers {
  import opened Strings

  /** Length of the run of `-` that starts at `i`. */
  function DashRun(s: string, i: nat): (n: nat)
    requires i <= |s|
    ensures i + n <= |s|
    ensures forall k | i <= k < i + n :: s[k] == '-'
    ensures i + n < |s| ==> s[i + n] != '-'
    decreases |s| - i
  {
    if i < |s| && s[i] == '-' then 1 + DashRun(s, i + 1) else 0
  }

  /** `\{(\d+)\}-+` matches at `i`: a brace, a run of digits, a closing brace
      and at least one dash. The greedy digit and dash runs cannot give
      anything back, since the characters after them are not digits or
      dashes. */
  predicate MarkerAt(s: string, i: nat) {
    && i < |s| && s[i] == '{'
    && var d := DigitRun(s, i + 1);
       d > 0 && i + 2 + d < |s| && s[i + 1 + d] == '}' && s[i + 2 + d] == '-'
  }

  /** A marker found in the text: where it starts and ends, and its digits. */
  datatype Marker = Marker(start: nat, end: nat, digits: string)

  function MarkerFound(s: string, i: nat): (m: Marker)
    requires MarkerAt(s, i)
    ensures m.start == i < m.end <= |s|
    ensures IsNumeral(m.digits)
  {
    var d := DigitRun(s, i + 1);
    DigitRunNumeral(s, i + 1);
    Marker(i, i + 2 + d + DashRun(s, i + 2 + d), s[i + 1..i + 1 + d])
  }

  /** `re.finditer(r"\{(\d+)\}-+", s)` from position `i`: the matches, left
      to right and without overlap. */
  function MarkersFrom(s: string, i: nat): (r: seq<Marker>)
    ensures forall m | m in r :: IsNumeral(m.digits)
    decreases |s| - i
  {
    if i >= |s| then []
    else if MarkerAt(s, i) then [MarkerFound(s, i)] + MarkersFrom(s, MarkerFound(s, i).end)
    else MarkersFrom(s, i + 1)
  }

  function Markers(s: string): seq<Marker> { MarkersFrom(s, 0) }

  /** The markers found from `i` on are real matches, found at or after `i`. */
  lemma {:induction false} MarkersSound(s: string, i: nat, k: nat)
    requires k < |MarkersFrom(s, i)|
    ensures i <= MarkersFrom(s, i)[k].start
    ensures MarkerAt(s, MarkersFrom(s, i)[k].start)
    ensures MarkersFrom(s, i)[k] == MarkerFound(s, MarkersFrom(s, i)[k].start)
    decreases |s| - i
  {
    if MarkerAt(s, i) {
      var m := MarkerFound(s, i);
      if k > 0 {
        MarkersSound(s, m.end, k - 1);
      }
    } else {
      MarkersSound(s, i + 1, k);
    }
  }

  /** They are in order and do not overlap. */
  lemma {:induction false} MarkersDisjoint(s: string, i: nat, k: nat)
    requires k + 1 < |MarkersFrom(s, i)|
    ensures MarkersFrom(s, i)[k].end <= MarkersFrom(s, i)[k + 1].start
    decreases |s| - i
  {
    if MarkerAt(s, i) {
      var m := MarkerFound(s, i);
      if k > 0 {
        MarkersDisjoint(s, m.end, k - 1);
      } else {
        MarkersSound(s, m.end, 0);
      }
    } else {
      MarkersDisjoint(s, i + 1, k);
    }
  }

  /** No match from `i` on is missed: every position where the pattern
      matches is the start of one of the markers found. */
  lemma {:induction false} MarkersComplete(s: string, i: nat, p: nat)
    requires i <= p && MarkerAt(s, p)
    ensures exists k | 0 <= k < |MarkersFrom(s, i)| :: MarkersFrom(s, i)[k].start == p
    decreases |s| - i
  {
    var ms := MarkersFrom(s, i);
    if MarkerAt(s, i) {
      var m := MarkerFound(s, i);
      if p == i {
        assert ms[0].start == p;
      } else {
        if p < m.end { NoMarkerInside(s, i, p); }
        MarkersComplete(s, m.end, p);
        var rest := MarkersFrom(s, m.end);
        var k :| 0 <= k < |rest| && rest[k].start == p;
        assert ms[k + 1] == rest[k];
      }
    } else {
      MarkersComplete(s, i + 1, p);
    }
  }

  /** No match starts inside a match: the characters of a marker after its
      brace are digits, `}` and dashes, none of them `{`. */
  lemma NoMarkerInside(s: string, i: nat, p: nat)
    requires MarkerAt(s, i) && i < p < MarkerFound(s, i).end
    ensures !MarkerAt(s, p)
  {
    var d := DigitRun(s, i + 1);
    var e := i + 2 + d;
    DigitRunDigits(s, i + 1);
    assert p < i + 1 + d ==> IsDigit(s[p]);
    assert p >= e ==> s[p] == '-';
  }

  /** The markers of the text, as `parse_chunks_with_position` sees them. */
  lemma MarkersOfText(s: string)
    ensures forall k | 0 <= k < |Markers(s)| ::
      MarkerAt(s, Markers(s)[k].start) && Markers(s)[k] == MarkerFound(s, Markers(s)[k].start)
    ensures forall k | 0 <= k < |Markers(s)| - 1 :: Markers(s)[k].end <= Markers(s)[k + 1].start
    ensures forall p: nat | MarkerAt(s, p) :: exists k | 0 <= k < |Markers(s)| :: Markers(s)[k].start == p
  {
    var ms := Markers(s);
    assert ms == MarkersFrom(s, 0);
    forall k | 0 <= k < |ms| ensures MarkerAt(s, ms[k].start) && ms[k] == MarkerFound(s, ms[k].start) {
      MarkersSound(s, 0, k);
    }
    forall k | 0 <= k < |Markers(s)| - 1 ensures Markers(s)[k].end <= Markers(s)[k + 1].start {
      MarkersDisjoint(s, 0, k);
    }
    forall p: nat | MarkerAt(s, p) ensures exists k | 0 <= k < |Markers(s)| :: Markers(s)[k].start == p {
      MarkersComplete(s, 0, p);
    }
  }

  // ---------------------------------------------------------------- boundaries

  /** One page boundary: the page number as a string, the offsets of the
      page's text and that text stripped. */
  datatype Boundary = Boundary(pageNumber: string, startPos: nat, endPos: int, content: string)

  /** `str(int(digits) + 1)`: the marker numbers pages from 0. */
  function PageNumber(digits: string): (p: string)
    requires AllDigits(digits)
    ensures IsNumeral(p) && ParseNat(p) == ParseNat(digits) + 1
  {
    ParseNatToString(ParseNat(digits) + 1);
    NatToString(ParseNat(digits) + 1)
  }

  function BoundaryEnd(s: string, ms: seq<Marker>, k: nat): nat
    requires k < |ms|
  {
    if k < |ms| - 1 then ms[k + 1].start else |s|
  }

  function BoundaryAt(s: string, ms: seq<Marker>, k: nat): Boundary
    requires k < |ms| && AllDigits(ms[k].digits)
  {
    var a := ms[k].end;
    var b := BoundaryEnd(s, ms, k);
    Boundary(PageNumber(ms[k].digits), a, b, if a <= b <= |s| then Strip(s[a..b]) else "")
  }

  /** `parse_chunks_with_position(s)`: no boundary when the text holds no
      marker, otherwise one boundary per marker, in order. */
  function ParseChunks(s: string): (r: seq<Boundary>)
    ensures |r| == |Markers(s)|
  {
    var ms := Markers(s);
    seq(|ms|, k requires 0 <= k < |ms| => BoundaryAt(s, ms, k))
  }

  /** The boundaries are what the source promises: none without a marker;
      one per marker in order; the page number is the marker's number plus
      one; the content is the stripped text between the marker's end and the
      next marker's start (or the end of the text). */
  lemma ParseChunksSpec(s: string, k: nat)
    requires k < |ParseChunks(s)|
    ensures IsNumeral(Markers(s)[k].digits)
    ensures ParseChunks(s)[k].startPos == Markers(s)[k].end
    ensures ParseChunks(s)[k].endPos == (if k + 1 < |Markers(s)| then Markers(s)[k + 1].start else |s|)
    ensures ParseChunks(s)[k].endPos == BoundaryEnd(s, Markers(s), k)
    ensures ParseChunks(s)[k].startPos <= ParseChunks(s)[k].endPos <= |s|
    ensures IsNumeral(ParseChunks(s)[k].pageNumber)
    ensures ParseNat(ParseChunks(s)[k].pageNumber) == ParseNat(Markers(s)[k].digits) + 1
    ensures ParseChunks(s)[k].content == Strip(s[ParseChunks(s)[k].startPos..ParseChunks(s)[k].endPos])
  {
    MarkersOfText(s);
    var ms := Markers(s);
    assert MarkerAt(s, ms[k].start);
    ParseNatToString(ParseNat(ms[k].digits) + 1);
  }

  /** The text has no marker exactly when the parser returns no boundary. */
  lemma NoMarkerNoBoundary(s: string)
    ensures ParseChunks(s) == [] <==> forall p: nat :: !MarkerAt(s, p)
  {
    MarkersOfText(s);
    if ParseChunks(s) != [] {
      assert MarkerAt(s, Markers(s)[0].start);
    }
  }

  // ---------------------------------------------------------------- contents

  /** A marker in a slice of the text is a marker of the text at the same
      place. */
  lemma MarkerInSlice(s: string, a: nat, b: nat, p: nat)
    requires a <= b <= |s| && MarkerAt(s[a..b], p)
    ensures MarkerAt(s, a + p)
  {
    var t := s[a..b];
    var d := DigitRun(t, p + 1);
    DigitRunDigits(t, p + 1);
    assert forall k | p + 1 <= k < p + 3 + d :: t[k] == s[a + k];
    DigitRunExact(s, a + p + 1, d);
  }

  /** No match starts between a marker and the end of its page. */
  lemma NoMarkerInPage(s: string, k: nat, q: nat)
    requires k < |Markers(s)|
    requires Markers(s)[k].end <= q < BoundaryEnd(s, Markers(s), k)
    ensures !MarkerAt(s, q)
  {
    if MarkerAt(s, q) {
      var j := MarkerIndex(s, q);
      MarkerOutsidePage(s, k, j);
    }
  }

  /** The marker that matches at `q`. */
  lemma MarkerIndex(s: string, q: nat) returns (j: nat)
    requires MarkerAt(s, q)
    ensures j < |Markers(s)| && Markers(s)[j].start == q
  {
    MarkersComplete(s, 0, q);
    j :| 0 <= j < |Markers(s)| && Markers(s)[j].start == q;
  }

  /** No marker starts between the end of marker `k` and the end of its page. */
  lemma MarkerOutsidePage(s: string, k: nat, j: nat)
    requires k < |Markers(s)| && j < |Markers(s)|
    ensures !(Markers(s)[k].end <= Markers(s)[j].start < BoundaryEnd(s, Markers(s), k))
  {
    MarkerNonEmpty(s, j);
    MarkerNonEmpty(s, k);
    if j < k {
      MarkersOrdered(s, j, k);
    } else if j > k + 1 {
      MarkerNonEmpty(s, k + 1);
      MarkersOrdered(s, k + 1, j);
    }
  }

  lemma MarkerNonEmpty(s: string, j: nat)
    requires j < |Markers(s)|
    ensures Markers(s)[j].start < Markers(s)[j].end <= |s|
  {
    MarkersSound(s, 0, j);
  }

  /** The stripped slice `s[a..e]` is itself a slice of `s`. */
  lemma StripSlice(s: string, a: nat, e: nat)
    requires a <= e <= |s|
    ensures a + StripStart(s[a..e]) <= a + StripEnd(s[a..e]) <= e
    ensures Strip(s[a..e]) == s[a + StripStart(s[a..e])..a + StripEnd(s[a..e])]
  {
    var t := s[a..e];
    SliceOfSlice(s, a, e, StripStart(t), StripEnd(t));
  }

  /** No slice of a page's text holds a marker. */
  lemma NoMarkerInPageSlice(s: string, k: nat, c0: nat, c1: nat, p: nat)
    requires k < |Markers(s)|
    requires Markers(s)[k].end <= c0 <= c1 <= BoundaryEnd(s, Markers(s), k) <= |s|
    ensures !MarkerAt(s[c0..c1], p)
  {
    if MarkerAt(s[c0..c1], p) {
      MarkerInSlice(s, c0, c1, p);
      NoMarkerInPage(s, k, c0 + p);
    }
  }

  /** No page's content holds another page marker: each page ends where the
      next marker begins. */
  lemma ContentHasNoMarker(s: string, k: nat, p: nat)
    requires k < |ParseChunks(s)|
    ensures !MarkerAt(ParseChunks(s)[k].content, p)
  {
    var c0, c1 := ContentSlice(s, k);
    NoMarkerInPageSlice(s, k, c0, c1, p);
  }

  /** A boundary's content is a slice of its page's text. */
  lemma ContentSlice(s: string, k: nat) returns (c0: nat, c1: nat)
    requires k < |ParseChunks(s)|
    ensures k < |Markers(s)|
    ensures Markers(s)[k].end <= c0 <= c1 <= BoundaryEnd(s, Markers(s), k) <= |s|
    ensures ParseChunks(s)[k].content == s[c0..c1]
  {
    var ms := Markers(s);
    PageInText(s, k);
    var a, e := ms[k].end, BoundaryEnd(s, ms, k);
    var t := s[a..e];
    assert ParseChunks(s)[k].content == Strip(t) by {
      assert ms[k] in ms;
      assert ParseChunks(s)[k] == BoundaryAt(s, ms, k);
    }
    StripSlice(s, a, e);
    c0, c1 := a + StripStart(t), a + StripEnd(t);
  }

  /** A page runs from its marker's end to the next marker's start, or to
      the end of the text, within the text. */
  lemma PageInText(s: string, k: nat)
    requires k < |Markers(s)|
    ensures Markers(s)[k].end <= BoundaryEnd(s, Markers(s), k) <= |s|
  {
    MarkerNonEmpty(s, k);
    if k + 1 < |Markers(s)| {
      MarkersOrdered(s, k, k + 1);
      MarkerNonEmpty(s, k + 1);
    }
  }

  /** Markers further apart in the list are further apart in the text. */
  lemma MarkersOrdered(s: string, i: nat, j: nat)
    requires i < j < |Markers(s)|
    ensures Markers(s)[i].end <= Markers(s)[j].start
    decreases j - i
  {
    MarkersOfText(s);
    var ms := Markers(s);
    if j > i + 1 {
      MarkersOrdered(s, i + 1, j);
      assert MarkerAt(s, ms[i + 1].start);
    }
  }
}
