/** The two `re.split` calls that break unprotected text into pieces in
    `split_text` (arag/utils/citation_system.py): paragraphs at the pattern
    `\n\s*\n`, sentences at `(?<=[.!?]['")\s])\s+(?=[A-Z])`. A split is given
    by the spans `[a, b)` of its pieces, in order; the separators between them
    are the pattern's matches, found left to right without overlap. */
module TextSplit {
  import opened Strings

  /** Spans `[a, b)` that lie in a string of length `n`. */
  predicate SpansIn(spans: seq<(nat, nat)>, n: nat) {
    forall k | 0 <= k < |spans| :: spans[k].0 <= spans[k].1 <= n
  }

  /** The pieces of `s` cut out by the spans. */
  function Pieces(s: string, spans: seq<(nat, nat)>): (r: seq<string>)
    requires SpansIn(spans, |s|)
    ensures |r| == |spans|
  {
    seq(|spans|, k requires 0 <= k < |spans| => s[spans[k].0..spans[k].1])
  }

  /** End of the run of whitespace that `\s*` or `\s+` takes from `i`. */
  function RunEnd(s: string, i: nat): (e: nat)
    requires i <= |s|
    ensures i <= e <= |s|
    ensures forall k | i <= k < e :: IsSpace(s[k])
    ensures e < |s| ==> !IsSpace(s[e])
  {
    var n := LeadingSpaces(s[i..]);
    assert forall k | i <= k < i + n :: s[k] == s[i..][k - i];
    i + n
  }

  /** The last newline in `s[lo..hi]`, or -1. */
  function LastNewline(s: string, lo: nat, hi: nat): (q: int)
    requires lo <= hi <= |s|
    ensures q == -1 || (lo <= q < hi && s[q] == '\n')
    ensures q == -1 ==> forall k | lo <= k < hi :: s[k] != '\n'
    ensures q >= 0 ==> forall k | q < k < hi :: s[k] != '\n'
    decreases hi - lo
  {
    if hi == lo then -1 else if s[hi - 1] == '\n' then hi - 1 else LastNewline(s, lo, hi - 1)
  }

  // ------------------------------------------------------------ paragraphs

  /** `\n\s*\n` matches at `i`: a newline, then a run of whitespace holding
      another newline. */
  predicate ParagraphBreakAt(s: string, i: nat) {
    i < |s| && s[i] == '\n' && LastNewline(s, i + 1, RunEnd(s, i + 1)) >= 0
  }

  /** Where the match at `i` ends: greedy `\s*` gives back characters up to
      the last newline of the run. */
  function ParagraphBreakEnd(s: string, i: nat): (e: nat)
    requires ParagraphBreakAt(s, i)
    ensures i + 2 <= e <= |s|
    ensures forall k | i <= k < e :: IsSpace(s[k])
    ensures s[e - 1] == '\n'
  {
    LastNewline(s, i + 1, RunEnd(s, i + 1)) + 1
  }

  /** `re.split(r"\n\s*\n", s)` as spans: the current piece started at
      `pieceStart`, the scan has reached `i`. */
  function ParagraphSpansFrom(s: string, pieceStart: nat, i: nat): (r: seq<(nat, nat)>)
    requires pieceStart <= i <= |s|
    ensures |r| >= 1
    decreases |s| - i
  {
    if i == |s| then [(pieceStart, |s|)]
    else if ParagraphBreakAt(s, i) then
      var e := ParagraphBreakEnd(s, i);
      [(pieceStart, i)] + ParagraphSpansFrom(s, e, e)
    else ParagraphSpansFrom(s, pieceStart, i + 1)
  }

  function ParagraphSpans(s: string): seq<(nat, nat)> { ParagraphSpansFrom(s, 0, 0) }

  /** The pieces of a paragraph split, as `list(re.split(...))` returns them. */
  function Paragraphs(s: string): (r: seq<string>)
    ensures |r| >= 1
  {
    ParagraphSpansInRange(s, 0, 0);
    Pieces(s, ParagraphSpans(s))
  }

  /** The pieces lie in `s`, the first starts where the current piece
      started and the last ends at `|s|`. */
  lemma {:induction false} ParagraphSpansInRange(s: string, pieceStart: nat, i: nat)
    requires pieceStart <= i <= |s|
    ensures var r := ParagraphSpansFrom(s, pieceStart, i);
      SpansIn(r, |s|) && r[0].0 == pieceStart && r[|r| - 1].1 == |s|
    decreases |s| - i
  {
    if i < |s| {
      if ParagraphBreakAt(s, i) {
        var e := ParagraphBreakEnd(s, i);
        ParagraphSpansInRange(s, e, e);
      } else {
        ParagraphSpansInRange(s, pieceStart, i + 1);
      }
    }
  }

  /** Consecutive pieces are separated by exactly one match. */
  lemma {:induction false} ParagraphSpansSeparated(s: string, pieceStart: nat, i: nat)
    requires pieceStart <= i <= |s|
    ensures forall k | 0 <= k < |ParagraphSpansFrom(s, pieceStart, i)| - 1 ::
      && ParagraphBreakAt(s, ParagraphSpansFrom(s, pieceStart, i)[k].1)
      && ParagraphBreakEnd(s, ParagraphSpansFrom(s, pieceStart, i)[k].1) == ParagraphSpansFrom(s, pieceStart, i)[k + 1].0
    decreases |s| - i
  {
    if i < |s| {
      if ParagraphBreakAt(s, i) {
        var e := ParagraphBreakEnd(s, i);
        ParagraphSpansSeparated(s, e, e);
        ParagraphSpansInRange(s, e, e);
        var r := ParagraphSpansFrom(s, pieceStart, i);
        var t := ParagraphSpansFrom(s, e, e);
        assert r == [(pieceStart, i)] + t;
        forall k | 0 <= k < |r| - 1
          ensures ParagraphBreakAt(s, r[k].1) && ParagraphBreakEnd(s, r[k].1) == r[k + 1].0
        {
          if k == 0 {
            assert r[0] == (pieceStart, i) && r[1] == t[0];
          } else {
            assert r[k] == t[k - 1] && r[k + 1] == t[k];
          }
        }
      } else {
        ParagraphSpansSeparated(s, pieceStart, i + 1);
      }
    }
  }

  /** No match starts inside a piece (in the first piece, none at or after
      the scan position). */
  lemma {:induction false} ParagraphSpansUnbroken(s: string, pieceStart: nat, i: nat)
    requires pieceStart <= i <= |s|
    ensures forall j | i <= j < ParagraphSpansFrom(s, pieceStart, i)[0].1 :: !ParagraphBreakAt(s, j)
    ensures forall k, j | 1 <= k < |ParagraphSpansFrom(s, pieceStart, i)| &&
        ParagraphSpansFrom(s, pieceStart, i)[k].0 <= j < ParagraphSpansFrom(s, pieceStart, i)[k].1 :: !ParagraphBreakAt(s, j)
    decreases |s| - i
  {
    var r := ParagraphSpansFrom(s, pieceStart, i);
    if i < |s| {
      if ParagraphBreakAt(s, i) {
        var e := ParagraphBreakEnd(s, i);
        ParagraphSpansUnbroken(s, e, e);
        var t := ParagraphSpansFrom(s, e, e);
        assert r == [(pieceStart, i)] + t;
        forall k, j | 1 <= k < |r| && r[k].0 <= j < r[k].1 ensures !ParagraphBreakAt(s, j) {
          assert r[k] == t[k - 1];
          if k == 1 { ParagraphSpansInRange(s, e, e); }
        }
      } else {
        ParagraphSpansUnbroken(s, pieceStart, i + 1);
      }
    }
  }

  /** The paragraph pieces of `s` cover it: they start at 0, end at `|s|`,
      are separated by matches of `\n\s*\n`, and none contains the start of a
      match. */
  lemma ParagraphSplitExact(s: string)
    ensures var r := ParagraphSpans(s);
      && SpansIn(r, |s|)
      && r[0].0 == 0
      && r[|r| - 1].1 == |s|
      && (forall k | 0 <= k < |r| - 1 ::
            ParagraphBreakAt(s, r[k].1) && ParagraphBreakEnd(s, r[k].1) == r[k + 1].0)
      && (forall k, j | 0 <= k < |r| && r[k].0 <= j < r[k].1 :: !ParagraphBreakAt(s, j))
  {
    ParagraphSpansInRange(s, 0, 0);
    ParagraphSpansSeparated(s, 0, 0);
    ParagraphSpansUnbroken(s, 0, 0);
  }

  /** No paragraph holds an empty line: two newlines in a row always start a
      match. */
  lemma NoBlankLineInParagraph(s: string, k: nat, j: nat)
    requires k < |Paragraphs(s)| && j + 1 < |Paragraphs(s)[k]|
    ensures !(Paragraphs(s)[k][j] == '\n' && Paragraphs(s)[k][j + 1] == '\n')
  {
    ParagraphSplitExact(s);
    var r := ParagraphSpans(s);
    var a := r[k].0;
    assert Paragraphs(s)[k] == s[a..r[k].1];
    assert !ParagraphBreakAt(s, a + j);
    TwoNewlinesBreak(s, a + j);
  }

  lemma TwoNewlinesBreak(s: string, i: nat)
    requires i + 1 < |s|
    ensures s[i] == '\n' && s[i + 1] == '\n' ==> ParagraphBreakAt(s, i)
  {
    assert s[i + 1] == '\n' ==> RunEnd(s, i + 1) > i + 1;
  }

  // ------------------------------------------------------------ sentences

  predicate IsTerminal(c: char) { c == '.' || c == '!' || c == '?' }

  predicate IsCloseQuote(c: char) { c == '\'' || c == '"' || c == ')' }

  /** The sentence pattern matches at `i`: the two characters before are a
      full stop, `!` or `?` followed by a quote, a bracket or whitespace; a run
      of whitespace starts at `i` and is followed by a capital letter. */
  predicate SentenceBreakAt(s: string, i: nat) {
    && 2 <= i < |s|
    && IsTerminal(s[i - 2])
    && (IsCloseQuote(s[i - 1]) || IsSpace(s[i - 1]))
    && IsSpace(s[i])
    && RunEnd(s, i) < |s|
    && IsUpper(s[RunEnd(s, i)])
  }

  /** `re.split(sentence_pattern, s)` as spans. */
  function SentenceSpansFrom(s: string, pieceStart: nat, i: nat): (r: seq<(nat, nat)>)
    requires pieceStart <= i <= |s|
    ensures |r| >= 1
    decreases |s| - i
  {
    if i == |s| then [(pieceStart, |s|)]
    else if SentenceBreakAt(s, i) then
      var e := RunEnd(s, i);
      [(pieceStart, i)] + SentenceSpansFrom(s, e, e)
    else SentenceSpansFrom(s, pieceStart, i + 1)
  }

  function SentenceSpans(s: string): seq<(nat, nat)> { SentenceSpansFrom(s, 0, 0) }

  function Sentences(s: string): (r: seq<string>)
    ensures |r| >= 1
  {
    SentenceSpansInRange(s, 0, 0);
    Pieces(s, SentenceSpans(s))
  }

  /** The pieces lie in `s`, the first starts where the current piece
      started and the last ends at `|s|`. */
  lemma {:induction false} SentenceSpansInRange(s: string, pieceStart: nat, i: nat)
    requires pieceStart <= i <= |s|
    ensures var r := SentenceSpansFrom(s, pieceStart, i);
      SpansIn(r, |s|) && r[0].0 == pieceStart && r[|r| - 1].1 == |s|
    decreases |s| - i
  {
    if i < |s| {
      if SentenceBreakAt(s, i) {
        var e := RunEnd(s, i);
        SentenceSpansInRange(s, e, e);
      } else {
        SentenceSpansInRange(s, pieceStart, i + 1);
      }
    }
  }

  /** Consecutive pieces are separated by exactly one match. */
  lemma {:induction false} SentenceSpansSeparated(s: string, pieceStart: nat, i: nat)
    requires pieceStart <= i <= |s|
    ensures forall k | 0 <= k < |SentenceSpansFrom(s, pieceStart, i)| - 1 ::
      && SentenceBreakAt(s, SentenceSpansFrom(s, pieceStart, i)[k].1)
      && RunEnd(s, SentenceSpansFrom(s, pieceStart, i)[k].1) == SentenceSpansFrom(s, pieceStart, i)[k + 1].0
    decreases |s| - i
  {
    if i < |s| {
      if SentenceBreakAt(s, i) {
        var e := RunEnd(s, i);
        SentenceSpansSeparated(s, e, e);
        SentenceSpansInRange(s, e, e);
        var r := SentenceSpansFrom(s, pieceStart, i);
        var t := SentenceSpansFrom(s, e, e);
        assert r == [(pieceStart, i)] + t;
        forall k | 0 <= k < |r| - 1
          ensures SentenceBreakAt(s, r[k].1) && RunEnd(s, r[k].1) == r[k + 1].0
        {
          if k == 0 {
            assert r[0] == (pieceStart, i) && r[1] == t[0];
          } else {
            assert r[k] == t[k - 1] && r[k + 1] == t[k];
          }
        }
      } else {
        SentenceSpansSeparated(s, pieceStart, i + 1);
      }
    }
  }

  /** No match starts inside a piece (in the first piece, none at or after
      the scan position). */
  lemma {:induction false} SentenceSpansUnbroken(s: string, pieceStart: nat, i: nat)
    requires pieceStart <= i <= |s|
    ensures forall j | i <= j < SentenceSpansFrom(s, pieceStart, i)[0].1 :: !SentenceBreakAt(s, j)
    ensures forall k, j | 1 <= k < |SentenceSpansFrom(s, pieceStart, i)| &&
        SentenceSpansFrom(s, pieceStart, i)[k].0 <= j < SentenceSpansFrom(s, pieceStart, i)[k].1 :: !SentenceBreakAt(s, j)
    decreases |s| - i
  {
    var r := SentenceSpansFrom(s, pieceStart, i);
    if i < |s| {
      if SentenceBreakAt(s, i) {
        var e := RunEnd(s, i);
        SentenceSpansUnbroken(s, e, e);
        var t := SentenceSpansFrom(s, e, e);
        assert r == [(pieceStart, i)] + t;
        forall k, j | 1 <= k < |r| && r[k].0 <= j < r[k].1 ensures !SentenceBreakAt(s, j) {
          assert r[k] == t[k - 1];
          if k == 1 { SentenceSpansInRange(s, e, e); }
        }
      } else {
        SentenceSpansUnbroken(s, pieceStart, i + 1);
      }
    }
  }

  /** The sentence pieces of `s` cover it and are separated exactly at the
      matches of the sentence pattern. */
  lemma SentenceSplitExact(s: string)
    ensures var r := SentenceSpans(s);
      && SpansIn(r, |s|)
      && r[0].0 == 0
      && r[|r| - 1].1 == |s|
      && (forall k | 0 <= k < |r| - 1 ::
            SentenceBreakAt(s, r[k].1) && RunEnd(s, r[k].1) == r[k + 1].0)
      && (forall k, j | 0 <= k < |r| && r[k].0 <= j < r[k].1 :: !SentenceBreakAt(s, j))
  {
    SentenceSpansInRange(s, 0, 0);
    SentenceSpansSeparated(s, 0, 0);
    SentenceSpansUnbroken(s, 0, 0);
  }

  /** The look-behind takes two characters and the whitespace run must start
      after them, so a stop followed by a single space and a capital letter
      does not end a sentence: only `. ` plus more whitespace, or a stop and a
      closing quote or bracket before the whitespace, do. */
  lemma SingleSpaceDoesNotSplit(s: string, i: nat)
    requires SentenceBreakAt(s, i)
    ensures IsTerminal(s[i - 2]) && IsSpace(s[i])
    ensures IsCloseQuote(s[i - 1]) || RunEnd(s, i - 1) >= i + 1
  {
  }
}
