/** The answer segmenter of the citation system (`split_text`): line-ending
    normalisation, the line-by-line list-block scanner, the sort-and-merge of
    protected regions, the tiling of the text into protected regions and
    regular gaps, and the paragraph/sentence splitter with its length filter.
    The image, code, table and header pattern matches are inputs: spans of the
    normalised text. */
module Segmenter {
  import opened Strings
  import opened Order
  import opened TextSplit

  // ================================================================ normalisation

  /** `text.replace("\r\n", "\n").replace("\r", "\n")`. */
  function Normalize(s: string): string {
    ReplaceAll(ReplaceAll(s, "\r\n", "\n"), "\r", "\n")
  }

  /** After normalisation no carriage return is left, so every offset computed
      later is an offset into text whose only line break is `\n`. */
  lemma NormalizeRemovesCR(s: string)
    ensures '\r' !in Normalize(s)
  {
    ReplaceCharGone(ReplaceAll(s, "\r\n", "\n"), '\r', "\n");
  }

  lemma {:induction false} ReplaceCharGone(s: string, c: char, rep: string)
    requires c !in rep
    ensures c !in ReplaceAll(s, [c], rep)
    decreases |s|
  {
    if |s| > 0 {
      if StartsWith(s, [c]) {
        ReplaceCharGone(s[1..], c, rep);
        assert s[|[c]|..] == s[1..];
      } else {
        assert s[0] != c;
        ReplaceCharGone(s[1..], c, rep);
      }
    }
  }

  // ================================================================ list items

  predicate IsBullet(c: char) { c == '•' || c == '-' || c == '*' }

  predicate IsRoman(c: char) {
    c == 'i' || c == 'v' || c == 'x' || c == 'l' || c == 'c' || c == 'd' || c == 'm'
  }

  predicate IsCloser(c: char) { c == '.' || c == ')' }

  /** Length of the run of Roman-numeral letters that starts at `i`. */
  function RomanRun(line: string, i: nat): (n: nat)
    requires i <= |line|
    ensures i + n <= |line|
    decreases |line| - i
  {
    if i < |line| && IsRoman(line[i]) then 1 + RomanRun(line, i + 1) else 0
  }

  /** The four list-marker patterns, tried at the first non-whitespace
      character `k` of the line (`\s*` is greedy and no marker character is
      whitespace): `[•\-\*]\s`, `\d+[.)]`, `[a-z][.)]` and `[ivxlcdm]+[.)]`. */
  predicate MarkerAt(line: string, k: nat)
    requires k <= |line|
  {
    || (k + 1 < |line| && IsBullet(line[k]) && IsSpace(line[k + 1]))
    || (var n := DigitRun(line, k); n > 0 && k + n < |line| && IsCloser(line[k + n]))
    || (k + 1 < |line| && IsLower(line[k]) && IsCloser(line[k + 1]))
    || (var n := RomanRun(line, k); n > 0 && k + n < |line| && IsCloser(line[k + n]))
  }

  /** A line matching one of the list-item patterns `^\s*<marker>`. */
  predicate IsListItem(line: string) {
    MarkerAt(line, LeadingSpaces(line))
  }

  /** `line.startswith("    ") or line.startswith("\t")` */
  predicate IsIndented(line: string) {
    StartsWith(line, "    ") || StartsWith(line, "\t")
  }

  /** A list item never closes a list. */
  lemma ItemsDoNotClose(lines: seq<string>)
    ensures forall j | 0 <= j < |lines| :: ItemFlags(lines)[j] ==> !CloseFlags(lines)[j]
  {
    forall j | 0 <= j < |lines| && ItemFlags(lines)[j] ensures !CloseFlags(lines)[j] {
      FlagsAt(lines, j);
      ListItemNotBlank(lines[j]);
    }
  }

  /** A list item always has a visible marker, so it is never blank. */
  lemma ListItemNotBlank(line: string)
    ensures IsListItem(line) ==> !IsBlank(line)
  {
    if IsListItem(line) {
      var k := LeadingSpaces(line);
      assert k < |line| && !IsSpace(line[k]);
    }
  }

  // ================================================================ list blocks

  /** Offset of line `i` in the text the lines were split from. */
  function LineStart(lines: seq<string>, i: nat): nat
    requires i <= |lines|
  {
    if i == 0 then 0 else LineStart(lines, i - 1) + |lines[i - 1]| + 1
  }

  lemma LineStartIncreasing(lines: seq<string>, i: nat, j: nat)
    requires i < j <= |lines|
    ensures LineStart(lines, i) + |lines[i]| < LineStart(lines, j)
    decreases j - i
  {
    if j > i + 1 {
      LineStartIncreasing(lines, i, j - 1);
    }
  }

  /** Line `lines[i]` sits at `LineStart(lines, i)` in the text: the offsets the
      scanner accumulates are true offsets into the text. */
  lemma {:induction false} LineAt(lines: seq<string>, i: nat)
    requires i < |lines|
    ensures LineStart(lines, i) + |lines[i]| <= |Join("\n", lines)|
    ensures Join("\n", lines)[LineStart(lines, i)..LineStart(lines, i) + |lines[i]|] == lines[i]
    ensures i == |lines| - 1 ==> LineStart(lines, i) + |lines[i]| == |Join("\n", lines)|
  {
    if i > 0 {
      LineAt(lines[1..], i - 1);
      LineStartShift(lines, i);
      assert Join("\n", lines) == lines[0] + "\n" + Join("\n", lines[1..]);
      var off := |lines[0]| + 1;
      var t := Join("\n", lines[1..]);
      assert Join("\n", lines)[off..] == t;
    } else if |lines| > 1 {
      assert Join("\n", lines) == lines[0] + "\n" + Join("\n", lines[1..]);
    }
  }

  lemma {:induction false} LineStartShift(lines: seq<string>, i: nat)
    requires 0 < i <= |lines|
    ensures LineStart(lines, i) == |lines[0]| + 1 + LineStart(lines[1..], i - 1)
  {
    if i > 1 {
      LineStartShift(lines, i - 1);
    }
  }

  /** `not line.strip()` closes an open list only when a next line exists and is
      neither a list item nor indented; a non-blank line closes it when it is
      neither a list item nor indented (an indented non-blank line is a
      continuation). */
  predicate Closes(lines: seq<string>, j: nat)
    requires j < |lines|
  {
    if !IsBlank(lines[j]) then !IsListItem(lines[j]) && !IsIndented(lines[j])
    else j + 1 < |lines| && !IsListItem(lines[j + 1]) && !IsIndented(lines[j + 1])
  }

  /** Per line: is it a list item. */
  function ItemFlags(lines: seq<string>): (f: seq<bool>)
    ensures |f| == |lines|
  {
    if lines == [] then [] else [IsListItem(lines[0])] + ItemFlags(lines[1..])
  }

  /** Per line: does it close an open list. */
  function CloseFlags(lines: seq<string>): (f: seq<bool>)
    ensures |f| == |lines|
  {
    CloseFlagsFrom(lines, 0)
  }

  function CloseFlagsFrom(lines: seq<string>, i: nat): (f: seq<bool>)
    requires i <= |lines|
    ensures |f| == |lines| - i
    decreases |lines| - i
  {
    if i == |lines| then [] else [Closes(lines, i)] + CloseFlagsFrom(lines, i + 1)
  }

  /** The first index at or after `from` whose flag is set, or `|flags|`. */
  function NextSet(flags: seq<bool>, from: nat): (a: nat)
    requires from <= |flags|
    ensures from <= a <= |flags|
    ensures a < |flags| ==> flags[a]
    ensures forall j | from <= j < a :: !flags[j]
    decreases |flags| - from
  {
    if from == |flags| then from
    else if flags[from] then from
    else NextSet(flags, from + 1)
  }

  /** The list blocks, as pairs of line indices, found from line `from` on
      when no list is open: a block opens at the first list-item line and
      closes at the first closing line after it (or runs to the end). */
  function BlockLines(item: seq<bool>, close: seq<bool>, from: nat): seq<(nat, nat)>
    requires |item| == |close| && from <= |item|
    decreases |item| - from, 1
  {
    var a := NextSet(item, from);
    if a == |item| then [] else OpenBlock(item, close, a, a + 1)
  }

  /** The blocks found from line `from` on while the block opened at line `a`
      is still open. */
  function OpenBlock(item: seq<bool>, close: seq<bool>, a: nat, from: nat): seq<(nat, nat)>
    requires |item| == |close| && from <= |item|
    decreases |item| - from, 0
  {
    var b := NextSet(close, from);
    [(a, b)] + (if b == |item| then [] else BlockLines(item, close, b + 1))
  }

  /** The block structure that `BlockLines` produces, checked pair by pair. */
  ghost predicate BlocksFrom(item: seq<bool>, close: seq<bool>, from: nat, blocks: seq<(nat, nat)>)
    requires |item| == |close|
    decreases |blocks|
  {
    if blocks == [] then
      forall j | from <= j < |item| :: !item[j]
    else
      var (a, b) := blocks[0];
      && from <= a < b <= |item|
      && item[a]
      && (forall j | from <= j < a :: !item[j])
      && (forall j | a < j < b :: !close[j])
      && (b < |item| ==> close[b] && BlocksFrom(item, close, b + 1, blocks[1..]))
      && (b == |item| ==> blocks[1..] == [])
  }

  /** Soundness and completeness of the block scan: every block opens at the
      first list item after the previous block, closes at the first closing
      line after it or at the end, and no list item is left outside a block. */
  lemma {:induction false} BlockLinesStructure(item: seq<bool>, close: seq<bool>, from: nat)
    requires |item| == |close| && from <= |item|
    ensures BlocksFrom(item, close, from, BlockLines(item, close, from))
    decreases |item| - from, 1
  {
    var a := NextSet(item, from);
    if a < |item| {
      OpenBlockStructure(item, close, a, a + 1);
    }
  }

  lemma {:induction false} OpenBlockStructure(item: seq<bool>, close: seq<bool>, a: nat, from: nat)
    requires |item| == |close| && a < from <= |item| && item[a]
    requires forall j | a < j < from :: !close[j]
    ensures var blocks := OpenBlock(item, close, a, from);
      blocks[0].0 == a && BlocksFrom(item, close, a, blocks)
    decreases |item| - from, 0
  {
    var b := NextSet(close, from);
    if b < |item| {
      BlockLinesStructure(item, close, b + 1);
    }
    var blocks := OpenBlock(item, close, a, from);
    assert blocks[1..] == (if b == |item| then [] else BlockLines(item, close, b + 1));
  }

  /** Every list-item line lies inside one of the blocks. */
  lemma {:induction false} ItemsCovered(item: seq<bool>, close: seq<bool>, from: nat, blocks: seq<(nat, nat)>, j: nat)
    requires |item| == |close| && from <= j < |item| && item[j]
    requires forall i | 0 <= i < |item| :: item[i] ==> !close[i]
    requires BlocksFrom(item, close, from, blocks)
    ensures exists k | 0 <= k < |blocks| :: blocks[k].0 <= j < blocks[k].1
    decreases |blocks|
  {
    if j >= blocks[0].1 {
      ItemsCovered(item, close, blocks[0].1 + 1, blocks[1..], j);
      var k :| 0 <= k < |blocks[1..]| && blocks[1..][k].0 <= j < blocks[1..][k].1;
      assert blocks[k + 1] == blocks[1..][k];
    }
  }

  /** Blocks are in order and separated by at least one line. */
  lemma {:induction false} BlocksOrdered(item: seq<bool>, close: seq<bool>, from: nat, blocks: seq<(nat, nat)>, k: nat)
    requires |item| == |close| && BlocksFrom(item, close, from, blocks)
    requires k + 1 < |blocks|
    ensures blocks[k].0 < blocks[k].1 < blocks[k + 1].0
    decreases k
  {
    if k > 0 {
      BlocksOrdered(item, close, blocks[0].1 + 1, blocks[1..], k - 1);
    }
  }

  /** Each block starts at a list item, and ends at a closing line or at the
      end of the text, the latter only for the last block. */
  lemma {:induction false} BlockInRange(item: seq<bool>, close: seq<bool>, from: nat, blocks: seq<(nat, nat)>, k: nat)
    requires |item| == |close| && BlocksFrom(item, close, from, blocks)
    requires k < |blocks|
    ensures from <= blocks[k].0 < blocks[k].1 <= |item|
    ensures item[blocks[k].0]
    ensures blocks[k].1 < |item| ==> close[blocks[k].1]
    ensures k + 1 == |blocks| || blocks[k].1 < |item|
    decreases k
  {
    if k > 0 {
      BlockInRange(item, close, blocks[0].1 + 1, blocks[1..], k - 1);
    }
  }

  /** The offsets of a block in the text: it starts at the start of its first
      line and ends at the start of its closing line, or at `len(text)` when it
      runs to the end. */
  function Offset(lines: seq<string>, textLength: nat, block: (nat, nat)): (nat, nat) {
    (if block.0 < |lines| then LineStart(lines, block.0) else textLength,
     if block.1 < |lines| then LineStart(lines, block.1) else textLength)
  }

  function BlockOffsets(lines: seq<string>, textLength: nat, blocks: seq<(nat, nat)>): (r: seq<(nat, nat)>)
    ensures |r| == |blocks|
  {
    if blocks == [] then [] else [Offset(lines, textLength, blocks[0])] + BlockOffsets(lines, textLength, blocks[1..])
  }

  lemma {:induction false} BlockOffsetsAt(lines: seq<string>, n: nat, blocks: seq<(nat, nat)>, k: nat)
    requires k < |blocks|
    ensures BlockOffsets(lines, n, blocks)[k] == Offset(lines, n, blocks[k])
  {
    if k > 0 {
      BlockOffsetsAt(lines, n, blocks[1..], k - 1);
    }
  }

  lemma FlagsAt(lines: seq<string>, i: nat)
    requires i < |lines|
    ensures ItemFlags(lines)[i] == IsListItem(lines[i])
    ensures CloseFlags(lines)[i] == Closes(lines, i)
  {
    ItemFlagsAt(lines, i);
    CloseFlagsOf(lines, i);
  }

  lemma CloseFlagsOf(lines: seq<string>, i: nat)
    requires i < |lines|
    ensures CloseFlags(lines)[i] == Closes(lines, i)
  {
    var f := CloseFlagsFrom(lines, 0);
    CloseFlagsAt(lines, 0, i);
    assert f[i - 0] == f[i];
  }

  lemma {:induction false} ItemFlagsAt(lines: seq<string>, i: nat)
    requires i < |lines|
    ensures ItemFlags(lines)[i] == IsListItem(lines[i])
  {
    if i > 0 {
      ItemFlagsAt(lines[1..], i - 1);
    }
  }

  lemma {:induction false} CloseFlagsAt(lines: seq<string>, from: nat, i: nat)
    requires from <= i < |lines|
    ensures CloseFlagsFrom(lines, from)[i - from] == Closes(lines, i)
    decreases i - from
  {
    if i > from {
      CloseFlagsAt(lines, from + 1, i);
    }
  }

  /** The scanner as a function of its state, reading the per-line flags:
      `done` are the offsets of the blocks closed before line `i`, `pos` is the
      offset of line `i`, and a list is open since offset `start` when
      `inList`. The result is the list of all block offsets once every line
      is read. */
  function Scan(lines: seq<string>, item: seq<bool>, close: seq<bool>, n: nat,
                done: seq<(nat, nat)>, inList: bool, start: nat, pos: nat, i: nat): seq<(nat, nat)>
    requires |item| == |close| == |lines| && i <= |lines|
    decreases |lines| - i
  {
    if i == |lines| then (if inList then done + [(start, n)] else done)
    else
      var next := pos + |lines[i]| + 1;
      if !inList then
        (if item[i] then Scan(lines, item, close, n, done, true, pos, next, i + 1)
         else Scan(lines, item, close, n, done, false, start, next, i + 1))
      else if close[i] then Scan(lines, item, close, n, done + [(start, pos)], false, start, next, i + 1)
      else Scan(lines, item, close, n, done, true, start, next, i + 1)
  }

  /** One line of `BlockLines`: an item line opens a block. */
  lemma BlockLinesStep(item: seq<bool>, close: seq<bool>, i: nat)
    requires |item| == |close| && i < |item|
    ensures BlockLines(item, close, i) ==
      if item[i] then OpenBlock(item, close, i, i + 1) else BlockLines(item, close, i + 1)
  {
    assert NextSet(item, i) == if item[i] then i else NextSet(item, i + 1);
  }

  /** One line of `OpenBlock`: a closing line ends the open block. */
  lemma OpenBlockStep(item: seq<bool>, close: seq<bool>, a: nat, i: nat)
    requires |item| == |close| && i < |item|
    ensures OpenBlock(item, close, a, i) ==
      if close[i] then [(a, i)] + BlockLines(item, close, i + 1) else OpenBlock(item, close, a, i + 1)
  {
    assert NextSet(close, i) == if close[i] then i else NextSet(close, i + 1);
  }

  /** One line of the scan with no list open. */
  lemma ScanClosedLine(lines: seq<string>, item: seq<bool>, close: seq<bool>, n: nat,
                       done: seq<(nat, nat)>, start: nat, i: nat)
    requires |item| == |close| == |lines| && i < |lines|
    ensures Scan(lines, item, close, n, done, false, start, LineStart(lines, i), i) ==
      if item[i] then Scan(lines, item, close, n, done, true, LineStart(lines, i), LineStart(lines, i + 1), i + 1)
      else Scan(lines, item, close, n, done, false, start, LineStart(lines, i + 1), i + 1)
  {
    assert LineStart(lines, i + 1) == LineStart(lines, i) + |lines[i]| + 1;
  }

  /** One line of the scan with a list open since `start`. */
  lemma ScanOpenLine(lines: seq<string>, item: seq<bool>, close: seq<bool>, n: nat,
                     done: seq<(nat, nat)>, start: nat, i: nat)
    requires |item| == |close| == |lines| && i < |lines|
    ensures Scan(lines, item, close, n, done, true, start, LineStart(lines, i), i) ==
      if close[i] then Scan(lines, item, close, n, done + [(start, LineStart(lines, i))], false, start, LineStart(lines, i + 1), i + 1)
      else Scan(lines, item, close, n, done, true, start, LineStart(lines, i + 1), i + 1)
  {
    assert LineStart(lines, i + 1) == LineStart(lines, i) + |lines[i]| + 1;
  }

  lemma BlockOffsetsCons(lines: seq<string>, n: nat, x: (nat, nat), rest: seq<(nat, nat)>)
    ensures BlockOffsets(lines, n, [x] + rest) == [Offset(lines, n, x)] + BlockOffsets(lines, n, rest)
  {
    assert ([x] + rest)[1..] == rest;
  }

  /** The line-at-a-time scan finds exactly the blocks `BlockLines` describes,
      at their offsets: from a line with no list open, ... */
  lemma {:induction false} ScanClosedIsBlocks(lines: seq<string>, item: seq<bool>, close: seq<bool>, n: nat,
                                              done: seq<(nat, nat)>, start: nat, i: nat)
    requires |item| == |close| == |lines| && i <= |lines|
    ensures Scan(lines, item, close, n, done, false, start, LineStart(lines, i), i) ==
      done + BlockOffsets(lines, n, BlockLines(item, close, i))
    decreases |lines| - i, 1
  {
    if i < |lines| {
      BlockLinesStep(item, close, i);
      ScanClosedLine(lines, item, close, n, done, start, i);
      if item[i] {
        ScanOpenIsBlocks(lines, item, close, n, done, i, LineStart(lines, i), i + 1);
      } else {
        ScanClosedIsBlocks(lines, item, close, n, done, start, i + 1);
      }
    } else {
      assert BlockLines(item, close, i) == [];
    }
  }

  /** ... and from a line with the list opened at line `a` still open. */
  lemma {:induction false} ScanOpenIsBlocks(lines: seq<string>, item: seq<bool>, close: seq<bool>, n: nat,
                                            done: seq<(nat, nat)>, a: nat, start: nat, i: nat)
    requires |item| == |close| == |lines| && a < i <= |lines| && start == LineStart(lines, a)
    ensures Scan(lines, item, close, n, done, true, start, LineStart(lines, i), i) ==
      done + BlockOffsets(lines, n, OpenBlock(item, close, a, i))
    decreases |lines| - i, 0
  {
    if i < |lines| {
      var pos := LineStart(lines, i);
      if close[i] {
        ScanClosedIsBlocks(lines, item, close, n, done + [(start, pos)], start, i + 1);
        OpenClosesAt(lines, item, close, n, done, a, start, i);
      } else {
        ScanOpenIsBlocks(lines, item, close, n, done, a, start, i + 1);
        OpenContinuesAt(lines, item, close, n, done, a, start, i);
      }
    } else {
      OpenRunsToEnd(lines, item, close, n, done, a, start);
    }
  }

  /** A closing line ends the open block where the line starts. */
  lemma OpenClosesAt(lines: seq<string>, item: seq<bool>, close: seq<bool>, n: nat,
                     done: seq<(nat, nat)>, a: nat, start: nat, i: nat)
    requires |item| == |close| == |lines| && a < i < |lines| && start == LineStart(lines, a) && close[i]
    requires Scan(lines, item, close, n, done + [(start, LineStart(lines, i))], false, start, LineStart(lines, i + 1), i + 1) ==
      (done + [(start, LineStart(lines, i))]) + BlockOffsets(lines, n, BlockLines(item, close, i + 1))
    ensures Scan(lines, item, close, n, done, true, start, LineStart(lines, i), i) ==
      done + BlockOffsets(lines, n, OpenBlock(item, close, a, i))
  {
    var pos := LineStart(lines, i);
    var rest := BlockLines(item, close, i + 1);
    OpenBlockStep(item, close, a, i);
    ScanOpenLine(lines, item, close, n, done, start, i);
    assert Offset(lines, n, (a, i)) == (start, pos);
    BlockOffsetsCons(lines, n, (a, i), rest);
    AppendAssoc(done, [(start, pos)], BlockOffsets(lines, n, rest));
  }

  /** Any other line leaves the block open. */
  lemma OpenContinuesAt(lines: seq<string>, item: seq<bool>, close: seq<bool>, n: nat,
                        done: seq<(nat, nat)>, a: nat, start: nat, i: nat)
    requires |item| == |close| == |lines| && a < i < |lines| && start == LineStart(lines, a) && !close[i]
    requires Scan(lines, item, close, n, done, true, start, LineStart(lines, i + 1), i + 1) ==
      done + BlockOffsets(lines, n, OpenBlock(item, close, a, i + 1))
    ensures Scan(lines, item, close, n, done, true, start, LineStart(lines, i), i) ==
      done + BlockOffsets(lines, n, OpenBlock(item, close, a, i))
  {
    OpenBlockStep(item, close, a, i);
    ScanOpenLine(lines, item, close, n, done, start, i);
  }

  /** A block still open after the last line runs to the end of the text. */
  lemma OpenRunsToEnd(lines: seq<string>, item: seq<bool>, close: seq<bool>, n: nat,
                      done: seq<(nat, nat)>, a: nat, start: nat)
    requires |item| == |close| == |lines| && a < |lines| && start == LineStart(lines, a)
    ensures Scan(lines, item, close, n, done, true, start, LineStart(lines, |lines|), |lines|) ==
      done + BlockOffsets(lines, n, OpenBlock(item, close, a, |lines|))
  {
    assert OpenBlock(item, close, a, |lines|) == [(a, |lines|)];
    assert Offset(lines, n, (a, |lines|)) == (start, n);
    BlockOffsetsCons(lines, n, (a, |lines|), []);
    assert BlockOffsets(lines, n, []) == [];
  }

  /** The list blocks of a text, as pairs of line indices. */
  function ListBlockLines(text: string): seq<(nat, nat)> {
    var lines := Split(text, '\n');
    BlockLines(ItemFlags(lines), CloseFlags(lines), 0)
  }

  /** The start and end offsets of the list blocks of a text: a block starts
      at the start of its first line and ends at the start of its closing line,
      or at `len(text)` when it runs to the end. */
  function ListBlockOffsets(text: string): seq<(nat, nat)> {
    BlockOffsets(Split(text, '\n'), |text|, ListBlockLines(text))
  }

  /** The scanner of `split_text`: walks the lines with `in_list`,
      `current_list_start` and `current_position`, and returns the start and
      end offsets of the list blocks. */
  method FindListBlocks(text: string) returns (starts: seq<nat>, ends: seq<nat>)
    ensures |starts| == |ends| == |ListBlockOffsets(text)|
    ensures forall k | 0 <= k < |starts| :: (starts[k], ends[k]) == ListBlockOffsets(text)[k]
  {
    var lines := Split(text, '\n');
    ghost var item, close := ItemFlags(lines), CloseFlags(lines);
    ghost var blocks := Scan(lines, item, close, |text|, [], false, 0, 0, 0);
    var inList := false;
    var currentListStart: nat := 0;
    var currentPosition: nat := 0;
    starts, ends := [], [];
    ghost var done: seq<(nat, nat)> := [];
    var i := 0;
    while i < |lines|
      invariant 0 <= i <= |lines|
      invariant |starts| == |ends| == |done|
      invariant forall k | 0 <= k < |done| :: done[k] == (starts[k], ends[k])
      invariant Scan(lines, item, close, |text|, done, inList, currentListStart, currentPosition, i) == blocks
    {
      var line := lines[i];
      var isListItem := IsListItem(line);
      var isIndented := IsIndented(line);
      var isBlank := IsBlank(line);
      var isListContinuation := !isListItem && inList && isIndented && !isBlank;
      ListItemNotBlank(line);
      FlagsAt(lines, i);
      if isListItem && !inList {
        inList := true;
        currentListStart := currentPosition;
      } else if inList && !isListItem && !isListContinuation && !isBlank {
        inList := false;
        starts := starts + [currentListStart];
        ends := ends + [currentPosition];
        done := done + [(currentListStart, currentPosition)];
      } else if inList && isBlank {
        var closes := false;
        if i + 1 < |lines| {
          var nextIsList := IsListItem(lines[i + 1]);
          var nextIsContinuation := IsIndented(lines[i + 1]);
          if !nextIsList && !nextIsContinuation {
            closes := true;
          }
        }
        if closes {
          inList := false;
          starts := starts + [currentListStart];
          ends := ends + [currentPosition];
          done := done + [(currentListStart, currentPosition)];
        }
      }
      currentPosition := currentPosition + |line| + 1;
      i := i + 1;
    }
    if inList {
      starts := starts + [currentListStart];
      ends := ends + [|text|];
      done := done + [(currentListStart, |text|)];
    }
    ListBlocksAreScan(text);
  }

  /** The scan from the first line, with no list open, finds the offsets of the
      list blocks of the text. */
  lemma ListBlocksAreScan(text: string)
    ensures var lines := Split(text, '\n');
      ListBlockOffsets(text) == Scan(lines, ItemFlags(lines), CloseFlags(lines), |text|, [], false, 0, 0, 0)
  {
    var lines := Split(text, '\n');
    ScanClosedIsBlocks(lines, ItemFlags(lines), CloseFlags(lines), |text|, [], 0, 0);
  }

  /** The blocks of a text obey `BlocksFrom`. */
  lemma ListBlocksStructure(text: string)
    ensures var lines := Split(text, '\n');
      BlocksFrom(ItemFlags(lines), CloseFlags(lines), 0, ListBlockLines(text))
  {
    var lines := Split(text, '\n');
    BlockLinesStructure(ItemFlags(lines), CloseFlags(lines), 0);
  }

  // ================================================================ list block offsets

  /** The list blocks lie inside the text, each start before its end, and
      each block ends before the next one starts. */
  lemma ListBlockOffsetsInText(text: string)
    ensures var offs := ListBlockOffsets(text);
      && (forall k | 0 <= k < |offs| :: offs[k].0 < offs[k].1 <= |text|)
      && (forall k | 0 <= k < |offs| - 1 :: offs[k].1 < offs[k + 1].0)
  {
    var offs := ListBlockOffsets(text);
    forall k | 0 <= k < |offs| ensures offs[k].0 < offs[k].1 <= |text| {
      BlockOffsetInText(text, k);
    }
    forall k | 0 <= k < |offs| - 1 ensures offs[k].1 < offs[k + 1].0 {
      BlockOffsetsApart(text, k);
    }
  }

  lemma BlockOffsetInText(text: string, k: nat)
    requires k < |ListBlockOffsets(text)|
    ensures ListBlockOffsets(text)[k].0 < ListBlockOffsets(text)[k].1 <= |text|
  {
    var lines := Split(text, '\n');
    var item, close := ItemFlags(lines), CloseFlags(lines);
    var blocks := ListBlockLines(text);
    BlockLinesStructure(item, close, 0);
    JoinSplit(text, '\n');
    assert Join("\n", lines) == text;
    BlockInRange(item, close, 0, blocks, k);
    BlockOffsetsAt(lines, |text|, blocks, k);
    var (a, b) := blocks[k];
    FlagsAt(lines, a);
    ListItemNotBlank(lines[a]);
    LineAt(lines, a);
    if b < |lines| {
      LineStartIncreasing(lines, a, b);
      LineAt(lines, b);
    } else if a < |lines| - 1 {
      LineStartIncreasing(lines, a, |lines| - 1);
      LineAt(lines, |lines| - 1);
    }
  }

  lemma BlockOffsetsApart(text: string, k: nat)
    requires k + 1 < |ListBlockOffsets(text)|
    ensures ListBlockOffsets(text)[k].1 < ListBlockOffsets(text)[k + 1].0
  {
    var lines := Split(text, '\n');
    var item, close := ItemFlags(lines), CloseFlags(lines);
    var blocks := ListBlockLines(text);
    BlockLinesStructure(item, close, 0);
    BlocksOrdered(item, close, 0, blocks, k);
    BlockInRange(item, close, 0, blocks, k);
    BlockInRange(item, close, 0, blocks, k + 1);
    BlockOffsetsAt(lines, |text|, blocks, k);
    BlockOffsetsAt(lines, |text|, blocks, k + 1);
    LineStartIncreasing(lines, blocks[k].1, blocks[k + 1].0);
  }

  /** Every list-item line of the text lies inside one of the list blocks. */
  lemma ListItemsProtected(text: string, j: nat)
    requires j < |Split(text, '\n')| && IsListItem(Split(text, '\n')[j])
    ensures var blocks := ListBlockLines(text);
      exists k | 0 <= k < |blocks| :: blocks[k].0 <= j < blocks[k].1
  {
    var lines := Split(text, '\n');
    var item, close := ItemFlags(lines), CloseFlags(lines);
    BlockLinesStructure(item, close, 0);
    FlagsAt(lines, j);
    ItemsDoNotClose(lines);
    ItemsCovered(item, close, 0, ListBlockLines(text), j);
  }

  // ================================================================ protected regions

  /** A protected region `[start, end)` of the normalised text with its type
      (`image`, `list`, `code`, `table`, `header`, or several of them joined
      with `,` once merged). Its content is `text[start:end]`. */
  datatype Region = Region(start: nat, end: nat, kind: string)

  function StartOf(r: Region): int { r.start }

  /** Each region starts no earlier than the one before it. */
  predicate StartsAscend(rs: seq<Region>) {
    forall k | 0 <= k < |rs| - 1 :: rs[k].start <= rs[k + 1].start
  }

  lemma SortedAscend(rs: seq<Region>)
    requires SortedBy(rs, StartOf)
    ensures StartsAscend(rs)
  {
    forall k | 0 <= k < |rs| - 1 ensures rs[k].start <= rs[k + 1].start {
      assert StartOf(rs[k]) <= StartOf(rs[k + 1]);
    }
  }

  predicate Inside(r: Region, g: Region) { g.start <= r.start && r.end <= g.end }

  /** The spans of one pattern's matches, tagged with the pattern's type. */
  function Tagged(spans: seq<(nat, nat)>, kind: string): (r: seq<Region>)
    ensures |r| == |spans|
  {
    seq(|spans|, k requires 0 <= k < |spans| => Region(spans[k].0, spans[k].1, kind))
  }

  predicate RegionsIn(regions: seq<Region>, n: nat) {
    forall k | 0 <= k < |regions| :: regions[k].start <= regions[k].end <= n
  }

  /** `r` folded into the merged region `g`: same start, the larger end, the
      types joined with `,`. */
  function Extend(g: Region, r: Region): Region {
    Region(g.start, if g.end >= r.end then g.end else r.end, g.kind + "," + r.kind)
  }

  /** The merge of a list of regions sorted by start, read left to right: a
      region that starts at or before the end of the last merged region is
      folded into it, otherwise it starts a new merged region. */
  function Merged(rs: seq<Region>): (m: seq<Region>)
    ensures |m| <= |rs|
    ensures |m| == 0 <==> |rs| == 0
  {
    if rs == [] then []
    else
      var m := Merged(rs[..|rs| - 1]);
      var r := rs[|rs| - 1];
      if m != [] && r.start <= m[|m| - 1].end then m[..|m| - 1] + [Extend(m[|m| - 1], r)]
      else m + [r]
  }

  /** The last merged region starts no later than the last input region. */
  lemma {:induction false} MergedLastStart(rs: seq<Region>)
    requires StartsAscend(rs) && rs != []
    ensures Merged(rs)[|Merged(rs)| - 1].start <= rs[|rs| - 1].start
  {
    var p := rs[..|rs| - 1];
    if p != [] {
      assert StartsAscend(p);
      MergedLastStart(p);
    }
  }

  /** Merged regions are well formed and separated by at least one
      character. */
  lemma {:induction false} MergedSeparated(rs: seq<Region>)
    requires StartsAscend(rs)
    requires forall k | 0 <= k < |rs| :: rs[k].start <= rs[k].end
    ensures forall k | 0 <= k < |Merged(rs)| :: Merged(rs)[k].start <= Merged(rs)[k].end
    ensures Separated(Merged(rs))
  {
    if rs != [] {
      var p := rs[..|rs| - 1];
      assert StartsAscend(p);
      MergedSeparated(p);
      var mp := Merged(p);
      var r := rs[|rs| - 1];
      if mp != [] {
        MergedLastStart(p);
      }
      if mp != [] && r.start <= mp[|mp| - 1].end {
        SeparatedWiden(mp, r);
      } else {
        SeparatedSnoc(mp, r);
      }
    }
  }

  /** Every region starts no later than it ends. */
  predicate StartsBeforeEnds(ms: seq<Region>) {
    forall k | 0 <= k < |ms| :: ms[k].start <= ms[k].end
  }

  lemma SeparatedSnoc(mp: seq<Region>, r: Region)
    requires forall k | 0 <= k < |mp| :: mp[k].start <= mp[k].end
    requires Separated(mp) && r.start <= r.end
    requires mp != [] ==> mp[|mp| - 1].end < r.start
    ensures StartsBeforeEnds(mp + [r])
    ensures Separated(mp + [r])
  {
  }

  lemma SeparatedWiden(mp: seq<Region>, r: Region)
    requires forall k | 0 <= k < |mp| :: mp[k].start <= mp[k].end
    requires Separated(mp) && r.start <= r.end
    requires mp != [] && mp[|mp| - 1].start <= r.start
    ensures StartsBeforeEnds(mp[..|mp| - 1] + [Extend(mp[|mp| - 1], r)])
    ensures Separated(mp[..|mp| - 1] + [Extend(mp[|mp| - 1], r)])
  {
  }

  /** Adding a region only widens the merged regions already there. */
  lemma MergedGrows(rs: seq<Region>)
    requires rs != []
    ensures |Merged(rs[..|rs| - 1])| <= |Merged(rs)|
    ensures forall k | 0 <= k < |Merged(rs[..|rs| - 1])| :: Inside(Merged(rs[..|rs| - 1])[k], Merged(rs)[k])
  {
  }

  /** The region added last lies inside the last merged region. */
  lemma MergedLast(rs: seq<Region>)
    requires StartsAscend(rs)
    requires forall k | 0 <= k < |rs| :: rs[k].start <= rs[k].end
    requires rs != []
    ensures Inside(rs[|rs| - 1], Merged(rs)[|Merged(rs)| - 1])
  {
    var p := rs[..|rs| - 1];
    if p != [] {
      assert StartsAscend(p);
      MergedLastStart(p);
    }
  }

  /** Every input region lies inside one of the merged regions. */
  lemma {:induction false} MergedCovers(rs: seq<Region>, j: nat)
    requires StartsAscend(rs)
    requires forall k | 0 <= k < |rs| :: rs[k].start <= rs[k].end
    requires j < |rs|
    ensures exists k | 0 <= k < |Merged(rs)| :: Inside(rs[j], Merged(rs)[k])
  {
    if j == |rs| - 1 {
      MergedLast(rs);
    } else {
      var p := rs[..|rs| - 1];
      assert StartsAscend(p);
      MergedCovers(p, j);
      var k :| 0 <= k < |Merged(p)| && Inside(p[j], Merged(p)[k]);
      MergedGrows(rs);
      assert Inside(rs[j], Merged(rs)[k]);
    }
  }

  /** Regions that are already in order and separated merge into themselves. */
  lemma {:induction false} MergedNoOverlap(rs: seq<Region>)
    requires forall k | 0 <= k < |rs| - 1 :: rs[k].end < rs[k + 1].start
    ensures Merged(rs) == rs
  {
    if rs != [] {
      var p, r := rs[..|rs| - 1], rs[|rs| - 1];
      assert forall k | 0 <= k < |p| - 1 :: p[k].end < p[k + 1].start;
      MergedNoOverlap(p);
      if p != [] {
        assert p[|p| - 1].end < r.start;
      }
      assert Merged(rs) == p + [r];
      assert rs == p + [r];
    }
  }

  lemma MergedOne(r: Region)
    ensures Merged([r]) == [r]
  {
    assert [r][..0] == [];
  }

  /** One more region extends the last merged region or follows it. */
  lemma MergedSnoc(rs: seq<Region>, merged: seq<Region>, current: Region, r: Region)
    requires merged + [current] == Merged(rs)
    ensures Merged(rs + [r]) ==
      if r.start <= current.end then merged + [Extend(current, r)] else merged + [current] + [r]
  {
    var m := merged + [current];
    assert (rs + [r])[..|rs|] == rs;
    assert m[..|m| - 1] == merged && m[|m| - 1] == current;
  }

  /** The invariant of the merge loop survives one region. */
  lemma MergeAdvance(regions: seq<Region>, i: nat, merged: seq<Region>, current: Region)
    requires 1 <= i < |regions| && merged + [current] == Merged(regions[..i])
    ensures regions[i].start <= current.end ==> merged + [Extend(current, regions[i])] == Merged(regions[..i + 1])
    ensures regions[i].start > current.end ==> (merged + [current]) + [regions[i]] == Merged(regions[..i + 1])
  {
    assert regions[..i + 1] == regions[..i] + [regions[i]];
    MergedSnoc(regions[..i], merged, current, regions[i]);
  }

  /** The merge loop of `split_text`, over the regions sorted by start. */
  method MergeRegions(regions: seq<Region>) returns (merged: seq<Region>)
    ensures merged == Merged(regions)
  {
    merged := [];
    if |regions| == 0 {
      return;
    }
    var current := regions[0];
    assert regions[..1] == [current];
    MergedOne(current);
    var i := 1;
    while i < |regions|
      invariant 1 <= i <= |regions|
      invariant merged + [current] == Merged(regions[..i])
    {
      var region := regions[i];
      MergeAdvance(regions, i, merged, current);
      if region.start <= current.end {
        current := Extend(current, region);
      } else {
        merged := merged + [current];
        current := region;
      }
      i := i + 1;
    }
    merged := merged + [current];
    assert regions[..i] == regions;
  }

  // ================================================================ gaps

  /** Merged regions follow one another with at least one character between. */
  predicate Separated(ms: seq<Region>) {
    forall k | 0 <= k < |ms| - 1 :: ms[k].end < ms[k + 1].start
  }

  lemma {:induction false} SeparatedOrdered(ms: seq<Region>, i: nat, k: nat)
    requires Separated(ms) && forall j | 0 <= j < |ms| :: ms[j].start <= ms[j].end
    requires i < k < |ms|
    ensures ms[i].end < ms[k].start
    decreases k - i
  {
    if i + 1 < k {
      SeparatedOrdered(ms, i + 1, k);
    }
  }

  /** The regular stretches between the merged regions: the loop over
      `last_end`, here from `lastEnd` on, plus the tail after the last
      region. */
  function GapsFrom(ms: seq<Region>, lastEnd: nat, n: nat): seq<(nat, nat)>
    decreases |ms|
  {
    if ms == [] then (if lastEnd < n then [(lastEnd, n)] else [])
    else (if ms[0].start > lastEnd then [(lastEnd, ms[0].start)] else []) + GapsFrom(ms[1..], ms[0].end, n)
  }

  /** Every gap is a non-empty span of the text after `lastEnd`. */
  lemma {:induction false} GapsInRange(ms: seq<Region>, lastEnd: nat, n: nat)
    requires RegionsIn(ms, n) && Separated(ms) && lastEnd <= n
    requires ms != [] ==> lastEnd <= ms[0].start
    ensures forall j | 0 <= j < |GapsFrom(ms, lastEnd, n)| ::
      lastEnd <= GapsFrom(ms, lastEnd, n)[j].0 < GapsFrom(ms, lastEnd, n)[j].1 <= n
    decreases |ms|
  {
    if ms != [] {
      assert RegionsIn(ms[1..], n) && Separated(ms[1..]) by {
        assert forall k | 0 <= k < |ms[1..]| :: ms[1..][k] == ms[k + 1];
      }
      GapsInRange(ms[1..], ms[0].end, n);
      var g := GapsFrom(ms, lastEnd, n);
      var first := if ms[0].start > lastEnd then [(lastEnd, ms[0].start)] else [];
      var rest := GapsFrom(ms[1..], ms[0].end, n);
      assert g == first + rest;
      forall j | 0 <= j < |g| ensures lastEnd <= g[j].0 < g[j].1 <= n {
        if j >= |first| { assert g[j] == rest[j - |first|]; }
      }
    }
  }

  /** No gap overlaps a merged region. */
  lemma {:induction false} GapAvoids(ms: seq<Region>, lastEnd: nat, n: nat, j: nat, k: nat)
    requires RegionsIn(ms, n) && Separated(ms) && lastEnd <= n
    requires j < |GapsFrom(ms, lastEnd, n)| && k < |ms|
    ensures GapsFrom(ms, lastEnd, n)[j].1 <= ms[k].start || ms[k].end <= GapsFrom(ms, lastEnd, n)[j].0
    decreases |ms|
  {
    var g := GapsFrom(ms, lastEnd, n);
    var rest := GapsFrom(ms[1..], ms[0].end, n);
    var first := if ms[0].start > lastEnd then [(lastEnd, ms[0].start)] else [];
    assert g == first + rest;
    assert RegionsIn(ms[1..], n) && Separated(ms[1..]) by {
      assert forall i | 0 <= i < |ms[1..]| :: ms[1..][i] == ms[i + 1];
    }
    if j < |first| {
      if k > 0 {
        SeparatedOrdered(ms, 0, k);
      }
    } else {
      assert g[j] == rest[j - |first|];
      GapsInRange(ms[1..], ms[0].end, n);
      if k > 0 {
        GapAvoids(ms[1..], ms[0].end, n, j - |first|, k - 1);
        assert ms[1..][k - 1] == ms[k];
      }
    }
  }

  /** Regions and gaps tile the text: every position from `lastEnd` on lies in
      a merged region or in a gap. */
  lemma {:induction false} GapsCover(ms: seq<Region>, lastEnd: nat, n: nat, p: nat)
    requires lastEnd <= p < n
    ensures (exists k | 0 <= k < |ms| :: ms[k].start <= p < ms[k].end)
      || (exists j | 0 <= j < |GapsFrom(ms, lastEnd, n)| ::
            GapsFrom(ms, lastEnd, n)[j].0 <= p < GapsFrom(ms, lastEnd, n)[j].1)
    decreases |ms|
  {
    if ms == [] {
      assert GapsFrom(ms, lastEnd, n)[0] == (lastEnd, n);
    } else if p < ms[0].start {
      assert GapsFrom(ms, lastEnd, n)[0] == (lastEnd, ms[0].start);
    } else if p < ms[0].end {
      assert ms[0].start <= p < ms[0].end;
    } else {
      var first := if ms[0].start > lastEnd then [(lastEnd, ms[0].start)] else [];
      var rest := GapsFrom(ms[1..], ms[0].end, n);
      assert GapsFrom(ms, lastEnd, n) == first + rest;
      GapsCover(ms[1..], ms[0].end, n, p);
      if exists k | 0 <= k < |ms[1..]| :: ms[1..][k].start <= p < ms[1..][k].end {
        var k :| 0 <= k < |ms[1..]| && ms[1..][k].start <= p < ms[1..][k].end;
        assert ms[k + 1] == ms[1..][k];
      } else {
        var j :| 0 <= j < |rest| && rest[j].0 <= p < rest[j].1;
        assert GapsFrom(ms, lastEnd, n)[j + |first|] == rest[j];
      }
    }
  }

  /** The gap loop of `split_text`. */
  method ComputeGaps(merged: seq<Region>, n: nat) returns (gaps: seq<(nat, nat)>)
    ensures gaps == GapsFrom(merged, 0, n)
  {
    gaps := [];
    var lastEnd: nat := 0;
    for i := 0 to |merged|
      invariant gaps + GapsFrom(merged[i..], lastEnd, n) == GapsFrom(merged, 0, n)
    {
      var region := merged[i];
      assert merged[i..][1..] == merged[i + 1..];
      if region.start > lastEnd {
        gaps := gaps + [(lastEnd, region.start)];
      }
      lastEnd := region.end;
    }
    if lastEnd < n {
      gaps := gaps + [(lastEnd, n)];
    }
  }

  // ================================================================ segments

  /** One entry of the list `split_text` returns. Offsets are `int` because
      a sentence's start comes from `str.find`. */
  datatype Segment = Segment(content: string, kind: string, start: int, end: int, protected: bool)

  function SegmentStart(s: Segment): int { s.start }

  /** A segment sits in `text` inside `[lo, hi)` and its content is the text
      at its offsets. */
  predicate PlacedIn(text: string, seg: Segment, lo: nat, hi: nat) {
    && lo <= seg.start <= seg.end <= hi <= |text|
    && text[seg.start..seg.end] == seg.content
  }

  /** A sentence segment as `split_text` keeps it: unprotected, stripped,
      non-empty and at least `minLen` long. */
  predicate IsSentence(seg: Segment, minLen: int) {
    && seg.kind == "sentence"
    && !seg.protected
    && seg.content != []
    && |seg.content| >= minLen
    && !IsSpace(seg.content[0])
    && !IsSpace(seg.content[|seg.content| - 1])
  }

  function ProtectedSegment(text: string, r: Region): Segment
    requires r.start <= r.end <= |text|
  {
    Segment(text[r.start..r.end], r.kind, r.start, r.end, true)
  }

  /** The protected regions, copied into the result with `protected: True`. */
  function ProtectedSegments(text: string, ms: seq<Region>): (r: seq<Segment>)
    requires RegionsIn(ms, |text|)
    ensures |r| == |ms|
  {
    seq(|ms|, k requires 0 <= k < |ms| => ProtectedSegment(text, ms[k]))
  }

  /** `sub` occurs in `text` inside the window `[lo, hi)`. */
  predicate OccursWithin(text: string, sub: string, lo: nat, hi: nat) {
    exists p: nat | lo <= p && p + |sub| <= hi :: OccursAt(text, sub, p)
  }

  lemma WithinSlice(text: string, u: string, lo: nat, hi: nat, a: nat, b: nat)
    requires OccursWithin(text, u, lo, hi) && a <= b <= |u|
    ensures OccursWithin(text, u[a..b], lo, hi)
  {
    var p: nat :| lo <= p && p + |u| <= hi && OccursAt(text, u, p);
    assert forall i | 0 <= i < |u| :: u[i] == text[p..p + |u|][i] == text[p + i];
    assert text[p + a..p + b] == u[a..b];
    assert OccursAt(text, u[a..b], p + a);
  }

  lemma WithinStrip(text: string, u: string, lo: nat, hi: nat)
    requires OccursWithin(text, u, lo, hi)
    ensures OccursWithin(text, Strip(u), lo, hi)
  {
    WithinSlice(text, u, lo, hi, StripStart(u), StripEnd(u));
  }

  /** Every piece of a split of `u` occurs where `u` does. */
  lemma WithinPieces(text: string, u: string, spans: seq<(nat, nat)>, lo: nat, hi: nat)
    requires OccursWithin(text, u, lo, hi) && SpansIn(spans, |u|)
    ensures AllWithin(text, Pieces(u, spans), lo, hi)
  {
    forall k | 0 <= k < |spans| ensures OccursWithin(text, Pieces(u, spans)[k], lo, hi) {
      WithinSlice(text, u, lo, hi, spans[k].0, spans[k].1);
    }
  }

  /** A kept sentence, placed with `text.find(sentence, segment["start"])`. */
  function SentenceSegment(text: string, from: nat, sentence: string): Segment {
    var st := Find(text, sentence, from);
    Segment(sentence, "sentence", st, st + |sentence|, false)
  }

  /** The sentences of one paragraph that survive stripping and the length
      filter, in order. */
  function KeptSentences(text: string, from: nat, sentences: seq<string>, minLen: int): seq<Segment>
    decreases |sentences|
  {
    if sentences == [] then []
    else
      KeptSentences(text, from, sentences[..|sentences| - 1], minLen)
        + KeepSentence(text, from, sentences[|sentences| - 1], minLen)
  }

  /** One sentence piece: stripped, and kept when non-empty and long
      enough. */
  function KeepSentence(text: string, from: nat, piece: string, minLen: int): seq<Segment> {
    var s := Strip(piece);
    if s != [] && |s| >= minLen then [SentenceSegment(text, from, s)] else []
  }

  lemma KeepSentencePlaced(text: string, lo: nat, hi: nat, piece: string, minLen: int)
    requires hi <= |text| && OccursWithin(text, piece, lo, hi)
    ensures SentencesIn(text, KeepSentence(text, lo, piece, minLen), lo, hi, minLen)
  {
    var s := Strip(piece);
    if s != [] && |s| >= minLen {
      WithinStrip(text, piece, lo, hi);
      StripUnpadded(s);
      SentencePlaced(text, s, lo, hi, minLen);
      SentencesInOne(text, SentenceSegment(text, lo, s), lo, hi, minLen);
    }
  }

  lemma SentencesInOne(text: string, seg: Segment, lo: nat, hi: nat, minLen: int)
    requires PlacedIn(text, seg, lo, hi) && IsSentence(seg, minLen)
    ensures SentencesIn(text, [seg], lo, hi, minLen)
  {
  }

  /** The sentence segments of the paragraphs of one gap, in order. */
  function ParagraphSegments(text: string, from: nat, paragraphs: seq<string>, minLen: int): seq<Segment>
    decreases |paragraphs|
  {
    if paragraphs == [] then []
    else
      ParagraphSegments(text, from, paragraphs[..|paragraphs| - 1], minLen)
        + ParagraphSentences(text, from, paragraphs[|paragraphs| - 1], minLen)
  }

  /** One paragraph piece: stripped, skipped when empty, else split into
      sentences. */
  function ParagraphSentences(text: string, from: nat, piece: string, minLen: int): seq<Segment> {
    var p := Strip(piece);
    if p != [] then KeptSentences(text, from, Sentences(p), minLen) else []
  }

  lemma ParagraphSentencesPlaced(text: string, lo: nat, hi: nat, piece: string, minLen: int)
    requires hi <= |text| && OccursWithin(text, piece, lo, hi)
    ensures SentencesIn(text, ParagraphSentences(text, lo, piece, minLen), lo, hi, minLen)
  {
    var p := Strip(piece);
    if p != [] {
      WithinStrip(text, piece, lo, hi);
      SentenceSplitExact(p);
      WithinPieces(text, p, SentenceSpans(p), lo, hi);
      KeptSentencesPlaced(text, lo, hi, Sentences(p), minLen);
    }
  }

  /** The sentence segments of one gap. */
  function GapSegments(text: string, gap: (nat, nat), minLen: int): seq<Segment>
    requires gap.0 <= gap.1 <= |text|
  {
    var content := Strip(text[gap.0..gap.1]);
    if content == [] then [] else ParagraphSegments(text, gap.0, Paragraphs(content), minLen)
  }

  /** The sentence segments of all gaps, in order. */
  function SentenceSegments(text: string, gaps: seq<(nat, nat)>, minLen: int): seq<Segment>
    requires SpansIn(gaps, |text|)
    decreases |gaps|
  {
    if gaps == [] then []
    else
      SentenceSegments(text, gaps[..|gaps| - 1], minLen) + GapSegments(text, gaps[|gaps| - 1], minLen)
  }

  /** A sentence that occurs in a window is placed inside that window: `find`
      from the window's start meets it there or earlier. */
  lemma SentencePlaced(text: string, s: string, lo: nat, hi: nat, minLen: int)
    requires OccursWithin(text, s, lo, hi) && hi <= |text|
    requires s != [] && |s| >= minLen && s == Strip(s)
    ensures PlacedIn(text, SentenceSegment(text, lo, s), lo, hi)
    ensures IsSentence(SentenceSegment(text, lo, s), minLen)
  {
    var p: nat :| lo <= p && p + |s| <= hi && OccursAt(text, s, p);
    FindBefore(text, s, lo, p);
    StrippedEnds(s);
  }

  /** All of `segs` are sentences placed inside `[lo, hi)`. */
  predicate SentencesIn(text: string, segs: seq<Segment>, lo: nat, hi: nat, minLen: int) {
    forall k | 0 <= k < |segs| :: PlacedIn(text, segs[k], lo, hi) && IsSentence(segs[k], minLen)
  }

  /** All of `pieces` occur inside `[lo, hi)`. */
  predicate AllWithin(text: string, pieces: seq<string>, lo: nat, hi: nat) {
    forall k | 0 <= k < |pieces| :: OccursWithin(text, pieces[k], lo, hi)
  }

  lemma SentencesInAppend(text: string, a: seq<Segment>, b: seq<Segment>, lo: nat, hi: nat, minLen: int)
    requires SentencesIn(text, a, lo, hi, minLen) && SentencesIn(text, b, lo, hi, minLen)
    ensures SentencesIn(text, a + b, lo, hi, minLen)
  {
    forall k | 0 <= k < |a + b| ensures PlacedIn(text, (a + b)[k], lo, hi) && IsSentence((a + b)[k], minLen) {
      if k < |a| { assert (a + b)[k] == a[k]; } else { assert (a + b)[k] == b[k - |a|]; }
    }
  }

  lemma {:induction false} KeptSentencesPlaced(text: string, lo: nat, hi: nat, sentences: seq<string>, minLen: int)
    requires hi <= |text| && AllWithin(text, sentences, lo, hi)
    ensures SentencesIn(text, KeptSentences(text, lo, sentences, minLen), lo, hi, minLen)
    decreases |sentences|
  {
    if sentences != [] {
      var init := sentences[..|sentences| - 1];
      assert AllWithin(text, init, lo, hi) by {
        forall k | 0 <= k < |init| ensures OccursWithin(text, init[k], lo, hi) {
          assert init[k] == sentences[k];
        }
      }
      KeptSentencesPlaced(text, lo, hi, init, minLen);
      var last := sentences[|sentences| - 1];
      KeepSentencePlaced(text, lo, hi, last, minLen);
      SentencesInAppend(text, KeptSentences(text, lo, init, minLen), KeepSentence(text, lo, last, minLen), lo, hi, minLen);
    }
  }

  lemma {:induction false} ParagraphSegmentsPlaced(text: string, lo: nat, hi: nat, paragraphs: seq<string>, minLen: int)
    requires hi <= |text| && AllWithin(text, paragraphs, lo, hi)
    ensures SentencesIn(text, ParagraphSegments(text, lo, paragraphs, minLen), lo, hi, minLen)
    decreases |paragraphs|
  {
    if paragraphs != [] {
      var init := paragraphs[..|paragraphs| - 1];
      assert AllWithin(text, init, lo, hi) by {
        forall k | 0 <= k < |init| ensures OccursWithin(text, init[k], lo, hi) {
          assert init[k] == paragraphs[k];
        }
      }
      ParagraphSegmentsPlaced(text, lo, hi, init, minLen);
      var last := paragraphs[|paragraphs| - 1];
      ParagraphSentencesPlaced(text, lo, hi, last, minLen);
      SentencesInAppend(text, ParagraphSegments(text, lo, init, minLen),
                        ParagraphSentences(text, lo, last, minLen), lo, hi, minLen);
    }
  }

  /** Every sentence segment of a gap is a stripped, long-enough sentence
      whose offsets lie inside the gap and whose content is the text there. */
  lemma GapSegmentsPlaced(text: string, gap: (nat, nat), minLen: int)
    requires gap.0 <= gap.1 <= |text|
    ensures SentencesIn(text, GapSegments(text, gap, minLen), gap.0, gap.1, minLen)
  {
    var c := text[gap.0..gap.1];
    assert OccursAt(text, c, gap.0);
    var content := Strip(c);
    if content != [] {
      WithinStrip(text, c, gap.0, gap.1);
      ParagraphSplitExact(content);
      WithinPieces(text, content, ParagraphSpans(content), gap.0, gap.1);
      ParagraphSegmentsPlaced(text, gap.0, gap.1, Paragraphs(content), minLen);
    }
  }

  /** `seg` is placed inside one of the gaps. */
  predicate InGap(text: string, seg: Segment, gaps: seq<(nat, nat)>) {
    exists j | 0 <= j < |gaps| :: PlacedIn(text, seg, gaps[j].0, gaps[j].1)
  }

  /** `seg` is the protected segment of one of the merged regions. */
  predicate FromRegion(text: string, seg: Segment, merged: seq<Region>)
    requires RegionsIn(merged, |text|)
  {
    exists i | 0 <= i < |merged| :: seg == ProtectedSegment(text, merged[i])
  }

  lemma {:induction false} SentenceSegmentsPlaced(text: string, gaps: seq<(nat, nat)>, minLen: int)
    requires SpansIn(gaps, |text|)
    ensures forall k | 0 <= k < |SentenceSegments(text, gaps, minLen)| ::
      IsSentence(SentenceSegments(text, gaps, minLen)[k], minLen) && InGap(text, SentenceSegments(text, gaps, minLen)[k], gaps)
    decreases |gaps|
  {
    if gaps != [] {
      var init := gaps[..|gaps| - 1];
      var g := gaps[|gaps| - 1];
      SentenceSegmentsPlaced(text, init, minLen);
      GapSegmentsPlaced(text, g, minLen);
      var a := SentenceSegments(text, init, minLen);
      var b := GapSegments(text, g, minLen);
      var r := SentenceSegments(text, gaps, minLen);
      assert r == a + b;
      forall k | 0 <= k < |r|
        ensures IsSentence(r[k], minLen) && InGap(text, r[k], gaps)
      {
        if k < |a| {
          assert r[k] == a[k];
          assert InGap(text, a[k], init);
          var j :| 0 <= j < |init| && PlacedIn(text, a[k], init[j].0, init[j].1);
          assert gaps[j] == init[j];
          assert PlacedIn(text, r[k], gaps[j].0, gaps[j].1);
        } else {
          assert r[k] == b[k - |a|];
          assert SentencesIn(text, b, g.0, g.1, minLen);
          assert PlacedIn(text, b[k - |a|], g.0, g.1) && IsSentence(b[k - |a|], minLen);
          assert PlacedIn(text, r[k], gaps[|gaps| - 1].0, gaps[|gaps| - 1].1);
        }
      }
    }
  }

  /** The innermost loop of the sentence pass of `split_text`: strip each
      sentence piece and keep it, placed with `find` from the gap's start,
      when it is non-empty and long enough. */
  method KeepSentences(text: string, from: nat, sentences: seq<string>, minLen: int) returns (segs: seq<Segment>)
    ensures segs == KeptSentences(text, from, sentences, minLen)
  {
    segs := [];
    for k := 0 to |sentences|
      invariant segs == KeptSentences(text, from, sentences[..k], minLen)
    {
      KeptSentencesSnoc(text, from, sentences, k, minLen);
      var sentence := Strip(sentences[k]);
      if sentence != [] && |sentence| >= minLen {
        segs := segs + [SentenceSegment(text, from, sentence)];
      }
    }
    assert sentences[..|sentences|] == sentences;
  }

  lemma KeptSentencesSnoc(text: string, from: nat, sentences: seq<string>, k: nat, minLen: int)
    requires k < |sentences|
    ensures KeptSentences(text, from, sentences[..k + 1], minLen)
      == KeptSentences(text, from, sentences[..k], minLen) + KeepSentence(text, from, sentences[k], minLen)
  {
    assert sentences[..k + 1][..k] == sentences[..k];
  }

  lemma ParagraphSegmentsSnoc(text: string, from: nat, paragraphs: seq<string>, j: nat, minLen: int)
    requires j < |paragraphs|
    ensures ParagraphSegments(text, from, paragraphs[..j + 1], minLen)
      == ParagraphSegments(text, from, paragraphs[..j], minLen) + ParagraphSentences(text, from, paragraphs[j], minLen)
  {
    assert paragraphs[..j + 1][..j] == paragraphs[..j];
  }

  /** The paragraph loop for one gap: each non-empty stripped paragraph is
      split into sentences. */
  method SegmentParagraphs(text: string, from: nat, paragraphs: seq<string>, minLen: int) returns (segs: seq<Segment>)
    ensures segs == ParagraphSegments(text, from, paragraphs, minLen)
  {
    segs := [];
    for j := 0 to |paragraphs|
      invariant segs == ParagraphSegments(text, from, paragraphs[..j], minLen)
    {
      ParagraphSegmentsSnoc(text, from, paragraphs, j, minLen);
      var paragraph := Strip(paragraphs[j]);
      if paragraph != [] {
        var kept := KeepSentences(text, from, Sentences(paragraph), minLen);
        segs := segs + kept;
      }
    }
    assert paragraphs[..|paragraphs|] == paragraphs;
  }

  /** One gap: strip it, split it into paragraphs and segment those. */
  method SegmentGap(text: string, gap: (nat, nat), minLen: int) returns (segs: seq<Segment>)
    requires gap.0 <= gap.1 <= |text|
    ensures segs == GapSegments(text, gap, minLen)
  {
    segs := [];
    var content := Strip(text[gap.0..gap.1]);
    if content != [] {
      segs := SegmentParagraphs(text, gap.0, Paragraphs(content), minLen);
    }
  }

  /** The sentence pass of `split_text` over all gaps, in order. */
  method CollectSentences(text: string, gaps: seq<(nat, nat)>, minLen: int) returns (segs: seq<Segment>)
    requires SpansIn(gaps, |text|)
    ensures segs == SentenceSegments(text, gaps, minLen)
  {
    segs := [];
    for i := 0 to |gaps|
      invariant segs == SentenceSegments(text, gaps[..i], minLen)
    {
      assert gaps[..i + 1][..i] == gaps[..i];
      var more := SegmentGap(text, gaps[i], minLen);
      segs := segs + more;
    }
    assert gaps[..|gaps|] == gaps;
  }

  // ================================================================ split_text

  /** The pattern matches of the text, as spans: images (the Markdown,
      `<img>` and `<div>` patterns, in that order), code blocks, tables and
      headers. */
  datatype Matches = Matches(images: seq<(nat, nat)>, codes: seq<(nat, nat)>,
                             tables: seq<(nat, nat)>, headers: seq<(nat, nat)>)

  predicate MatchesIn(n: nat, m: Matches) {
    SpansIn(m.images, n) && SpansIn(m.codes, n) && SpansIn(m.tables, n) && SpansIn(m.headers, n)
  }

  /** `protected_regions` before sorting, in the order they are appended. */
  function ProtectedRegions(text: string, m: Matches): seq<Region>
  {
    Tagged(m.images, "image") + Tagged(ListBlockOffsets(text), "list") + Tagged(m.codes, "code")
      + Tagged(m.tables, "table") + Tagged(m.headers, "header")
  }

  lemma ProtectedRegionsIn(text: string, m: Matches)
    requires MatchesIn(|text|, m)
    ensures RegionsIn(ProtectedRegions(text, m), |text|)
  {
    ListBlockOffsetsInText(text);
    var offs := ListBlockOffsets(text);
    assert SpansIn(offs, |text|) by {
      forall k | 0 <= k < |offs| ensures offs[k].0 <= offs[k].1 <= |text| {
      }
    }
    forall spans: seq<(nat, nat)>, kind: string | SpansIn(spans, |text|)
      ensures RegionsIn(Tagged(spans, kind), |text|)
    {
    }
  }

  /** Merging keeps the regions in the text. */
  lemma {:induction false} MergedIn(rs: seq<Region>, n: nat)
    requires RegionsIn(rs, n)
    ensures RegionsIn(Merged(rs), n)
  {
    if rs != [] {
      var p := rs[..|rs| - 1];
      assert RegionsIn(p, n);
      MergedIn(p, n);
    }
  }

  /** Sorting keeps the regions in the text. */
  lemma SortedIn(rs: seq<Region>, n: nat)
    requires RegionsIn(rs, n)
    ensures RegionsIn(SortBy(rs, StartOf), n)
  {
    var s := SortBy(rs, StartOf);
    forall k | 0 <= k < |s| ensures s[k].start <= s[k].end <= n {
      assert s[k] in multiset(rs);
    }
  }

  /** The sorted-and-merged protected regions. */
  function MergedRegions(text: string, m: Matches): seq<Region>
  {
    Merged(SortBy(ProtectedRegions(text, m), StartOf))
  }

  /** The merged regions lie in the text and are separated. */
  lemma MergedRegionsWellFormed(text: string, m: Matches)
    requires MatchesIn(|text|, m)
    ensures RegionsIn(MergedRegions(text, m), |text|)
    ensures Separated(MergedRegions(text, m))
  {
    var rs := ProtectedRegions(text, m);
    ProtectedRegionsIn(text, m);
    SortedIn(rs, |text|);
    var sorted := SortBy(rs, StartOf);
    MergedIn(sorted, |text|);
    SortedAscend(sorted);
    MergedSeparated(sorted);
  }

  /** The result assembled from the text and its merged regions: the
      protected segments and the sentence segments of the gaps, stably
      sorted by start. */
  function Assemble(text: string, merged: seq<Region>, minLen: int): (r: seq<Segment>)
    requires RegionsIn(merged, |text|) && Separated(merged)
    ensures SortedBy(r, SegmentStart)
  {
    GapsInRange(merged, 0, |text|);
    assert SpansIn(GapsFrom(merged, 0, |text|), |text|);
    SortBy(ProtectedSegments(text, merged) + SentenceSegments(text, GapsFrom(merged, 0, |text|), minLen),
           SegmentStart)
  }

  /** What `split_text(raw, minLen)` returns. */
  function Segmentation(raw: string, m: Matches, minLen: int): (r: seq<Segment>)
    requires MatchesIn(|Normalize(raw)|, m)
    ensures raw == [] ==> r == []
    ensures SortedBy(r, SegmentStart)
  {
    if raw == [] then []
    else
      var text := Normalize(raw);
      MergedRegionsWellFormed(text, m);
      Assemble(text, MergedRegions(text, m), minLen)
  }

  /** The list-protection loop's output zipped into `list` regions. */
  method AppendLists(regions: seq<Region>, starts: seq<nat>, ends: seq<nat>) returns (r: seq<Region>)
    requires |starts| == |ends|
    ensures |r| == |regions| + |starts|
    ensures r[..|regions|] == regions
    ensures forall k | 0 <= k < |starts| :: r[|regions| + k] == Region(starts[k], ends[k], "list")
  {
    r := regions;
    for k := 0 to |starts|
      invariant |r| == |regions| + k
      invariant r[..|regions|] == regions
      invariant forall i | 0 <= i < k :: r[|regions| + i] == Region(starts[i], ends[i], "list")
    {
      r := r + [Region(starts[k], ends[k], "list")];
    }
  }

  /** One `for match in re.finditer(...)` loop appending regions of one type. */
  method AppendMatches(regions: seq<Region>, spans: seq<(nat, nat)>, kind: string) returns (r: seq<Region>)
    ensures r == regions + Tagged(spans, kind)
  {
    r := regions;
    for k := 0 to |spans|
      invariant r == regions + Tagged(spans[..k], kind)
    {
      assert Tagged(spans[..k + 1], kind) == Tagged(spans[..k], kind) + [Region(spans[k].0, spans[k].1, kind)];
      r := r + [Region(spans[k].0, spans[k].1, kind)];
    }
    assert spans[..|spans|] == spans;
  }

  /** Steps 1 to 5 of `split_text`: collect the protected regions of each
      type, in order. */
  method CollectRegions(text: string, m: Matches) returns (regions: seq<Region>)
    ensures regions == ProtectedRegions(text, m)
  {
    regions := AppendMatches([], m.images, "image");
    var starts, ends := FindListBlocks(text);
    var withLists := AppendLists(regions, starts, ends);
    ghost var lists := Tagged(ListBlockOffsets(text), "list");
    assert withLists[|regions|..] == lists;
    assert withLists == regions + lists;
    regions := AppendMatches(withLists, m.codes, "code");
    regions := AppendMatches(regions, m.tables, "table");
    regions := AppendMatches(regions, m.headers, "header");
  }

  /** The loop copying the merged regions into the result. */
  method ProtectRegions(text: string, merged: seq<Region>) returns (result: seq<Segment>)
    requires RegionsIn(merged, |text|)
    ensures result == ProtectedSegments(text, merged)
  {
    result := [];
    for k := 0 to |merged|
      invariant |result| == k
      invariant forall i | 0 <= i < k :: result[i] == ProtectedSegment(text, merged[i])
    {
      var region := merged[k];
      result := result + [Segment(text[region.start..region.end], region.kind, region.start, region.end, true)];
    }
  }

  /** `split_text`: the empty text gives no segment; otherwise the text is
      normalised, the protected regions are collected, sorted and merged, the
      gaps between them are split into sentences, and all segments are
      sorted by start. */
  method SplitText(raw: string, m: Matches, minLen: int)
    returns (segments: seq<Segment>)
    requires MatchesIn(|Normalize(raw)|, m)
    ensures segments == Segmentation(raw, m, minLen)
  {
    if raw == [] {
      return [];
    }
    var text := Normalize(raw);
    var regions := CollectRegions(text, m);
    var merged := MergeRegions(SortBy(regions, StartOf));
    MergedRegionsWellFormed(text, m);
    GapsInRange(merged, 0, |text|);
    var gaps := ComputeGaps(merged, |text|);
    var result := ProtectRegions(text, merged);
    var sentences := CollectSentences(text, gaps, minLen);
    segments := SortBy(result + sentences, SegmentStart);
    assert segments == Assemble(text, merged, minLen);
  }

  // ================================================================ properties of split_text

  /** Where a segment of the result comes from: a merged region (then it is
      protected) or a gap (then it is a sentence placed inside that gap). */
  lemma SegmentOrigin(text: string, merged: seq<Region>, minLen: int, k: nat)
    requires RegionsIn(merged, |text|) && Separated(merged)
    requires k < |Assemble(text, merged, minLen)|
    ensures SpansIn(GapsFrom(merged, 0, |text|), |text|)
    ensures Assemble(text, merged, minLen)[k].protected ==>
      FromRegion(text, Assemble(text, merged, minLen)[k], merged)
    ensures !Assemble(text, merged, minLen)[k].protected ==>
      IsSentence(Assemble(text, merged, minLen)[k], minLen)
      && InGap(text, Assemble(text, merged, minLen)[k], GapsFrom(merged, 0, |text|))
  {
    GapsInRange(merged, 0, |text|);
    var gaps := GapsFrom(merged, 0, |text|);
    var a := ProtectedSegments(text, merged);
    var b := SentenceSegments(text, gaps, minLen);
    var r := Assemble(text, merged, minLen);
    SortedMember(a, b, k);
    assert r[k] == SortBy(a + b, SegmentStart)[k];
    if r[k] in a {
      ProtectedFromRegion(text, merged, r[k]);
    } else {
      SentenceInGap(text, gaps, minLen, r[k]);
    }
  }

  /** An element of a sorted concatenation comes from one of its parts. */
  lemma SortedMember(a: seq<Segment>, b: seq<Segment>, k: nat)
    requires k < |SortBy(a + b, SegmentStart)|
    ensures SortBy(a + b, SegmentStart)[k] in a || SortBy(a + b, SegmentStart)[k] in b
  {
    var r := SortBy(a + b, SegmentStart);
    assert r[k] in multiset(r);
    assert r[k] in a + b;
  }

  lemma ProtectedFromRegion(text: string, merged: seq<Region>, seg: Segment)
    requires RegionsIn(merged, |text|) && seg in ProtectedSegments(text, merged)
    ensures seg.protected && FromRegion(text, seg, merged)
  {
    var a := ProtectedSegments(text, merged);
    var i :| 0 <= i < |a| && a[i] == seg;
    assert seg == ProtectedSegment(text, merged[i]);
  }

  lemma SentenceInGap(text: string, gaps: seq<(nat, nat)>, minLen: int, seg: Segment)
    requires SpansIn(gaps, |text|) && seg in SentenceSegments(text, gaps, minLen)
    ensures IsSentence(seg, minLen) && InGap(text, seg, gaps)
  {
    SentenceSegmentsPlaced(text, gaps, minLen);
    var b := SentenceSegments(text, gaps, minLen);
    var i :| 0 <= i < |b| && b[i] == seg;
    assert IsSentence(b[i], minLen) && InGap(text, b[i], gaps);
  }

  /** For a non-empty text the result is assembled from its merged regions,
      which lie in the text and are separated. */
  lemma SegmentationIsAssemble(raw: string, m: Matches, minLen: int)
    requires MatchesIn(|Normalize(raw)|, m) && raw != []
    ensures RegionsIn(MergedRegions(Normalize(raw), m), |Normalize(raw)|)
    ensures Separated(MergedRegions(Normalize(raw), m))
    ensures Segmentation(raw, m, minLen) == Assemble(Normalize(raw), MergedRegions(Normalize(raw), m), minLen)
  {
    MergedRegionsWellFormed(Normalize(raw), m);
  }

  lemma AssembledPlaced(text: string, merged: seq<Region>, minLen: int, k: nat)
    requires RegionsIn(merged, |text|) && Separated(merged)
    requires k < |Assemble(text, merged, minLen)|
    ensures PlacedIn(text, Assemble(text, merged, minLen)[k], 0, |text|)
    ensures !Assemble(text, merged, minLen)[k].protected ==> IsSentence(Assemble(text, merged, minLen)[k], minLen)
  {
    SegmentOrigin(text, merged, minLen, k);
    var r := Assemble(text, merged, minLen);
    if r[k].protected {
      var i :| 0 <= i < |merged| && r[k] == ProtectedSegment(text, merged[i]);
    }
  }

  /** Every segment lies in the normalised text and its content is the text
      at its offsets; every unprotected one is a stripped sentence of at
      least `minLen` characters. */
  lemma SegmentPlaced(raw: string, m: Matches, minLen: int, k: nat)
    requires MatchesIn(|Normalize(raw)|, m) && k < |Segmentation(raw, m, minLen)|
    ensures PlacedIn(Normalize(raw), Segmentation(raw, m, minLen)[k], 0, |Normalize(raw)|)
    ensures !Segmentation(raw, m, minLen)[k].protected ==> IsSentence(Segmentation(raw, m, minLen)[k], minLen)
  {
    SegmentationIsAssemble(raw, m, minLen);
    AssembledPlaced(Normalize(raw), MergedRegions(Normalize(raw), m), minLen, k);
  }

  lemma AssembledApart(text: string, merged: seq<Region>, minLen: int, i: nat, j: nat)
    requires RegionsIn(merged, |text|) && Separated(merged)
    requires i < |Assemble(text, merged, minLen)| && j < |Assemble(text, merged, minLen)|
    requires Assemble(text, merged, minLen)[i].protected && Assemble(text, merged, minLen)[j].protected
    requires Assemble(text, merged, minLen)[i] != Assemble(text, merged, minLen)[j]
    ensures Assemble(text, merged, minLen)[i].end < Assemble(text, merged, minLen)[j].start
      || Assemble(text, merged, minLen)[j].end < Assemble(text, merged, minLen)[i].start
  {
    var r := Assemble(text, merged, minLen);
    SegmentOrigin(text, merged, minLen, i);
    SegmentOrigin(text, merged, minLen, j);
    var x :| 0 <= x < |merged| && r[i] == ProtectedSegment(text, merged[x]);
    var y :| 0 <= y < |merged| && r[j] == ProtectedSegment(text, merged[y]);
    RegionsApart(merged, |text|, x, y);
  }

  /** Two different merged regions are apart. */
  lemma RegionsApart(merged: seq<Region>, n: nat, x: nat, y: nat)
    requires RegionsIn(merged, n) && Separated(merged) && x < |merged| && y < |merged| && x != y
    ensures merged[x].end < merged[y].start || merged[y].end < merged[x].start
  {
    if x < y {
      SeparatedOrdered(merged, x, y);
    } else {
      SeparatedOrdered(merged, y, x);
    }
  }

  /** Two different protected segments never overlap: merging left at least
      one character between them. */
  lemma ProtectedApart(raw: string, m: Matches, minLen: int, i: nat, j: nat)
    requires MatchesIn(|Normalize(raw)|, m)
    requires i < |Segmentation(raw, m, minLen)| && j < |Segmentation(raw, m, minLen)|
    requires Segmentation(raw, m, minLen)[i].protected && Segmentation(raw, m, minLen)[j].protected
    requires Segmentation(raw, m, minLen)[i] != Segmentation(raw, m, minLen)[j]
    ensures Segmentation(raw, m, minLen)[i].end < Segmentation(raw, m, minLen)[j].start
      || Segmentation(raw, m, minLen)[j].end < Segmentation(raw, m, minLen)[i].start
  {
    SegmentationIsAssemble(raw, m, minLen);
    AssembledApart(Normalize(raw), MergedRegions(Normalize(raw), m), minLen, i, j);
  }

  lemma AssembledOutside(text: string, merged: seq<Region>, minLen: int, i: nat, j: nat)
    requires RegionsIn(merged, |text|) && Separated(merged)
    requires i < |Assemble(text, merged, minLen)| && j < |Assemble(text, merged, minLen)|
    requires !Assemble(text, merged, minLen)[i].protected && Assemble(text, merged, minLen)[j].protected
    ensures Assemble(text, merged, minLen)[i].end <= Assemble(text, merged, minLen)[j].start
      || Assemble(text, merged, minLen)[j].end <= Assemble(text, merged, minLen)[i].start
  {
    var r := Assemble(text, merged, minLen);
    var gaps := GapsFrom(merged, 0, |text|);
    SegmentOrigin(text, merged, minLen, i);
    SegmentOrigin(text, merged, minLen, j);
    var g :| 0 <= g < |gaps| && PlacedIn(text, r[i], gaps[g].0, gaps[g].1);
    var y :| 0 <= y < |merged| && r[j] == ProtectedSegment(text, merged[y]);
    GapAvoids(merged, 0, |text|, g, y);
  }

  /** No sentence segment overlaps a protected segment. */
  lemma SentencesOutsideProtected(raw: string, m: Matches, minLen: int, i: nat, j: nat)
    requires MatchesIn(|Normalize(raw)|, m)
    requires i < |Segmentation(raw, m, minLen)| && j < |Segmentation(raw, m, minLen)|
    requires !Segmentation(raw, m, minLen)[i].protected && Segmentation(raw, m, minLen)[j].protected
    ensures Segmentation(raw, m, minLen)[i].end <= Segmentation(raw, m, minLen)[j].start
      || Segmentation(raw, m, minLen)[j].end <= Segmentation(raw, m, minLen)[i].start
  {
    SegmentationIsAssemble(raw, m, minLen);
    AssembledOutside(Normalize(raw), MergedRegions(Normalize(raw), m), minLen, i, j);
  }

  /** A region inside a merged region is inside a protected segment. */
  lemma MergedProtected(text: string, merged: seq<Region>, minLen: int, x: Region, i: nat)
    requires RegionsIn(merged, |text|) && Separated(merged)
    requires i < |merged| && Inside(x, merged[i])
    ensures exists k | 0 <= k < |Assemble(text, merged, minLen)| ::
      && Assemble(text, merged, minLen)[k].protected
      && Assemble(text, merged, minLen)[k].start <= x.start
      && x.end <= Assemble(text, merged, minLen)[k].end
  {
    GapsInRange(merged, 0, |text|);
    var a := ProtectedSegments(text, merged);
    var b := SentenceSegments(text, GapsFrom(merged, 0, |text|), minLen);
    var r := Assemble(text, merged, minLen);
    assert r == SortBy(a + b, SegmentStart);
    assert (a + b)[i] == a[i];
    assert a[i] in multiset(r);
    var k :| 0 <= k < |r| && r[k] == a[i];
  }

  /** Every pattern match and every list block lies inside one protected
      segment of the result. */
  lemma MatchesProtected(raw: string, m: Matches, minLen: int, x: Region)
    requires MatchesIn(|Normalize(raw)|, m) && raw != []
    requires x in ProtectedRegions(Normalize(raw), m)
    ensures exists k | 0 <= k < |Segmentation(raw, m, minLen)| ::
      && Segmentation(raw, m, minLen)[k].protected
      && Segmentation(raw, m, minLen)[k].start <= x.start
      && x.end <= Segmentation(raw, m, minLen)[k].end
  {
    var text := Normalize(raw);
    var merged := MergedRegions(text, m);
    var i := MergedContaining(text, m, x);
    MergedRegionsWellFormed(text, m);
    MergedProtected(text, merged, minLen, x, i);
    assert Segmentation(raw, m, minLen) == Assemble(text, merged, minLen);
  }

  /** The merged region that holds a protected region. */
  lemma MergedContaining(text: string, m: Matches, x: Region) returns (i: nat)
    requires MatchesIn(|text|, m) && x in ProtectedRegions(text, m)
    ensures i < |MergedRegions(text, m)| && Inside(x, MergedRegions(text, m)[i])
  {
    var rs := ProtectedRegions(text, m);
    ProtectedRegionsIn(text, m);
    var sorted := SortBy(rs, StartOf);
    SortedIn(rs, |text|);
    assert x in multiset(sorted);
    var j :| 0 <= j < |sorted| && sorted[j] == x;
    SortedAscend(sorted);
    MergedCovers(sorted, j);
    var merged := Merged(sorted);
    i :| 0 <= i < |merged| && Inside(x, merged[i]);
  }

  /** Every list-item line of the normalised text is protected: it lies
      inside a list block, which is one of the protected regions. */
  lemma ListItemsInProtected(raw: string, m: Matches, line: nat)
    requires line < |Split(Normalize(raw), '\n')| && IsListItem(Split(Normalize(raw), '\n')[line])
    ensures exists b | 0 <= b < |ListBlockLines(Normalize(raw))| ::
      && ListBlockLines(Normalize(raw))[b].0 <= line < ListBlockLines(Normalize(raw))[b].1
      && Region(ListBlockOffsets(Normalize(raw))[b].0, ListBlockOffsets(Normalize(raw))[b].1, "list")
           in ProtectedRegions(Normalize(raw), m)
  {
    var text := Normalize(raw);
    ListItemsProtected(text, line);
    var blocks := ListBlockLines(text);
    var b :| 0 <= b < |blocks| && blocks[b].0 <= line < blocks[b].1;
    var offs := ListBlockOffsets(text);
    var lists := Tagged(offs, "list");
    var rs := ProtectedRegions(text, m);
    assert rs[|m.images| + b] == lists[b];
  }
}
