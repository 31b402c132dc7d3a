/** `tokenize_and_chunk`: a text whose token list is longer than
    `max_tokens` is cut into windows of `max_tokens` tokens, each starting
    `max_tokens - overlap_tokens` tokens after the previous one. The
    tokenizer is given: `tokens` is what it encodes the text to and
    `decode` turns a window back into text. */
module Chunker {
  import opened Strings

  function Min(a: int, b: int): int { if a <= b then a else b }

  /** The windows starting at `start`, `start + step`, ... while the start is
      inside the token list; Python's slicing clamps each at the end. */
  function Windows<T>(tokens: seq<T>, start: nat, step: nat, size: nat): (ws: seq<seq<T>>)
    requires step > 0
    decreases |tokens| - start
  {
    if start >= |tokens| then []
    else [tokens[start..Min(start + size, |tokens|)]] + Windows(tokens, start + step, step, size)
  }

  /** Window `k` starts `k` steps in and is `size` long, or shorter at the end. */
  lemma {:induction false} WindowAt<T>(tokens: seq<T>, start: nat, step: nat, size: nat, k: nat)
    requires step > 0 && k < |Windows(tokens, start, step, size)|
    ensures start + k * step < |tokens|
    ensures Windows(tokens, start, step, size)[k] == tokens[start + k * step..Min(start + k * step + size, |tokens|)]
    decreases k
  {
    if k > 0 {
      WindowAt(tokens, start + step, step, size, k - 1);
      assert start + step + (k - 1) * step == start + k * step;
    }
  }

  /** There are `ceil((len(tokens) - start) / step)` windows: enough steps to
      pass the end, and the last one starts before it. */
  lemma {:induction false} WindowCount<T>(tokens: seq<T>, start: nat, step: nat, size: nat)
    requires step > 0 && start <= |tokens|
    ensures |Windows(tokens, start, step, size)| * step >= |tokens| - start
    ensures |Windows(tokens, start, step, size)| > 0 ==> (|Windows(tokens, start, step, size)| - 1) * step < |tokens| - start
    decreases |tokens| - start
  {
    var c := |Windows(tokens, start, step, size)|;
    if start < |tokens| {
      if start + step <= |tokens| {
        WindowCount(tokens, start + step, step, size);
      }
      assert c * step == step + (c - 1) * step;
    }
  }

  /** The first `step` tokens of each window, laid end to end, give back
      the tokens: the windows cover the text without a gap. */
  lemma {:induction false} WindowsCover<T>(tokens: seq<T>, start: nat, step: nat, size: nat)
    requires 0 < step <= size && start <= |tokens|
    ensures Concat(Heads(Windows(tokens, start, step, size), step)) == tokens[start..]
    decreases |tokens| - start
  {
    var ws := Windows(tokens, start, step, size);
    if start < |tokens| {
      var next := start + step;
      var rest := Windows(tokens, next, step, size);
      assert Heads(ws, step) == [ws[0][..Min(step, |ws[0]|)]] + Heads(rest, step);
      ConcatCons(ws[0][..Min(step, |ws[0]|)], Heads(rest, step));
      if next <= |tokens| {
        WindowsCover(tokens, next, step, size);
        assert tokens[start..] == tokens[start..next] + tokens[next..];
      } else {
        assert rest == [];
      }
    }
  }

  /** The first `step` tokens of every window (all of a shorter one). */
  function Heads<T>(ws: seq<seq<T>>, step: nat): (r: seq<seq<T>>)
    ensures |r| == |ws|
  {
    seq(|ws|, i requires 0 <= i < |ws| => ws[i][..Min(step, |ws[i]|)])
  }

  /** Consecutive windows overlap: what follows the first `step` tokens of a
      window starts the next window, and is `size - step` tokens long when
      the window is full. */
  lemma WindowsOverlap<T>(tokens: seq<T>, step: nat, size: nat, k: nat)
    requires 0 < step <= size && k + 1 < |Windows(tokens, 0, step, size)|
    ensures var ws := Windows(tokens, 0, step, size);
      && step <= |ws[k]|
      && ws[k][step..] <= ws[k + 1]
      && (k * step + size <= |tokens| ==> |ws[k][step..]| == size - step)
  {
    OverlapFrom(tokens, 0, step, size, k);
    WindowAt(tokens, 0, step, size, k);
  }

  lemma {:induction false} OverlapFrom<T>(tokens: seq<T>, start: nat, step: nat, size: nat, k: nat)
    requires 0 < step <= size && k + 1 < |Windows(tokens, start, step, size)|
    ensures var ws := Windows(tokens, start, step, size);
      step <= |ws[k]| && ws[k][step..] <= ws[k + 1]
    decreases k
  {
    var ws := Windows(tokens, start, step, size);
    var rest := Windows(tokens, start + step, step, size);
    assert ws == [ws[0]] + rest;
    if k == 0 {
      assert rest[0] == tokens[start + step..Min(start + step + size, |tokens|)];
      OverlapAt(tokens, start, step, size);
    } else {
      OverlapFrom(tokens, start + step, step, size, k - 1);
    }
  }

  /** The window at `a`, past its first `step` tokens, starts the window at
      `a + step`. */
  lemma OverlapAt<T>(tokens: seq<T>, a: nat, step: nat, size: nat)
    requires 0 < step <= size && a + step < |tokens|
    ensures var w := tokens[a..Min(a + size, |tokens|)];
      && step <= |w|
      && w[step..] <= tokens[a + step..Min(a + step + size, |tokens|)]
      && (a + size <= |tokens| ==> |w[step..]| == size - step)
  {
    var n := |tokens|;
    var e := Min(a + size, n);
    SliceOfSlice(tokens, a, e, step, e - a);
    SlicePrefix(tokens, a + step, e, Min(a + step + size, n));
  }

  lemma SlicePrefix<T>(s: seq<T>, i: nat, x: nat, y: nat)
    requires i <= x <= y <= |s|
    ensures s[i..x] <= s[i..y]
  {
    assert forall j | 0 <= j < x - i :: s[i..x][j] == s[i..y][j];
  }

  /** `decode` applied to every window. */
  function Decoded<T>(ws: seq<seq<T>>, decode: seq<T> -> string): (r: seq<string>)
    ensures |r| == |ws|
  {
    seq(|ws|, i requires 0 <= i < |ws| => decode(ws[i]))
  }

  /** `tokenize_and_chunk`: the text itself when it fits in `maxTokens`
      tokens, otherwise the decoded windows of `maxTokens` tokens, one every
      `maxTokens - overlapTokens` tokens. The loop only ends when the step
      is positive, which the caller must ensure for long texts. */
  method TokenizeAndChunk<T>(text: string, tokens: seq<T>, decode: seq<T> -> string,
                             maxTokens: nat, overlapTokens: nat) returns (chunks: seq<string>)
    requires |tokens| <= maxTokens || overlapTokens < maxTokens
    ensures |tokens| <= maxTokens ==> chunks == [text]
    ensures |tokens| > maxTokens ==>
      chunks == Decoded(Windows(tokens, 0, maxTokens - overlapTokens, maxTokens), decode)
  {
    if |tokens| <= maxTokens {
      return [text];
    }
    var step := maxTokens - overlapTokens;
    chunks := [];
    var start := 0;
    while start < |tokens|
      invariant Decoded(Windows(tokens, 0, step, maxTokens), decode) ==
        chunks + Decoded(Windows(tokens, start, step, maxTokens), decode)
      decreases |tokens| - start
    {
      var end := start + maxTokens;
      var chunk := tokens[start..Min(end, |tokens|)];
      ChunkAdvance(tokens, start, step, maxTokens, decode, chunks);
      chunks := chunks + [decode(chunk)];
      start := start + step;
    }
    assert Windows(tokens, start, step, maxTokens) == [];
  }

  /** The loop invariant of `TokenizeAndChunk` survives one window. */
  lemma ChunkAdvance<T>(tokens: seq<T>, start: nat, step: nat, size: nat, decode: seq<T> -> string, chunks: seq<string>)
    requires 0 < step && start < |tokens|
    requires Decoded(Windows(tokens, 0, step, size), decode) == chunks + Decoded(Windows(tokens, start, step, size), decode)
    ensures Decoded(Windows(tokens, 0, step, size), decode) ==
      (chunks + [decode(tokens[start..Min(start + size, |tokens|)])]) + Decoded(Windows(tokens, start + step, step, size), decode)
  {
    var w := tokens[start..Min(start + size, |tokens|)];
    var ws := Windows(tokens, start, step, size);
    var rest := Windows(tokens, start + step, step, size);
    assert ws == [w] + rest;
    assert Decoded(ws, decode) == [decode(w)] + Decoded(rest, decode);
    AppendAssoc(chunks, [decode(w)], Decoded(rest, decode));
  }
}
