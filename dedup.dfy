/** `deduplicate_by_similarity`: a greedy pass over the chunks that keeps a
    chunk unless an earlier kept chunk is at least `threshold` similar to
    it. The cosine similarity of the embeddings is a given function
    `sim(i, j)` of the two positions. */
module Dedup {

  /** No chunk before `i` that the mask keeps is too similar to chunk `j`. */
  function Clear(sim: (nat, nat) -> real, threshold: real, mask: seq<bool>, i: nat, j: nat): bool
    requires i <= |mask|
  {
    if i == 0 then true
    else Clear(sim, threshold, mask, i - 1, j) && (mask[i - 1] ==> sim(i - 1, j) < threshold)
  }

  lemma {:induction false} ClearMeans(sim: (nat, nat) -> real, threshold: real, mask: seq<bool>, i: nat, j: nat)
    requires i <= |mask|
    ensures Clear(sim, threshold, mask, i, j) <==> forall k | 0 <= k < i :: mask[k] ==> sim(k, j) < threshold
  {
    if i > 0 {
      ClearMeans(sim, threshold, mask, i - 1, j);
    }
  }

  /** `Clear` reads only the first `i` entries of the mask. */
  lemma {:induction false} ClearPrefix(sim: (nat, nat) -> real, threshold: real, mask: seq<bool>, i: nat, j: nat, n: nat)
    requires i <= n <= |mask|
    ensures Clear(sim, threshold, mask, i, j) == Clear(sim, threshold, mask[..n], i, j)
  {
    if i > 0 {
      ClearPrefix(sim, threshold, mask, i - 1, j, n);
    }
  }

  /** The greedy keep mask of the first `n` chunks: chunk `j` is kept when
      no kept chunk before it is too similar. */
  function Mask(sim: (nat, nat) -> real, threshold: real, n: nat): (m: seq<bool>)
    ensures |m| == n
  {
    if n == 0 then []
    else
      var m := Mask(sim, threshold, n - 1);
      m + [Clear(sim, threshold, m, n - 1, n - 1)]
  }

  /** Deciding more chunks does not change earlier decisions. */
  lemma {:induction false} MaskPrefix(sim: (nat, nat) -> real, threshold: real, n: nat, k: nat)
    requires k <= n
    ensures Mask(sim, threshold, n)[..k] == Mask(sim, threshold, k)
    decreases n
  {
    if k < n {
      MaskPrefix(sim, threshold, n - 1, k);
      assert Mask(sim, threshold, n)[..n - 1] == Mask(sim, threshold, n - 1);
    } else {
      assert Mask(sim, threshold, n)[..n] == Mask(sim, threshold, n);
    }
  }

  /** Entry `j` of the mask, in terms of the mask itself. */
  lemma MaskAt(sim: (nat, nat) -> real, threshold: real, n: nat, j: nat)
    requires j < n
    ensures Mask(sim, threshold, n)[j] == Clear(sim, threshold, Mask(sim, threshold, n), j, j)
  {
    var m := Mask(sim, threshold, n);
    MaskPrefix(sim, threshold, n, j + 1);
    assert m[..j + 1][..j] == Mask(sim, threshold, j + 1)[..j];
    MaskPrefix(sim, threshold, j + 1, j);
    ClearPrefix(sim, threshold, m, j, j, j);
    assert m[..j] == Mask(sim, threshold, j);
  }

  /** What the greedy pass guarantees: the first chunk is kept; any two
      kept chunks are less similar than the threshold; every dropped chunk
      has an earlier kept chunk at least that similar. */
  lemma MaskSpec(sim: (nat, nat) -> real, threshold: real, n: nat)
    ensures var m := Mask(sim, threshold, n);
      && (n > 0 ==> m[0])
      && (forall i, j | 0 <= i < j < n && m[i] && m[j] :: sim(i, j) < threshold)
      && (forall j | 0 <= j < n && !m[j] :: exists i | 0 <= i < j :: m[i] && sim(i, j) >= threshold)
  {
    var m := Mask(sim, threshold, n);
    if n > 0 {
      MaskAt(sim, threshold, n, 0);
    }
    forall j | 0 <= j < n
      ensures m[j] <==> forall i | 0 <= i < j :: m[i] ==> sim(i, j) < threshold
    {
      MaskAt(sim, threshold, n, j);
      ClearMeans(sim, threshold, m, j, j);
    }
  }

  /** With no pair at or above the threshold everything is kept. */
  lemma {:induction false} MaskAllKept(sim: (nat, nat) -> real, threshold: real, n: nat)
    requires forall i, j | 0 <= i < j < n :: sim(i, j) < threshold
    ensures forall j | 0 <= j < n :: Mask(sim, threshold, n)[j]
  {
    if n > 0 {
      MaskAllKept(sim, threshold, n - 1);
      var m := Mask(sim, threshold, n - 1);
      ClearMeans(sim, threshold, m, n - 1, n - 1);
    }
  }

  /** The elements whose mask entry is set, in order. */
  function Select<T>(xs: seq<T>, mask: seq<bool>): (r: seq<T>)
    requires |mask| == |xs|
    ensures |r| <= |xs|
  {
    if |xs| == 0 then []
    else Select(xs[..|xs| - 1], mask[..|xs| - 1]) + (if mask[|xs| - 1] then [xs[|xs| - 1]] else [])
  }

  /** The positions whose mask entry is set, in increasing order. */
  function Kept(mask: seq<bool>): (r: seq<nat>)
    ensures forall k | 0 <= k < |r| :: r[k] < |mask| && mask[r[k]]
    ensures forall k, l | 0 <= k < l < |r| :: r[k] < r[l]
  {
    if |mask| == 0 then []
    else Kept(mask[..|mask| - 1]) + (if mask[|mask| - 1] then [|mask| - 1] else [])
  }

  /** Selecting by a mask takes the elements at the kept positions. */
  lemma {:induction false} SelectKept<T>(xs: seq<T>, mask: seq<bool>)
    requires |mask| == |xs|
    ensures |Select(xs, mask)| == |Kept(mask)|
    ensures forall k | 0 <= k < |Kept(mask)| :: Select(xs, mask)[k] == xs[Kept(mask)[k]]
  {
    if |xs| > 0 {
      SelectKept(xs[..|xs| - 1], mask[..|xs| - 1]);
    }
  }

  /** The similarities of the chunks at positions `idx`, renumbered. */
  function Through(sim: (nat, nat) -> real, idx: seq<nat>): (nat, nat) -> real {
    (a: nat, b: nat) => if a < |idx| && b < |idx| then sim(idx[a], idx[b]) else 0.0
  }

  /** A second pass over the survivors removes nothing: the survivors'
      similarities, read through their original positions, are all below
      the threshold. */
  lemma RerunKeepsAll(sim: (nat, nat) -> real, threshold: real, n: nat)
    ensures forall j | 0 <= j < |Kept(Mask(sim, threshold, n))| ::
      Mask(Through(sim, Kept(Mask(sim, threshold, n))), threshold, |Kept(Mask(sim, threshold, n))|)[j]
  {
    var idx := Kept(Mask(sim, threshold, n));
    MaskSpec(sim, threshold, n);
    MaskAllKept(Through(sim, idx), threshold, |idx|);
  }

  /** What `deduplicate_by_similarity` returns: a bare empty list for no
      chunks, otherwise the surviving chunks and their embeddings. */
  datatype Deduplicated<C, E> = NoChunks | Survivors(chunks: seq<C>, embeddings: seq<E>)

  /** `deduplicate_by_similarity`: the `to_keep` mask is filled by the
      nested loop, then chunks and embeddings are filtered by it. */
  method Deduplicate<C, E>(chunks: seq<C>, embeddings: seq<E>, sim: (nat, nat) -> real, threshold: real)
    returns (r: Deduplicated<C, E>)
    requires |embeddings| == |chunks|
    ensures chunks == [] ==> r == NoChunks
    ensures chunks != [] ==> r == Survivors(Select(chunks, Mask(sim, threshold, |chunks|)),
                                           Select(embeddings, Mask(sim, threshold, |chunks|)))
  {
    if |chunks| == 0 {
      return NoChunks;
    }
    var n := |chunks|;
    ghost var m := Mask(sim, threshold, n);
    var toKeep := new bool[n](_ => true);
    var i := 0;
    while i < n
      invariant 0 <= i <= n
      invariant forall k | 0 <= k < i :: toKeep[k] == m[k]
      invariant forall q | i <= q < n :: toKeep[q] == Clear(sim, threshold, m, i, q)
    {
      MaskAt(sim, threshold, n, i);
      if toKeep[i] {
        var j := i + 1;
        while j < n
          invariant i + 1 <= j <= n
          invariant forall k | 0 <= k <= i :: toKeep[k] == m[k]
          invariant forall q | i + 1 <= q < j :: toKeep[q] == Clear(sim, threshold, m, i + 1, q)
          invariant forall q | j <= q < n :: toKeep[q] == Clear(sim, threshold, m, i, q)
        {
          if toKeep[j] && sim(i, j) >= threshold {
            toKeep[j] := false;
          }
          j := j + 1;
        }
      }
      i := i + 1;
    }
    assert toKeep[..] == m;
    r := Survivors(Select(chunks, toKeep[..]), Select(embeddings, toKeep[..]));
  }
}
