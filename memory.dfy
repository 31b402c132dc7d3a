/** `AgentMemory`: an append-only store of knowledge snippets. `update`
    keeps the candidates that pass a filter, `retrieve` renders the store
    as `<knowledge>` blocks, `reset` empties it. The tokenizer is a given
    token-count function. */
module Memory {
  import opened Strings

  /** Candidates of this many tokens or more are refused. */
  const TokenLimit := 4096

  /** Whether `update` stores a candidate: non-empty, under the token limit,
      and neither an apology nor a "does not contain" non-answer, whatever
      the case. */
  predicate Accepted(m: string, tokens: nat) {
    && m != ""
    && tokens < TokenLimit
    && !Contains(Lower(m), "sorry")
    && !Contains(Lower(m), "does not contain")
  }

  /** The candidates `update` stores, in input order. */
  function Kept(candidates: seq<string>, count: string -> nat): (r: seq<string>)
    ensures |r| <= |candidates|
  {
    if |candidates| == 0 then []
    else
      var m := candidates[|candidates| - 1];
      Kept(candidates[..|candidates| - 1], count) + (if Accepted(m, count(m)) then [m] else [])
  }

  /** `update` stores exactly the accepted candidates: everything kept was a
      candidate and passes the filter, and every accepted candidate is kept. */
  lemma {:induction false} KeptExactly(candidates: seq<string>, count: string -> nat)
    ensures forall m :: m in Kept(candidates, count) <==> m in candidates && Accepted(m, count(m))
  {
    if |candidates| > 0 {
      var init := candidates[..|candidates| - 1];
      KeptExactly(init, count);
      assert candidates == init + [candidates[|candidates| - 1]];
    }
  }

  /** Filtering two batches one after the other stores what filtering them
      together stores. */
  lemma {:induction false} KeptAppend(a: seq<string>, b: seq<string>, count: string -> nat)
    ensures Kept(a + b, count) == Kept(a, count) + Kept(b, count)
    decreases |b|
  {
    if |b| == 0 {
      assert a + b == a;
    } else {
      assert (a + b)[..|a + b| - 1] == a + b[..|b| - 1];
      KeptAppend(a, b[..|b| - 1], count);
    }
  }

  /** One stored snippet as `retrieve` shows it. */
  function Wrap(m: string): string {
    "<knowledge>\n" + m + "\n</knowledge>"
  }

  function Wraps(ms: seq<string>): (r: seq<string>)
    ensures |r| == |ms|
  {
    seq(|ms|, i requires 0 <= i < |ms| => Wrap(ms[i]))
  }

  /** What `_memory_pattern` accumulates before stripping: one block and a
      blank line per snippet. */
  function Blocks(ms: seq<string>): string
  {
    if |ms| == 0 then "" else Blocks(ms[..|ms| - 1]) + Wrap(ms[|ms| - 1]) + "\n\n"
  }

  lemma {:induction false} BlocksJoin(ms: seq<string>)
    requires ms != []
    ensures Blocks(ms) == Join("\n\n", Wraps(ms)) + "\n\n"
  {
    var init := ms[..|ms| - 1];
    var w := Wrap(ms[|ms| - 1]);
    assert Wraps(ms) == Wraps(init) + [w];
    JoinAppend("\n\n", Wraps(init), w);
    if init != [] {
      BlocksJoin(init);
    }
  }

  /** The joined blocks start with `<` and end with `>`. */
  lemma {:induction false} JoinWrapEnds(ms: seq<string>)
    requires ms != []
    ensures |Join("\n\n", Wraps(ms))| > 0
    ensures Join("\n\n", Wraps(ms))[0] == '<'
    ensures Join("\n\n", Wraps(ms))[|Join("\n\n", Wraps(ms))| - 1] == '>'
  {
    var init := ms[..|ms| - 1];
    var w := Wrap(ms[|ms| - 1]);
    assert Wraps(ms) == Wraps(init) + [w];
    JoinAppend("\n\n", Wraps(init), w);
    if init != [] {
      JoinWrapEnds(init);
    }
  }

  /** The rendering is the wrapped snippets joined by a blank line, and is
      empty exactly when there is nothing to render. */
  lemma Rendering(ms: seq<string>)
    ensures Strip(Blocks(ms)) == Join("\n\n", Wraps(ms))
    ensures Strip(Blocks(ms)) == "" <==> ms == []
  {
    if ms == [] {
      assert IsBlank("");
    } else {
      BlocksJoin(ms);
      var j := Join("\n\n", Wraps(ms));
      JoinWrapEnds(ms);
      assert "" + j + "\n\n" == Blocks(ms);
      StripFramed("", j, "\n\n");
    }
  }

  /** `_memory_pattern`: every snippet as a `<knowledge>` block followed by a
      blank line, the whole stripped. */
  method Pattern(ms: seq<string>) returns (out: string)
    ensures out == Join("\n\n", Wraps(ms))
    ensures out == "" <==> ms == []
  {
    out := "";
    var i := 0;
    while i < |ms|
      invariant 0 <= i <= |ms|
      invariant out == Blocks(ms[..i])
    {
      assert ms[..i + 1][..i] == ms[..i];
      out := out + Wrap(ms[i]) + "\n\n";
      i := i + 1;
    }
    assert ms[..|ms|] == ms;
    Rendering(ms);
    out := Strip(out);
  }

  class AgentMemory {
    /** The stored snippets, oldest first. */
    var memories: seq<string>
    /** The tokenizer, as the number of tokens a text encodes to. */
    const count: string -> nat

    constructor (count: string -> nat)
      ensures memories == [] && this.count == count
    {
      memories := [];
      this.count := count;
    }

    /** `update`: appends the accepted candidates in order; nothing stored
        before is removed or moved. */
    method Update(candidates: seq<string>)
      modifies this
      ensures memories == old(memories) + Kept(candidates, count)
    {
      var i := 0;
      while i < |candidates|
        invariant 0 <= i <= |candidates|
        invariant memories == old(memories) + Kept(candidates[..i], count)
      {
        var m := candidates[i];
        assert candidates[..i + 1][..i] == candidates[..i];
        if Accepted(m, count(m)) {
          memories := memories + [m];
        }
        i := i + 1;
      }
      assert candidates[..|candidates|] == candidates;
    }

    /** `retrieve`: renders the store without changing it; the empty store
        renders as the empty string. */
    method Retrieve() returns (r: string)
      ensures r == Join("\n\n", Wraps(memories))
      ensures r == "" <==> memories == []
    {
      r := Pattern(memories);
    }

    /** `reset`: the store is empty afterwards. */
    method Reset()
      modifies this
      ensures memories == []
    {
      memories := [];
    }
  }

  /** Stored snippets are never lost: after an update, everything stored
      before is still there, in the same order, and every new snippet is an
      accepted candidate. */
  lemma UpdatePreserves(before: seq<string>, candidates: seq<string>, count: string -> nat)
    ensures (before + Kept(candidates, count))[..|before|] == before
    ensures forall m | m in (before + Kept(candidates, count))[|before|..] :: m in candidates && Accepted(m, count(m))
  {
    KeptExactly(candidates, count);
    assert (before + Kept(candidates, count))[|before|..] == Kept(candidates, count);
  }
}
