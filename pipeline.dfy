/** The bookkeeping of `ARag.search` around its agent calls: knowledge
    extraction with results placed by chunk index, chunk filtering and
    de-duplication, the missing-knowledge step, the bounded
    evaluate/improve loop and the narration table. Every agent is a given
    function; thread pools are sequential, with the order in which the
    futures complete given as a parameter where the code depends on it. */
module Pipeline {
  import opened Wrappers
  import opened Strings
  import opened Order

  // ------------------------------------------------------------ extraction

  /** `_extract_knowledge`: the knowledge agent's answer for one chunk, or
      the chunk itself when the agent raised. */
  function ExtractOne(chunk: string, outcome: Result<string>): string {
    if outcome.Success? then outcome.value else chunk
  }

  /** What each chunk's task returns, chunk by chunk. */
  function TaskResults(chunks: seq<string>, outcomes: seq<Result<string>>): (r: seq<string>)
    requires |outcomes| == |chunks|
    ensures |r| == |chunks|
    ensures forall i | 0 <= i < |chunks| :: outcomes[i].Failure? ==> r[i] == chunks[i]
    ensures forall i | 0 <= i < |chunks| :: outcomes[i].Success? ==> r[i] == outcomes[i].value
  {
    seq(|chunks|, i requires 0 <= i < |chunks| => ExtractOne(chunks[i], outcomes[i]))
  }

  /** The filled slots, in slot order. */
  function Present(slots: seq<Option<string>>): (r: seq<string>)
    ensures |r| <= |slots|
  {
    if |slots| == 0 then []
    else Present(slots[..|slots| - 1]) + (if slots[|slots| - 1].Some? then [slots[|slots| - 1].value] else [])
  }

  /** The final clean-up of `extract_knowledge`: exact empty strings are
      dropped, then the rest are stripped. */
  function Cleaned(xs: seq<string>): (r: seq<string>)
    ensures |r| <= |xs|
  {
    if |xs| == 0 then []
    else Cleaned(xs[..|xs| - 1]) + (if xs[|xs| - 1] != "" then [Strip(xs[|xs| - 1])] else [])
  }

  /** When every slot is filled, `Present` keeps them all, in order. */
  lemma {:induction false} PresentAll(slots: seq<Option<string>>, values: seq<string>)
    requires |slots| == |values|
    requires forall k | 0 <= k < |slots| :: slots[k] == Some(values[k])
    ensures Present(slots) == values
  {
    if |slots| > 0 {
      PresentAll(slots[..|slots| - 1], values[..|values| - 1]);
      assert values == values[..|values| - 1] + [values[|values| - 1]];
    }
  }

  /** The clean-up drops exactly the empty results; everything else comes
      out stripped, in order. */
  lemma {:induction false} CleanedExactly(xs: seq<string>)
    ensures forall y :: y in Cleaned(xs) ==> exists x :: x in xs && x != "" && y == Strip(x)
    ensures forall x | x in xs && x != "" :: Strip(x) in Cleaned(xs)
  {
    if |xs| > 0 {
      var init := xs[..|xs| - 1];
      CleanedExactly(init);
      assert xs == init + [xs[|xs| - 1]];
    }
  }

  /** `extract_knowledge`: each task's result is stored at its chunk's index
      in the order the futures complete (`completion`, which yields every
      index), the list being padded with empty slots as needed; empty slots
      are dropped and the results cleaned. The outcome is the same for
      every completion order: the cleaned results in chunk order. */
  method ExtractKnowledge(chunks: seq<string>, outcomes: seq<Result<string>>, completion: seq<nat>)
    returns (knowledge: seq<string>)
    requires |outcomes| == |chunks|
    requires forall k | 0 <= k < |completion| :: completion[k] < |chunks|
    requires forall i | 0 <= i < |chunks| :: i in completion
    ensures knowledge == Cleaned(TaskResults(chunks, outcomes))
  {
    var results := TaskResults(chunks, outcomes);
    var slots: seq<Option<string>> := [];
    var n := 0;
    while n < |completion|
      invariant 0 <= n <= |completion|
      invariant |slots| <= |chunks|
      invariant forall k | 0 <= k < n :: completion[k] < |slots|
      invariant forall i | 0 <= i < |slots| :: slots[i] == if i in completion[..n] then Some(results[i]) else None
    {
      var idx := completion[n];
      while |slots| <= idx
        invariant |slots| <= |chunks|
        invariant forall k | 0 <= k < n :: completion[k] < |slots|
        invariant forall i | 0 <= i < |slots| :: slots[i] == if i in completion[..n] then Some(results[i]) else None
      {
        slots := slots + [None];
      }
      assert completion[..n + 1] == completion[..n] + [idx];
      slots := slots[idx := Some(results[idx])];
      n := n + 1;
    }
    assert completion[..n] == completion;
    if |chunks| > 0 {
      assert |chunks| - 1 in completion;
    }
    PresentAll(slots, results);
    knowledge := Cleaned(Present(slots));
  }

  // ------------------------------------------------------------ chunk filters

  /** `_get_chunks_for_query`: the retrieved chunks that are not already
      known and mention the section, in retrieval order. */
  function ChunksForQuery(chunks: seq<string>, section: string, known: seq<string>): (r: seq<string>)
    ensures forall c :: c in r <==> c in chunks && c !in known && Contains(c, section)
  {
    if |chunks| == 0 then []
    else
      var c := chunks[|chunks| - 1];
      assert chunks == chunks[..|chunks| - 1] + [c];
      ChunksForQuery(chunks[..|chunks| - 1], section, known) + (if c !in known && Contains(c, section) then [c] else [])
  }

  /** The non-empty elements, in order. */
  function NonEmpty(xs: seq<string>): (r: seq<string>)
    ensures forall x :: x in r <==> x in xs && x != ""
  {
    if |xs| == 0 then []
    else
      var x := xs[|xs| - 1];
      assert xs == xs[..|xs| - 1] + [x];
      NonEmpty(xs[..|xs| - 1]) + (if x != "" then [x] else [])
  }

  lemma NonEmptyKeepsUnique(xs: seq<string>)
    requires NoDuplicates(xs)
    ensures NoDuplicates(NonEmpty(xs))
  {
    if |xs| > 0 {
      var init := xs[..|xs| - 1];
      assert xs == init + [xs[|xs| - 1]];
      assert xs[|xs| - 1] !in init;
      NonEmptyKeepsUnique(init);
    }
  }

  /** `_process_extraction_item`: the chunks every search query returns,
      filtered, pooled without repetition, each given to the knowledge
      agent; the empty answers are dropped. */
  function ProcessItem(perQuery: seq<seq<string>>, section: string, known: seq<string>,
                       agent: string -> string): (r: seq<string>)
    ensures forall x | x in r :: x != ""
  {
    var pooled := Dedup(Concat(seq(|perQuery|, i requires 0 <= i < |perQuery| => ChunksForQuery(perQuery[i], section, known))));
    NonEmpty(seq(|pooled|, i requires 0 <= i < |pooled| => agent(pooled[i])))
  }

  /** The item's results are exactly the non-empty answers the knowledge
      agent gives for the chunks some query returned, that are not yet
      known and that mention the section. */
  lemma ProcessItemSpec(perQuery: seq<seq<string>>, section: string, known: seq<string>,
                        agent: string -> string, x: string)
    ensures x in ProcessItem(perQuery, section, known, agent) <==>
      x != "" && exists i, c | 0 <= i < |perQuery| && c in perQuery[i] :: c !in known && Contains(c, section) && agent(c) == x
  {
    var filtered := seq(|perQuery|, i requires 0 <= i < |perQuery| => ChunksForQuery(perQuery[i], section, known));
    var pooled := Dedup(Concat(filtered));
    var answers := seq(|pooled|, i requires 0 <= i < |pooled| => agent(pooled[i]));
    assert ProcessItem(perQuery, section, known, agent) == NonEmpty(answers);
    if x in NonEmpty(answers) {
      var k :| 0 <= k < |answers| && answers[k] == x;
      var c := pooled[k];
      InConcat(c, filtered);
      var i :| 0 <= i < |filtered| && c in filtered[i];
      assert c in perQuery[i] && c !in known && Contains(c, section);
    }
    if x != "" && exists i, c | 0 <= i < |perQuery| && c in perQuery[i] :: c !in known && Contains(c, section) && agent(c) == x {
      var i, c :| 0 <= i < |perQuery| && c in perQuery[i] && c !in known && Contains(c, section) && agent(c) == x;
      assert c in filtered[i];
      InConcat(c, filtered);
      var j :| 0 <= j < |Concat(filtered)| && Concat(filtered)[j] == c;
      var k :| 0 <= k < |pooled| && pooled[k] == c;
      assert answers[k] == x;
    }
  }

  /** `missing_info_extraction`: the items' results pooled, without
      repetition and without empty strings. */
  function MissingInfo(perItem: seq<seq<string>>): (r: seq<string>)
  {
    NonEmpty(Dedup(Concat(perItem)))
  }

  lemma MissingInfoSpec(perItem: seq<seq<string>>)
    ensures NoDuplicates(MissingInfo(perItem))
    ensures forall x :: x in MissingInfo(perItem) <==> x in Concat(perItem) && x != ""
  {
    NonEmptyKeepsUnique(Dedup(Concat(perItem)));
  }

  /** `retrieve_chunks`: every prompt's chunks pooled without repetition,
      whatever order the prompts complete in. */
  function RetrieveChunks(perPrompt: seq<seq<string>>): (r: seq<string>)
    ensures NoDuplicates(r)
    ensures forall x :: x in r <==> x in Concat(perPrompt)
  {
    Dedup(Concat(perPrompt))
  }

  // ------------------------------------------------------------ missing knowledge

  /** The missing-knowledge step of `search`: the knowledge found by the
      first extraction, or by the retry when the first raised (`None`), is
      appended, and the answer regenerated from the extended knowledge, only
      when some was found. When both attempts raise nothing changes. */
  function MissingStep(knowledge: seq<string>, answer: string, first: Option<seq<string>>,
                       retry: Option<seq<string>>, answerAgent: seq<string> -> string): (r: (seq<string>, string))
    ensures |r.0| >= |knowledge| && r.0[..|knowledge|] == knowledge
    ensures |r.0| == |knowledge| ==> r == (knowledge, answer)
    ensures |r.0| > |knowledge| ==> r.1 == answerAgent(r.0)
    ensures var found := if first.Some? then first else retry;
            var gained := if found.Some? then found.value else [];
            r.0 == knowledge + gained && r.1 == (if |gained| > 0 then answerAgent(r.0) else answer)
  {
    var found := if first.Some? then first else retry;
    if found.Some? && |found.value| > 0 then
      var extended := knowledge + found.value;
      assert extended[..|knowledge|] == knowledge;
      (extended, answerAgent(extended))
    else (knowledge, answer)
  }

  // ------------------------------------------------------------ evaluate / improve

  /** What the evaluator returns: its first value (the schema's
      `needs_improvement`) and the improvement areas. */
  datatype Verdict = Verdict(needsImprovement: bool, feedback: string)

  /** Where the loop ends: the final answer and how many times each agent
      was called. */
  datatype Outcome = Outcome(answer: string, evaluations: nat, improvements: nat)

  /** The evaluate/improve loop from iteration `k` on (at most three
      iterations in all). The loop stops at the first evaluation whose
      first value equals `stopOn`; otherwise the improver's output replaces
      the answer. `evaluate` and `improve` are the agents, given the
      iteration number. */
  function Refine(answer: string, evaluate: (nat, string) -> Verdict,
                  improve: (nat, string, string) -> string, k: nat, stopOn: bool): (r: Outcome)
    ensures k <= 3 ==> r.evaluations <= 3 - k
    ensures r.improvements <= r.evaluations
    decreases 3 - k
  {
    if k > 2 then Outcome(answer, 0, 0)
    else
      var v := evaluate(k, answer);
      if v.needsImprovement == stopOn then Outcome(answer, 1, 0)
      else
        var rest := Refine(improve(k, answer, v.feedback), evaluate, improve, k + 1, stopOn);
        Outcome(rest.answer, rest.evaluations + 1, rest.improvements + 1)
  }

  /** How the loop ends: either every iteration improved the answer, or
      the loop broke at the evaluation after the last improvement, and that
      evaluation of the final answer gave `stopOn`. */
  lemma {:induction false} RefineEnds(answer: string, evaluate: (nat, string) -> Verdict,
                                      improve: (nat, string, string) -> string, k: nat, stopOn: bool)
    requires k <= 3
    ensures var r := Refine(answer, evaluate, improve, k, stopOn);
      || (r.improvements == 3 - k && r.evaluations == 3 - k)
      || (r.evaluations == r.improvements + 1
          && evaluate(k + r.improvements, r.answer).needsImprovement == stopOn)
    decreases 3 - k
  {
    if k <= 2 {
      var v := evaluate(k, answer);
      if v.needsImprovement != stopOn {
        RefineEnds(improve(k, answer, v.feedback), evaluate, improve, k + 1, stopOn);
      }
    }
  }

  /** The loop of `search` as written: it breaks when the evaluator's first
      value is true. */
  method EvaluateImprove(answer: string, evaluate: (nat, string) -> Verdict,
                         improve: (nat, string, string) -> string)
    returns (final: string, evaluations: nat, improvements: nat)
    ensures Outcome(final, evaluations, improvements) == Refine(answer, evaluate, improve, 0, true)
    ensures evaluations <= 3 && improvements <= 3
  {
    final := answer;
    evaluations, improvements := 0, 0;
    var loopCount := 0;
    while loopCount <= 2
      invariant 0 <= loopCount <= 3
      invariant evaluations == improvements == loopCount
      invariant Refine(answer, evaluate, improve, 0, true) ==
        var q := Refine(final, evaluate, improve, loopCount, true);
        Outcome(q.answer, q.evaluations + loopCount, q.improvements + loopCount)
    {
      var v := evaluate(loopCount, final);
      evaluations := evaluations + 1;
      if v.needsImprovement {
        return;
      }
      final := improve(loopCount, final, v.feedback);
      improvements := improvements + 1;
      loopCount := loopCount + 1;
    }
  }

  /** As written, the loop hands back an answer the evaluator has just
      flagged as needing improvement whenever it stops early: an answer
      flagged at the first evaluation is returned untouched. */
  lemma AsWrittenReturnsFlagged(answer: string, evaluate: (nat, string) -> Verdict,
                                improve: (nat, string, string) -> string)
    ensures var r := Refine(answer, evaluate, improve, 0, true);
      r.improvements < 3 ==> evaluate(r.improvements, r.answer).needsImprovement
    ensures evaluate(0, answer).needsImprovement ==> Refine(answer, evaluate, improve, 0, true) == Outcome(answer, 1, 0)
  {
    RefineEnds(answer, evaluate, improve, 0, true);
  }

  /** As written, an answer the evaluator approves every time is rewritten
      by the improver three times. */
  lemma AsWrittenRewritesApproved(answer: string, evaluate: (nat, string) -> Verdict,
                                  improve: (nat, string, string) -> string)
    requires forall k: nat, a: string :: !evaluate(k, a).needsImprovement
    ensures Refine(answer, evaluate, improve, 0, true).improvements == 3
  {
    var a1 := improve(0, answer, evaluate(0, answer).feedback);
    var a2 := improve(1, a1, evaluate(1, a1).feedback);
    assert Refine(a2, evaluate, improve, 2, true).improvements == 1;
  }

  /** The loop as the evaluator's schema means it: it stops once the
      answer no longer needs improvement. */
  method EvaluateImproveCorrected(answer: string, evaluate: (nat, string) -> Verdict,
                                  improve: (nat, string, string) -> string)
    returns (final: string, evaluations: nat, improvements: nat)
    ensures Outcome(final, evaluations, improvements) == Refine(answer, evaluate, improve, 0, false)
    ensures evaluations <= 3 && improvements <= 3
  {
    final := answer;
    evaluations, improvements := 0, 0;
    var loopCount := 0;
    while loopCount <= 2
      invariant 0 <= loopCount <= 3
      invariant evaluations == improvements == loopCount
      invariant Refine(answer, evaluate, improve, 0, false) ==
        var q := Refine(final, evaluate, improve, loopCount, false);
        Outcome(q.answer, q.evaluations + loopCount, q.improvements + loopCount)
    {
      var v := evaluate(loopCount, final);
      evaluations := evaluations + 1;
      if !v.needsImprovement {
        return;
      }
      final := improve(loopCount, final, v.feedback);
      improvements := improvements + 1;
      loopCount := loopCount + 1;
    }
  }

  /** Corrected, the loop returns an answer the evaluator has approved
      unless the three improvements are used up, and an answer approved at
      the first evaluation is returned untouched. */
  lemma CorrectedReturnsApproved(answer: string, evaluate: (nat, string) -> Verdict,
                                 improve: (nat, string, string) -> string)
    ensures var r := Refine(answer, evaluate, improve, 0, false);
      r.improvements < 3 ==> !evaluate(r.improvements, r.answer).needsImprovement
    ensures !evaluate(0, answer).needsImprovement ==> Refine(answer, evaluate, improve, 0, false) == Outcome(answer, 1, 0)
  {
    RefineEnds(answer, evaluate, improve, 0, false);
  }

  // ------------------------------------------------------------ narration

  /** The narration messages of `perform_action`, some quoting `outcome`. */
  function Messages(outcome: string): map<string, string> {
    map[
      "initialize_search" := "Starting search process...",
      "extract_metadata" := "Analyzing available documents...",
      "document_selection_successful" := "Selected most relevant document: " + outcome,
      "query_rewrite_successful" := "Reformulated query to better match document content",
      "retrieve_information_successful" := "Retrieved " + outcome,
      "information_extraction_successful" := "Extracted " + outcome,
      "generating_answer_successful" := "Composing answer based on extracted information",
      "evaluate_answer_successful_iteration_1" := "Evaluating answer quality... " + outcome,
      "evaluate_answer_successful_iteration_2" := "Re-evaluating answer... " + outcome,
      "evaluate_answer_successful_iteration_3" := "Final answer evaluation... " + outcome,
      "improve_answer_successful_iteration_1" := "Refining answer for accuracy and completeness",
      "improve_answer_successful_iteration_2" := "Making additional improvements to answer",
      "improve_answer_successful_iteration_3" := "Finalizing answer improvements"
    ]
  }

  /** `perform_action`: the message for a known action, a generic one
      otherwise. */
  function Narrate(action: string, outcome: string): string {
    var m := Messages(outcome);
    if action in m then m[action] else "Performing " + action + "..."
  }

  /** The keys the evaluate/improve loop asks for, iteration `k + 1`. */
  function EvaluateKey(k: nat): string { "evaluate_answer_successful_iteration_" + NatToString(k + 1) }
  function ImproveKey(k: nat): string { "improve_answer_successful_iteration_" + NatToString(k + 1) }

  /** Every status the loop reports is one of the known messages: its three
      iterations are numbered 1 to 3, and each evaluation message ends with
      the evaluator's outcome. */
  lemma LoopKeysKnown(k: nat, outcome: string)
    requires k <= 2
    ensures EvaluateKey(k) in Messages(outcome) && ImproveKey(k) in Messages(outcome)
    ensures EndsWith(Narrate(EvaluateKey(k), outcome), outcome)
  {
    var m := Messages(outcome);
    if k == 0 {
      assert NatToString(1) == "1";
      assert EvaluateKey(k) == "evaluate_answer_successful_iteration_1";
      assert ImproveKey(k) == "improve_answer_successful_iteration_1";
    } else if k == 1 {
      assert NatToString(2) == "2";
      assert EvaluateKey(k) == "evaluate_answer_successful_iteration_2";
      assert ImproveKey(k) == "improve_answer_successful_iteration_2";
    } else {
      assert NatToString(3) == "3";
      assert EvaluateKey(k) == "evaluate_answer_successful_iteration_3";
      assert ImproveKey(k) == "improve_answer_successful_iteration_3";
    }
  }
}
