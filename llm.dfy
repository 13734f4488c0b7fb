/** The prompt builder (`build_prompt`) of the answer generator.

    The call to the generative model (`generate_answer`) is not modelled
    here: its callers receive it as a function parameter. */
module Llm {
  import opened Builtins
  import opened Wrappers

  /** The instruction text up to the quoted fallback answer. */
  const Lead := "You are a policy analyst. Use the following clauses to answer the question accurately. "
    + "Only answer based on the provided context. If not found, say '"

  /** The answer the model is told to give when the clauses do not cover
      the question. */
  const Fallback := "Not mentioned in the policy."

  /** The instruction text after the quoted fallback answer. */
  const Tail := "' Example: 'The policy covers maternity expenses.' "
    + "Do not invent new clauses.\n\n"

  /** The fixed instruction paragraph the prompt opens with. */
  const Instructions := Lead + Fallback + Tail

  const ContextHeader := "Context:\n"
  const QuestionHeader := "\n\nQuestion:\n"
  const AnswerCue := "\n\nAnswer:"

  /** One numbered clause, `f"Clause {n}: {c}"`. */
  function Clause(n: nat, c: string): string
  {
    "Clause " + Decimal(n) + ": " + c
  }

  /** The clause list of the comprehension over `enumerate(contexts)`,
      numbered from 1. */
  function Clauses(contexts: seq<string>): (cs: seq<string>)
    ensures |cs| == |contexts|
    ensures forall i :: 0 <= i < |cs| ==> cs[i] == Clause(i + 1, contexts[i])
    decreases |contexts|
  {
    if contexts == [] then []
    else
      var front := contexts[..|contexts| - 1];
      Clauses(front) + [Clause(|front| + 1, contexts[|contexts| - 1])]
  }

  /** The context block: the clauses separated by blank lines. */
  function ContextBlock(contexts: seq<string>): string
  {
    Join(Clauses(contexts), "\n\n")
  }

  /** `build_prompt(query, contexts)`. */
  function BuildPrompt(query: string, contexts: seq<string>): string
  {
    Instructions + ContextHeader + ContextBlock(contexts) + QuestionHeader + query + AnswerCue
  }

  // ---------------------------------------------------------------------
  // Reading a clause back
  // ---------------------------------------------------------------------

  predicate IsDigit(c: char)
  {
    '0' <= c <= '9'
  }

  /** The length of the run of decimal digits `s` starts with. */
  function DigitRun(s: string): (n: nat)
    ensures n <= |s|
    ensures forall k :: 0 <= k < n ==> IsDigit(s[k])
    ensures n < |s| ==> !IsDigit(s[n])
    decreases |s|
  {
    if s != [] && IsDigit(s[0]) then 1 + DigitRun(s[1..]) else 0
  }

  /** The number and the text of a line of the form "Clause N: text", or
      None for any other line. */
  function ParseClause(line: string): Option<(nat, string)>
  {
    if !("Clause " <= line) then None
    else
      var rest := line[7..];
      var d := DigitRun(rest);
      if d == 0 || !(": " <= rest[d..]) then None
      else Some((DigitsValue(rest[..d]), rest[d + 2..]))
  }

  lemma {:induction false} DigitRunOf(digits: string, tail: string)
    requires forall k :: 0 <= k < |digits| ==> IsDigit(digits[k])
    requires tail == [] || !IsDigit(tail[0])
    ensures DigitRun(digits + tail) == |digits|
    decreases |digits|
  {
    if digits != [] {
      assert (digits + tail)[1..] == digits[1..] + tail;
      DigitRunOf(digits[1..], tail);
    }
  }

  /** A clause line gives back its number and its text. */
  lemma ClauseRoundTrip(n: nat, c: string)
    ensures ParseClause(Clause(n, c)) == Some((n, c))
  {
    var digits := Decimal(n);
    var line := Clause(n, c);
    assert line[..7] == "Clause ";
    var rest := line[7..];
    assert rest == digits + (": " + c);
    DigitRunOf(digits, ": " + c);
    assert rest[..|digits|] == digits;
    assert rest[|digits|..] == ": " + c;
    assert rest[|digits| + 2..] == c;
    DecimalRoundTrip(n);
  }

  /** Clause i of the block carries the number i + 1 and the i-th context:
      numbering starts at 1, follows the input order and has no gaps. */
  lemma ClausesNumbered(contexts: seq<string>)
    ensures |Clauses(contexts)| == |contexts|
    ensures forall i :: 0 <= i < |contexts| ==> ParseClause(Clauses(contexts)[i]) == Some((i + 1, contexts[i]))
  {
    forall i | 0 <= i < |contexts| ensures ParseClause(Clauses(contexts)[i]) == Some((i + 1, contexts[i])) {
      ClauseRoundTrip(i + 1, contexts[i]);
    }
  }

  // ---------------------------------------------------------------------
  // The layout of the prompt
  // ---------------------------------------------------------------------

  /** Where each part of a concatenation of six strings sits. */
  lemma SixParts(a: string, b: string, c: string, d: string, e: string, f: string)
    ensures var p := a + b + c + d + e + f;
      var i, j, k, l, m := |a|, |a| + |b|, |a| + |b| + |c|, |a| + |b| + |c| + |d|, |p| - |f|;
      |p| == m + |f| && m == l + |e| &&
      p[..i] == a && p[i..j] == b && p[j..k] == c && p[k..l] == d && p[l..m] == e && p[m..] == f
  {
    var p := a + b + c + d + e + f;
    assert p == a + (b + (c + (d + (e + f))));
  }

  /** The prompt opens with the instructions, which quote the fallback
      answer, and closes with the answer cue; the context block and the
      query sit unaltered between their headers. */
  lemma PromptLayout(query: string, contexts: seq<string>)
    ensures var p, block := BuildPrompt(query, contexts), ContextBlock(contexts);
      var b := |Instructions| + |ContextHeader|;
      var q := |p| - |AnswerCue| - |query|;
      p[..|Instructions|] == Instructions &&
      OccursAt(p, Fallback, |Lead|) &&
      p[b - |ContextHeader|..b] == ContextHeader &&
      p[b..b + |block|] == block &&
      p[b + |block|..q] == QuestionHeader &&
      p[q..q + |query|] == query &&
      p[|p| - |AnswerCue|..] == AnswerCue
  {
    var p, block := BuildPrompt(query, contexts), ContextBlock(contexts);
    SixParts(Instructions, ContextHeader, block, QuestionHeader, query, AnswerCue);
    var n := |Instructions|;
    assert Instructions[|Lead|..|Lead| + |Fallback|] == Fallback by {
      assert Instructions == Lead + Fallback + Tail;
    }
    assert p[|Lead|..|Lead| + |Fallback|] == p[..n][|Lead|..|Lead| + |Fallback|];
  }

  /** The prompt always contains the fallback phrase and always ends with
      "Answer:". */
  lemma PromptFallbackAndCue(query: string, contexts: seq<string>)
    ensures Contains(BuildPrompt(query, contexts), Fallback)
    ensures |BuildPrompt(query, contexts)| >= 7
    ensures BuildPrompt(query, contexts)[|BuildPrompt(query, contexts)| - 7..] == "Answer:"
  {
    PromptLayout(query, contexts);
    var p := BuildPrompt(query, contexts);
    assert p[|p| - 7..] == AnswerCue[2..];
  }

  /** With no contexts the block is empty, and the context header is
      followed directly by the blank lines of the question header. */
  lemma PromptWithoutContexts(query: string)
    ensures BuildPrompt(query, []) == Instructions + "Context:\n\n\nQuestion:\n" + query + "\n\nAnswer:"
  {
    assert ContextBlock([]) == "";
    assert ContextHeader + QuestionHeader == "Context:\n\n\nQuestion:\n";
  }

  /** The numbered block of two contexts. */
  lemma TwoClauses()
    ensures ContextBlock(["a", "b"]) == "Clause 1: a\n\nClause 2: b"
  {
    assert Decimal(1) == "1" && Decimal(2) == "2";
    assert Clause(1, "a") == "Clause 1: a";
    assert Clause(2, "b") == "Clause 2: b";
    var cs := Clauses(["a", "b"]);
    assert cs == [Clause(1, "a"), Clause(2, "b")];
  }
}
