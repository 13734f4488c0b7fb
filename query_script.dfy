/** The command-line query pipeline (`run_query` and the interactive loop
    of `main`).

    The embedding and search calls and the answer generator are not
    modelled; they are the fields of `Pipeline`, each returning what the
    service would deliver or `Err` for the exception it would raise. */
module QueryScript {
  import opened Wrappers
  import opened Builtins
  import opened Llm

  /** How many neighbours the search is asked for. */
  const TopK := 3

  const Reasoning := "Answer derived from retrieved policy clauses."

  /** The external calls `run_query` makes: `get_embedding`, the FAISS
      search (which returns `top_k` indices, padded with -1 when the index
      holds fewer vectors) and `generate_answer`. */
  datatype Pipeline<!Index, !Vector> = Pipeline(
    embed: string -> Result<Vector>,
    search: (Index, Vector, nat) -> Result<seq<int>>,
    generate: string -> Result<string>)

  /** The dictionary `run_query` returns. */
  datatype StructuredResponse = StructuredResponse(question: string, answer: string, explainableReasoning: string)

  // ---------------------------------------------------------------------
  // The retrieved chunks
  // ---------------------------------------------------------------------

  /** The keys of an insertion-ordered dictionary. */
  function Keys(d: seq<(int, string)>): set<int>
  {
    set e | e in d :: e.0
  }

  /** The values of an insertion-ordered dictionary, in insertion order. */
  function Values(d: seq<(int, string)>): (vs: seq<string>)
    ensures |vs| == |d|
    ensures forall k :: 0 <= k < |d| ==> vs[k] == d[k].1
  {
    seq(|d|, k requires 0 <= k < |d| => d[k].1)
  }

  /** `{i: texts[i] for i in indices}` as a list of entries in insertion
      order. A repeated key is assigned the same text again, which leaves
      the entry where it was; an index outside the list raises. */
  function IndexedTexts(texts: seq<string>, indices: seq<int>): Result<seq<(int, string)>>
    decreases |indices|
  {
    if indices == [] then Ok([])
    else
      var d :- IndexedTexts(texts, indices[..|indices| - 1]);
      var i := indices[|indices| - 1];
      var t :- PyIndex(texts, i);
      if i in Keys(d) then Ok(d) else Ok(d + [(i, t)])
  }

  /** `list(dict.fromkeys(xs))`: the first occurrence of each element, in
      order. */
  function Dedup(xs: seq<string>): (r: seq<string>)
    decreases |xs|
  {
    if xs == [] then []
    else
      var d := Dedup(xs[..|xs| - 1]);
      if xs[|xs| - 1] in d then d else d + [xs[|xs| - 1]]
  }

  /** `unique_chunks` (lines 20-22). */
  function UniqueChunks(texts: seq<string>, indices: seq<int>): Result<seq<string>>
  {
    var d :- IndexedTexts(texts, indices);
    Ok(Dedup(Values(d)))
  }

  // ---------------------------------------------------------------------
  // Dedup: no duplicates, same elements, first-occurrence order
  // ---------------------------------------------------------------------

  /** Dedup keeps every element once and nothing else. */
  lemma {:induction false} DedupElements(xs: seq<string>)
    ensures NoDuplicates(Dedup(xs))
    ensures forall x :: x in Dedup(xs) <==> x in xs
    ensures |Dedup(xs)| <= |xs|
    decreases |xs|
  {
    if xs != [] {
      var front := xs[..|xs| - 1];
      DedupElements(front);
      assert xs == front + [xs[|xs| - 1]];
    }
  }

  /** Dedup lists the elements in the order of their first occurrence: an
      element comes before another exactly when its first occurrence
      does. */
  ghost predicate FirstOccurrence(xs: seq<string>, x: string, i: int)
  {
    0 <= i < |xs| && xs[i] == x && forall j :: 0 <= j < i ==> xs[j] != x
  }

  lemma {:induction false} DedupOrder(xs: seq<string>, a: nat, b: nat, i: int, j: int)
    requires a < b < |Dedup(xs)|
    requires FirstOccurrence(xs, Dedup(xs)[a], i) && FirstOccurrence(xs, Dedup(xs)[b], j)
    ensures i < j
    decreases |xs|
  {
    var front, last := xs[..|xs| - 1], xs[|xs| - 1];
    var d := Dedup(front);
    DedupElements(front);
    if last in d {
      assert Dedup(xs) == d;
      DedupOrder(front, a, b, i, j);   // both first occurrences lie in front
    } else {
      assert Dedup(xs) == d + [last];
      if b < |d| {
        DedupOrder(front, a, b, i, j);
      } else {
        // Dedup(xs)[b] is `last`, which the front does not contain.
        assert Dedup(xs)[b] == last;
        assert j == |xs| - 1;
        assert Dedup(xs)[a] in front;
      }
    }
  }

  // ---------------------------------------------------------------------
  // The dictionary in front of dict.fromkeys changes nothing
  // ---------------------------------------------------------------------

  /** The dictionary's values and the retrieved texts have the same
      elements and deduplicate to the same list. */
  ghost predicate SameChunks(texts: seq<string>, indices: seq<int>)
    requires IndexedTexts(texts, indices).Ok? && InRange(texts, indices)
  {
    var vs := Values(IndexedTexts(texts, indices).value);
    Dedup(vs) == Dedup(Retrieved(texts, indices)) &&
    forall x :: x in vs <==> x in Retrieved(texts, indices)
  }

  lemma {:induction false} IndexedTextsOk(texts: seq<string>, indices: seq<int>)
    ensures IndexedTexts(texts, indices).Ok? <==> InRange(texts, indices)
    ensures IndexedTexts(texts, indices).Err? ==> IndexedTexts(texts, indices).error == "list index out of range"
    ensures IndexedTexts(texts, indices).Ok? ==> SameChunks(texts, indices)
    decreases |indices|
  {
    if indices != [] {
      var front, i := indices[..|indices| - 1], indices[|indices| - 1];
      IndexedTextsOk(texts, front);
      assert InRange(texts, indices) <==> InRange(texts, front) && -|texts| <= i < |texts|;
      if InRange(texts, indices) {
        IndexedStep(texts, indices);
      }
    }
  }

  lemma IndexedStep(texts: seq<string>, indices: seq<int>)
    requires indices != [] && InRange(texts, indices)
    requires IndexedTexts(texts, indices[..|indices| - 1]).Ok?
    requires SameChunks(texts, indices[..|indices| - 1])
    ensures IndexedTexts(texts, indices).Ok? && SameChunks(texts, indices)
  {
    var front, i := indices[..|indices| - 1], indices[|indices| - 1];
    var d := IndexedTexts(texts, front).value;
    var t := PyIndex(texts, i).value;
    assert Retrieved(texts, indices) == Retrieved(texts, front) + [t];
    DedupElements(Retrieved(texts, front));
    DedupElements(Values(d));
    if i in Keys(d) {
      var e :| e in d && e.0 == i;
      KeyedEntry(texts, front, e);
      assert t in Values(d);
    } else {
      assert Values(d + [(i, t)]) == Values(d) + [t];
    }
  }

  /** Every entry of the dictionary holds the text its key names. */
  lemma {:induction false} KeyedEntry(texts: seq<string>, indices: seq<int>, e: (int, string))
    requires IndexedTexts(texts, indices).Ok? && e in IndexedTexts(texts, indices).value
    ensures PyIndex(texts, e.0) == Ok(e.1)
    decreases |indices|
  {
    var front := indices[..|indices| - 1];
    var d := IndexedTexts(texts, front).value;
    if e in d {
      KeyedEntry(texts, front, e);
    }
  }

  /** What `unique_chunks` holds: it is defined exactly when every index is
      in range (otherwise IndexError), and then it is the retrieved texts
      with repeats dropped, in the order of first retrieval. */
  lemma UniqueChunksSpec(texts: seq<string>, indices: seq<int>)
    ensures UniqueChunks(texts, indices).Ok? <==> InRange(texts, indices)
    ensures UniqueChunks(texts, indices).Err? ==> UniqueChunks(texts, indices) == Err("list index out of range")
    ensures InRange(texts, indices) ==>
      var u := UniqueChunks(texts, indices).value;
      u == Dedup(Retrieved(texts, indices)) &&
      NoDuplicates(u) &&
      (forall x :: x in u <==> exists k :: 0 <= k < |indices| && Retrieved(texts, indices)[k] == x) &&
      |u| <= |indices|
  {
    IndexedTextsOk(texts, indices);
    if InRange(texts, indices) {
      DedupElements(Retrieved(texts, indices));
    }
  }

  /** The search pads with -1 when the index holds fewer than `top_k`
      vectors, and `texts[-1]` is the last chunk: the padding makes the last
      chunk a context even when the search did not retrieve it. */
  lemma PaddingRetrievesLastChunk(texts: seq<string>, indices: seq<int>)
    requires texts != [] && InRange(texts, indices)
    ensures UniqueChunks(texts, indices + [-1]).Ok?
    ensures texts[|texts| - 1] in UniqueChunks(texts, indices + [-1]).value
  {
    var padded := indices + [-1];
    assert InRange(texts, padded);
    UniqueChunksSpec(texts, padded);
    assert Retrieved(texts, padded)[|indices|] == texts[|texts| - 1];
  }

  // ---------------------------------------------------------------------
  // run_query
  // ---------------------------------------------------------------------

  /** `run_query(query, index, texts)`. */
  function RunQuery<Index, Vector>(p: Pipeline<Index, Vector>, query: string, index: Index, texts: seq<string>)
    : Result<StructuredResponse>
  {
    var embedding :- p.embed(query);
    var topIndices :- p.search(index, embedding, TopK);
    var chunks :- UniqueChunks(texts, topIndices);
    var answer :- p.generate(BuildPrompt(query, chunks));
    Ok(StructuredResponse(query, answer, Reasoning))
  }

  /** The response echoes the query, carries the generated answer for the
      prompt built from the deduplicated top-3 chunks, and the fixed
      reasoning; any failing step's exception is the result. */
  lemma RunQueryResponse<Index, Vector>(p: Pipeline<Index, Vector>, query: string, index: Index, texts: seq<string>)
    ensures var r := RunQuery(p, query, index, texts);
      r.Ok? <==>
        p.embed(query).Ok? &&
        p.search(index, p.embed(query).value, TopK).Ok? &&
        InRange(texts, p.search(index, p.embed(query).value, TopK).value) &&
        p.generate(BuildPrompt(query, Dedup(Retrieved(texts, p.search(index, p.embed(query).value, TopK).value)))).Ok?
    ensures var r := RunQuery(p, query, index, texts);
      r.Ok? ==>
        var top := p.search(index, p.embed(query).value, TopK).value;
        r.value.question == query &&
        r.value.answer == p.generate(BuildPrompt(query, Dedup(Retrieved(texts, top)))).value &&
        r.value.explainableReasoning == Reasoning
  {
    if p.embed(query).Ok? && p.search(index, p.embed(query).value, TopK).Ok? {
      UniqueChunksSpec(texts, p.search(index, p.embed(query).value, TopK).value);
    }
  }

  // ---------------------------------------------------------------------
  // The interactive loop
  // ---------------------------------------------------------------------

  /** The loop's exit test, `query.lower() == 'stop'`. */
  predicate IsStop(s: string)
  {
    Lower(s) == "stop"
  }

  /** The loop ends on "stop" in any mix of cases and on nothing else: no
      surrounding spaces, no other word. */
  lemma IsStopExactly(s: string)
    ensures IsStop(s) <==>
      |s| == 4 && (s[0] == 's' || s[0] == 'S') && (s[1] == 't' || s[1] == 'T') &&
      (s[2] == 'o' || s[2] == 'O') && (s[3] == 'p' || s[3] == 'P')
  {
    if |s| == 4 {
      assert Lower(s) == [LowerChar(s[0]), LowerChar(s[1]), LowerChar(s[2]), LowerChar(s[3])];
    }
  }

  /** How the loop ended: the user typed stop, `input()` found no more
      lines, or `run_query` raised (the loop does not catch it). */
  datatype Ending = Stopped | EndOfInput | Raised(error: string)

  /** The responses printed for the given input lines, and how the loop
      ended. */
  function Session<Index, Vector>(p: Pipeline<Index, Vector>, index: Index, texts: seq<string>, lines: seq<string>)
    : (seq<StructuredResponse>, Ending)
    decreases |lines|
  {
    if lines == [] then ([], EndOfInput)
    else if IsStop(lines[0]) then ([], Stopped)
    else
      match RunQuery(p, lines[0], index, texts)
      case Err(e) => ([], Raised(e))
      case Ok(r) =>
        var rest := Session(p, index, texts, lines[1..]);
        ([r] + rest.0, rest.1)
  }

  /** The session, stated without its recursion: every response answers
      the line at its position, none of which was a stop; then comes the
      stop line, the line whose query raised, or the end of the input. */
  lemma {:induction false} SessionSpec<Index, Vector>(p: Pipeline<Index, Vector>, index: Index, texts: seq<string>, lines: seq<string>)
    ensures var (responses, ending) := Session(p, index, texts, lines);
      |responses| <= |lines| &&
      (forall k :: 0 <= k < |responses| ==>
        !IsStop(lines[k]) && RunQuery(p, lines[k], index, texts) == Ok(responses[k])) &&
      (ending == Stopped ==> |responses| < |lines| && IsStop(lines[|responses|])) &&
      (ending.Raised? ==>
        |responses| < |lines| && !IsStop(lines[|responses|]) &&
        RunQuery(p, lines[|responses|], index, texts) == Err(ending.error)) &&
      (ending == EndOfInput ==> |responses| == |lines|)
    decreases |lines|
  {
    if lines != [] && !IsStop(lines[0]) && RunQuery(p, lines[0], index, texts).Ok? {
      SessionSpec(p, index, texts, lines[1..]);
    }
  }

  /** The `while True` loop of `main`, reading from `lines`. */
  method Repl<Index, Vector>(p: Pipeline<Index, Vector>, index: Index, texts: seq<string>, lines: seq<string>)
    returns (responses: seq<StructuredResponse>, ending: Ending)
    ensures (responses, ending) == Session(p, index, texts, lines)
    ensures |responses| <= |lines|
    ensures forall k :: 0 <= k < |responses| ==>
      !IsStop(lines[k]) && RunQuery(p, lines[k], index, texts) == Ok(responses[k])
    ensures ending == Stopped ==> |responses| < |lines| && IsStop(lines[|responses|])
    ensures ending.Raised? ==>
      |responses| < |lines| && !IsStop(lines[|responses|]) &&
      RunQuery(p, lines[|responses|], index, texts) == Err(ending.error)
    ensures ending == EndOfInput ==> |responses| == |lines|
  {
    responses := [];
    ending := EndOfInput;
    var i := 0;
    assert lines[0..] == lines;
    while i < |lines|
      invariant 0 <= i <= |lines|
      invariant Session(p, index, texts, lines).0 == responses + Session(p, index, texts, lines[i..]).0
      invariant Session(p, index, texts, lines).1 == Session(p, index, texts, lines[i..]).1
    {
      var query := lines[i];
      if IsStop(query) {
        ending := Stopped;
        assert Session(p, index, texts, lines[i..]) == ([], Stopped);
        break;
      }
      var response := RunQuery(p, query, index, texts);
      if response.Err? {
        ending := Raised(response.error);
        assert Session(p, index, texts, lines[i..]) == ([], ending);
        break;
      }
      assert lines[i..][1..] == lines[i + 1..];
      responses := responses + [response.value];
      i := i + 1;
    }
    assert (responses, ending) == Session(p, index, texts, lines) by {
      assert Session(p, index, texts, lines).0 == responses;
    }
    SessionSpec(p, index, texts, lines);
  }
}
