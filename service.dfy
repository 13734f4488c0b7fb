/** The web service (`main.py`): the bearer-token check, `query_rag` and
    the `/hackrx/run` handler.

    Ingestion (`ingest_and_build_index`), the embedding and search calls,
    the answer generator and the order in which Python lists a set are not
    modelled; they are the fields of `Services`, each returning what the
    call would deliver or `Err(str(e))` for the exception it would raise. */
module Service {
  import opened Wrappers
  import opened Builtins
  import opened Llm

  /** The key used when the environment does not set `API_KEY`. */
  const DefaultApiKey := "secret"

  /** How many neighbours the search is asked for. */
  const TopK := 3

  datatype Services<!Index, !Vector> = Services(
    ingest: string -> Result<(Index, seq<string>)>,
    embed: string -> Result<Vector>,
    search: (Index, Vector, nat) -> Result<seq<int>>,
    generate: string -> Result<string>,
    listing: set<string> -> seq<string>)

  /** What the handler answers: the answers, or an HTTP error. */
  datatype Response = Answered(answers: seq<string>) | Failed(status: int, detail: string)

  /** The external work the handler sets off, in order. */
  datatype Call = IngestCall(documents: string) | QuestionCall(question: string)

  // ---------------------------------------------------------------------
  // Authorisation
  // ---------------------------------------------------------------------

  /** `os.getenv("API_KEY", "secret")`. */
  function ApiKey(env: Option<string>): string
  {
    env.GetOr(DefaultApiKey)
  }

  /** `authorization == f"Bearer {API_KEY}"`, the header being None when
      the request has none. */
  predicate Authorized(authorization: Option<string>, apiKey: string)
  {
    authorization == Some("Bearer " + apiKey)
  }

  /** Only the exact header passes: a missing header never does, and the
      scheme is case-sensitive and takes exactly one space. */
  lemma AuthorizedExactly(authorization: Option<string>, apiKey: string)
    ensures Authorized(authorization, apiKey) <==>
      authorization.Some? && |authorization.value| == 7 + |apiKey| &&
      authorization.value[..7] == "Bearer " && authorization.value[7..] == apiKey
    ensures !Authorized(None, apiKey)
    ensures !Authorized(Some("bearer " + apiKey), apiKey)
    ensures !Authorized(Some("Bearer  " + apiKey), apiKey)
  {
    if authorization.Some? && |authorization.value| == 7 + |apiKey| &&
       authorization.value[..7] == "Bearer " && authorization.value[7..] == apiKey {
      assert authorization.value == authorization.value[..7] + authorization.value[7..];
    }
    assert ("bearer " + apiKey)[0] != ("Bearer " + apiKey)[0];
    assert |"Bearer  " + apiKey| != |"Bearer " + apiKey|;
  }

  /** With no `API_KEY` in the environment, "Bearer secret" is accepted. */
  lemma DefaultKeyAccepted()
    ensures Authorized(Some("Bearer secret"), ApiKey(None))
  {
    assert "Bearer " + DefaultApiKey == "Bearer secret";
  }

  // ---------------------------------------------------------------------
  // query_rag
  // ---------------------------------------------------------------------

  /** `{texts[i] for i in indices}`: defined exactly when every index is
      valid, and otherwise the IndexError of the first bad one. */
  function TopChunkSet(texts: seq<string>, indices: seq<int>): (r: Result<set<string>>)
    ensures r.Ok? <==> InRange(texts, indices)
    ensures r.Err? ==> r.error == "list index out of range"
    decreases |indices|
  {
    if indices == [] then Ok({})
    else
      var s :- TopChunkSet(texts, indices[..|indices| - 1]);
      var t :- PyIndex(texts, indices[|indices| - 1]);
      Ok(s + {t})
  }

  /** The set holds exactly the retrieved texts, and no more of them than
      there are indices. */
  lemma {:induction false} TopChunkSetSpec(texts: seq<string>, indices: seq<int>)
    requires InRange(texts, indices)
    ensures var s := TopChunkSet(texts, indices).value;
      (forall x :: x in s <==> x in Retrieved(texts, indices)) && |s| <= |indices|
    decreases |indices|
  {
    if indices != [] {
      var n := |indices| - 1;
      var front := indices[..n];
      assert InRange(texts, front) by {
        assert forall k :: 0 <= k < n ==> front[k] == indices[k];
      }
      TopChunkSetSpec(texts, front);
      var r, rf := Retrieved(texts, indices), Retrieved(texts, front);
      assert r == rf + [r[n]] by {
        assert forall k :: 0 <= k < n ==> front[k] == indices[k] && rf[k] == r[k];
      }
      var sf := TopChunkSet(texts, front).value;
      assert PyIndex(texts, indices[n]) == Ok(r[n]);
      assert TopChunkSet(texts, indices) == Ok(sf + {r[n]});
    }
  }

  /** `xs` lists the set `s`: each element once, nothing else. */
  ghost predicate Lists(s: set<string>, xs: seq<string>)
  {
    NoDuplicates(xs) && forall x :: x in xs <==> x in s
  }

  lemma {:induction false} ListingLength(s: set<string>, xs: seq<string>)
    requires Lists(s, xs)
    ensures |xs| == |s|
    decreases |xs|
  {
    if xs != [] {
      var front, last := xs[..|xs| - 1], xs[|xs| - 1];
      assert last !in front by {
        assert forall k :: 0 <= k < |front| ==> front[k] == xs[k];
      }
      forall x ensures x in front <==> x in s - {last} {
        if x in front {
          var k :| 0 <= k < |front| && front[k] == x;
          assert xs[k] == x;
        }
        if x in s - {last} {
          var k :| 0 <= k < |xs| && xs[k] == x;
          assert k < |front|;
        }
      }
      ListingLength(s - {last}, front);
    } else {
      assert s == {};
    }
  }

  /** `top_chunks`: the set, listed in whatever order Python iterates it. */
  function TopChunks<Index, Vector>(svc: Services<Index, Vector>, texts: seq<string>, indices: seq<int>)
    : Result<seq<string>>
  {
    var s :- TopChunkSet(texts, indices);
    Ok(svc.listing(s))
  }

  /** `top_chunks` is duplicate-free, holds exactly the retrieved texts and
      has at most as many elements as there are indices, whatever the
      order, provided the set is listed faithfully. */
  lemma TopChunksSpec<Index, Vector>(svc: Services<Index, Vector>, texts: seq<string>, indices: seq<int>)
    ensures TopChunks(svc, texts, indices).Ok? <==> InRange(texts, indices)
    ensures InRange(texts, indices) && Lists(TopChunkSet(texts, indices).value, TopChunks(svc, texts, indices).value) ==>
      var cs := TopChunks(svc, texts, indices).value;
      NoDuplicates(cs) &&
      (forall x :: x in cs <==> x in Retrieved(texts, indices)) &&
      |cs| <= |indices|
  {
    if InRange(texts, indices) {
      TopChunkSetSpec(texts, indices);
      var s := TopChunkSet(texts, indices).value;
      if Lists(s, svc.listing(s)) {
        ListingLength(s, svc.listing(s));
      }
    }
  }

  /** `query_rag(question, index, texts)`. */
  function QueryRag<Index, Vector>(svc: Services<Index, Vector>, question: string, index: Index, texts: seq<string>)
    : Result<string>
  {
    var embedding :- svc.embed(question);
    var topIndices :- svc.search(index, embedding, TopK);
    var chunks :- TopChunks(svc, texts, topIndices);
    svc.generate(BuildPrompt(question, chunks))
  }

  /** The prompt of `query_rag` names at most three distinct chunks when the
      search keeps to `top_k` and the set is listed faithfully. */
  lemma QueryRagContexts<Index, Vector>(svc: Services<Index, Vector>, question: string, index: Index, texts: seq<string>)
    requires svc.embed(question).Ok?
    requires var top := svc.search(index, svc.embed(question).value, TopK);
      top.Ok? && |top.value| <= TopK && InRange(texts, top.value) &&
      Lists(TopChunkSet(texts, top.value).value, svc.listing(TopChunkSet(texts, top.value).value))
    ensures var top := svc.search(index, svc.embed(question).value, TopK).value;
      var cs := TopChunks(svc, texts, top).value;
      QueryRag(svc, question, index, texts) == svc.generate(BuildPrompt(question, cs)) &&
      NoDuplicates(cs) && |cs| <= 3 &&
      forall x :: x in cs <==> x in Retrieved(texts, top)
  {
    var top := svc.search(index, svc.embed(question).value, TopK).value;
    TopChunksSpec(svc, texts, top);
  }

  // ---------------------------------------------------------------------
  // The handler
  // ---------------------------------------------------------------------

  /** `query_rag` against one built index, as a function of the question. */
  function Ask<Index, Vector>(svc: Services<Index, Vector>, index: Index, texts: seq<string>): string -> Result<string>
  {
    question => QueryRag(svc, question, index, texts)
  }

  /** The answers to the questions in order, or the first exception. */
  function AnswerAll(ask: string -> Result<string>, questions: seq<string>): Result<seq<string>>
    decreases |questions|
  {
    if questions == [] then Ok([])
    else
      var answers :- AnswerAll(ask, questions[..|questions| - 1]);
      var answer :- ask(questions[|questions| - 1]);
      Ok(answers + [answer])
  }

  /** What `run_hackrx` returns or raises. */
  function Handle<Index, Vector>(svc: Services<Index, Vector>, apiKey: string, authorization: Option<string>,
                                 documents: string, questions: seq<string>): Response
  {
    if !Authorized(authorization, apiKey) then Failed(401, "Unauthorized")
    else
      match svc.ingest(documents)
      case Err(e) => Failed(500, e)
      case Ok(built) =>
        match AnswerAll(Ask(svc, built.0, built.1), questions)
        case Err(e) => Failed(500, e)
        case Ok(answers) => Answered(answers)
  }

  /** All questions are answered exactly when no query raises, and then
      answer k is the reply to question k. */
  lemma {:induction false} AnswerAllOk(ask: string -> Result<string>, questions: seq<string>)
    ensures AnswerAll(ask, questions).Ok? <==> forall k :: 0 <= k < |questions| ==> ask(questions[k]).Ok?
    ensures AnswerAll(ask, questions).Ok? ==>
      |AnswerAll(ask, questions).value| == |questions| &&
      forall k :: 0 <= k < |questions| ==> ask(questions[k]) == Ok(AnswerAll(ask, questions).value[k])
    decreases |questions|
  {
    if questions != [] {
      var n := |questions| - 1;
      var front := questions[..n];
      AnswerAllOk(ask, front);
      assert forall k :: 0 <= k < n ==> front[k] == questions[k];
    }
  }

  /** A failure carries the exception of the first question whose query
      raised. */
  lemma {:induction false} AnswerAllErr(ask: string -> Result<string>, questions: seq<string>)
    requires AnswerAll(ask, questions).Err?
    ensures exists k :: 0 <= k < |questions| && ask(questions[k]) == Err(AnswerAll(ask, questions).error) &&
                        forall j :: 0 <= j < k ==> ask(questions[j]).Ok?
    decreases |questions|
  {
    var n := |questions| - 1;
    var front := questions[..n];
    assert forall k :: 0 <= k < n ==> front[k] == questions[k];
    if AnswerAll(ask, front).Err? {
      AnswerAllErr(ask, front);
    } else {
      AnswerAllOk(ask, front);
      assert ask(questions[n]).Err?;
    }
  }

  /** An exception in the first `n` questions ends the answering there. */
  lemma {:induction false} AnswerAllStopsAtError(ask: string -> Result<string>, questions: seq<string>, n: nat)
    requires n <= |questions| && AnswerAll(ask, questions[..n]).Err?
    ensures AnswerAll(ask, questions) == AnswerAll(ask, questions[..n])
    decreases |questions|
  {
    if n < |questions| {
      var front := questions[..|questions| - 1];
      assert front[..n] == questions[..n];
      AnswerAllStopsAtError(ask, front, n);
    } else {
      assert questions[..n] == questions;
    }
  }

  /** The handler's outcome: 401 before anything else without the right
      header; otherwise one answer per question, in order, when ingestion
      and every query succeed, and else 500 carrying the message of the
      first exception. */
  lemma HandleSpec<Index, Vector>(svc: Services<Index, Vector>, apiKey: string, authorization: Option<string>,
                                  documents: string, questions: seq<string>)
    ensures var r := Handle(svc, apiKey, authorization, documents, questions);
      !Authorized(authorization, apiKey) ==> r == Failed(401, "Unauthorized")
    ensures var r := Handle(svc, apiKey, authorization, documents, questions);
      r.Answered? <==>
        Authorized(authorization, apiKey) && svc.ingest(documents).Ok? &&
        forall k :: 0 <= k < |questions| ==>
          QueryRag(svc, questions[k], svc.ingest(documents).value.0, svc.ingest(documents).value.1).Ok?
    ensures var r := Handle(svc, apiKey, authorization, documents, questions);
      r.Answered? ==>
        var built := svc.ingest(documents).value;
        |r.answers| == |questions| &&
        forall k :: 0 <= k < |questions| ==> QueryRag(svc, questions[k], built.0, built.1) == Ok(r.answers[k])
    ensures var r := Handle(svc, apiKey, authorization, documents, questions);
      Authorized(authorization, apiKey) && r.Failed? ==>
        r.status == 500 &&
        (svc.ingest(documents) == Err(r.detail) ||
         (svc.ingest(documents).Ok? &&
          exists k :: 0 <= k < |questions| &&
            QueryRag(svc, questions[k], svc.ingest(documents).value.0, svc.ingest(documents).value.1) == Err(r.detail)))
  {
    if Authorized(authorization, apiKey) && svc.ingest(documents).Ok? {
      var built := svc.ingest(documents).value;
      var ask := Ask(svc, built.0, built.1);
      AnswerAllOk(ask, questions);
      if AnswerAll(ask, questions).Err? {
        AnswerAllErr(ask, questions);
      }
    }
  }

  /** The calls made for the first `n` questions. */
  function QuestionCalls(questions: seq<string>): (calls: seq<Call>)
    ensures |calls| == |questions|
    ensures forall k :: 0 <= k < |questions| ==> calls[k] == QuestionCall(questions[k])
  {
    seq(|questions|, k requires 0 <= k < |questions| => QuestionCall(questions[k]))
  }

  /** The loop of `run_hackrx` over the questions: `ask` (`query_rag` on
      the built index) for each in turn, appending its answer, until one
      raises. `calls` records the questions started, in order. */
  method AnswerEach(ask: string -> Result<string>, questions: seq<string>)
    returns (answers: Result<seq<string>>, calls: seq<Call>)
    ensures answers == AnswerAll(ask, questions)
    ensures |calls| <= |questions| && calls == QuestionCalls(questions[..|calls|])
    ensures answers.Ok? ==> |calls| == |questions|
    ensures answers.Err? ==>
      1 <= |calls| && ask(questions[|calls| - 1]) == Err(answers.error) &&
      forall j :: 0 <= j < |calls| - 1 ==> ask(questions[j]).Ok?
  {
    calls := [];
    var done := [];
    for i := 0 to |questions|
      invariant AnswerAll(ask, questions[..i]) == Ok(done)
      invariant calls == QuestionCalls(questions[..i])
      invariant forall j :: 0 <= j < i ==> ask(questions[j]).Ok?
    {
      assert questions[..i + 1][..i] == questions[..i];
      calls := calls + [QuestionCall(questions[i])];
      assert calls == QuestionCalls(questions[..i + 1]);
      var answer := ask(questions[i]);
      if answer.Err? {
        AnswerAllStopsAtError(ask, questions, i + 1);
        return Err(answer.error), calls;
      }
      done := done + [answer.value];
    }
    assert questions[..|questions|] == questions;
    return Ok(done), calls;
  }

  /** `run_hackrx`: checks the header, ingests the document once, then
      answers the questions one after another. `calls` records the
      ingestion and each question in the order they are started. */
  method RunHackrx<Index, Vector>(svc: Services<Index, Vector>, apiKey: string, authorization: Option<string>,
                                  documents: string, questions: seq<string>)
    returns (response: Response, calls: seq<Call>)
    ensures response == Handle(svc, apiKey, authorization, documents, questions)
    ensures !Authorized(authorization, apiKey) ==> calls == []
    ensures Authorized(authorization, apiKey) ==>
      1 <= |calls| <= |questions| + 1 && calls == [IngestCall(documents)] + QuestionCalls(questions[..|calls| - 1])
    ensures response.Answered? ==> |calls| == |questions| + 1
    ensures Authorized(authorization, apiKey) && svc.ingest(documents).Err? ==> |calls| == 1
    ensures Authorized(authorization, apiKey) && svc.ingest(documents).Ok? && response.Failed? ==>
      var built := svc.ingest(documents).value;
      2 <= |calls| && QueryRag(svc, questions[|calls| - 2], built.0, built.1) == Err(response.detail) &&
      forall j :: 0 <= j < |calls| - 2 ==> QueryRag(svc, questions[j], built.0, built.1).Ok?
  {
    if authorization != Some("Bearer " + apiKey) {
      return Failed(401, "Unauthorized"), [];
    }
    var built := svc.ingest(documents);
    if built.Err? {
      assert questions[..0] == [];
      return Failed(500, built.error), [IngestCall(documents)];
    }
    var index, texts := built.value.0, built.value.1;
    var ask := Ask(svc, index, texts);
    var answers, asked := AnswerEach(ask, questions);
    calls := [IngestCall(documents)] + asked;
    if answers.Err? {
      return Failed(500, answers.error), calls;
    }
    return Answered(answers.value), calls;
  }
}
