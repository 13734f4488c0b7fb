# A verified model of the policy-question RAG service

The system answers questions about insurance policy documents. It works in these steps:

- It takes a document (a PDF, a Word file or an Outlook message, either local or downloaded from a URL) and extracts its text.
- It cuts the text into sentence chunks of bounded size and indexes them by embedding.
- For each question, it retrieves the three nearest chunks, removes duplicates, and builds a numbered "Clause N:" prompt.
- It sends that prompt to a generative model and returns the answer, either through an HTTP endpoint protected by a bearer token or through an interactive loop.

This project models the repository's own logic in Dafny and proves what that logic promises:

- `text_chunker.dfy`: `chunk_text`. A loop method is proved equal to a fold, together with theorems about that fold.
  - It loses, duplicates and reorders no sentence.
  - Each chunk is a run of consecutive sentences.
  - The size test ignores the joining space, so a chunk can be one character over the limit.
  - Only chunk 0 can be empty, and it is empty exactly when the first sentence is over the limit.
  - An oversized sentence always stands alone.
  - A chunk is closed only when the next sentence does not fit.
- `llm.dfy`: `build_prompt`. It states the exact layout of the prompt. Clause numbering is read back through its inverse (`ParseClause`).
- `document_processor.dfy`: format dispatch and text assembly. Local dispatch goes by the lowercased `os.path.splitext` extension; URL dispatch goes by the URL and the Content-Type header. Text assembly covers pages, paragraphs and the MSG template. The PDF loop is a method.
- `query_script.dfy`: `run_query` of `test_generate.py`.
  - The dictionary-then-`dict.fromkeys` deduplication keeps first-retrieval order.
  - It also covers the structured response and the `stop` loop (a method).
- `service.dfy`: `main.py`. It covers the bearer-token check, the set-based deduplication in `query_rag`, and the `/hackrx/run` handler (a method). The handler ingests exactly once, then answers one question after another, and maps any exception to status 500.
- `builtins.dfy`: the Python built-ins these files rely on:
  - `str.join`, `str.strip` with Python's full `isspace` set, and `str.lower`;
  - `in` on strings and list indexing with negative indexes;
  - `str(int)` and `os.path.splitext`.
  - No modelled file calls `str.split`. `Builtins.Split`, `Builtins.FirstIndexOf` and `DocumentProcessor.ParseMsg` are there only as inverses: they read the DOCX paragraphs and the MSG fields back for the round-trip lemmas.
- `wrappers.dfy`: `Option` and `Result`. An exception is modelled as `Err(message)`.

Every library or network call is a function-valued parameter that returns `Result`:
- the document parsers and `requests.get`, in `DocumentProcessor.Parsers`;
- the embedder, the FAISS search and the generative model, in `QueryScript.Pipeline` and `Service.Services`;
- ingestion, also in `Service.Services`.

A retrieved index is used the way Python uses it: a negative index counts from the end, and an index outside the list raises `IndexError`. The model does not require indexes to be in range. This matters because the `-1` that FAISS returns as padding reads the last chunk (`QueryScript.PaddingRetrievesLastChunk`).

## Model

| member | source | states |
|---|---|---|
| TextChunker.Step | app/modules/text_chunker.py:11-16 | definition: one loop iteration; a sentence that overflows `len(chunk) + len(sentence)` closes the stripped chunk and starts a new one, otherwise it is appended after a space. Its consequences are the `Chunks…` lemmas |
| TextChunker.Scan | app/modules/text_chunker.py:9-16 | definition: the emitted chunks and the accumulator after the loop has consumed a prefix of the sentences; `ChunkText`'s loop invariant |
| TextChunker.Chunks | app/modules/text_chunker.py:9-21 | definition: the chunks after the loop plus the stripped accumulator when it is non-empty; specified by the lemmas below |
| TextChunker.ChunkText | app/modules/text_chunker.py:6-21 | the loop's result is the fold `Chunks`; it is empty exactly when there are no sentences, and has at most one chunk more than there are sentences |
| TextChunker.ChunksCount | app/modules/text_chunker.py:8-19 | no sentences give no chunks, any sentence gives at least one; at most sentences + 1 chunks |
| TextChunker.ChunksPartition | app/modules/text_chunker.py:11-19 | each chunk is its run of consecutive sentences joined by single spaces; the runs concatenate to the sentence list; only run 0 may be empty |
| TextChunker.ChunksEmptyOnlyFirst | app/modules/text_chunker.py:9-14 | chunk 0 is "" exactly when the first sentence is longer than the limit; no later chunk is "" |
| TextChunker.ChunkLengths | app/modules/text_chunker.py:12-16 | a chunk of two or more sentences is at most limit + 1 long; a non-empty chunk 0 is within the limit |
| TextChunker.OversizedSentenceAlone | app/modules/text_chunker.py:12-14 | a sentence longer than the limit forms a chunk by itself, never chunk 0 |
| TextChunker.ChunksGreedy | app/modules/text_chunker.py:12-14 | a chunk is closed only when its accumulator plus the next sentence exceed the limit |
| TextChunker.ChunksKeepSentences | app/modules/text_chunker.py:11-19 | the non-empty chunks joined by " " equal the sentences joined by " " |
| TextChunker.OverLimitByOne | app/modules/text_chunker.py:12-16 | with limit 4, ["aa","bb","cc"] gives ["aa","bb cc"], a five-character chunk |
| TextChunker.EmptyFirstChunk | app/modules/text_chunker.py:12-13 | with limit 3, ["toolong"] gives ["", "toolong"] |
| TextChunker.ScanTwoAtLimitFour | app/modules/text_chunker.py:12-16 | after "aa","bb" under limit 4 the list holds "aa" and the accumulator is "bb" |
| Builtins.Strip | app/modules/text_chunker.py:13 | definition: `str.strip()` over Python's `isspace` set; characterised by `StripCharacterised` |
| Builtins.Join | app/modules/llm.py:13 | definition: `sep.join(xs)` |
| Builtins.StripCharacterised | app/modules/text_chunker.py:13 | `strip` returns a slice that neither starts nor ends with whitespace, cutting only whitespace on either side |
| Builtins.StripClean | app/modules/text_chunker.py:16-19 | a string without surrounding whitespace is its own strip, also after the leading " " the accumulator puts in front |
| Llm.BuildPrompt | app/modules/llm.py:11-23 | definition: instructions + "Context:\n" + block + "\n\nQuestion:\n" + query + "\n\nAnswer:"; its layout is proved in `PromptLayout` |
| Builtins.Decimal | app/modules/llm.py:13 | `str(n)`: at least one decimal digit, no leading zero; inverted by `DecimalRoundTrip` |
| Llm.Clauses | app/modules/llm.py:13 | clause i is "Clause " + str(i + 1) + ": " + contexts[i], one per context and in order |
| Llm.ClauseRoundTrip | app/modules/llm.py:13 | a clause line parses back to its number and its text |
| Llm.ClausesNumbered | app/modules/llm.py:13 | clause i reads back as number i + 1 and context i: numbering starts at 1, without gaps |
| Builtins.DecimalRoundTrip | app/modules/llm.py:13 | `int(str(n)) == n` for the clause numbers |
| Llm.PromptLayout | app/modules/llm.py:14-22 | the prompt is the instructions (quoting the fallback answer), "Context:\n", the block, "\n\nQuestion:\n", the query verbatim and "\n\nAnswer:", each at its computed offset |
| Llm.PromptFallbackAndCue | app/modules/llm.py:16-21 | every prompt contains "Not mentioned in the policy." and ends with "Answer:" |
| Llm.PromptWithoutContexts | app/modules/llm.py:13-20 | with no contexts the prompt holds "Context:\n\n\nQuestion:\n" |
| Llm.TwoClauses | app/modules/llm.py:13 | two contexts give "Clause 1: a\n\nClause 2: b" |
| DocumentProcessor.PdfText | app/modules/document_processor.py:8-20 | definition: the page texts concatenated, or "Invalid input for PDF extraction"; computed by `ExtractTextFromPdf` |
| DocumentProcessor.ExtractTextFromPdf | app/modules/document_processor.py:8-20 | the loop yields the page texts concatenated in page order; an argument that is neither path nor stream gives "Invalid input for PDF extraction" |
| DocumentProcessor.PdfPageOffsets | app/modules/document_processor.py:17-19 | page k's text sits unaltered right after the text of the pages before it |
| DocumentProcessor.DocxText | app/modules/document_processor.py:22-31 | definition: the paragraphs joined by "\n", or "Invalid input for DOCX extraction" |
| DocumentProcessor.DocxParagraphsRecovered | app/modules/document_processor.py:22-31 | when the parser delivers at least one paragraph and none of them holds a newline: the DOCX text fails exactly for an argument that is neither path nor stream, and otherwise splitting it at "\n" gives back the paragraphs |
| DocumentProcessor.MsgText | app/modules/document_processor.py:33-36 | definition: `f"Subject: {subject}\n\n{body}"`, a missing field printing as None |
| DocumentProcessor.MsgRoundTrip | app/modules/document_processor.py:33-36 | for a subject without a newline, the "Subject: …\n\n…" text reads back as its subject and body |
| Builtins.SplitExt | app/modules/document_processor.py:58 | definition: POSIX `os.path.splitext`; characterised by `SplitExtCharacterised` |
| Builtins.Lower | app/modules/document_processor.py:58 | definition: `str.lower()` on A to Z; used by `IsStopExactly`, `ExtensionNamed` and `UrlFormatIgnoresCase`, characterised by `LowerEqual` |
| Builtins.LowerEqual | test_generate.py:75 | two strings lowercase to the same string exactly when they have the same length and differ only in the case of letters A to Z |
| Builtins.ContainsLowered | app/modules/document_processor.py:47-49 | `sub in s.lower()` holds exactly when some slice of the raw `s` lowercases to `sub` |
| Builtins.Contains | app/modules/document_processor.py:47-49 | `sub in s` holds exactly when some slice of `s` equals `sub` |
| Builtins.SplitExtCharacterised | app/modules/document_processor.py:58 | `splitext` root + extension is the path; the extension is non-empty exactly when the final component has a dot after a non-dot, and then it is "." with no "." or "/" after |
| DocumentProcessor.LocalFormat | app/modules/document_processor.py:58-66 | definition: the lowercased extension against .pdf, .docx, .msg, else the "Unsupported file format: " error; characterised by `LocalFormatByName` |
| DocumentProcessor.ExtensionNamed | app/modules/document_processor.py:58-64 | the lowercased extension is a given name exactly when the final component ends in that name, in any case, at a dot that can start an extension |
| DocumentProcessor.LocalFormatByName | app/modules/document_processor.py:58-66 | a local path selects PDF, DOCX or MSG exactly when its extension is .pdf, .docx or .msg in any case; any other path fails with "Unsupported file format: " + lowercased extension |
| DocumentProcessor.UpperCaseExtension | app/modules/document_processor.py:58-60 | "policy.PDF" selects PDF |
| DocumentProcessor.HiddenFileRefused | app/modules/document_processor.py:58-66 | "docs/.pdf" has no extension and is refused with "Unsupported file format: " |
| DocumentProcessor.ExtractTextFromUrl | app/modules/document_processor.py:38-52 | definition: fetch (its error propagates), then the PDF or DOCX reader on the body as a stream, chosen by `UrlFormat` |
| DocumentProcessor.ExtractText | app/modules/document_processor.py:54-66 | definition: an "http" prefix downloads, anything else dispatches on the extension; see `UrlBranchTaken` and `LocalBranchTaken` |
| DocumentProcessor.UrlFormat | app/modules/document_processor.py:47-52 | a download is never read as MSG |
| DocumentProcessor.UrlFormatCases | app/modules/document_processor.py:47-52 | a stretch of the raw URL or header reading "pdf" in any case selects PDF; without one, "docx" in any case in the URL or "word" in any case in the header selects DOCX; otherwise the error names the URL |
| DocumentProcessor.UpperCaseHeaderHint | app/modules/document_processor.py:47 | the header "application/PDF" selects PDF |
| DocumentProcessor.UrlFormatIgnoresCase | app/modules/document_processor.py:47-49 | the dispatch is the same for the lowercased URL and header |
| DocumentProcessor.PdfHintWins | app/modules/document_processor.py:47-50 | a URL naming both docx and pdf is read as PDF |
| DocumentProcessor.UrlBranchTaken | app/modules/document_processor.py:55-56 | a source starting with "http" is downloaded whatever its extension; the MSG reader plays no part |
| DocumentProcessor.LocalBranchTaken | app/modules/document_processor.py:57-66 | any other source is never downloaded, and an unsupported extension's error is the result |
| Builtins.Flatten | app/modules/document_processor.py:17-19 | definition: the concatenation of the parts in order; see `PdfPageOffsets` |
| Builtins.Retrieved | test_generate.py:20 | definition: `[texts[i] for i in indices]` under Python's indexing rule; used by `UniqueChunksSpec` and `TopChunkSetSpec` |
| QueryScript.IndexedTexts | test_generate.py:20 | definition: `{i: texts[i] for i in indices}` as entries in insertion order; characterised by `IndexedTextsOk` and `KeyedEntry` |
| QueryScript.Dedup | test_generate.py:22 | definition: `list(dict.fromkeys(xs))`; characterised by `DedupElements` and `DedupOrder` |
| QueryScript.UniqueChunks | test_generate.py:20-22 | definition: the dictionary's values deduplicated; characterised by `UniqueChunksSpec` |
| QueryScript.IndexedTextsOk | test_generate.py:20 | the dictionary comprehension succeeds exactly when every index is valid; then its values have the same elements as the retrieved texts and deduplicate to the same list |
| QueryScript.KeyedEntry | test_generate.py:20 | every dictionary entry maps its key to the text at that index |
| QueryScript.DedupElements | test_generate.py:22 | `dict.fromkeys` keeps each element exactly once and nothing else |
| QueryScript.DedupOrder | test_generate.py:22 | the kept elements appear in the order of their first occurrence |
| QueryScript.UniqueChunksSpec | test_generate.py:20-22 | `unique_chunks` is defined exactly when every index is valid (else IndexError); then it is the retrieved texts without repeats, in first-retrieval order, with no duplicates and at most as many entries as indices |
| QueryScript.PaddingRetrievesLastChunk | test_generate.py:20 | a -1 padding index makes the last chunk a context |
| QueryScript.RunQuery | test_generate.py:9-38 | definition: embed, top-3 search, `unique_chunks`, prompt, generate, response; characterised by `RunQueryResponse` |
| QueryScript.RunQueryResponse | test_generate.py:9-38 | the response succeeds exactly when embedding, a top-3 search, the indexing and generation succeed; it carries the query, the answer to the deduplicated prompt, and the fixed reasoning text |
| QueryScript.IsStop | test_generate.py:75 | definition: `query.lower() == 'stop'`; characterised by `IsStopExactly` |
| QueryScript.IsStopExactly | test_generate.py:75 | the loop stops exactly on the four letters s, t, o, p in any case |
| QueryScript.Session | test_generate.py:73-84 | definition: the responses and the ending of the loop over the input lines; characterised by `SessionSpec` |
| QueryScript.SessionSpec | test_generate.py:73-84 | each response answers the line at its position, none of them "stop"; the session ends at the stop line, at the line whose query raised, or at the end of input |
| QueryScript.Repl | test_generate.py:73-84 | the loop produces the session's responses and ending, with the same characterisation |
| Service.ApiKey | main.py:18 | definition: `os.getenv("API_KEY", "secret")` |
| Service.Authorized | main.py:67 | definition: the header equals `Some("Bearer " + key)`; characterised by `AuthorizedExactly` |
| Service.AuthorizedExactly | main.py:65-68 | the check passes exactly for the header "Bearer " + API_KEY; a missing header, "bearer …" and a double space are refused |
| Service.DefaultKeyAccepted | main.py:18-67 | with no API_KEY set, "Bearer secret" is accepted |
| Service.TopChunkSet | main.py:55 | the set comprehension succeeds exactly when every index is valid, else IndexError |
| Service.TopChunkSetSpec | main.py:55 | the set holds exactly the retrieved texts and no more of them than there are indices |
| Service.TopChunks | main.py:55 | definition: the set listed by the `listing` parameter; characterised by `TopChunksSpec` |
| Service.ListingLength | main.py:55 | a list holding each element of a set once has the set's size |
| Service.TopChunksSpec | main.py:55 | `top_chunks` is duplicate-free, holds exactly the retrieved texts, and is no longer than the index list, whatever order the set is listed in |
| Service.QueryRag | main.py:52-60 | definition: embed, top-3 search, `top_chunks`, prompt, generate; see `QueryRagContexts` |
| Service.QueryRagContexts | main.py:52-60 | with a search that keeps to top_k = 3, the prompt gets at most 3 distinct chunks, exactly the retrieved ones |
| Service.AnswerAll | main.py:75-79 | definition: the answers in order or the first exception; characterised by `AnswerAllOk` and `AnswerAllErr` |
| Service.AnswerAllOk | main.py:75-79 | all questions are answered exactly when no query raises, and then answer k is `query_rag(questions[k])` |
| Service.AnswerAllErr | main.py:75-84 | a failure carries the exception of the first question whose query raised |
| Service.AnswerAllStopsAtError | main.py:75-79 | once a question has raised, the later questions change nothing |
| Service.Handle | main.py:64-84 | definition: 401, or ingest then all answers, exceptions as 500; characterised by `HandleSpec` |
| Service.HandleSpec | main.py:64-84 | 401 "Unauthorized" without the exact header; answers for all questions, in order and one each, exactly when ingestion and every query succeed; otherwise 500 with the message of the ingestion error or of a failing question |
| Service.AnswerEach | main.py:75-79 | the loop yields `AnswerAll`'s result; it starts the questions in order, all of them when every answer arrives, and stops at the first one that raises, carrying its message, all earlier ones answered |
| Service.RunHackrx | main.py:64-84 | the handler returns the response `Handle` describes; it calls nothing when unauthorised; otherwise the first call is the only ingestion and the rest are the questions in order: just the ingestion when it raised, every question when all are answered, and otherwise up to and including the question whose query raised (with that message), all earlier ones answered |

## Left out

- `sent_tokenize` (NLTK) is not modelled. The chunker receives the sentence list, and the theorems about chunk structure assume sentences that are non-empty and carry no surrounding whitespace, which is what the tokenizer delivers.
- The embedder (`app/modules/embedder.py`), including its thread-pool fan-out, is not modelled. It is an uninterpreted parameter.
- FAISS (`app/modules/vector_search.py`) is not modelled. The search is a parameter that returns an index sequence. The distances it also returns are unused floating point, so they are dropped.
- Loading the stored index in `test_generate.py` and `ingestion.py` are not modelled.
- `ingest_and_build_index` (`main.py`:33-50) runs the modelled `extract_text` and `chunk_text`, then the embedder and FAISS. The handler's `ingest` parameter is not built from `ExtractText` and `ChunkText`: it is an uninterpreted function that delivers the index and the chunk list or raises. So `HandleSpec` says nothing about which chunks a request indexes.
- PyMuPDF, python-docx and extract_msg are not modelled. They are parameters that deliver pages, paragraphs, or subject and body.
- `requests.get` and `raise_for_status` are not modelled. They are one parameter that delivers the body and the Content-Type header, or fails.
- The generative model call and the `strip` of its reply (`generate_answer`) are not modelled. They are an uninterpreted parameter.
- FastAPI, pydantic, uvicorn, `load_dotenv`, `print` logging and `json.dumps` are left out. The environment lookup of API_KEY is an `Option` argument to `Service.ApiKey`.
- `input()` is not modelled. The interactive loop reads a finite list of lines. The end of that list ends the session, where Python's `input()` would raise `EOFError`.
- Builtins.Lower: lowercases A to Z only, whereas Python's `str.lower` also lowercases non-ASCII letters. The two agree on every test that compares against an ASCII word: "stop", "pdf", "docx", "word", and the extensions ".pdf", ".docx" and ".msg". They differ only in the text of the "Unsupported file format" message for a non-ASCII extension.
- Builtins.SplitExt: models the POSIX `os.path.splitext` (separator "/"). The Windows variant, which also splits on "\\" and drive letters, is not modelled.
- Service.TopChunks: the order in which Python iterates a set of strings depends on string hashing, so it is a parameter (`listing`). The properties hold for whatever listing holds each element once.
- QueryScript.IndexedTexts: a repeated key is assigned the same text again, so the entry keeps its place and its value. The model therefore leaves the dictionary unchanged rather than modelling the re-assignment.
- The `ValueError` raised for a local `.msg` file by `extract_msg`, and any other parser failure, is whatever `Err` the parser parameter returns.
