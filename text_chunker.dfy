/** The greedy sentence chunker (`chunk_text`).

    The sentences are the chunker's input; the sentence tokenizer that
    produces them from the text is not part of this model. The loop keeps an
    accumulator `chunk`: a sentence that still fits (by the test
    `len(chunk) + len(sentence) <= max_chunk_size`, which does not count the
    joining space) is appended after a space; one that does not fit closes
    the chunk, which is stripped and emitted, and starts the next one. */
module TextChunker {
  import opened Builtins

  /** The default of `max_chunk_size`. */
  const DefaultMaxChunkSize := 500

  /** The loop's state: the chunks emitted so far and the accumulator. */
  datatype Progress = Progress(chunks: seq<string>, chunk: string)

  /** One iteration of the loop. */
  function Step(p: Progress, sentence: string, maxChunkSize: int): Progress
  {
    if |p.chunk| + |sentence| > maxChunkSize then Progress(p.chunks + [Strip(p.chunk)], sentence)
    else Progress(p.chunks, p.chunk + " " + sentence)
  }

  /** The state after the loop has consumed `sentences`. */
  function Scan(sentences: seq<string>, maxChunkSize: int): Progress
    decreases |sentences|
  {
    if |sentences| == 0 then Progress([], "")
    else Step(Scan(sentences[..|sentences| - 1], maxChunkSize), sentences[|sentences| - 1], maxChunkSize)
  }

  /** The result of `chunk_text`: the emitted chunks, and the stripped
      accumulator if it is not empty. */
  function Chunks(sentences: seq<string>, maxChunkSize: int): seq<string>
  {
    var p := Scan(sentences, maxChunkSize);
    if p.chunk != "" then p.chunks + [Strip(p.chunk)] else p.chunks
  }

  /** `chunk_text` over an already tokenized sentence sequence. */
  method ChunkText(sentences: seq<string>, maxChunkSize: int := DefaultMaxChunkSize) returns (chunks: seq<string>)
    ensures chunks == Chunks(sentences, maxChunkSize)
    ensures chunks == [] <==> sentences == []
    ensures |chunks| <= |sentences| + 1
  {
    chunks := [];
    var chunk := "";
    for i := 0 to |sentences|
      invariant Progress(chunks, chunk) == Scan(sentences[..i], maxChunkSize)
    {
      assert sentences[..i + 1][..i] == sentences[..i];
      var sentence := sentences[i];
      if |chunk| + |sentence| > maxChunkSize {
        chunks := chunks + [Strip(chunk)];
        chunk := sentence;
      } else {
        chunk := chunk + " " + sentence;
      }
    }
    assert sentences[..|sentences|] == sentences;
    if chunk != "" {
      chunks := chunks + [Strip(chunk)];
    }
    ChunksCount(sentences, maxChunkSize);
  }

  // ---------------------------------------------------------------------
  // How many chunks (holds for any sentences)
  // ---------------------------------------------------------------------

  lemma {:induction false} ScanCount(sentences: seq<string>, maxChunkSize: int)
    ensures |Scan(sentences, maxChunkSize).chunks| <= |sentences|
    ensures sentences != [] ==> Scan(sentences, maxChunkSize).chunks != [] || Scan(sentences, maxChunkSize).chunk != ""
    decreases |sentences|
  {
    if sentences != [] {
      ScanCount(sentences[..|sentences| - 1], maxChunkSize);
    }
  }

  /** No sentences give no chunks; otherwise there is at least one chunk,
      and at most one more than there are sentences. */
  lemma ChunksCount(sentences: seq<string>, maxChunkSize: int)
    ensures Chunks(sentences, maxChunkSize) == [] <==> sentences == []
    ensures |Chunks(sentences, maxChunkSize)| <= |sentences| + 1
  {
    ScanCount(sentences, maxChunkSize);
  }

  // ---------------------------------------------------------------------
  // Which sentences make up each chunk
  // ---------------------------------------------------------------------

  /** A sentence as the tokenizer delivers it: non-empty, and neither
      starting nor ending with whitespace. */
  predicate Clean(s: string)
  {
    s != "" && !IsSpace(s[0]) && !IsSpace(s[|s| - 1])
  }

  predicate WellFormed(sentences: seq<string>)
  {
    forall i :: 0 <= i < |sentences| ==> Clean(sentences[i])
  }

  /** The sentences of each chunk, the last group being the one the
      accumulator still collects. The first group is the one gathered while
      the accumulator started from "", and it is empty when the first
      sentence did not fit. */
  ghost function Groups(sentences: seq<string>, maxChunkSize: int): (g: seq<seq<string>>)
    ensures |g| >= 1
    decreases |sentences|
  {
    if |sentences| == 0 then [[]]
    else
      var front, s := sentences[..|sentences| - 1], sentences[|sentences| - 1];
      var g := Groups(front, maxChunkSize);
      if |Scan(front, maxChunkSize).chunk| + |s| > maxChunkSize then g + [[s]]
      else g[..|g| - 1] + [g[|g| - 1] + [s]]
  }

  /** The accumulator's text for a group: the first group has a space in
      front of every sentence, a later group only between sentences. */
  function Raw(group: seq<string>, first: bool): string
  {
    if first then (if group == [] then "" else " " + Join(group, " ")) else Join(group, " ")
  }

  /** The facts the loop keeps about its state and the groups. */
  ghost predicate Shaped(sentences: seq<string>, maxChunkSize: int)
  {
    ShapedState(Scan(sentences, maxChunkSize), Groups(sentences, maxChunkSize), sentences)
  }

  ghost predicate ShapedState(p: Progress, g: seq<seq<string>>, sentences: seq<string>)
  {
    |g| == |p.chunks| + 1 &&
    Flatten(g) == sentences &&
    (forall k :: 1 <= k < |g| ==> g[k] != []) &&
    (forall k :: 0 <= k < |p.chunks| ==> p.chunks[k] == Join(g[k], " ")) &&
    p.chunk == Raw(g[|g| - 1], |g| == 1)
  }

  lemma JoinClean(group: seq<string>)
    requires group != [] && WellFormed(group)
    ensures Clean(Join(group, " "))
  {
    JoinStartsWithFirst(group, " ");
    var j := Join(group, " ");
    var last := group[|group| - 1];
    assert j[|j| - |last|..] == last;
    assert j[|j| - 1] == last[|last| - 1];
  }

  /** Stripping the accumulator leaves the group's sentences joined by
      single spaces. */
  lemma StripRaw(group: seq<string>, first: bool)
    requires WellFormed(group)
    requires first || group != []
    ensures Strip(Raw(group, first)) == Join(group, " ")
  {
    if group != [] {
      JoinClean(group);
      StripClean(Join(group, " "));
    }
  }

  lemma RawSnoc(group: seq<string>, first: bool, s: string)
    requires first || group != []
    ensures Raw(group, first) + " " + s == Raw(group + [s], first)
  {
    if group == [] {
      assert group + [s] == [s];
    } else {
      JoinSnoc(group, s, " ");
    }
  }

  lemma WellFormedGroup(sentences: seq<string>, g: seq<seq<string>>, k: nat)
    requires WellFormed(sentences) && Flatten(g) == sentences && k < |g|
    ensures WellFormed(g[k])
  {
    FlattenContains(g, k);
    forall i | 0 <= i < |g[k]| ensures Clean(g[k][i]) {
      assert g[k][i] in sentences;
    }
  }

  lemma {:induction false} FlattenContains<T>(g: seq<seq<T>>, k: nat)
    requires k < |g|
    ensures forall x :: x in g[k] ==> x in Flatten(g)
    decreases |g|
  {
    if k < |g| - 1 {
      FlattenContains(g[..|g| - 1], k);
    }
  }

  lemma WellFormedFront(sentences: seq<string>)
    requires WellFormed(sentences) && sentences != []
    ensures WellFormed(sentences[..|sentences| - 1])
  {
    var front := sentences[..|sentences| - 1];
    forall i | 0 <= i < |front| ensures Clean(front[i]) { assert front[i] == sentences[i]; }
  }

  lemma {:induction false} ScanShape(sentences: seq<string>, maxChunkSize: int)
    requires WellFormed(sentences)
    ensures Shaped(sentences, maxChunkSize)
    decreases |sentences|
  {
    if sentences == [] {
      assert Flatten<string>([[]]) == [];
    } else {
      var front, s := sentences[..|sentences| - 1], sentences[|sentences| - 1];
      WellFormedFront(sentences);
      ScanShape(front, maxChunkSize);
      var g0 := Groups(front, maxChunkSize);
      WellFormedGroup(front, g0, |g0| - 1);
      ShapeStep(sentences, maxChunkSize);
    }
  }

  /** One iteration of the loop keeps the shape. */
  lemma ShapeStep(sentences: seq<string>, maxChunkSize: int)
    requires sentences != []
    requires Shaped(sentences[..|sentences| - 1], maxChunkSize)
    requires var g0 := Groups(sentences[..|sentences| - 1], maxChunkSize); WellFormed(g0[|g0| - 1])
    ensures Shaped(sentences, maxChunkSize)
  {
    var front, s := sentences[..|sentences| - 1], sentences[|sentences| - 1];
    var p0, g0 := Scan(front, maxChunkSize), Groups(front, maxChunkSize);
    if |p0.chunk| + |s| > maxChunkSize {
      FlushKeepsShape(p0, g0, sentences);
    } else {
      AppendKeepsShape(p0, g0, sentences);
    }
  }

  /** Closing the accumulator emits the stripped group and opens a group
      holding only the new sentence. */
  lemma FlushKeepsShape(p0: Progress, g0: seq<seq<string>>, sentences: seq<string>)
    requires sentences != []
    requires ShapedState(p0, g0, sentences[..|sentences| - 1])
    requires WellFormed(g0[|g0| - 1])
    ensures var s := sentences[|sentences| - 1];
      ShapedState(Progress(p0.chunks + [Strip(p0.chunk)], s), g0 + [[s]], sentences)
  {
    var s := sentences[|sentences| - 1];
    var p, g := Progress(p0.chunks + [Strip(p0.chunk)], s), g0 + [[s]];
    assert Flatten(g) == sentences by {
      FlattenSnoc(g0, [s]);
      assert sentences == sentences[..|sentences| - 1] + [s];
    }
    assert forall k :: 0 <= k < |g0| ==> g[k] == g0[k];
    assert p.chunks[|g0| - 1] == Join(g[|g0| - 1], " ") by {
      StripRaw(g0[|g0| - 1], |g0| == 1);
    }
    assert p.chunk == Raw(g[|g| - 1], |g| == 1) by {
      assert g[|g| - 1] == [s];
    }
  }

  /** Appending to the accumulator extends the last group. */
  lemma AppendKeepsShape(p0: Progress, g0: seq<seq<string>>, sentences: seq<string>)
    requires sentences != []
    requires ShapedState(p0, g0, sentences[..|sentences| - 1])
    ensures var s := sentences[|sentences| - 1];
      ShapedState(Progress(p0.chunks, p0.chunk + " " + s), g0[..|g0| - 1] + [g0[|g0| - 1] + [s]], sentences)
  {
    var s := sentences[|sentences| - 1];
    var init, last := g0[..|g0| - 1], g0[|g0| - 1];
    var g := init + [last + [s]];
    assert Flatten(g) == sentences by {
      assert g0 == init + [last];
      FlattenSnoc(init, last);
      FlattenSnoc(init, last + [s]);
      assert sentences == sentences[..|sentences| - 1] + [s];
    }
    assert p0.chunk + " " + s == Raw(g[|g| - 1], |g| == 1) by {
      RawSnoc(last, |g0| == 1, s);
    }
    assert forall k :: 0 <= k < |init| ==> g[k] == g0[k];
  }

  // ---------------------------------------------------------------------
  // Lengths, the first group, and greedy closing
  // ---------------------------------------------------------------------

  /** A group that the loop has appended to stays within one character of
      the limit: the test ignores the space that joins. */
  ghost predicate Bounded(g: seq<seq<string>>, maxChunkSize: int)
  {
    forall k :: 0 <= k < |g| && g[k] != [] && (k == 0 || |g[k]| >= 2) ==>
      |Raw(g[k], k == 0)| <= maxChunkSize + 1
  }

  lemma {:induction false} ScanBounded(sentences: seq<string>, maxChunkSize: int)
    requires WellFormed(sentences)
    ensures Bounded(Groups(sentences, maxChunkSize), maxChunkSize)
    decreases |sentences|
  {
    if sentences != [] {
      var front, s := sentences[..|sentences| - 1], sentences[|sentences| - 1];
      WellFormedFront(sentences);
      ScanBounded(front, maxChunkSize);
      ScanShape(front, maxChunkSize);
      var g0 := Groups(front, maxChunkSize);
      if |Scan(front, maxChunkSize).chunk| + |s| <= maxChunkSize {
        AppendKeepsBound(g0, s, maxChunkSize);
      } else {
        FlushKeepsBound(g0, s, maxChunkSize);
      }
    }
  }

  lemma FlushKeepsBound(g0: seq<seq<string>>, s: string, maxChunkSize: int)
    requires g0 != [] && Bounded(g0, maxChunkSize)
    ensures Bounded(g0 + [[s]], maxChunkSize)
  {
    var g := g0 + [[s]];
    forall k | 0 <= k < |g| && g[k] != [] && (k == 0 || |g[k]| >= 2)
      ensures |Raw(g[k], k == 0)| <= maxChunkSize + 1
    {
      if k < |g0| {
        assert g[k] == g0[k];
      }
    }
  }

  lemma AppendKeepsBound(g0: seq<seq<string>>, s: string, maxChunkSize: int)
    requires g0 != [] && Bounded(g0, maxChunkSize)
    requires |g0| >= 2 ==> g0[|g0| - 1] != []
    requires |Raw(g0[|g0| - 1], |g0| == 1)| + |s| <= maxChunkSize
    ensures Bounded(g0[..|g0| - 1] + [g0[|g0| - 1] + [s]], maxChunkSize)
  {
    var n := |g0| - 1;
    var g := g0[..n] + [g0[n] + [s]];
    RawSnoc(g0[n], n == 0, s);
    forall k | 0 <= k < |g| && g[k] != [] && (k == 0 || |g[k]| >= 2)
      ensures |Raw(g[k], k == 0)| <= maxChunkSize + 1
    {
      if k < n {
        assert g[k] == g0[k];
      } else {
        assert g[k] == g0[n] + [s];
      }
    }
  }

  /** Every group but the last was closed because the next sentence did not
      fit into its accumulator. */
  ghost predicate Greedy(g: seq<seq<string>>, maxChunkSize: int)
  {
    forall k :: 1 <= k < |g| ==> g[k] != [] && |Raw(g[k - 1], k == 1)| + |g[k][0]| > maxChunkSize
  }

  lemma {:induction false} ScanGreedy(sentences: seq<string>, maxChunkSize: int)
    requires WellFormed(sentences)
    ensures Greedy(Groups(sentences, maxChunkSize), maxChunkSize)
    decreases |sentences|
  {
    if sentences != [] {
      var front, s := sentences[..|sentences| - 1], sentences[|sentences| - 1];
      WellFormedFront(sentences);
      ScanGreedy(front, maxChunkSize);
      ScanShape(front, maxChunkSize);
      var g0 := Groups(front, maxChunkSize);
      if |Scan(front, maxChunkSize).chunk| + |s| > maxChunkSize {
        FlushKeepsGreedy(g0, s, maxChunkSize);
      } else {
        AppendKeepsGreedy(g0, s, maxChunkSize);
      }
    }
  }

  lemma FlushKeepsGreedy(g0: seq<seq<string>>, s: string, maxChunkSize: int)
    requires g0 != [] && Greedy(g0, maxChunkSize) && s != ""
    requires |Raw(g0[|g0| - 1], |g0| == 1)| + |s| > maxChunkSize
    ensures Greedy(g0 + [[s]], maxChunkSize)
  {
    var g := g0 + [[s]];
    forall k | 1 <= k < |g| ensures g[k] != [] && |Raw(g[k - 1], k == 1)| + |g[k][0]| > maxChunkSize {
      assert g[k - 1] == g0[k - 1];
      if k < |g0| {
        assert g[k] == g0[k];
      } else {
        assert g[k] == [s];
      }
    }
  }

  lemma AppendKeepsGreedy(g0: seq<seq<string>>, s: string, maxChunkSize: int)
    requires g0 != [] && Greedy(g0, maxChunkSize)
    ensures Greedy(g0[..|g0| - 1] + [g0[|g0| - 1] + [s]], maxChunkSize)
  {
    var n := |g0| - 1;
    var g := g0[..n] + [g0[n] + [s]];
    forall k | 1 <= k < |g| ensures g[k] != [] && |Raw(g[k - 1], k == 1)| + |g[k][0]| > maxChunkSize {
      assert g[k - 1] == g0[k - 1];
      if k < n {
        assert g[k] == g0[k];
      } else {
        assert g[k] == g0[n] + [s];
        assert g[k][0] == g0[n][0];
      }
    }
  }

  /** The first group is empty exactly when the first sentence alone is
      over the limit. */
  lemma {:induction false} ScanFirstGroup(sentences: seq<string>, maxChunkSize: int)
    requires WellFormed(sentences) && sentences != []
    ensures Groups(sentences, maxChunkSize)[0] == [] <==> |sentences[0]| > maxChunkSize
    decreases |sentences|
  {
    var front, s := sentences[..|sentences| - 1], sentences[|sentences| - 1];
    var g0 := Groups(front, maxChunkSize);
    var g := Groups(sentences, maxChunkSize);
    if front == [] {
      assert g0 == [[]];
      assert Scan(front, maxChunkSize).chunk == "";
    } else {
      WellFormedFront(sentences);
      ScanFirstGroup(front, maxChunkSize);
      ScanShape(front, maxChunkSize);
      assert front[0] == sentences[0];
      if |g0| == 1 {
        assert Flatten(g0) == Flatten(g0[..0]) + g0[0];
        assert g0[0] == front;
      }
      assert g[0] == g0[0] || (|g0| == 1 && g[0] == g0[0] + [s]);
    }
  }

  // ---------------------------------------------------------------------
  // The properties of chunk_text's result
  // ---------------------------------------------------------------------

  /** The sentences of each result chunk: the groups, once there is at
      least one sentence. */
  ghost function ChunkGroups(sentences: seq<string>, maxChunkSize: int): seq<seq<string>>
  {
    if sentences == [] then [] else Groups(sentences, maxChunkSize)
  }

  /** Each chunk is a run of consecutive sentences joined by single spaces:
      the runs, in order, make up the whole sentence sequence; only the
      first run can be empty. */
  lemma ChunksPartition(sentences: seq<string>, maxChunkSize: int)
    requires WellFormed(sentences)
    ensures var cs, g := Chunks(sentences, maxChunkSize), ChunkGroups(sentences, maxChunkSize);
      |cs| == |g| &&
      Flatten(g) == sentences &&
      (forall k :: 1 <= k < |g| ==> g[k] != []) &&
      (forall k :: 0 <= k < |cs| ==> cs[k] == Join(g[k], " "))
  {
    if sentences != [] {
      ScanShape(sentences, maxChunkSize);
      FinishShape(Scan(sentences, maxChunkSize), Groups(sentences, maxChunkSize), sentences);
    }
  }

  /** After the loop, the accumulator is not empty, and stripping it gives
      the last group's chunk. */
  lemma FinishShape(p: Progress, g: seq<seq<string>>, sentences: seq<string>)
    requires ShapedState(p, g, sentences) && WellFormed(sentences) && sentences != []
    ensures p.chunk != ""
    ensures var cs := p.chunks + [Strip(p.chunk)];
      |cs| == |g| && forall k :: 0 <= k < |cs| ==> cs[k] == Join(g[k], " ")
  {
    var last := g[|g| - 1];
    if |g| == 1 {
      assert Flatten(g) == Flatten(g[..0]) + g[0];
      assert last == sentences;
    }
    assert last != [];
    JoinStartsWithFirst(last, " ");
    WellFormedGroup(sentences, g, |g| - 1);
    StripRaw(last, |g| == 1);
  }

  /** Only chunk 0 can be empty, and it is empty exactly when the first
      sentence is longer than the limit. */
  lemma ChunksEmptyOnlyFirst(sentences: seq<string>, maxChunkSize: int)
    requires WellFormed(sentences) && sentences != []
    ensures Chunks(sentences, maxChunkSize)[0] == "" <==> |sentences[0]| > maxChunkSize
    ensures forall k :: 1 <= k < |Chunks(sentences, maxChunkSize)| ==> Chunks(sentences, maxChunkSize)[k] != ""
  {
    ChunksPartition(sentences, maxChunkSize);
    ScanFirstGroup(sentences, maxChunkSize);
    var cs, g := Chunks(sentences, maxChunkSize), ChunkGroups(sentences, maxChunkSize);
    forall k | 0 <= k < |cs| && g[k] != [] ensures cs[k] != "" {
      JoinStartsWithFirst(g[k], " ");
      WellFormedGroup(sentences, g, k);
    }
  }

  /** A chunk of two or more sentences can exceed the limit, but by one
      character at most; the first chunk, when it holds any sentence, stays
      within the limit. */
  lemma ChunkLengths(sentences: seq<string>, maxChunkSize: int)
    requires WellFormed(sentences)
    ensures var cs, g := Chunks(sentences, maxChunkSize), ChunkGroups(sentences, maxChunkSize);
      |cs| == |g| &&
      (forall k :: 0 <= k < |cs| && |g[k]| >= 2 ==> |cs[k]| <= maxChunkSize + 1) &&
      (cs != [] && g[0] != [] ==> |cs[0]| <= maxChunkSize)
  {
    ChunksPartition(sentences, maxChunkSize);
    if sentences != [] {
      ScanBounded(sentences, maxChunkSize);
    }
  }

  lemma GroupWithOversized(group: seq<string>, chunk: string, first: bool, j: nat, maxChunkSize: int)
    requires j < |group| && WellFormed(group) && chunk == Join(group, " ")
    requires |group| >= 2 ==> |chunk| <= maxChunkSize + 1
    requires first ==> |chunk| <= maxChunkSize
    requires |group[j]| > maxChunkSize
    ensures !first && group == [group[j]]
  {
    JoinLengthAtLeast(group, " ", j);
    if |group| >= 2 {
      JoinLengthOfSeveral(group, " ", j);
    }
  }

  /** A sentence longer than the limit is a chunk by itself, and never the
      first one. */
  lemma OversizedSentenceAlone(sentences: seq<string>, maxChunkSize: int)
    requires WellFormed(sentences)
    ensures var g := ChunkGroups(sentences, maxChunkSize);
      forall k, j :: 0 <= k < |g| && 0 <= j < |g[k]| && |g[k][j]| > maxChunkSize ==>
        k >= 1 && g[k] == [g[k][j]]
  {
    ChunksPartition(sentences, maxChunkSize);
    ChunkLengths(sentences, maxChunkSize);
    var cs, g := Chunks(sentences, maxChunkSize), ChunkGroups(sentences, maxChunkSize);
    forall k, j | 0 <= k < |g| && 0 <= j < |g[k]| && |g[k][j]| > maxChunkSize
      ensures k >= 1 && g[k] == [g[k][j]]
    {
      WellFormedGroup(sentences, g, k);
      GroupWithOversized(g[k], cs[k], k == 0, j, maxChunkSize);
    }
  }

  /** A chunk is closed only when the next sentence does not fit: its
      accumulator (with the leading space of chunk 0, if it holds a
      sentence) plus the next chunk's first sentence exceed the limit. */
  lemma ChunksGreedy(sentences: seq<string>, maxChunkSize: int)
    requires WellFormed(sentences)
    ensures var cs, g := Chunks(sentences, maxChunkSize), ChunkGroups(sentences, maxChunkSize);
      |cs| == |g| &&
      forall k :: 1 <= k < |g| ==>
        g[k] != [] &&
        |cs[k - 1]| + (if k == 1 && g[0] != [] then 1 else 0) + |g[k][0]| > maxChunkSize
  {
    ChunksPartition(sentences, maxChunkSize);
    if sentences != [] {
      ScanGreedy(sentences, maxChunkSize);
    }
  }

  /** The non-empty elements of a list of strings, in order. */
  function NonEmpty(cs: seq<string>): (r: seq<string>)
    ensures forall k :: 0 <= k < |r| ==> r[k] != ""
    decreases |cs|
  {
    if cs == [] then [] else (if cs[0] == "" then [] else [cs[0]]) + NonEmpty(cs[1..])
  }

  lemma {:induction false} NonEmptyOfNonEmpty(cs: seq<string>)
    requires forall k :: 0 <= k < |cs| ==> cs[k] != ""
    ensures NonEmpty(cs) == cs
    decreases |cs|
  {
    if cs != [] {
      NonEmptyOfNonEmpty(cs[1..]);
    }
  }

  /** Joining the joined groups is joining their concatenation, when no
      group is empty. */
  lemma NonEmptyDropsHead(cs: seq<string>)
    requires cs != [] && cs[0] == ""
    requires forall k :: 1 <= k < |cs| ==> cs[k] != ""
    ensures NonEmpty(cs) == cs[1..]
  {
    assert NonEmpty(cs) == NonEmpty(cs[1..]);
    NonEmptyOfNonEmpty(cs[1..]);
  }

  lemma {:induction false} JoinGroups(cs: seq<string>, g: seq<seq<string>>, sep: string)
    requires |cs| == |g|
    requires forall k :: 0 <= k < |g| ==> g[k] != [] && cs[k] == Join(g[k], sep)
    ensures Join(cs, sep) == Join(Flatten(g), sep)
    decreases |g|
  {
    if |g| == 1 {
      assert Flatten(g) == Flatten(g[..0]) + g[0];
      assert Flatten(g[..0]) == [];
      assert Flatten(g) == g[0];
      assert Join(cs, sep) == cs[0];
    } else if |g| > 1 {
      var n := |g| - 1;
      JoinGroups(cs[..n], g[..n], sep);
      assert Flatten(g[..n]) != [] by {
        assert Flatten(g[..n]) == Flatten(g[..n][..n - 1]) + g[n - 1];
      }
      assert g == g[..n] + [g[n]];
      FlattenSnoc(g[..n], g[n]);
      JoinAppend(Flatten(g[..n]), g[n], sep);
    }
  }

  lemma FlattenEmptyHead<T>(g: seq<seq<T>>)
    requires g != [] && g[0] == []
    ensures Flatten(g[1..]) == Flatten(g)
    decreases |g|
  {
    if |g| > 1 {
      FlattenEmptyHead(g[..|g| - 1]);
      assert g[1..][..|g| - 2] == g[..|g| - 1][1..];
    }
  }

  /** Dropping the empty chunks and joining is joining the sentences of the
      groups, when only the first group can be empty and exactly the empty
      groups give empty chunks. */
  lemma NonEmptyGroups(cs: seq<string>, g: seq<seq<string>>)
    requires |cs| == |g| >= 1
    requires forall k :: 0 <= k < |g| ==> cs[k] == Join(g[k], " ")
    requires forall k :: 1 <= k < |g| ==> g[k] != [] && cs[k] != ""
    requires cs[0] == "" <==> g[0] == []
    ensures Join(NonEmpty(cs), " ") == Join(Flatten(g), " ")
  {
    if g[0] == [] {
      NonEmptyDropsHead(cs);
      FlattenEmptyHead(g);
      JoinGroups(cs[1..], g[1..], " ");
    } else {
      NonEmptyOfNonEmpty(cs);
      JoinGroups(cs, g, " ");
    }
  }

  /** No sentence is lost, duplicated or reordered: the non-empty chunks,
      joined by spaces, are the sentences joined by spaces. */
  lemma ChunksKeepSentences(sentences: seq<string>, maxChunkSize: int)
    requires WellFormed(sentences)
    ensures Join(NonEmpty(Chunks(sentences, maxChunkSize)), " ") == Join(sentences, " ")
  {
    if sentences != [] {
      ChunksPartition(sentences, maxChunkSize);
      ChunksEmptyOnlyFirst(sentences, maxChunkSize);
      ScanFirstGroup(sentences, maxChunkSize);
      NonEmptyGroups(Chunks(sentences, maxChunkSize), Groups(sentences, maxChunkSize));
    }
  }

  // ---------------------------------------------------------------------
  // Two inputs that show the quirks
  // ---------------------------------------------------------------------

  lemma ScanTwoAtLimitFour()
    ensures Scan(["aa", "bb"], 4) == Progress(["aa"], "bb")
  {
    var one, two := ["aa"], ["aa", "bb"];
    assert one[..0] == [] && two[..1] == one;
    assert Scan(one, 4) == Progress([], " aa");
    StripClean("aa");
  }

  /** With limit 4, "bb" and "cc" share a chunk of five characters: the
      test counts 2 + 2 and not the joining space. */
  lemma OverLimitByOne()
    ensures Chunks(["aa", "bb", "cc"], 4) == ["aa", "bb cc"]
    ensures |"bb cc"| == 4 + 1
  {
    var three := ["aa", "bb", "cc"];
    assert three[..2] == ["aa", "bb"];
    ScanTwoAtLimitFour();
    assert "bb" + " " + "cc" == "bb cc";
    assert Scan(three, 4) == Progress(["aa"], "bb cc");
    StripClean("bb cc");
  }

  /** A first sentence over the limit makes chunk 0 the empty string. */
  lemma EmptyFirstChunk()
    ensures Chunks(["toolong"], 3) == ["", "toolong"]
  {
    assert ["toolong"][..0] == [];
    assert Strip("") == "";
    StripClean("toolong");
  }
}
