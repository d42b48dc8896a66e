/** Preparation of TUPA documents for indexing: the text cleaner and the
    greedy paragraph chunker of `DocumentProcessor`, and the clean-then-chunk
    step of `process_pdf_file`. */
module DocumentProcessor {
  import opened Common
  import opened Strings
  import RagConfig

  /** A fragment of a source document with its provenance. */
  datatype DocumentChunk = DocumentChunk(id: string, text: string, metadata: Metadata)

  /** The separator `chunk_text` splits paragraphs on. */
  const ParagraphBreak: string := "\n\n"

  /** `f"{source}_chunk_{k}"`. */
  function ChunkId(source: string, k: nat): string
  {
    source + "_chunk_" + NatToString(k)
  }

  function ChunkMetadata(source: string, k: nat): Metadata
  {
    map["source" := Str(source), "chunk_id" := Int(k), "document_type" := Str("tupa")]
  }

  /** The chunk number `k` made from the buffer `buffer`. */
  function MakeChunk(source: string, k: nat, buffer: string): DocumentChunk
  {
    DocumentChunk(ChunkId(source, k), Strip(buffer), ChunkMetadata(source, k))
  }

  // ---------------------------------------------------------------------
  // chunk_text

  /** The variables of the paragraph loop of `chunk_text`: the chunks emitted
      so far, `current_chunk` and `chunk_id`. */
  datatype ChunkState = ChunkState(chunks: seq<DocumentChunk>, current: string, chunkId: nat)

  /** The words of a closed buffer that seed the next one:
      `words[-n:] if len(words) > n else words`. */
  function OverlapWords(buffer: string, overlap: int): (kept: seq<string>)
    requires overlap > 0
    ensures |kept| == Min(overlap, |Words(buffer)|)
    ensures kept == Words(buffer)[|Words(buffer)| - |kept|..]
  {
    LastWords(Words(buffer), overlap)
  }

  /** `words[-n:] if len(words) > n else words` on a list of words. */
  function LastWords(words: seq<string>, n: int): (kept: seq<string>)
    requires n > 0
    ensures |kept| == Min(n, |words|)
    ensures kept == words[|words| - |kept|..]
  {
    if |words| > n then words[|words| - n..] else words
  }

  /** One iteration of the paragraph loop. A paragraph joins the buffer when
      the two lengths together stay within `chunkSize` (the separator is not
      counted); otherwise a non-empty buffer is emitted as a chunk and the
      next buffer is the overlap words, a space and the paragraph, and an
      empty buffer is simply replaced by the paragraph. */
  function Step(st: ChunkState, paragraph: string, source: string, chunkSize: int, chunkOverlap: int): ChunkState
  {
    if |st.current| + |paragraph| > chunkSize then
      if st.current != "" then
        var next := if chunkOverlap > 0
                    then Join(OverlapWords(st.current, chunkOverlap), " ") + " " + paragraph
                    else paragraph;
        ChunkState(st.chunks + [MakeChunk(source, st.chunkId, st.current)], next, st.chunkId + 1)
      else
        ChunkState(st.chunks, paragraph, st.chunkId)
    else
      ChunkState(st.chunks, if st.current != "" then st.current + ParagraphBreak + paragraph else paragraph, st.chunkId)
  }

  /** The loop state after the given paragraphs, in order. */
  function Fold(paragraphs: seq<string>, source: string, chunkSize: int, chunkOverlap: int): ChunkState
    decreases |paragraphs|
  {
    if paragraphs == [] then ChunkState([], "", 0)
    else
      Step(Fold(paragraphs[..|paragraphs| - 1], source, chunkSize, chunkOverlap),
           paragraphs[|paragraphs| - 1], source, chunkSize, chunkOverlap)
  }

  /** After the loop: the last buffer becomes a chunk when it is not blank. */
  function Finish(st: ChunkState, source: string): seq<DocumentChunk>
  {
    if Strip(st.current) != "" then st.chunks + [MakeChunk(source, st.chunkId, st.current)] else st.chunks
  }

  /** What `chunk_text(text, source)` returns. */
  function Chunks(text: string, source: string, chunkSize: int, chunkOverlap: int): seq<DocumentChunk>
  {
    Finish(Fold(Split(text, ParagraphBreak), source, chunkSize, chunkOverlap), source)
  }

  /** The body of the paragraph loop of `chunk_text`. */
  method AddParagraph(chunks0: seq<DocumentChunk>, current0: string, chunkId0: nat, paragraph: string,
                      source: string, chunkSize: int, chunkOverlap: int)
    returns (chunks: seq<DocumentChunk>, current: string, chunkId: nat)
    ensures ChunkState(chunks, current, chunkId)
         == Step(ChunkState(chunks0, current0, chunkId0), paragraph, source, chunkSize, chunkOverlap)
  {
    chunks, current, chunkId := chunks0, current0, chunkId0;
    if |current| + |paragraph| > chunkSize {
      if current != "" {
        chunks := chunks + [MakeChunk(source, chunkId, current)];
        chunkId := chunkId + 1;
        if chunkOverlap > 0 {
          current := Join(OverlapWords(current, chunkOverlap), " ") + " " + paragraph;
        } else {
          current := paragraph;
        }
      } else {
        current := paragraph;
      }
    } else {
      current := current + (if current != "" then ParagraphBreak + paragraph else paragraph);
    }
  }

  /** `chunk_text`, with the processor's `chunk_size` and `chunk_overlap` as
      parameters. */
  method ChunkText(text: string, source: string, chunkSize: int, chunkOverlap: int)
    returns (chunks: seq<DocumentChunk>)
    ensures chunks == Chunks(text, source, chunkSize, chunkOverlap)
  {
    var paragraphs := Split(text, ParagraphBreak);
    chunks := [];
    var current := "";
    var chunkId: nat := 0;
    for i := 0 to |paragraphs|
      invariant ChunkState(chunks, current, chunkId) == Fold(paragraphs[..i], source, chunkSize, chunkOverlap)
    {
      chunks, current, chunkId := AddParagraph(chunks, current, chunkId, paragraphs[i], source, chunkSize, chunkOverlap);
      FoldPrefix(paragraphs, i, source, chunkSize, chunkOverlap);
    }
    assert paragraphs[..|paragraphs|] == paragraphs;
    if Strip(current) != "" {
      chunks := chunks + [MakeChunk(source, chunkId, current)];
    }
  }

  // ---------------------------------------------------------------------
  // Properties of chunk_text

  /** The state after one more paragraph is one more step. */
  lemma FoldPrefix(paragraphs: seq<string>, i: nat, source: string, chunkSize: int, chunkOverlap: int)
    requires i < |paragraphs|
    ensures Fold(paragraphs[..i + 1], source, chunkSize, chunkOverlap)
         == Step(Fold(paragraphs[..i], source, chunkSize, chunkOverlap), paragraphs[i], source, chunkSize, chunkOverlap)
  {
    assert paragraphs[..i + 1][..i] == paragraphs[..i];
  }

  /** Chunk `k` carries the id `source_chunk_k` and the metadata for `k`. */
  ghost predicate Numbered(chunks: seq<DocumentChunk>, source: string)
  {
    forall k :: 0 <= k < |chunks| ==> chunks[k].id == ChunkId(source, k) && chunks[k].metadata == ChunkMetadata(source, k)
  }

  lemma {:induction false} FoldNumbered(paragraphs: seq<string>, source: string, chunkSize: int, chunkOverlap: int)
    ensures var st := Fold(paragraphs, source, chunkSize, chunkOverlap);
      |st.chunks| == st.chunkId && Numbered(st.chunks, source)
    decreases |paragraphs|
  {
    if paragraphs != [] {
      var init := paragraphs[..|paragraphs| - 1];
      FoldNumbered(init, source, chunkSize, chunkOverlap);
      StepNumbered(Fold(init, source, chunkSize, chunkOverlap), paragraphs[|paragraphs| - 1], source, chunkSize, chunkOverlap);
    }
  }

  lemma StepNumbered(st: ChunkState, paragraph: string, source: string, chunkSize: int, chunkOverlap: int)
    requires |st.chunks| == st.chunkId && Numbered(st.chunks, source)
    ensures var next := Step(st, paragraph, source, chunkSize, chunkOverlap);
      |next.chunks| == next.chunkId && Numbered(next.chunks, source)
  {
    var next := Step(st, paragraph, source, chunkSize, chunkOverlap);
    StepEmits(st, paragraph, source, chunkSize, chunkOverlap, next);
    if next.chunks != st.chunks {
      NumberedSnoc(st.chunks, source, st.current);
    }
  }

  /** A step either emits nothing or emits the buffer under the next number. */
  lemma StepEmits(st: ChunkState, paragraph: string, source: string, chunkSize: int, chunkOverlap: int, next: ChunkState)
    requires next == Step(st, paragraph, source, chunkSize, chunkOverlap)
    ensures || (next.chunks == st.chunks && next.chunkId == st.chunkId)
            || (next.chunks == st.chunks + [MakeChunk(source, st.chunkId, st.current)] && next.chunkId == st.chunkId + 1)
  {
  }

  /** Appending the chunk numbered `|chunks|` keeps the numbering. */
  lemma NumberedSnoc(chunks: seq<DocumentChunk>, source: string, buffer: string)
    requires Numbered(chunks, source)
    ensures Numbered(chunks + [MakeChunk(source, |chunks|, buffer)], source)
  {
    var all := chunks + [MakeChunk(source, |chunks|, buffer)];
    forall k | 0 <= k < |all|
      ensures all[k].id == ChunkId(source, k) && all[k].metadata == ChunkMetadata(source, k)
    {
      if k < |chunks| {
        assert all[k] == chunks[k];
      }
    }
  }

  /** Chunks are numbered 0, 1, 2, ... in the order they are emitted, and
      each id and metadata record names its number and source. */
  lemma ChunksNumbered(text: string, source: string, chunkSize: int, chunkOverlap: int)
    ensures Numbered(Chunks(text, source, chunkSize, chunkOverlap), source)
  {
    var paragraphs := Split(text, ParagraphBreak);
    FoldNumbered(paragraphs, source, chunkSize, chunkOverlap);
    var st := Fold(paragraphs, source, chunkSize, chunkOverlap);
    FinishNumbered(st, source, Chunks(text, source, chunkSize, chunkOverlap));
  }

  lemma FinishNumbered(st: ChunkState, source: string, chunks: seq<DocumentChunk>)
    requires |st.chunks| == st.chunkId && Numbered(st.chunks, source)
    requires chunks == Finish(st, source)
    ensures Numbered(chunks, source)
  {
    if chunks != st.chunks {
      NumberedSnoc(st.chunks, source, st.current);
    }
  }

  /** No two chunks of one document share an id. */
  lemma ChunkIdsDistinct(text: string, source: string, chunkSize: int, chunkOverlap: int)
    ensures var chunks := Chunks(text, source, chunkSize, chunkOverlap);
      forall i, j :: 0 <= i < |chunks| && 0 <= j < |chunks| && chunks[i].id == chunks[j].id ==> i == j
  {
    var chunks := Chunks(text, source, chunkSize, chunkOverlap);
    ChunksNumbered(text, source, chunkSize, chunkOverlap);
    forall i, j | 0 <= i < |chunks| && 0 <= j < |chunks| && chunks[i].id == chunks[j].id
      ensures i == j
    {
      var prefix := source + "_chunk_";
      assert NatToString(i) == ChunkId(source, i)[|prefix|..];
      assert NatToString(j) == ChunkId(source, j)[|prefix|..];
      NatToStringInjective(i, j);
    }
  }

  lemma {:induction false} FoldCount(paragraphs: seq<string>, source: string, chunkSize: int, chunkOverlap: int)
    ensures var st := Fold(paragraphs, source, chunkSize, chunkOverlap);
      |st.chunks| + (if st.current != "" then 1 else 0) <= |paragraphs|
    decreases |paragraphs|
  {
    if paragraphs != [] {
      FoldCount(paragraphs[..|paragraphs| - 1], source, chunkSize, chunkOverlap);
    }
  }

  /** There are never more chunks than paragraphs. */
  lemma ChunkCountBound(text: string, source: string, chunkSize: int, chunkOverlap: int)
    ensures |Chunks(text, source, chunkSize, chunkOverlap)| <= |Split(text, ParagraphBreak)|
  {
    FoldCount(Split(text, ParagraphBreak), source, chunkSize, chunkOverlap);
  }

  /** The empty text has no chunks. */
  lemma EmptyTextNoChunks(source: string, chunkSize: int, chunkOverlap: int)
    ensures Chunks("", source, chunkSize, chunkOverlap) == []
  {
    assert Split("", ParagraphBreak) == [""];
    assert [""][..0] == [];
    assert Strip("") == "";
  }

  /** While the paragraphs seen so far fit in one chunk, nothing is emitted
      and the buffer is their join with at most some whitespace missing in
      front. */
  lemma {:induction false} FoldWithinSize(paragraphs: seq<string>, source: string, chunkSize: int, chunkOverlap: int)
    requires |Join(paragraphs, ParagraphBreak)| <= chunkSize
    ensures var st := Fold(paragraphs, source, chunkSize, chunkOverlap);
      && st.chunks == [] && st.chunkId == 0
      && exists pad :: AllSpace(pad) && Join(paragraphs, ParagraphBreak) == pad + st.current
    decreases |paragraphs|
  {
    if paragraphs == [] {
      assert AllSpace("") && "" == "" + "";
    } else {
      var n := |paragraphs|;
      var init, p := paragraphs[..n - 1], paragraphs[n - 1];
      var st0 := Fold(init, source, chunkSize, chunkOverlap);
      assert paragraphs == init + [p];
      if init == [] {
        assert Join(paragraphs, ParagraphBreak) == p;
        StepWithin(st0, p, source, chunkSize, chunkOverlap);
        assert AllSpace("") && p == "" + p;
      } else {
        JoinAppend(init, [p], ParagraphBreak);
        var joined := Join(init, ParagraphBreak);
        assert Join(paragraphs, ParagraphBreak) == joined + ParagraphBreak + p;
        FoldWithinSize(init, source, chunkSize, chunkOverlap);
        var pad :| AllSpace(pad) && joined == pad + st0.current;
        GrowBuffer(joined, pad, st0, p, Fold(paragraphs, source, chunkSize, chunkOverlap), source, chunkSize, chunkOverlap);
      }
    }
  }

  /** The step of `FoldWithinSize` for a paragraph after the first. */
  lemma GrowBuffer(joined: string, pad: string, st0: ChunkState, p: string, st: ChunkState, source: string, chunkSize: int, chunkOverlap: int)
    requires AllSpace(pad) && joined == pad + st0.current
    requires |joined + ParagraphBreak + p| <= chunkSize
    requires st == Step(st0, p, source, chunkSize, chunkOverlap)
    ensures st.chunks == st0.chunks && st.chunkId == st0.chunkId
    ensures exists pad' :: AllSpace(pad') && joined + ParagraphBreak + p == pad' + st.current
  {
    StepWithin(st0, p, source, chunkSize, chunkOverlap);
    if st0.current != "" {
      assert joined + ParagraphBreak + p == pad + st.current;
    } else {
      assert AllSpace(pad + ParagraphBreak);
      assert joined + ParagraphBreak + p == (pad + ParagraphBreak) + st.current;
    }
  }

  /** A paragraph that fits joins the buffer and nothing is emitted; the
      buffer then exceeds `chunkSize` by at most the separator. */
  lemma StepWithin(st: ChunkState, paragraph: string, source: string, chunkSize: int, chunkOverlap: int)
    requires |st.current| + |paragraph| <= chunkSize
    ensures Step(st, paragraph, source, chunkSize, chunkOverlap)
         == ChunkState(st.chunks, if st.current != "" then st.current + ParagraphBreak + paragraph else paragraph, st.chunkId)
    ensures |Step(st, paragraph, source, chunkSize, chunkOverlap).current| <= chunkSize + |ParagraphBreak|
  {
  }

  /** A paragraph that does not fit closes a non-empty buffer, which is
      emitted under the next number, and the new buffer is the overlap words
      of the closed one, a space and the paragraph (only the paragraph when
      there is no overlap); an empty buffer is replaced by the paragraph. */
  lemma StepOverflow(st: ChunkState, paragraph: string, source: string, chunkSize: int, chunkOverlap: int, next: ChunkState)
    requires |st.current| + |paragraph| > chunkSize
    requires next == Step(st, paragraph, source, chunkSize, chunkOverlap)
    ensures st.current != "" ==>
      && next.chunks == st.chunks + [MakeChunk(source, st.chunkId, st.current)]
      && next.chunkId == st.chunkId + 1
      && (chunkOverlap > 0 ==> next.current == Join(OverlapWords(st.current, chunkOverlap), " ") + " " + paragraph)
      && (chunkOverlap <= 0 ==> next.current == paragraph)
    ensures st.current != "" && chunkOverlap > 0 ==>
      Words(next.current) == OverlapWords(st.current, chunkOverlap) + Words(paragraph)
    ensures st.current == "" ==> next == ChunkState(st.chunks, paragraph, st.chunkId)
  {
    if st.current != "" && chunkOverlap > 0 {
      SeedWords(st.current, chunkOverlap, paragraph);
    }
  }

  /** The words of an overlap seed are the kept words and then the
      paragraph's words. */
  lemma SeedWords(buffer: string, overlap: int, paragraph: string)
    requires overlap > 0
    ensures Words(Join(OverlapWords(buffer, overlap), " ") + " " + paragraph)
         == OverlapWords(buffer, overlap) + Words(paragraph)
  {
    var words, kept := Words(buffer), OverlapWords(buffer, overlap);
    WordsHaveNoSpace(buffer);
    forall i | 0 <= i < |kept|
      ensures IsWord(kept[i])
    {
      assert kept[i] == words[|words| - |kept| + i];
    }
    WordsOfJoin(kept, paragraph);
  }

  /** The overflow test looks at the buffer itself, not at its strip, so a
      whitespace-only buffer that overflows is emitted as a chunk with empty
      text. */
  lemma BlankBufferEmitted(st: ChunkState, paragraph: string, source: string, chunkSize: int, chunkOverlap: int)
    requires st.current != "" && AllSpace(st.current)
    requires |st.current| + |paragraph| > chunkSize
    ensures Step(st, paragraph, source, chunkSize, chunkOverlap).chunks
         == st.chunks + [DocumentChunk(ChunkId(source, st.chunkId), "", ChunkMetadata(source, st.chunkId))]
  {
  }

  /** A text no longer than `chunkSize` gives at most one chunk: none when it
      is blank, otherwise chunk 0 holding the stripped text. */
  lemma ShortTextOneChunk(text: string, source: string, chunkSize: int, chunkOverlap: int)
    requires |text| <= chunkSize
    ensures Chunks(text, source, chunkSize, chunkOverlap)
         == if Strip(text) == "" then [] else [DocumentChunk(ChunkId(source, 0), Strip(text), ChunkMetadata(source, 0))]
  {
    var paragraphs := Split(text, ParagraphBreak);
    JoinSplit(text, ParagraphBreak);
    FoldWithinSize(paragraphs, source, chunkSize, chunkOverlap);
    var st := Fold(paragraphs, source, chunkSize, chunkOverlap);
    var pad :| AllSpace(pad) && text == pad + st.current;
    StripAfterSpaces(pad, st.current);
  }

  /** `x` occurs in the text of one of the chunks. */
  ghost predicate InSomeChunk(x: string, chunks: seq<DocumentChunk>)
  {
    exists c :: 0 <= c < |chunks| && IsInfix(x, chunks[c].text)
  }

  /** Every non-blank paragraph seen so far is, stripped, inside an emitted
      chunk, or else whole inside the buffer. */
  ghost predicate Kept(paragraphs: seq<string>, st: ChunkState)
  {
    forall j :: 0 <= j < |paragraphs| && Strip(paragraphs[j]) != "" ==>
      InSomeChunk(Strip(paragraphs[j]), st.chunks) || IsInfix(paragraphs[j], st.current)
  }

  lemma InSomeChunkExtend(x: string, chunks: seq<DocumentChunk>, more: seq<DocumentChunk>)
    requires InSomeChunk(x, chunks)
    ensures InSomeChunk(x, chunks + more)
  {
    var c :| 0 <= c < |chunks| && IsInfix(x, chunks[c].text);
    assert (chunks + more)[c] == chunks[c];
  }

  /** A blank string has no non-blank piece. */
  lemma BlankInfix(x: string, y: string)
    requires IsInfix(x, y) && Strip(y) == ""
    ensures Strip(x) == ""
  {
    var i, j :| 0 <= i <= j <= |y| && y[i..j] == x;
    assert AllSpace(y);
    assert forall k :: 0 <= k < |x| ==> x[k] == y[i + k];
  }

  /** The paragraph just read is always whole at the end of the new buffer. */
  lemma StepKeeps(init: seq<string>, st0: ChunkState, p: string, st: ChunkState, source: string, chunkSize: int, chunkOverlap: int)
    requires Kept(init, st0)
    requires st == Step(st0, p, source, chunkSize, chunkOverlap)
    ensures Kept(init + [p], st)
  {
    var front := st.current[..|st.current| - |p|];
    assert st.current == front + p;
    if |st0.current| + |p| > chunkSize && st0.current != "" {
      KeptAfterEmit(init, st0, p, st, front);
    } else {
      KeptAfterAppend(init, st0, p, st, front);
    }
  }

  /** A step that emits the buffer as a chunk. */
  lemma KeptAfterEmit(init: seq<string>, st0: ChunkState, p: string, st: ChunkState, front: string)
    requires Kept(init, st0)
    requires |st.chunks| == |st0.chunks| + 1 && st.chunks[..|st0.chunks|] == st0.chunks
    requires st.chunks[|st0.chunks|].text == Strip(st0.current)
    requires st.current == front + p
    ensures Kept(init + [p], st)
  {
    var ps := init + [p];
    assert st.chunks == st0.chunks + [st.chunks[|st0.chunks|]];
    forall j | 0 <= j < |ps| && Strip(ps[j]) != ""
      ensures InSomeChunk(Strip(ps[j]), st.chunks) || IsInfix(ps[j], st.current)
    {
      if j == |init| {
        InfixOfSelf(p);
        InfixExtend(p, p, front, "");
        assert front + p + "" == st.current;
      } else {
        assert ps[j] == init[j];
        if InSomeChunk(Strip(ps[j]), st0.chunks) {
          InSomeChunkExtend(Strip(ps[j]), st0.chunks, [st.chunks[|st0.chunks|]]);
        } else {
          StripInfix(ps[j], st0.current);
        }
      }
    }
  }

  lemma AppendKeepsInfix(x: string, y: string, p: string, z: string)
    requires IsInfix(x, y) && z == y + ParagraphBreak + p
    ensures IsInfix(x, z)
  {
    InfixExtend(x, y, "", ParagraphBreak + p);
    assert "" + y + (ParagraphBreak + p) == z;
  }

  /** A step that keeps the chunks and appends to, or replaces an empty, buffer. */
  lemma KeptAfterAppend(init: seq<string>, st0: ChunkState, p: string, st: ChunkState, front: string)
    requires Kept(init, st0)
    requires st.chunks == st0.chunks
    requires st.current == front + p
    requires st0.current == "" || st.current == st0.current + ParagraphBreak + p
    ensures Kept(init + [p], st)
  {
    var ps := init + [p];
    forall j | 0 <= j < |ps| && Strip(ps[j]) != ""
      ensures InSomeChunk(Strip(ps[j]), st.chunks) || IsInfix(ps[j], st.current)
    {
      if j == |init| {
        InfixOfSelf(p);
        InfixExtend(p, p, front, "");
        assert front + p + "" == st.current;
      } else {
        assert ps[j] == init[j];
        if InSomeChunk(Strip(ps[j]), st0.chunks) {
        } else if st0.current != "" {
          AppendKeepsInfix(ps[j], st0.current, p, st.current);
        } else {
          BlankInfix(ps[j], st0.current);
        }
      }
    }
  }

  lemma {:induction false} FoldKeeps(paragraphs: seq<string>, source: string, chunkSize: int, chunkOverlap: int)
    ensures Kept(paragraphs, Fold(paragraphs, source, chunkSize, chunkOverlap))
    decreases |paragraphs|
  {
    if paragraphs != [] {
      var init, p := paragraphs[..|paragraphs| - 1], paragraphs[|paragraphs| - 1];
      assert init + [p] == paragraphs;
      FoldKeeps(init, source, chunkSize, chunkOverlap);
      StepKeeps(init, Fold(init, source, chunkSize, chunkOverlap), p, Fold(paragraphs, source, chunkSize, chunkOverlap), source, chunkSize, chunkOverlap);
    }
  }

  /** No text is lost: every paragraph that is not blank, oversized ones
      included, appears whole (stripped) inside the text of one chunk. */
  lemma ParagraphsKept(text: string, source: string, chunkSize: int, chunkOverlap: int)
    ensures var paragraphs := Split(text, ParagraphBreak);
      forall j :: 0 <= j < |paragraphs| && Strip(paragraphs[j]) != "" ==>
        InSomeChunk(Strip(paragraphs[j]), Chunks(text, source, chunkSize, chunkOverlap))
  {
    var paragraphs := Split(text, ParagraphBreak);
    var st := Fold(paragraphs, source, chunkSize, chunkOverlap);
    var chunks := Chunks(text, source, chunkSize, chunkOverlap);
    FoldKeeps(paragraphs, source, chunkSize, chunkOverlap);
    assert chunks == Finish(st, source);
    forall j | 0 <= j < |paragraphs| && Strip(paragraphs[j]) != ""
      ensures InSomeChunk(Strip(paragraphs[j]), chunks)
    {
      if InSomeChunk(Strip(paragraphs[j]), st.chunks) {
        InSomeChunkExtend(Strip(paragraphs[j]), st.chunks, chunks[|st.chunks|..]);
        assert st.chunks + chunks[|st.chunks|..] == chunks;
      } else if Strip(st.current) != "" {
        StripInfix(paragraphs[j], st.current);
        assert chunks[|st.chunks|].text == Strip(st.current);
      } else {
        BlankInfix(paragraphs[j], st.current);
      }
    }
  }

  /** A text without line breaks is one paragraph, so it gives at most one
      chunk, whatever its length. */
  lemma SingleParagraph(text: string, source: string, chunkSize: int, chunkOverlap: int)
    requires forall k :: 0 <= k < |text| ==> text[k] != '\n'
    ensures Chunks(text, source, chunkSize, chunkOverlap)
         == if Strip(text) == "" then [] else [MakeChunk(source, 0, text)]
  {
    NoInfixWithoutFirstChar(ParagraphBreak, text);
    SplitWithoutSeparator(text, ParagraphBreak);
    assert [text][..0] == [];
    assert Fold([text], source, chunkSize, chunkOverlap)
        == Step(ChunkState([], "", 0), text, source, chunkSize, chunkOverlap)
        == ChunkState([], text, 0);
  }

  // ---------------------------------------------------------------------
  // clean_text

  /** `re.sub(r'\s+', ' ', s)`: every run of whitespace becomes one space.
      The result has ' ' as its only whitespace, never two of them side by
      side, and starts and ends with whitespace exactly when `s` does; every
      other character comes from `s`. */
  function CollapseWhitespace(s: string): (r: string)
    ensures s != "" ==> r != "" && (IsSpace(r[0]) <==> IsSpace(s[0]))
    ensures s != "" ==> (IsSpace(r[|r| - 1]) <==> IsSpace(s[|s| - 1]))
    decreases |s|
  {
    if s == "" then ""
    else if IsSpace(s[0]) then " " + CollapseWhitespace(s[LeadingSpaces(s)..])
    else [s[0]] + CollapseWhitespace(s[1..])
  }

  /** The shape of a collapsed text: ' ' is its only whitespace and no two
      whitespace characters are neighbours. */
  ghost predicate Collapsed(r: string)
  {
    && (forall k :: 0 <= k < |r| ==> (IsSpace(r[k]) ==> r[k] == ' '))
    && (forall k :: 0 <= k < |r| - 1 ==> !(IsSpace(r[k]) && IsSpace(r[k + 1])))
  }

  lemma {:induction false} CollapsedShape(s: string)
    ensures Collapsed(CollapseWhitespace(s))
    decreases |s|
  {
    if s != "" {
      var r := CollapseWhitespace(s);
      var rest := if IsSpace(s[0]) then s[LeadingSpaces(s)..] else s[1..];
      var head := if IsSpace(s[0]) then ' ' else s[0];
      CollapsedShape(rest);
      var c := CollapseWhitespace(rest);
      assert r == [head] + c;
      assert r[0] == head;
      assert IsSpace(head) ==> head == ' ';
      assert IsSpace(head) ==> c == "" || !IsSpace(c[0]);
      forall k | 0 <= k < |r|
        ensures IsSpace(r[k]) ==> r[k] == ' '
      {
        if k > 0 {
          assert r[k] == c[k - 1];
        }
      }
      forall k | 0 <= k < |r| - 1
        ensures !(IsSpace(r[k]) && IsSpace(r[k + 1]))
      {
        assert r[k + 1] == c[k];
        if k > 0 {
          assert r[k] == c[k - 1];
        }
      }
    }
  }

  /** Collapsing adds no character other than ' '. */
  lemma {:induction false} CollapseAddsNoChar(s: string, x: char)
    requires !IsSpace(x) && x !in s
    ensures x !in CollapseWhitespace(s)
    decreases |s|
  {
    if s != "" {
      var rest := if IsSpace(s[0]) then s[LeadingSpaces(s)..] else s[1..];
      assert x !in rest by {
        assert forall j :: 0 <= j < |rest| ==> rest[j] == s[|s| - |rest| + j];
      }
      CollapseAddsNoChar(rest, x);
    }
  }

  /** A word in front is kept as it is. */
  lemma {:induction false} CollapseWord(w: string, rest: string)
    requires forall k :: 0 <= k < |w| ==> !IsSpace(w[k])
    ensures CollapseWhitespace(w + rest) == w + CollapseWhitespace(rest)
    decreases |w|
  {
    if w == "" {
      assert w + rest == rest;
    } else {
      var tail, c := w[1..], CollapseWhitespace(rest);
      ConsAppend(w, rest);
      ConsAppend(w, c);
      CollapseWord(tail, rest);
      CollapseWordStep(w + rest, tail + rest);
    }
  }

  lemma CollapseWordStep(s: string, tail: string)
    requires s != "" && !IsSpace(s[0]) && s[1..] == tail
    ensures CollapseWhitespace(s) == [s[0]] + CollapseWhitespace(tail)
  {
  }

  /** Collapsing whitespace keeps the words, in order: those are exactly the
      non-whitespace characters and where the runs between them fall. */
  lemma {:induction false} CollapseKeepsWords(s: string)
    ensures Words(CollapseWhitespace(s)) == Words(s)
    decreases |s|
  {
    if s == "" {
    } else if IsSpace(s[0]) {
      var l := LeadingSpaces(s);
      var pad, rest := s[..l], s[l..];
      assert s == pad + rest;
      assert AllSpace(pad) by {
        forall k | 0 <= k < l
          ensures IsSpace(pad[k])
        {
          assert pad[k] == s[k];
        }
      }
      CollapseKeepsWords(rest);
      assert AllSpace(" ");
      WordsAfterSpaces(" ", CollapseWhitespace(rest));
      WordsAfterSpaces(pad, rest);
    } else {
      var n := WordLength(s);
      var w, rest := s[..n], s[n..];
      assert s == w + rest;
      CollapseWord(w, rest);
      CollapseKeepsWords(rest);
      WordsCons(w, rest);
      WordsCons(w, CollapseWhitespace(rest));
    }
  }

  /** Length of the run of line feeds at the start of `s`. */
  function NewlineRun(s: string): (n: nat)
    ensures n <= |s|
    ensures s != "" && s[0] == '\n' ==> n >= 1
    ensures forall k :: 0 <= k < n ==> s[k] == '\n'
    ensures n < |s| ==> s[n] != '\n'
  {
    if s == "" || s[0] != '\n' then 0 else 1 + NewlineRun(s[1..])
  }

  /** `re.sub(r'\n+', '\n', s)`: never two line feeds side by side, a line
      feed first exactly when `s` starts with one, and text without line
      feeds unchanged. */
  function CollapseNewlines(s: string): (r: string)
    ensures (forall k :: 0 <= k < |s| ==> s[k] != '\n') ==> r == s
    ensures forall k :: 0 <= k < |r| - 1 ==> !(r[k] == '\n' && r[k + 1] == '\n')
    ensures s != "" ==> r != "" && (r[0] == '\n' <==> s[0] == '\n')
    decreases |s|
  {
    if s == "" then ""
    else if s[0] == '\n' then "\n" + CollapseNewlines(s[NewlineRun(s)..])
    else [s[0]] + CollapseNewlines(s[1..])
  }

  /** Collapsing line feeds keeps every other character, in order. */
  lemma {:induction false} CollapseNewlinesKeepsOthers(s: string)
    ensures RemoveChar(CollapseNewlines(s), '\n') == RemoveChar(s, '\n')
    decreases |s|
  {
    if s == "" {
    } else if s[0] == '\n' {
      var n := NewlineRun(s);
      CollapseNewlinesKeepsOthers(s[n..]);
      var c := CollapseNewlines(s[n..]);
      assert ("\n" + c)[0] == '\n' && ("\n" + c)[1..] == c;
      RemoveRun(s, n, '\n');
    } else {
      CollapseNewlinesKeepsOthers(s[1..]);
      var c := CollapseNewlines(s[1..]);
      assert ([s[0]] + c)[0] == s[0] && ([s[0]] + c)[1..] == c;
    }
  }

  /** A leading run of `c` is dropped entirely. */
  lemma {:induction false} RemoveRun(s: string, n: nat, c: char)
    requires n <= |s| && forall k :: 0 <= k < n ==> s[k] == c
    ensures RemoveChar(s, c) == RemoveChar(s[n..], c)
    decreases n
  {
    if n > 0 {
      RemoveRun(s[1..], n - 1, c);
      assert s[1..][n - 1..] == s[n..];
    }
  }

  /** `s.replace(c, '')`: no `c` is left, nothing else is added, and text
      without `c` is unchanged. */
  function RemoveChar(s: string, c: char): (r: string)
    ensures |r| <= |s|
    ensures forall k :: 0 <= k < |r| ==> r[k] != c && r[k] in s
    ensures c !in s ==> r == s
  {
    if s == "" then ""
    else if s[0] == c then RemoveChar(s[1..], c)
    else [s[0]] + RemoveChar(s[1..], c)
  }

  /** Removing a character works piece by piece, so every other character
      keeps its place in order. */
  lemma {:induction false} RemoveCharAppend(a: string, b: string, c: char)
    ensures RemoveChar(a + b, c) == RemoveChar(a, c) + RemoveChar(b, c)
    decreases |a|
  {
    if a == "" {
      assert a + b == b;
    } else {
      assert (a + b)[0] == a[0] && (a + b)[1..] == a[1..] + b;
      RemoveCharAppend(a[1..], b, c);
    }
  }

  /** The comprehension's part for one line: its strip, when that is
      longer than 10 characters. */
  function KeepLine(line: string): seq<string>
  {
    var stripped := Strip(line);
    if |stripped| > 10 then [stripped] else []
  }

  /** `[line.strip() for line in lines if len(line.strip()) > 10]`. */
  function KeepLongLines(lines: seq<string>): (kept: seq<string>)
    ensures |kept| <= |lines|
  {
    if lines == [] then [] else KeepLine(lines[0]) + KeepLongLines(lines[1..])
  }

  /** The filter works line by line: the kept lines of a concatenation are
      those of its parts, in order. */
  lemma {:induction false} KeepLongLinesAppend(a: seq<string>, b: seq<string>)
    ensures KeepLongLines(a + b) == KeepLongLines(a) + KeepLongLines(b)
    decreases |a|
  {
    if a == [] {
      assert a + b == b;
    } else {
      KeepLongLinesCons(a, b);
      KeepLongLinesAppend(a[1..], b);
      var front, x, y := KeepLine(a[0]), KeepLongLines(a[1..]), KeepLongLines(b);
      assert front + (x + y) == (front + x) + y;
    }
  }

  lemma KeepLongLinesCons(a: seq<string>, b: seq<string>)
    requires a != []
    ensures KeepLongLines(a + b) == KeepLine(a[0]) + KeepLongLines(a[1..] + b)
  {
    assert (a + b)[0] == a[0] && (a + b)[1..] == a[1..] + b;
  }

  /** Every kept line is longer than 10 characters. */
  lemma {:induction false} KeptLinesLong(lines: seq<string>)
    ensures forall line :: line in KeepLongLines(lines) ==> |line| > 10
    decreases |lines|
  {
    if lines != [] {
      KeptLinesLong(lines[1..]);
      var front, kept := KeepLine(lines[0]), KeepLongLines(lines[1..]);
      assert forall line :: line in front ==> |line| > 10;
      assert KeepLongLines(lines) == front + kept;
    }
  }

  /** A single line is kept, stripped, exactly when its strip is longer than
      10 characters. */
  lemma KeepOneLine(line: string)
    ensures KeepLongLines([line]) == if |Strip(line)| > 10 then [Strip(line)] else []
  {
    assert [line][1..] == [];
  }

  /** `clean_text`: whitespace runs become one space, line-feed runs one line
      feed, NULs are deleted, and only the stripped lines longer than 10
      characters are kept, joined by line feeds. */
  function CleanText(text: string): string
  {
    var noNulls := RemoveChar(CollapseNewlines(CollapseWhitespace(text)), '\0');
    Join(KeepLongLines(Split(noNulls, "\n")), "\n")
  }

  /** Since the first substitution already turns every line break into a
      space, cleaning yields a single line: the stripped, NUL-free collapsed
      text when that is longer than 10 characters and nothing otherwise. So
      the result holds no line feed and no NUL and has no whitespace at its
      ends. */
  lemma CleanTextSingleLine(text: string)
    ensures var line := Strip(RemoveChar(CollapseWhitespace(text), '\0'));
      CleanText(text) == if |line| > 10 then line else ""
    ensures var r := CleanText(text);
      && (forall k :: 0 <= k < |r| ==> r[k] != '\n' && r[k] != '\0')
      && (r == "" || (|r| > 10 && !IsSpace(r[0]) && !IsSpace(r[|r| - 1])))
  {
    var collapsed := CollapseWhitespace(text);
    CollapsedShape(text);
    CollapsedHasNoNewline(collapsed);
    var noNulls := RemoveChar(collapsed, '\0');
    assert CleanText(text) == Join(KeepLongLines(Split(noNulls, "\n")), "\n");
    NoNullsSingleLine(collapsed, noNulls);
    var line := Strip(noNulls);
    StripKeepsSingleLine(noNulls, line);
    assert CleanText(text) == Join(KeepLongLines([noNulls]), "\n");
  }

  /** Cleaning a text without NULs keeps its words, in order, whenever it
      keeps anything. */
  lemma CleanTextKeepsWords(text: string)
    requires '\0' !in text
    ensures CleanText(text) != "" ==> Words(CleanText(text)) == Words(text)
  {
    var collapsed := CollapseWhitespace(text);
    CleanTextSingleLine(text);
    CollapseAddsNoChar(text, '\0');
    assert RemoveChar(collapsed, '\0') == collapsed;
    WordsOfStrip(collapsed);
    CollapseKeepsWords(text);
  }

  lemma CollapsedHasNoNewline(collapsed: string)
    requires Collapsed(collapsed)
    ensures forall k :: 0 <= k < |collapsed| ==> collapsed[k] != '\n'
    ensures CollapseNewlines(collapsed) == collapsed
  {
    assert IsSpace('\n');
  }

  lemma NoNullsSingleLine(collapsed: string, noNulls: string)
    requires forall k :: 0 <= k < |collapsed| ==> collapsed[k] != '\n'
    requires noNulls == RemoveChar(collapsed, '\0')
    ensures forall k :: 0 <= k < |noNulls| ==> noNulls[k] != '\n' && noNulls[k] != '\0'
    ensures Split(noNulls, "\n") == [noNulls]
  {
    assert forall k :: 0 <= k < |noNulls| ==> noNulls[k] != '\n' && noNulls[k] != '\0';
    NoInfixWithoutFirstChar("\n", noNulls);
    SplitWithoutSeparator(noNulls, "\n");
  }

  lemma StripKeepsSingleLine(s: string, line: string)
    requires forall k :: 0 <= k < |s| ==> s[k] != '\n' && s[k] != '\0'
    requires line == Strip(s)
    ensures forall k :: 0 <= k < |line| ==> line[k] != '\n' && line[k] != '\0'
    ensures KeepLongLines([s]) == if |line| > 10 then [line] else []
  {
    var lead := LeadingSpaces(s);
    assert forall k :: 0 <= k < |line| ==> line[k] == s[lead + k];
    assert [s][1..] == [];
  }

  /** Chunking cleaned text gives at most one chunk: exactly chunk 0 holding
      the whole cleaned text when it is not empty. */
  lemma CleanedTextOneChunk(raw: string, source: string, chunkSize: int, chunkOverlap: int)
    ensures var cleaned := CleanText(raw);
      Chunks(cleaned, source, chunkSize, chunkOverlap)
        == if cleaned == "" then [] else [DocumentChunk(ChunkId(source, 0), cleaned, ChunkMetadata(source, 0))]
  {
    var cleaned := CleanText(raw);
    CleanTextSingleLine(raw);
    SingleParagraph(cleaned, source, chunkSize, chunkOverlap);
    StripUnpadded(cleaned);
  }

  /** The clean-then-chunk step of `process_pdf_file` for the extracted text
      `rawText` of the file named `sourceName`; no text gives no chunks. */
  method ProcessPdfText(rawText: string, sourceName: string) returns (chunks: seq<DocumentChunk>)
    ensures rawText == "" ==> chunks == []
    ensures rawText != "" ==> chunks == Chunks(CleanText(rawText), sourceName, RagConfig.ChunkSize, RagConfig.ChunkOverlap)
    ensures |chunks| <= 1
    ensures |chunks| == 1 <==> CleanText(rawText) != ""
    ensures |chunks| == 1 ==> chunks[0] == DocumentChunk(ChunkId(sourceName, 0), CleanText(rawText), ChunkMetadata(sourceName, 0))
  {
    if rawText == "" {
      return [];
    }
    var cleaned := CleanText(rawText);
    chunks := ChunkText(cleaned, sourceName, RagConfig.ChunkSize, RagConfig.ChunkOverlap);
    CleanedTextOneChunk(rawText, sourceName, RagConfig.ChunkSize, RagConfig.ChunkOverlap);
  }
}
