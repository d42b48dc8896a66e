/** The record handling of `PineconeClient`: building vectors from documents,
    writing them in batches of 100, and turning the matches of a similarity
    query into retrieved documents. The embedding model and the index are
    abstract: an embedder maps a text to a vector or fails, and an index
    query maps a vector and a `top_k` to the backend's matches or fails. */
module Pinecone {
  import opened Common
  import opened Strings
  import RagConfig

  /** An input record of `upsert_documents`. */
  datatype Document = Document(id: string, text: string, metadata: Metadata)

  /** A record sent to the index. */
  datatype Vector = Vector(id: string, values: seq<real>, metadata: Metadata)

  /** One entry of the `matches` of a query answer, in the backend's order. */
  datatype Match = Match(id: string, score: real, metadata: Metadata)

  /** A document returned by `search_similar_documents`. */
  datatype RetrievedDocument = RetrievedDocument(id: string, text: string, score: real, metadata: Metadata)

  /** `generate_embedding`; `None` stands for the exception it re-raises. */
  type Embedder = string -> Option<seq<real>>

  /** `index.query(vector=..., top_k=...)`; `None` stands for an exception. */
  type IndexQuery = (seq<real>, int) -> Option<seq<Match>>

  /** The largest batch handed to one `index.upsert` call. */
  const BatchSize: nat := 100

  // ---------------------------------------------------------------------
  // upsert_documents: building the vectors

  /** `{'text': doc['text'], **doc.get('metadata', {})}`: the document's own
      keys win, including a `'text'` key of its own. */
  function VectorMetadata(doc: Document): (m: Metadata)
    ensures m.Keys == doc.metadata.Keys + {"text"}
    ensures forall k :: k in doc.metadata ==> m[k] == doc.metadata[k]
    ensures "text" !in doc.metadata ==> m["text"] == Str(doc.text)
  {
    map["text" := Str(doc.text)] + doc.metadata
  }

  /** The vectors built for the documents, in order, or `None` when an
      embedding fails. */
  function EmbedAll(embed: Embedder, documents: seq<Document>): Option<seq<Vector>>
    decreases |documents|
  {
    if documents == [] then Some([])
    else
      var last := documents[|documents| - 1];
      var built := EmbedAll(embed, documents[..|documents| - 1]);
      var embedding := embed(last.text);
      if built.Some? && embedding.Some?
      then Some(built.value + [Vector(last.id, embedding.value, VectorMetadata(last))])
      else None
  }

  /** Building fails exactly when some document's embedding fails; otherwise
      there is exactly one vector per document, in document order, carrying
      the document's id, its embedding and the merged metadata. */
  lemma EmbedAllOnePerDocument(embed: Embedder, documents: seq<Document>)
    ensures EmbedAll(embed, documents).Some? <==> forall i :: 0 <= i < |documents| ==> embed(documents[i].text).Some?
    ensures EmbedAll(embed, documents).Some? ==>
      var vectors := EmbedAll(embed, documents).value;
      && |vectors| == |documents|
      && forall i :: 0 <= i < |documents| ==>
           vectors[i] == Vector(documents[i].id, embed(documents[i].text).value, VectorMetadata(documents[i]))
  {
    EmbedAllSucceeds(embed, documents);
    if EmbedAll(embed, documents).Some? {
      forall i | 0 <= i < |documents|
        ensures EmbedAll(embed, documents).value[i]
             == Vector(documents[i].id, embed(documents[i].text).value, VectorMetadata(documents[i]))
      {
        EmbedAllAt(embed, documents, i);
      }
    }
  }

  lemma {:induction false} EmbedAllSucceeds(embed: Embedder, documents: seq<Document>)
    ensures EmbedAll(embed, documents).Some? <==> forall i :: 0 <= i < |documents| ==> embed(documents[i].text).Some?
    ensures EmbedAll(embed, documents).Some? ==> |EmbedAll(embed, documents).value| == |documents|
    decreases |documents|
  {
    if documents != [] {
      var init := documents[..|documents| - 1];
      EmbedAllSucceeds(embed, init);
      assert forall i :: 0 <= i < |init| ==> init[i] == documents[i];
    }
  }

  lemma {:induction false} EmbedAllAt(embed: Embedder, documents: seq<Document>, i: nat)
    requires i < |documents| && EmbedAll(embed, documents).Some?
    ensures i < |EmbedAll(embed, documents).value| && embed(documents[i].text).Some?
    ensures EmbedAll(embed, documents).value[i]
         == Vector(documents[i].id, embed(documents[i].text).value, VectorMetadata(documents[i]))
    decreases |documents|
  {
    var init := documents[..|documents| - 1];
    EmbedAllSucceeds(embed, init);
    if i < |init| {
      EmbedAllAt(embed, init, i);
      assert init[i] == documents[i];
    }
  }

  /** The first loop of `upsert_documents`. */
  method BuildVectors(embed: Embedder, documents: seq<Document>) returns (vectors: Option<seq<Vector>>)
    ensures vectors == EmbedAll(embed, documents)
  {
    var built: seq<Vector> := [];
    for i := 0 to |documents|
      invariant EmbedAll(embed, documents[..i]) == Some(built)
    {
      assert documents[..i + 1][..i] == documents[..i];
      var doc := documents[i];
      var embedding := embed(doc.text);
      if embedding.None? {
        EmbedAllOnePerDocument(embed, documents);
        return None;
      }
      built := built + [Vector(doc.id, embedding.value, VectorMetadata(doc))];
    }
    assert documents[..|documents|] == documents;
    return Some(built);
  }

  // ---------------------------------------------------------------------
  // upsert_documents: batching

  /** The slices `vectors[i:i + 100]` for `i` in `range(0, len(vectors), 100)`. */
  function Batches(vectors: seq<Vector>): seq<seq<Vector>>
    decreases |vectors|
  {
    if vectors == [] then []
    else if |vectors| <= BatchSize then [vectors]
    else [vectors[..BatchSize]] + Batches(vectors[BatchSize..])
  }

  /** `sum(batches, [])`. */
  function Concat(batches: seq<seq<Vector>>): seq<Vector>
    decreases |batches|
  {
    if batches == [] then [] else batches[0] + Concat(batches[1..])
  }

  /** Batch `k` is the slice that starts at `100 * k` and holds the next 100
      vectors, or the rest when fewer remain; there are ceil(n / 100) of them. */
  lemma {:induction false} BatchSlices(vectors: seq<Vector>)
    ensures |Batches(vectors)| == (|vectors| + BatchSize - 1) / BatchSize
    ensures forall k :: 0 <= k < |Batches(vectors)| ==>
      BatchSize * k < |vectors| && Batches(vectors)[k] == vectors[BatchSize * k..Min(BatchSize * k + BatchSize, |vectors|)]
    decreases |vectors|
  {
    if |vectors| > BatchSize {
      var n, rest := |vectors|, vectors[BatchSize..];
      BatchSlices(rest);
      var batches, more := Batches(vectors), Batches(rest);
      assert batches == [vectors[..BatchSize]] + more;
      assert (n - 1) / BatchSize == (n - BatchSize - 1) / BatchSize + 1;
      forall k | 0 <= k < |batches|
        ensures BatchSize * k < n && batches[k] == vectors[BatchSize * k..Min(BatchSize * k + BatchSize, n)]
      {
        if k > 0 {
          var a := BatchSize * (k - 1);
          var b := Min(a + BatchSize, |rest|);
          assert a < |rest| && more[k - 1] == rest[a..b];
          assert BatchSize * k == BatchSize + a && Min(BatchSize * k + BatchSize, n) == BatchSize + b;
          assert batches[k] == more[k - 1];
          ShiftSlice(vectors, BatchSize, a, b);
        }
      }
    }
  }

  /** A slice of a suffix is a slice of the whole list, shifted. */
  lemma ShiftSlice(vectors: seq<Vector>, p: nat, a: nat, b: nat)
    requires p <= |vectors| && a <= b <= |vectors| - p
    ensures vectors[p..][a..b] == vectors[p + a..p + b]
  {
    forall k | 0 <= k < b - a
      ensures vectors[p..][a..b][k] == vectors[p + a..p + b][k]
    {
    }
  }

  /** Every batch is non-empty and holds at most 100 vectors, and every batch
      but the last holds exactly 100. */
  lemma BatchSizes(vectors: seq<Vector>)
    ensures forall k :: 0 <= k < |Batches(vectors)| ==> 0 < |Batches(vectors)[k]| <= BatchSize
    ensures forall k :: 0 <= k < |Batches(vectors)| - 1 ==> |Batches(vectors)[k]| == BatchSize
  {
    BatchSlices(vectors);
  }

  /** The first `c` batches together are the first `100 * c` vectors. */
  lemma {:induction false} ConcatBatchesPrefix(vectors: seq<Vector>, c: nat)
    requires c <= |Batches(vectors)|
    ensures Concat(Batches(vectors)[..c]) == vectors[..Min(BatchSize * c, |vectors|)]
    decreases |vectors|
  {
    var batches := Batches(vectors);
    if c == 0 {
      assert batches[..0] == [];
    } else if |vectors| <= BatchSize {
      assert batches[..c] == [vectors];
      assert Concat([vectors]) == vectors + Concat([]);
    } else {
      var rest := vectors[BatchSize..];
      ConcatBatchesPrefix(rest, c - 1);
      assert batches[..c] == [vectors[..BatchSize]] + Batches(rest)[..c - 1];
      assert Concat(batches[..c]) == vectors[..BatchSize] + Concat(Batches(rest)[..c - 1]);
      assert vectors[..BatchSize] + rest[..Min(BatchSize * (c - 1), |rest|)] == vectors[..Min(BatchSize * c, |vectors|)];
    }
  }

  /** The batches together are exactly the vector list. */
  lemma BatchesConcat(vectors: seq<Vector>)
    ensures Concat(Batches(vectors)) == vectors
  {
    BatchSlices(vectors);
    ConcatBatchesPrefix(vectors, |Batches(vectors)|);
    assert Batches(vectors)[..|Batches(vectors)|] == Batches(vectors);
  }

  /** 250 vectors go out as batches of 100, 100 and 50. */
  lemma BatchesOf250(vectors: seq<Vector>)
    requires |vectors| == 250
    ensures |Batches(vectors)| == 3
    ensures |Batches(vectors)[0]| == 100 && |Batches(vectors)[1]| == 100 && |Batches(vectors)[2]| == 50
  {
    BatchSlices(vectors);
  }

  /** The batches one `upsert_documents` call writes: none when building the
      vectors failed, the batches before the failing `upsert` call when call
      number `failAt` raises, and all of them otherwise. */
  function Sent(vectors: Option<seq<Vector>>, failAt: Option<nat>): seq<seq<Vector>>
  {
    match vectors
    case None => []
    case Some(vs) =>
      var batches := Batches(vs);
      if failAt.Some? && failAt.value < |batches| then batches[..failAt.value] else batches
  }

  /** What reaches the index is always a prefix of the vector list: all of
      it after a success, and the first `100 * c` vectors when upsert call
      number `c` raises; nothing written before a failure is taken back. */
  lemma SentIsPrefix(vectors: seq<Vector>, failAt: Option<nat>)
    ensures failAt.None? || failAt.value >= |Batches(vectors)| ==> Concat(Sent(Some(vectors), failAt)) == vectors
    ensures failAt.Some? && failAt.value < |Batches(vectors)| ==>
      BatchSize * failAt.value < |vectors| && Concat(Sent(Some(vectors), failAt)) == vectors[..BatchSize * failAt.value]
  {
    BatchesConcat(vectors);
    if failAt.Some? && failAt.value < |Batches(vectors)| {
      BatchSlices(vectors);
      ConcatBatchesPrefix(vectors, failAt.value);
    }
  }

  /** One round of the batching loop: when the batches from position `i` on
      are the batches from number `call` on, batch `call` is the slice of at
      most 100 starting at `i`, and the rest starts after that slice. */
  lemma BatchStep(vectors: seq<Vector>, batches: seq<seq<Vector>>, i: nat, call: nat)
    requires batches == Batches(vectors) && i < |vectors| && call <= |batches|
    requires Batches(vectors[i..]) == batches[call..]
    ensures call < |batches| && batches[call] == vectors[i..Min(i + BatchSize, |vectors|)]
    ensures Batches(vectors[Min(i + BatchSize, |vectors|)..]) == batches[call + 1..]
    ensures batches[..call + 1] == batches[..call] + [batches[call]]
  {
    var j := Min(i + BatchSize, |vectors|);
    BatchesFrom(vectors, i);
    var tail := batches[call..];
    assert tail == [vectors[i..j]] + Batches(vectors[j..]);
    assert batches[call] == tail[0];
    assert batches[call + 1..] == tail[1..];
    assert batches[..call + 1] == batches[..call] + [batches[call]];
  }

  /** The batches of the vectors from position `i` on: the slice of at most
      100 starting at `i`, then the batches of what follows it. */
  lemma BatchesFrom(vectors: seq<Vector>, i: nat)
    requires i < |vectors|
    ensures Batches(vectors[i..]) == [vectors[i..Min(i + BatchSize, |vectors|)]] + Batches(vectors[Min(i + BatchSize, |vectors|)..])
  {
    var rest := vectors[i..];
    if |rest| > BatchSize {
      assert rest[..BatchSize] == vectors[i..i + BatchSize];
      assert rest[BatchSize..] == vectors[i + BatchSize..];
    } else {
      assert vectors[i..Min(i + BatchSize, |vectors|)] == rest;
      assert vectors[|vectors|..] == [];
    }
  }

  // ---------------------------------------------------------------------
  // search_similar_documents

  /** `top_k or rag_config.top_k_results`: `None` and 0 are falsy. */
  function ResolveTopK(topK: Option<int>): (k: int)
    ensures k != 0
    ensures topK.Some? && topK.value != 0 ==> k == topK.value
    ensures topK.None? || topK.value == 0 ==> k == RagConfig.TopKResults
  {
    if topK.Some? && topK.value != 0 then topK.value else RagConfig.TopKResults
  }

  /** The matches whose score reaches the similarity threshold, in order. */
  function Passing(matches: seq<Match>): seq<Match>
    decreases |matches|
  {
    if matches == [] then []
    else
      var last := matches[|matches| - 1];
      Passing(matches[..|matches| - 1]) + (if last.score >= RagConfig.SimilarityThreshold then [last] else [])
  }

  /** A match is kept exactly when its score is at least the threshold. */
  lemma {:induction false} PassingMembers(matches: seq<Match>)
    ensures forall m :: m in Passing(matches) <==> m in matches && m.score >= RagConfig.SimilarityThreshold
    ensures |Passing(matches)| <= |matches|
    decreases |matches|
  {
    if matches != [] {
      var init := matches[..|matches| - 1];
      PassingMembers(init);
      assert matches == init + [matches[|matches| - 1]];
    }
  }

  /** Filtering works piece by piece, so the backend's order is kept. */
  lemma {:induction false} PassingAppend(a: seq<Match>, b: seq<Match>)
    ensures Passing(a + b) == Passing(a) + Passing(b)
    decreases |b|
  {
    if b == [] {
      assert a + b == a;
    } else {
      var init := b[..|b| - 1];
      PassingAppend(a, init);
      assert (a + b)[..|a + b| - 1] == a + init;
    }
  }

  /** `match['metadata']['text']` can be read as a text. */
  predicate HasText(m: Match)
  {
    "text" in m.metadata && m.metadata["text"].Str?
  }

  /** `{k: v for k, v in metadata.items() if k != 'text'}`. */
  function WithoutText(metadata: Metadata): (r: Metadata)
    ensures r.Keys == metadata.Keys - {"text"}
    ensures forall k :: k in r ==> r[k] == metadata[k]
  {
    map k | k in metadata && k != "text" :: metadata[k]
  }

  function ToRetrieved(m: Match): RetrievedDocument
    requires HasText(m)
  {
    RetrievedDocument(m.id, m.metadata["text"].s, m.score, WithoutText(m.metadata))
  }

  /** The formatting loop: the passing matches turned into documents, or
      `None` when a passing match has no text (the `KeyError`). */
  function Formatted(matches: seq<Match>): Option<seq<RetrievedDocument>>
    decreases |matches|
  {
    if matches == [] then Some([])
    else
      var last := matches[|matches| - 1];
      var done := Formatted(matches[..|matches| - 1]);
      if done.None? then None
      else if last.score < RagConfig.SimilarityThreshold then done
      else if HasText(last) then Some(done.value + [ToRetrieved(last)])
      else None
  }

  /** Formatting fails exactly when a passing match has no text; otherwise
      it yields one document per passing match, in the backend's order, with
      the match's id and score, the text from the metadata and the metadata
      without `'text'`. */
  lemma {:induction false} FormattedIsPassing(matches: seq<Match>)
    ensures Formatted(matches).Some? <==>
      forall i :: 0 <= i < |matches| && matches[i].score >= RagConfig.SimilarityThreshold ==> HasText(matches[i])
    ensures Formatted(matches).Some? ==>
      var documents, passing := Formatted(matches).value, Passing(matches);
      && |documents| == |passing|
      && forall i :: 0 <= i < |passing| ==> HasText(passing[i]) && documents[i] == ToRetrieved(passing[i])
    decreases |matches|
  {
    if matches != [] {
      var init := matches[..|matches| - 1];
      FormattedIsPassing(init);
      assert forall i :: 0 <= i < |init| ==> init[i] == matches[i];
    }
  }

  /** What `search_similar_documents(query, top_k)` returns: the formatted
      passing matches, or `[]` when embedding, querying or formatting raised. */
  function SearchResult(embed: Embedder, indexQuery: IndexQuery, query: string, topK: Option<int>): seq<RetrievedDocument>
  {
    match embed(query)
    case None => []
    case Some(vector) =>
      match indexQuery(vector, ResolveTopK(topK))
      case None => []
      case Some(matches) =>
        match Formatted(matches)
        case None => []
        case Some(documents) => documents
    }

  /** Every search result comes from a passing match: its score reaches the
      threshold and its metadata has no `'text'` key. */
  lemma SearchResultRelevant(embed: Embedder, indexQuery: IndexQuery, query: string, topK: Option<int>)
    ensures forall d :: d in SearchResult(embed, indexQuery, query, topK) ==>
      d.score >= RagConfig.SimilarityThreshold && "text" !in d.metadata
  {
    var v := embed(query);
    if v.Some? && indexQuery(v.value, ResolveTopK(topK)).Some? {
      var matches := indexQuery(v.value, ResolveTopK(topK)).value;
      FormattedIsPassing(matches);
      PassingMembers(matches);
      if Formatted(matches).Some? {
        var documents, passing := Formatted(matches).value, Passing(matches);
        forall d | d in documents
          ensures d.score >= RagConfig.SimilarityThreshold && "text" !in d.metadata
        {
          var i :| 0 <= i < |documents| && documents[i] == d;
          assert passing[i] in passing;
        }
      }
    }
  }

  /** The index is asked for `top_k or 5` matches; with an answer whose
      passing matches all have a text, the result is exactly those matches
      as documents, in the backend's order. */
  lemma SearchResultMatches(embed: Embedder, indexQuery: IndexQuery, query: string, topK: Option<int>, matches: seq<Match>)
    requires embed(query).Some? && indexQuery(embed(query).value, ResolveTopK(topK)) == Some(matches)
    requires forall i :: 0 <= i < |matches| && matches[i].score >= RagConfig.SimilarityThreshold ==> HasText(matches[i])
    ensures var result, passing := SearchResult(embed, indexQuery, query, topK), Passing(matches);
      && |result| == |passing|
      && forall i :: 0 <= i < |passing| ==> HasText(passing[i]) && result[i] == ToRetrieved(passing[i])
  {
    FormattedIsPassing(matches);
  }

  // ---------------------------------------------------------------------
  // get_index_stats

  function StatOrZero(stats: Metadata, key: string): Value
  {
    if key in stats then stats[key] else Int(0)
  }

  /** `get_index_stats` on the answer of `describe_index_stats`, `None`
      standing for an exception: the three statistics under their new names,
      each 0 when missing, or `{}`. */
  function IndexStats(stats: Option<Metadata>): (r: Metadata)
    ensures stats.None? ==> r == map[]
    ensures stats.Some? ==> r.Keys == {"total_vectors", "dimension", "index_fullness"}
    ensures stats.Some? ==>
      && r["total_vectors"] == StatOrZero(stats.value, "total_vector_count")
      && r["dimension"] == StatOrZero(stats.value, "dimension")
      && r["index_fullness"] == StatOrZero(stats.value, "index_fullness")
  {
    match stats
    case None => map[]
    case Some(s) =>
      map["total_vectors" := StatOrZero(s, "total_vector_count"),
          "dimension" := StatOrZero(s, "dimension"),
          "index_fullness" := StatOrZero(s, "index_fullness")]
  }

  /** An empty answer means the statistics could not be read. */
  lemma IndexStatsEmptyIffFailed(stats: Option<Metadata>)
    ensures IndexStats(stats) == map[] <==> stats.None?
  {
    if stats.Some? {
      assert "dimension" in IndexStats(stats);
    }
  }

  // ---------------------------------------------------------------------
  // The client

  /** A `PineconeClient` after its index connection has been made. */
  class PineconeClient {
    /** The embedding model. */
    const embed: Embedder
    /** The batches the index has accepted through this client, in call order. */
    var upserted: seq<seq<Vector>>

    constructor(embed: Embedder)
      ensures this.embed == embed && upserted == []
    {
      this.embed := embed;
      upserted := [];
    }

    /** `upsert_documents`; the index raises on its `upsert` call number
        `failAt`, counting from 0, if `failAt` is given. The result is
        `True` exactly when every embedding and every batch call succeeded,
        and the batches accepted before a failure stay written. */
    method UpsertDocuments(documents: seq<Document>, failAt: Option<nat>) returns (ok: bool)
      modifies this
      ensures var vectors := EmbedAll(embed, documents);
        ok <==> vectors.Some? && (failAt.None? || failAt.value >= |Batches(vectors.value)|)
      ensures upserted == old(upserted) + Sent(EmbedAll(embed, documents), failAt)
    {
      var built := BuildVectors(embed, documents);
      if built.None? {
        return false;
      }
      ok := SendBatches(built.value, failAt);
    }

    /** The batching loop of `upsert_documents`: one `upsert` call per batch,
        in order, stopping at the call that raises. */
    method SendBatches(vectors: seq<Vector>, failAt: Option<nat>) returns (ok: bool)
      modifies this
      ensures ok <==> failAt.None? || failAt.value >= |Batches(vectors)|
      ensures upserted == old(upserted) + Sent(Some(vectors), failAt)
    {
      ghost var batches := Batches(vectors);
      var i := 0;
      var call: nat := 0;
      assert vectors[0..] == vectors;
      while i < |vectors|
        invariant call <= |batches|
        invariant Batches(vectors[Min(i, |vectors|)..]) == batches[call..]
        invariant upserted == old(upserted) + batches[..call]
        invariant failAt.Some? ==> failAt.value >= call
      {
        BatchStep(vectors, batches, i, call);
        var batch := vectors[i..Min(i + BatchSize, |vectors|)];
        if failAt == Some(call) {
          assert Sent(Some(vectors), failAt) == batches[..call];
          return false;
        }
        upserted := upserted + [batch];
        i := i + BatchSize;
        call := call + 1;
      }
      assert vectors[Min(i, |vectors|)..] == [];
      assert call == |batches| && batches[..call] == batches;
      assert Sent(Some(vectors), failAt) == batches;
      return true;
    }

    /** `search_similar_documents`. */
    method SearchSimilarDocuments(query: string, topK: Option<int>, indexQuery: IndexQuery)
      returns (documents: seq<RetrievedDocument>)
      ensures documents == SearchResult(embed, indexQuery, query, topK)
    {
      var k := ResolveTopK(topK);
      var queryEmbedding := embed(query);
      if queryEmbedding.None? {
        return [];
      }
      var results := indexQuery(queryEmbedding.value, k);
      if results.None? {
        return [];
      }
      var matches := results.value;
      documents := [];
      for i := 0 to |matches|
        invariant Formatted(matches[..i]) == Some(documents)
      {
        assert matches[..i + 1][..i] == matches[..i];
        var m := matches[i];
        if m.score >= RagConfig.SimilarityThreshold {
          if !HasText(m) {
            FormattedIsPassing(matches);
            return [];
          }
          documents := documents + [ToRetrieved(m)];
        }
      }
      assert matches[..|matches|] == matches;
    }
  }
}
