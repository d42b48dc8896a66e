# TUPA retrieval-augmented answering, modelled in Dafny

This project models the deterministic core of a question-answering service. The service answers questions about the TUPA catalogue of administrative procedures of the Cusco regional government. It has four parts.

- **Chunker and cleaner** (`DocumentProcessor`, `document_processor.dfy`).
  - `clean_text` normalises extracted PDF text.
  - `chunk_text` packs `"\n\n"`-separated paragraphs greedily into chunks. A buffer is closed only when `len(buffer) + len(paragraph)` would exceed `chunk_size`. The separators, the overlap seed and oversized paragraphs can make a chunk longer than `chunk_size`. After each split it seeds the next buffer with an overlap of words.
  - The overflow test looks at the buffer itself, while the final emission looks at its strip. So a whitespace-only buffer that overflows is emitted as a chunk with empty text (`DocumentProcessor.BlankBufferEmitted`).
  - The paragraph loop is a method whose loop invariant ties its variables to a fold over the paragraphs (`Step`, `Fold`, `Finish`, `Chunks`). Every property is proved about that fold.
- **Index-store records** (`Pinecone`, `pinecone_client.dfy`).
  - `upsert_documents` builds one vector per document and merges its metadata. It then sends the vectors in batches of 100 and stops at the first batch call that raises.
  - `search_similar_documents` applies the `top_k` default, filters matches by the similarity threshold in backend order and moves `text` out of the metadata.
  - `get_index_stats` renames the statistics and defaults missing ones to 0.
  - The client is a class. Its field `upserted` records the batches the index has accepted.
  - The embedder and the index query are function parameters returning an `Option`, where `None` stands for an exception. The index failure during upsert is the parameter `failAt`: the number of the `upsert` call that raises.
- **Answer composer** (`RagSystem`, `rag_system.dfy`).
  - `_create_context`, `_create_prompt` and `_call_openai`.
  - The confidence formula, over `real`.
  - The top-3 sources with 200-character previews.
  - The `query` pipeline with its early exits. Retrieval is a parameter `Option<seq<RetrievedDocument>>`, where `None` means an exception escaped the search call. Generation is a parameter `string -> Option<string>`.
- **Configuration** (`RagConfig`, `rag_config.dfy`).
  - Settings resolve from the secrets store, then the environment, then the literal default. When the secrets store cannot be read they resolve from the environment, then a fallback default.
  - The fixed parameters.
  - The ordered check for missing credentials and its error message.
  - `get_status`.

`strings.dfy` (`Strings`) defines the Python `str` operations the code uses: `isspace`, `strip`, `split(sep)`, `split()`, `join` and decimal printing of integers. Each is pinned down by lemmas rather than by its own contract. `Words` (`split()`) is fixed by how it treats whitespace in front and behind, a leading word, blank text and joined words. `Split` is fixed by `JoinSplit`, by the leftmost-occurrence step `SplitAtSeparator` and by `SplitPiecesFree`. `NatToString` is fixed by its read-back `NatToStringDigits`. `common.dfy` (`Common`) defines `Option` and the values a metadata dictionary holds.

Behaviours of the code worth noting:

- When generation fails, `query` still returns the computed confidence and sources. Only the answer becomes the apology text.
- An embedding or index failure during search yields the "no information" answer and no apology, because `search_similar_documents` catches it and returns `[]`.
- Search results keep the backend's order. They are not re-sorted or truncated on the client side.
- `upsert_documents` reports only a boolean.
- `clean_text` keeps the stripped lines longer than 10 characters.

A consequence of `clean_text` is proved. Its first substitution turns every whitespace run, line breaks included, into one space. So its result is a single line, and chunking it yields at most one chunk per file (`DocumentProcessor.CleanedTextOneChunk`, `DocumentProcessor.ProcessPdfText`).

## Model

| member | source | states |
|---|---|---|
| Strings.Strip | document_processor.py:106 | `strip()` removes exactly the leading and trailing whitespace. The result is empty iff the input is all whitespace, has non-whitespace ends otherwise, and is the contiguous piece after the leading whitespace. |
| Strings.StripAfterSpaces | document_processor.py:129 | Whitespace put in front of a string does not change its strip. |
| Strings.StripInfix | document_processor.py:106 | If `x` occurs in `y` and `x` is not blank, the strip of `x` occurs in the strip of `y`. |
| Strings.WordsHaveNoSpace | document_processor.py:118 | Every word of `split()` is non-empty and holds no whitespace. |
| Strings.WordsAfterSpaces | document_processor.py:118 | Whitespace put in front of a string does not change its words. |
| Strings.WordsBeforeSpaces | document_processor.py:118 | Whitespace put after a string does not change its words. |
| Strings.WordsCons | document_processor.py:118 | A whitespace-free word followed by whitespace, or by nothing, is the first word, followed by the words of the rest. |
| Strings.BlankWords | document_processor.py:118 | A blank string has no words. |
| Strings.WordsOfStrip | document_processor.py:118 | Stripping a string does not change its words. |
| Strings.WordsOfJoin | document_processor.py:118-120 | Words joined by single spaces, then a space and a text, split back into those words followed by the words of the text. |
| Strings.JoinSplit | document_processor.py:96 | Joining the pieces of `split(sep)` with `sep` gives the input back. |
| Strings.SplitAtSeparator | document_processor.py:96 | The split breaks at the leftmost occurrence of the separator: the piece before it, then the split of what follows it. |
| Strings.SplitPiecesFree | document_processor.py:96 | No piece of `split(sep)` contains the separator, and the first piece is a prefix of the string. |
| Strings.SplitWithoutSeparator | document_processor.py:77 | A string in which the separator does not occur splits into itself alone. |
| Strings.NatToStringDigits | document_processor.py:105 | Decimal printing gives only digits, with no leading zero, and reads back as the number. |
| Strings.NatToStringInjective | document_processor.py:105 | Distinct numbers print differently. |
| RagConfig.Setting | rag_config.py:18-44 | A setting is the secret when present, else the environment variable, else the default. When the secrets store cannot be read it is the environment variable, else the fallback default. |
| RagConfig.Resolve | rag_config.py:14-51 | Dimension 384, top_k 5, threshold 0.7, chunk size 500 and overlap 50 hold on both paths. The index-name default is "tupa-index" normally and "tupa-cusco" when the secrets store cannot be read. |
| RagConfig.UnreadableSecretsActAsEmpty | rag_config.py:33-44 | An unreadable secrets store resolves like an empty one in every setting except the index name. |
| RagConfig.MissingConfigsListed | rag_config.py:58-65 | Each credential label is in the missing list iff that value is empty. There is nothing else in the list, and the labels appear in checking order. |
| RagConfig.ValidateConfig | rag_config.py:56-71 | Validation fails iff some credential is empty. The message is "Configuración faltante: " followed by the missing labels joined by ", ". |
| RagConfig.AllMissingMessage | rag_config.py:58-68 | With no credentials at all, the message names all three labels in order. |
| RagConfig.NewRAGConfig | rag_config.py:14-54 | Constructing the configuration succeeds iff validation passes, with the resolved settings. Otherwise it raises with the validation message. |
| RagConfig.GetStatus | rag_config.py:73-81 | `openai_configured` holds iff the OpenAI key is non-empty. `pinecone_configured` holds iff both Pinecone values are. The names are copied. |
| RagConfig.ValidIffConfigured | rag_config.py:56-81 | Validation passes exactly when the status reports both services configured. |
| DocumentProcessor.OverlapWords | document_processor.py:118-119 | The overlap is the last `min(chunk_overlap, #words)` words of the closed buffer. |
| DocumentProcessor.AddParagraph | document_processor.py:100-126 | One pass of the loop body is one `Step` of the fold. |
| DocumentProcessor.ChunkText | document_processor.py:82-141 | The loop, and the final emission of a non-blank buffer, compute `Chunks(text, ...)`. |
| DocumentProcessor.StepWithin | document_processor.py:102-126 | A paragraph that fits (`len(buffer) + len(paragraph) <= chunk_size`, separator not counted) is appended with `"\n\n"`, or becomes the buffer when the buffer is empty. Nothing is emitted, and the buffer is then at most `chunk_size + 2` characters long. |
| DocumentProcessor.StepOverflow | document_processor.py:102-124 | A paragraph that does not fit emits a non-empty buffer under the next number. The new buffer is the overlap words, a space and the paragraph, or just the paragraph without overlap. With overlap, its words are exactly the last `min(chunk_overlap, #words)` words of the closed buffer followed by the paragraph's words. An empty buffer is replaced by the paragraph. |
| DocumentProcessor.BlankBufferEmitted | document_processor.py:102-106 | A whitespace-only buffer that overflows is emitted as a chunk with empty text under the next number. |
| DocumentProcessor.FoldNumbered | document_processor.py:98-113 | After any prefix of paragraphs, the chunk counter equals the number of chunks emitted, and chunk `k` is numbered `k`. |
| DocumentProcessor.ChunksNumbered | document_processor.py:98-138 | Chunk `k` has id `source_chunk_k` and metadata `{source, chunk_id: k, document_type: 'tupa'}`. |
| DocumentProcessor.ChunkIdsDistinct | document_processor.py:104-138 | No two chunks share an id. |
| DocumentProcessor.ChunkCountBound | document_processor.py:96-138 | There are never more chunks than paragraphs. |
| DocumentProcessor.EmptyTextNoChunks | document_processor.py:129-138 | The empty text yields no chunks. |
| DocumentProcessor.FoldWithinSize | document_processor.py:125-126 | While the joined paragraphs fit in `chunk_size`, nothing is emitted. The buffer is their join with only whitespace missing in front. |
| DocumentProcessor.ShortTextOneChunk | document_processor.py:96-138 | A text of at most `chunk_size` characters yields no chunk when blank. Otherwise it yields exactly chunk 0, whose text is `text.strip()`. |
| DocumentProcessor.ParagraphsKept | document_processor.py:100-138 | Every non-blank paragraph, stripped, lies whole inside the text of some chunk, so an oversized paragraph is never split. |
| DocumentProcessor.SingleParagraph | document_processor.py:96-138 | A text without line feeds yields no chunk when blank, and otherwise exactly chunk 0 holding the stripped text, whatever its length. |
| DocumentProcessor.CollapseWhitespace | document_processor.py:72 | A non-empty text stays non-empty, and starts and ends with whitespace exactly when the input does. |
| DocumentProcessor.CollapsedShape | document_processor.py:72 | After collapsing, every whitespace character is a space and no two whitespace characters are adjacent. |
| DocumentProcessor.CollapseAddsNoChar | document_processor.py:72 | Collapsing adds no character other than a space. |
| DocumentProcessor.CollapseWord | document_processor.py:72 | A whitespace-free piece in front is kept as it is, and the rest is collapsed on its own. |
| DocumentProcessor.CollapseKeepsWords | document_processor.py:72 | Collapsing keeps the words of the text, in order. |
| DocumentProcessor.CollapseNewlines | document_processor.py:73 | No two line feeds are adjacent, text without line feeds is unchanged, and the result starts with a line feed exactly when the input does. |
| DocumentProcessor.CollapseNewlinesKeepsOthers | document_processor.py:73 | Every character other than a line feed is kept, in order. |
| DocumentProcessor.RemoveChar | document_processor.py:74 | The result contains no NUL and only characters of the input. A text without NUL is unchanged. |
| DocumentProcessor.RemoveCharAppend | document_processor.py:74 | Removal works piece by piece over a concatenation, so every other character keeps its order. |
| DocumentProcessor.KeepOneLine | document_processor.py:78 | A line is kept, as its strip, exactly when its strip is longer than 10 characters. |
| DocumentProcessor.KeepLongLinesAppend | document_processor.py:77-78 | The kept lines of a concatenation are those of its parts, in order. |
| DocumentProcessor.KeptLinesLong | document_processor.py:78 | Every kept line is longer than 10 characters. |
| DocumentProcessor.CleanTextSingleLine | document_processor.py:61-80 | `clean_text` is the stripped, NUL-free collapsed text when that is longer than 10 characters, and "" otherwise. It holds no line feed or NUL, and a non-empty result has no whitespace at its ends. |
| DocumentProcessor.CleanTextKeepsWords | document_processor.py:61-80 | For text without NUL, a non-empty cleaned text has exactly the words of the input, in order. |
| DocumentProcessor.CleanedTextOneChunk | document_processor.py:164-167 | Chunking cleaned text yields no chunk, or exactly chunk 0 holding the whole cleaned text. |
| DocumentProcessor.ProcessPdfText | document_processor.py:158-167 | No extracted text yields `[]`. Otherwise the result is the chunks of the cleaned text: at most one chunk, present iff the cleaned text is non-empty. |
| Pinecone.VectorMetadata | pinecone_client.py:113-116 | The keys are the document's plus `'text'`. The document's values win, `'text'` included, and `'text'` defaults to the document text. |
| Pinecone.EmbedAllOnePerDocument | pinecone_client.py:103-118 | Building succeeds iff every embedding succeeds. It then gives one vector per document, in order, with the document's id, its embedding and the merged metadata. |
| Pinecone.BuildVectors | pinecone_client.py:103-118 | The vector-building loop computes `EmbedAll`. |
| Pinecone.BatchSlices | pinecone_client.py:121-124 | There are ceil(n/100) batches. Batch `k` is the slice starting at `100k` of at most 100 vectors. |
| Pinecone.BatchSizes | pinecone_client.py:121-124 | Every batch is non-empty with at most 100 vectors, and all but the last hold exactly 100. |
| Pinecone.ConcatBatchesPrefix | pinecone_client.py:121-124 | The first `c` batches together are the first `min(100c, n)` vectors. |
| Pinecone.BatchesConcat | pinecone_client.py:121-124 | The batches together are exactly the vector list. |
| Pinecone.BatchesOf250 | pinecone_client.py:121-124 | 250 vectors go out as batches of 100, 100 and 50. |
| Pinecone.SentIsPrefix | pinecone_client.py:120-132 | What reaches the index is always a prefix of the vectors: all of them on success, the first `100c` when call `c` raises. |
| Pinecone.PineconeClient.constructor | pinecone_client.py:19-34 | A new client has its embedder and no accepted batches. |
| Pinecone.PineconeClient.UpsertDocuments | pinecone_client.py:87-132 | Returns True iff every embedding and every batch call succeeded. The accepted batches grow by exactly the batches sent before any failure, with no rollback. |
| Pinecone.PineconeClient.SendBatches | pinecone_client.py:120-128 | The batching loop sends the batches in order and stops at the failing call. |
| Pinecone.ResolveTopK | pinecone_client.py:146 | `None` and 0 become the configured 5. Any other value is kept. |
| Pinecone.PassingMembers | pinecone_client.py:160-163 | A match is kept iff its score reaches the threshold. |
| Pinecone.PassingAppend | pinecone_client.py:160-163 | Filtering commutes with concatenation, so the backend's order is kept. |
| Pinecone.WithoutText | pinecone_client.py:168 | The metadata loses `'text'` and keeps every other key and value. |
| Pinecone.FormattedIsPassing | pinecone_client.py:159-169 | Formatting fails iff a passing match lacks a text. Otherwise there is one document per passing match, in order, with its id, score, text and text-free metadata. |
| Pinecone.SearchResultRelevant | pinecone_client.py:145-176 | Every search result has a score of at least the threshold and no `'text'` metadata key. |
| Pinecone.SearchResultMatches | pinecone_client.py:145-172 | When the index answers, the result is exactly the passing matches as documents, in backend order. |
| Pinecone.PineconeClient.SearchSimilarDocuments | pinecone_client.py:134-176 | The search computes `SearchResult`, giving `[]` on any exception. |
| Pinecone.IndexStats | pinecone_client.py:178-194 | Three renamed statistics, each 0 when missing, or `{}` on an exception. |
| Pinecone.IndexStatsEmptyIffFailed | pinecone_client.py:185-194 | The statistics are `{}` exactly when reading them failed. |
| RagSystem.IntToString | rag_system.py:61 | `str(n)` of an integer: its digits, with a minus sign when negative. |
| RagSystem.CreateContext | rag_system.py:43-67 | The loop computes `Context`: the fixed sentence for no documents, otherwise the parts joined by "\n". |
| RagSystem.ContextPartsNumbered | rag_system.py:56-65 | There is one part per document, in input order. Part `i` is "Documento i", the optional " (Fuente: …)", ":\n", the text and "\n". |
| RagSystem.ContextHasEveryDocument | rag_system.py:56-67 | Every document's part, and so its full text, occurs in the context. |
| RagSystem.ContextAppend | rag_system.py:57-67 | One more document adds "\n" and its part at the end. |
| RagSystem.PromptLayout | rag_system.py:80-98 | The prompt holds the context verbatim after the fixed instructions, and the question verbatim after the question header. The lengths add up. |
| RagSystem.PromptDeterminesQuery | rag_system.py:80-98 | For one context, equal prompts mean equal questions. |
| RagSystem.PromptContains | rag_system.py:80-98 | Both the context and the question occur in the prompt. |
| RagSystem.PromptHasEveryDocument | rag_system.py:43-98 | The prompt holds the text of every retrieved document. |
| RagSystem.CallOpenAI | rag_system.py:112-134 | A failed call gives the fixed apology. Otherwise the answer is the stripped content. |
| RagSystem.CalculateConfidence | rag_system.py:147-159 | No documents give 0.0, and the result never exceeds 1. |
| RagSystem.ConfidenceNonNegative | rag_system.py:150-159 | With non-negative scores the confidence is at least 0. |
| RagSystem.ConfidenceOfRelevantDocuments | rag_system.py:150-159 | Documents that all reach the 0.7 threshold give a confidence of at least 0.55. |
| RagSystem.ConfidenceExample | rag_system.py:150-159 | One document scored 0.85, with top_k 5, gives 0.655. |
| RagSystem.Preview | rag_system.py:204 | Texts of at most 200 characters are unchanged. Longer ones become their first 200 characters plus "...". |
| RagSystem.SourcesOfPointwise | rag_system.py:202-209 | One source per document, in order, with its previewed text, its score and its metadata. |
| RagSystem.TopSourcesShape | rag_system.py:202-209 | The sources are the first `min(3, n)` documents, in retrieval order, previewed. |
| RagSystem.Query | rag_system.py:161-228 | An exception from retrieval gives the apology, no sources, 0.0 and no generation call. No documents give the "no information" answer, no sources, 0.0 and no generation call. Otherwise the prompt of the context is sent, and the response is the generated (or apology) answer with the top sources and the computed confidence. Whether generation was called is stated through the method's `sent` output, the prompt passed to `generate` or `None`. |
| RagSystem.AnsweredQueryFromSearch | rag_system.py:161-219 | For a client search with the default top_k, an answered query has confidence in [0.55, 1] and at most three sources, and its prompt holds every retrieved text. |

## Left out

- PDF reading and file I/O (`extract_text_from_pdf`). `ProcessPdfText` takes the extracted text and the source name. Deriving that name from the path with `basename` and `replace('.pdf', '')` is not modelled.
- The part of `process_pdf_file` after the clean-and-chunk step, and its exception handler, are not part of this model.
- Sentence-transformer encoding and cosine similarity. Embeddings and index answers are given functions, and any exception they raise is `None`.
- Pinecone `init`, `list_indexes`, `create_index` and `Index` (`__init__`, `_connect_to_index`), and `delete_all_vectors`. They are calls into the backend with no logic of their own.
- Pinecone.Document: it always has an id, a text and a metadata map. The `KeyError` for a missing `'id'` or `'text'`, and the default of `doc.get('metadata', {})`, are therefore not modelled.
- Pinecone.HasText: a passing match whose `'text'` metadata value is not a string is treated like one without `'text'`, so the search returns `[]`. The code would instead return that non-string value as the text.
- The OpenAI call itself (system message, model, `max_tokens`, `temperature`) and `health_check`. Generation is the parameter `generate`.
- RagSystem.TopSourcesShape: the sources carry the unrounded score, because `round(score, 3)` is floating-point rounding.
- RagSystem.CalculateConfidence: real arithmetic instead of IEEE doubles. The `ZeroDivisionError` path cannot arise, because `top_k_results` is the constant 5.
- RagSystem.ValueText: how an f-string renders a float metadata value is the parameter `showReal`, since it depends on the binary value.
- `processing_time` and the clock, logging, Streamlit calls (`st.secrets` access errors aside, `st.error`, `st.stop`) and the module-level singletons. An unavailable client is the retrieval result `None`.
- RagConfig.Resolve: `max_tokens` and `temperature` are kept as text. The `int(...)` and `float(...)` parsing, and its `ValueError`, are not modelled. In the code a non-numeric value raises inside the `try`, so every setting then takes the fallback branch, with index default "tupa-cusco". When the environment value is itself non-numeric the fallback raises too and construction fails. The model captures neither.
- DocumentProcessor.CollapseWhitespace: its own contract states only non-emptiness and the class of the first and last characters. That every whitespace run becomes one space and the words are kept in order is stated by `CollapsedShape`, `CollapseWord` and `CollapseKeepsWords` instead.
- DocumentProcessor.CollapseNewlines: the contract does not say where each run's single line feed stands. It does say that no line feeds are adjacent, that text without line feeds is unchanged, the class of the first character and, with `CollapseNewlinesKeepsOthers`, that all other characters are kept in order. In `clean_text` the step never has a line feed to act on.
- `app.py`, a Streamlit smoke test with no logic.
- Concurrency: there is none in the code, and concurrent writes to the index are outside this model.
