/** The answer composer of `RAGSystem`: the context built from the retrieved
    documents, the prompt template, the confidence score, the sources shown
    to the user, and the `query` pipeline with its early exits and error
    recovery. Retrieval and generation are given as abstract results. */
module RagSystem {
  import opened Common
  import opened Strings
  import RagConfig
  import Pinecone

  type RetrievedDocument = Pinecone.RetrievedDocument

  /** One entry of `RAGResponse.sources`. */
  datatype Source = Source(text: string, score: real, metadata: Metadata)

  /** `RAGResponse` without its `processing_time`. */
  datatype RAGResponse = RAGResponse(answer: string, sources: seq<Source>, confidence: real)

  const NoDocumentsContext: string := "No se encontraron documentos relevantes en la base de datos."

  const NoInformationAnswer: string :=
    "Lo siento, no encontré información específica sobre tu consulta en la base de datos del TUPA. "
    + "¿Podrías reformular tu pregunta o ser más específico?"

  const ErrorAnswer: string := "Lo siento, hubo un error procesando tu consulta. Por favor, intenta nuevamente."

  // ---------------------------------------------------------------------
  // _create_context

  /** `str(n)` for an integer. */
  function IntToString(n: int): (r: string)
    ensures n >= 0 ==> r == NatToString(n)
    ensures n < 0 ==> r == "-" + NatToString(-n)
  {
    if n < 0 then "-" + NatToString(-n) else NatToString(n)
  }

  /** How an f-string prints a metadata value; the text of a float is
      `showReal`, since its decimal rendering depends on the binary value. */
  function ValueText(v: Value, showReal: real -> string): string
  {
    match v
    case Str(s) => s
    case Int(i) => IntToString(i)
    case Real(r) => showReal(r)
    case Bool(b) => if b then "True" else "False"
  }

  /** `source_info`: the source named in the metadata, if any. */
  function SourceInfo(doc: RetrievedDocument, showReal: real -> string): string
  {
    if "source" in doc.metadata then " (Fuente: " + ValueText(doc.metadata["source"], showReal) + ")" else ""
  }

  /** The part for the document numbered `n`, counting from 1. */
  function ContextPart(n: nat, doc: RetrievedDocument, showReal: real -> string): string
  {
    "Documento " + NatToString(n) + SourceInfo(doc, showReal) + ":\n" + doc.text + "\n"
  }

  /** `context_parts` after the loop has seen the given documents. */
  function ContextParts(documents: seq<RetrievedDocument>, showReal: real -> string): seq<string>
    decreases |documents|
  {
    if documents == [] then []
    else
      ContextParts(documents[..|documents| - 1], showReal)
      + [ContextPart(|documents|, documents[|documents| - 1], showReal)]
  }

  /** What `_create_context(documents)` returns. */
  function Context(documents: seq<RetrievedDocument>, showReal: real -> string): string
  {
    if documents == [] then NoDocumentsContext else Join(ContextParts(documents, showReal), "\n")
  }

  /** `_create_context`. */
  method CreateContext(documents: seq<RetrievedDocument>, showReal: real -> string) returns (context: string)
    ensures context == Context(documents, showReal)
  {
    if documents == [] {
      return NoDocumentsContext;
    }
    var parts: seq<string> := [];
    for i := 0 to |documents|
      invariant parts == ContextParts(documents[..i], showReal)
    {
      assert documents[..i + 1][..i] == documents[..i];
      var doc := documents[i];
      var sourceInfo := "";
      if "source" in doc.metadata {
        sourceInfo := " (Fuente: " + ValueText(doc.metadata["source"], showReal) + ")";
      }
      parts := parts + ["Documento " + NatToString(i + 1) + sourceInfo + ":\n" + doc.text + "\n"];
    }
    assert documents[..|documents|] == documents;
    return Join(parts, "\n");
  }

  /** There is one part per document. */
  lemma {:induction false} ContextPartsLength(documents: seq<RetrievedDocument>, showReal: real -> string)
    ensures |ContextParts(documents, showReal)| == |documents|
    decreases |documents|
  {
    if documents != [] {
      ContextPartsLength(documents[..|documents| - 1], showReal);
    }
  }

  /** Part `i` is the one for document `i`, numbered `i + 1`. */
  lemma {:induction false} ContextPartAt(documents: seq<RetrievedDocument>, i: nat, showReal: real -> string)
    requires i < |documents|
    ensures i < |ContextParts(documents, showReal)|
    ensures ContextParts(documents, showReal)[i] == ContextPart(i + 1, documents[i], showReal)
    decreases |documents|
  {
    var init := documents[..|documents| - 1];
    ContextPartsLength(init, showReal);
    if i < |init| {
      ContextPartAt(init, i, showReal);
      assert init[i] == documents[i];
    }
  }

  /** There is one part per document, in input order, numbered from 1. */
  lemma ContextPartsNumbered(documents: seq<RetrievedDocument>, showReal: real -> string)
    ensures |ContextParts(documents, showReal)| == |documents|
    ensures forall i :: 0 <= i < |documents| ==>
      ContextParts(documents, showReal)[i] == ContextPart(i + 1, documents[i], showReal)
  {
    ContextPartsLength(documents, showReal);
    forall i | 0 <= i < |documents|
      ensures ContextParts(documents, showReal)[i] == ContextPart(i + 1, documents[i], showReal)
    {
      ContextPartAt(documents, i, showReal);
    }
  }

  /** Every document's part, and so its whole text, appears in the
      context. */
  lemma ContextHasEveryDocument(documents: seq<RetrievedDocument>, i: nat, showReal: real -> string)
    requires i < |documents|
    ensures IsInfix(ContextPart(i + 1, documents[i], showReal), Context(documents, showReal))
    ensures IsInfix(documents[i].text, Context(documents, showReal))
  {
    ContextPartsNumbered(documents, showReal);
    var part := ContextPart(i + 1, documents[i], showReal);
    JoinHasPart(ContextParts(documents, showReal), i, "\n");
    var front := "Documento " + NatToString(i + 1) + SourceInfo(documents[i], showReal) + ":\n";
    InfixOfSelf(documents[i].text);
    InfixExtend(documents[i].text, documents[i].text, front, "\n");
    assert front + documents[i].text + "\n" == part;
    InfixTransitive(documents[i].text, part, Context(documents, showReal));
  }

  /** A further document adds its part after a line feed, so the parts keep
      the input order. */
  lemma ContextAppend(documents: seq<RetrievedDocument>, doc: RetrievedDocument, showReal: real -> string)
    requires documents != []
    ensures Context(documents + [doc], showReal)
         == Context(documents, showReal) + "\n" + ContextPart(|documents| + 1, doc, showReal)
  {
    var all := documents + [doc];
    assert all[..|all| - 1] == documents;
    JoinAppend(ContextParts(documents, showReal), [ContextPart(|documents| + 1, doc, showReal)], "\n");
  }

  // ---------------------------------------------------------------------
  // _create_prompt

  const PromptHead: string :=
    "Eres un asistente especializado en el TUPA (Texto Único de Procedimientos Administrativos) del Gobierno Regional del Cusco.\n"
    + "\n"
    + "Tu trabajo es responder preguntas sobre trámites administrativos basándote ÚNICAMENTE en la información proporcionada en el contexto.\n"
    + "\n"
    + "INSTRUCCIONES IMPORTANTES:\n"
    + "1. Responde SOLO basándote en la información del contexto proporcionado\n"
    + "2. Si la información no está en el contexto, indica claramente que no tienes esa información específica\n"
    + "3. Sé claro, conciso y útil en tus respuestas\n"
    + "4. Menciona requisitos, plazos, costos y procedimientos cuando sea relevante\n"
    + "5. Si hay información sobre ubicaciones u horarios, inclúyela\n"
    + "6. Mantén un tono profesional pero amigable\n"
    + "\n"
    + "CONTEXTO (Información oficial del TUPA):\n"

  const PromptMiddle: string := "\n\nPREGUNTA DEL USUARIO:\n"

  const PromptTail: string := "\n\nRESPUESTA:"

  /** `_create_prompt`. */
  function CreatePrompt(query: string, context: string): string
  {
    PromptHead + context + PromptMiddle + query + PromptTail
  }

  /** Where the pieces of a five-part concatenation lie. */
  lemma ConcatPieces(head: string, context: string, middle: string, query: string, tail: string, whole: string)
    requires whole == head + context + middle + query + tail
    ensures |whole| == |head| + |context| + |middle| + |query| + |tail|
    ensures whole[|head|..|head| + |context|] == context
    ensures whole[|head| + |context| + |middle|..|head| + |context| + |middle| + |query|] == query
  {
  }

  /** The prompt holds the context verbatim right after the fixed
      instructions, and the question verbatim after the context and the
      question header. */
  lemma PromptLayout(query: string, context: string)
    ensures var prompt, i := CreatePrompt(query, context), |PromptHead|;
      var j := i + |context| + |PromptMiddle|;
      && j + |query| + |PromptTail| == |prompt|
      && prompt[i..i + |context|] == context
      && prompt[j..j + |query|] == query
  {
    ConcatPieces(PromptHead, context, PromptMiddle, query, PromptTail, CreatePrompt(query, context));
  }

  /** Prompts for the same context differ exactly when the questions do. */
  lemma PromptDeterminesQuery(q1: string, q2: string, context: string)
    requires CreatePrompt(q1, context) == CreatePrompt(q2, context)
    ensures q1 == q2
  {
    PromptLayout(q1, context);
    PromptLayout(q2, context);
  }

  /** The context and the question both occur in the prompt. */
  lemma PromptContains(query: string, context: string)
    ensures IsInfix(context, CreatePrompt(query, context))
    ensures IsInfix(query, CreatePrompt(query, context))
  {
    PromptLayout(query, context);
  }

  // ---------------------------------------------------------------------
  // _call_openai

  /** `_call_openai`; `generate` is the chat completion for a prompt, `None`
      standing for any exception raised while calling it or reading its
      content. */
  function CallOpenAI(prompt: string, generate: string -> Option<string>): (answer: string)
    ensures generate(prompt).None? ==> answer == ErrorAnswer
    ensures generate(prompt).Some? ==> answer == Strip(generate(prompt).value)
  {
    match generate(prompt)
    case None => ErrorAnswer
    case Some(content) => Strip(content)
  }

  // ---------------------------------------------------------------------
  // _calculate_confidence

  function RealMin(a: real, b: real): real
  {
    if b < a then b else a
  }

  /** `sum(doc['score'] for doc in documents)`. */
  function ScoreSum(documents: seq<RetrievedDocument>): real
    decreases |documents|
  {
    if documents == [] then 0.0 else documents[0].score + ScoreSum(documents[1..])
  }

  /** A sum of scores that are all at least `low` is at least `n * low`. */
  lemma {:induction false} ScoreSumAtLeast(documents: seq<RetrievedDocument>, low: real)
    requires forall i :: 0 <= i < |documents| ==> documents[i].score >= low
    ensures ScoreSum(documents) >= (|documents| as real) * low
    decreases |documents|
  {
    if documents != [] {
      ScoreSumAtLeast(documents[1..], low);
      assert documents[0].score >= low;
    }
  }

  /** `_calculate_confidence`, with real arithmetic: 0 for no documents,
      otherwise `min(0.7 * mean score + 0.3 * min(n / top_k, 1), 1)`. */
  function CalculateConfidence(documents: seq<RetrievedDocument>): (confidence: real)
    ensures documents == [] ==> confidence == 0.0
    ensures confidence <= 1.0
  {
    if documents == [] then 0.0
    else
      var average := ScoreSum(documents) / (|documents| as real);
      var countFactor := RealMin((|documents| as real) / (RagConfig.TopKResults as real), 1.0);
      RealMin(average * 0.7 + countFactor * 0.3, 1.0)
  }

  /** With no negative score the confidence is never negative. */
  lemma ConfidenceNonNegative(documents: seq<RetrievedDocument>)
    requires forall i :: 0 <= i < |documents| ==> documents[i].score >= 0.0
    ensures 0.0 <= CalculateConfidence(documents)
  {
    ScoreSumAtLeast(documents, 0.0);
  }

  /** Documents that all passed the similarity threshold give a confidence of
      at least 0.7 * 0.7 + 0.3 * 1/5 = 0.55. */
  lemma ConfidenceOfRelevantDocuments(documents: seq<RetrievedDocument>)
    requires documents != []
    requires forall i :: 0 <= i < |documents| ==> documents[i].score >= RagConfig.SimilarityThreshold
    ensures CalculateConfidence(documents) >= 0.55
  {
    ScoreSumAtLeast(documents, RagConfig.SimilarityThreshold);
    var n := |documents| as real;
    var average := ScoreSum(documents) / n;
    assert average >= 0.7;
  }

  /** One document scored 0.85 out of the five asked for gives 0.655. */
  lemma ConfidenceExample(doc: RetrievedDocument)
    requires doc.score == 0.85
    ensures CalculateConfidence([doc]) == 0.655
  {
    assert ScoreSum([doc]) == 0.85 + ScoreSum([]);
  }

  // ---------------------------------------------------------------------
  // The sources shown with an answer

  /** `text[:200] + "..." if len(text) > 200 else text`. */
  function Preview(text: string): (shown: string)
    ensures |text| <= 200 ==> shown == text
    ensures |text| > 200 ==> |shown| == 203 && shown[..200] == text[..200] && shown[200..] == "..."
  {
    if |text| > 200 then text[..200] + "..." else text
  }

  /** The source entries for the given documents, in order. */
  function SourcesOf(documents: seq<RetrievedDocument>): seq<Source>
    decreases |documents|
  {
    if documents == [] then []
    else [Source(Preview(documents[0].text), documents[0].score, documents[0].metadata)] + SourcesOf(documents[1..])
  }

  /** The `sources` of an answer: the first three documents. */
  function TopSources(documents: seq<RetrievedDocument>): seq<Source>
  {
    SourcesOf(documents[..Min(3, |documents|)])
  }

  lemma {:induction false} SourcesOfPointwise(documents: seq<RetrievedDocument>)
    ensures |SourcesOf(documents)| == |documents|
    ensures forall i :: 0 <= i < |documents| ==>
      SourcesOf(documents)[i] == Source(Preview(documents[i].text), documents[i].score, documents[i].metadata)
    decreases |documents|
  {
    if documents != [] {
      SourcesOfPointwise(documents[1..]);
    }
  }

  /** An answer shows `min(3, n)` sources, the first documents in retrieval
      order, each with its previewed text, its score and its metadata. */
  lemma TopSourcesShape(documents: seq<RetrievedDocument>)
    ensures |TopSources(documents)| == Min(3, |documents|)
    ensures forall i :: 0 <= i < Min(3, |documents|) ==>
      TopSources(documents)[i] == Source(Preview(documents[i].text), documents[i].score, documents[i].metadata)
  {
    SourcesOfPointwise(documents[..Min(3, |documents|)]);
  }

  // ---------------------------------------------------------------------
  // query

  /** `query(user_query)`. `retrieval` is what the search returned, `None`
      standing for an exception escaping it (as when no client is
      available); `generate` is the chat model. Besides the response, the
      method returns the prompt it sent to the chat model, if it sent one.
      Every path yields a response. */
  method Query(userQuery: string, retrieval: Option<seq<RetrievedDocument>>,
               generate: string -> Option<string>, showReal: real -> string)
    returns (response: RAGResponse, sent: Option<string>)
    ensures retrieval.None? ==> response == RAGResponse(ErrorAnswer, [], 0.0) && sent.None?
    ensures retrieval == Some([]) ==> response == RAGResponse(NoInformationAnswer, [], 0.0) && sent.None?
    ensures retrieval.Some? && retrieval.value != [] ==>
      var documents := retrieval.value;
      var prompt := CreatePrompt(userQuery, Context(documents, showReal));
      && sent == Some(prompt)
      && response == RAGResponse(CallOpenAI(prompt, generate), TopSources(documents), CalculateConfidence(documents))
  {
    if retrieval.None? {
      return RAGResponse(ErrorAnswer, [], 0.0), None;
    }
    var relevantDocs := retrieval.value;
    if relevantDocs == [] {
      return RAGResponse(NoInformationAnswer, [], 0.0), None;
    }
    var context := CreateContext(relevantDocs, showReal);
    var prompt := CreatePrompt(userQuery, context);
    var answer := CallOpenAI(prompt, generate);
    var confidence := CalculateConfidence(relevantDocs);
    var sources := TopSources(relevantDocs);
    return RAGResponse(answer, sources, confidence), Some(prompt);
  }

  /** When the retrieval is the search of a `PineconeClient` with the
      default `top_k`, an answered query has a confidence between 0.55 and 1,
      shows at most three sources, and its prompt holds the text of every
      retrieved document. */
  lemma AnsweredQueryFromSearch(embed: Pinecone.Embedder, indexQuery: Pinecone.IndexQuery, userQuery: string,
                                showReal: real -> string)
    requires Pinecone.SearchResult(embed, indexQuery, userQuery, None) != []
    ensures var documents := Pinecone.SearchResult(embed, indexQuery, userQuery, None);
      && 0.55 <= CalculateConfidence(documents) <= 1.0
      && |TopSources(documents)| <= 3
      && forall i :: 0 <= i < |documents| ==>
           IsInfix(documents[i].text, CreatePrompt(userQuery, Context(documents, showReal)))
  {
    var documents := Pinecone.SearchResult(embed, indexQuery, userQuery, None);
    Pinecone.SearchResultRelevant(embed, indexQuery, userQuery, None);
    assert forall i :: 0 <= i < |documents| ==> documents[i] in documents;
    ConfidenceOfRelevantDocuments(documents);
    TopSourcesShape(documents);
    PromptHasEveryDocument(userQuery, documents, showReal);
  }

  /** The prompt built for some documents holds the text of each of them. */
  lemma PromptHasEveryDocument(userQuery: string, documents: seq<RetrievedDocument>, showReal: real -> string)
    ensures forall i :: 0 <= i < |documents| ==>
      IsInfix(documents[i].text, CreatePrompt(userQuery, Context(documents, showReal)))
  {
    var context := Context(documents, showReal);
    var prompt := CreatePrompt(userQuery, context);
    PromptContains(userQuery, context);
    forall i | 0 <= i < |documents|
      ensures IsInfix(documents[i].text, prompt)
    {
      ContextHasEveryDocument(documents, i, showReal);
      InfixTransitive(documents[i].text, context, prompt);
    }
  }
}
