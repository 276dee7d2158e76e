/**
 * The request path of the FastAPI service in backend.py: each stage turns any
 * failure into an HTTP 500 error with its own detail text, the search refuses to
 * run before the vector store exists, and `/query` answers with the generated
 * text and one excerpt per search result. Parsing, text splitting, indexing, the
 * similarity search and the completion service are outside the model; they enter
 * as parameters.
 */
module Backend {
  import opened Wrappers
  import opened Strings
  import opened RefTable
  import opened HtmlHeadings
  import opened Aligner
  import opened Prompt

  /** `HTTPException(status_code, detail)`. */
  datatype HttpError = HttpError(status: nat, detail: string)

  const ProcessingFailed: HttpError := HttpError(500, "Error processing HTML file")
  const StoreFailed: HttpError := HttpError(500, "Error creating vector store")
  const NotInitialized: HttpError := HttpError(500, "Vector store not initialized")
  const QueryFailed: HttpError := HttpError(500, "Error querying vector store")
  const GenerationFailed: HttpError := HttpError(500, "Error generating response from OpenAI")

  /** The FAISS store: the documents it was built from, in order. */
  datatype VectorStore = VectorStore(documents: seq<Record>)

  /**
   * `process_html_file`: `page` is the parsed page (its elements and the plain text
   * `html2text` produces), `None` when reading or parsing raised.
   */
  function ProcessHtmlFile(page: Option<(seq<Node>, string)>): (r: Result<(string, Table), HttpError>)
    ensures page.None? <==> r == Failure(ProcessingFailed)
    ensures page.Some? ==> r.Success? && r.value.0 == page.value.1 && DistinctKeys(r.value.1)
    ensures page.Some? ==> r.value.1 == HeadingTable(FindHeadings(page.value.0))
  {
    match page
    case None => Failure(ProcessingFailed)
    case Some((nodes, plainText)) =>
      HeadingTableDistinct(FindHeadings(nodes));
      Success((plainText, HeadingTable(FindHeadings(nodes))))
  }

  /**
   * `create_vector_store`: the aligner's documents go into the store; `indexed` says
   * whether splitting and `FAISS.from_texts` succeeded.
   */
  method CreateVectorStore(chunks: seq<string>, referenceDict: Table, indexed: bool)
    returns (r: Result<VectorStore, HttpError>)
    ensures !indexed ==> r == Failure(StoreFailed)
    ensures indexed ==> r == Success(VectorStore(Aligned(referenceDict, chunks)))
  {
    var documents := CreateDocuments(chunks, referenceDict);
    if !indexed {
      return Failure(StoreFailed);
    }
    r := Success(VectorStore(documents));
  }

  /**
   * `query_vectorstore(query, k)` against the global store (`None` before startup
   * succeeded); `search` is `similarity_search`, `None` when it raises.
   */
  function QueryVectorstore(store: Option<VectorStore>, query: string, k: nat,
                            search: (seq<Record>, string, nat) -> Option<seq<Record>>): (r: Result<seq<Record>, HttpError>)
    ensures store.None? ==> r == Failure(NotInitialized)
    ensures store.Some? ==> (r.Failure? <==> search(store.value.documents, query, k).None?)
    ensures store.Some? ==> r.Failure? ==> r == Failure(QueryFailed)
    ensures r.Success? ==> r.value == search(store.value.documents, query, k).value
  {
    match store
    case None => Failure(NotInitialized)
    case Some(s) =>
      match search(s.documents, query, k)
      case None => Failure(QueryFailed)
      case Some(results) => Success(results)
  }

  /**
   * `openai_generate_answer`: the referenced prompt goes to `complete`, the chat
   * completion (`None` when it raises), and the reply comes back stripped.
   */
  function GenerateAnswer(excerpts: seq<Record>, query: string, complete: string -> Option<string>): (r: Result<string, HttpError>)
    ensures complete(PromptText(ReferencedLayout, excerpts, query)).None? <==> r == Failure(GenerationFailed)
    ensures r.Success? <==> complete(PromptText(ReferencedLayout, excerpts, query)).Some?
    ensures r.Success? ==> r.value == Strip(complete(PromptText(ReferencedLayout, excerpts, query)).value)
  {
    match complete(PromptText(ReferencedLayout, excerpts, query))
    case None => Failure(GenerationFailed)
    case Some(reply) => Success(Strip(reply))
  }

  /** One entry of the `excerpts` list of the `/query` response. */
  datatype Excerpt = Excerpt(content: string, reference: string)

  /** The response of `/query`. */
  datatype Response = Response(answer: string, excerpts: seq<Excerpt>)

  /** The list comprehension building the response's excerpts. */
  function Excerpts(results: seq<Record>): (es: seq<Excerpt>)
    ensures |es| == |results|
    ensures forall i :: 0 <= i < |results| ==>
      es[i].content == results[i].content && es[i].reference == DisplayedReference(results[i].reference)
  {
    if results == [] then [] else [Excerpt(results[0].content, DisplayedReference(results[0].reference))] + Excerpts(results[1..])
  }

  /** The default number of results of `query_vectorstore`. */
  const DefaultK: nat := 5

  /** The `/query` handler: search, generate, respond; an HTTP error of any stage is passed on unchanged. */
  function HandleQuery(store: Option<VectorStore>, query: string,
                       search: (seq<Record>, string, nat) -> Option<seq<Record>>,
                       complete: string -> Option<string>): (r: Result<Response, HttpError>)
    // before the store exists the search and the completion are never consulted
    ensures store.None? ==> r == Failure(NotInitialized)
    ensures r.Success? <==>
      store.Some? && search(store.value.documents, query, DefaultK).Some? &&
      complete(PromptText(ReferencedLayout, search(store.value.documents, query, DefaultK).value, query)).Some?
    ensures r.Success? ==>
      var results := search(store.value.documents, query, DefaultK).value;
      r.value.answer == Strip(complete(PromptText(ReferencedLayout, results, query)).value) &&
      |r.value.excerpts| == |results| &&
      (forall i :: 0 <= i < |results| ==>
        r.value.excerpts[i] == Excerpt(results[i].content, DisplayedReference(results[i].reference)))
    ensures r.Failure? ==> r.error in {NotInitialized, QueryFailed, GenerationFailed}
    // a raising search and a raising completion each surface as their own stage's error
    ensures store.Some? && search(store.value.documents, query, DefaultK).None? ==> r == Failure(QueryFailed)
    ensures (store.Some? && search(store.value.documents, query, DefaultK).Some? &&
             complete(PromptText(ReferencedLayout, search(store.value.documents, query, DefaultK).value, query)).None?) ==>
      r == Failure(GenerationFailed)
  {
    match QueryVectorstore(store, query, DefaultK, search)
    case Failure(e) => Failure(e)
    case Success(results) =>
      match GenerateAnswer(results, query, complete)
      case Failure(e) => Failure(e)
      case Success(answer) => Success(Response(answer, Excerpts(results)))
  }

  // ---------------------------------------------------------------------------
  // Properties of the request path

  /** The five failure details are pairwise different, so a client can tell the stages apart. */
  lemma DetailsDistinct()
    ensures var ds := [ProcessingFailed.detail, StoreFailed.detail, NotInitialized.detail,
                       QueryFailed.detail, GenerationFailed.detail];
      forall i, j :: 0 <= i < j < |ds| ==> ds[i] != ds[j]
  {
    var ds := [ProcessingFailed.detail, StoreFailed.detail, NotInitialized.detail,
               QueryFailed.detail, GenerationFailed.detail];
    assert ds[0][6] == 'p';
    assert ds[1][6] == 'c';
    assert ds[2][0] == 'V';
    assert ds[3][6] == 'q';
    assert ds[4][6] == 'g';
  }

  /**
   * For a store built from an HTML page, a document shows the fallback text exactly
   * when it has no reference: a heading reference starts with `h`, the fallback with `N`.
   */
  lemma HtmlFallbackIffNoReference(nodes: seq<Node>, chunks: seq<string>, i: nat)
    requires i < |chunks|
    ensures var docs := Aligned(HeadingTable(FindHeadings(nodes)), chunks);
      |docs| == |chunks| &&
      (DisplayedReference(docs[i].reference) == NoReference <==> docs[i].reference.None?)
  {
    var t := HeadingTable(FindHeadings(nodes));
    HeadingTableValuesStartWithH(FindHeadings(nodes));
    AlignedReference(t, chunks, i);
    CursorFromTable(t, chunks[..i + 1]);
    var docs := Aligned(t, chunks);
    if docs[i].reference.Some? {
      var k :| 0 <= k < |t| && docs[i].reference.value == t[k].1;
      assert NoReference[0] == 'N';
    }
  }

  /**
   * For a store built from an HTML page, document `i` has a reference exactly when one
   * of the chunks up to `i` contains the stripped text of some h1–h6 heading.
   */
  lemma HtmlReferenceIffHeadingSeen(nodes: seq<Node>, chunks: seq<string>, i: nat)
    requires i < |chunks|
    ensures var t := HeadingTable(FindHeadings(nodes));
      |Aligned(t, chunks)| == |chunks| &&
      (Aligned(t, chunks)[i].reference.Some? <==> exists j :: 0 <= j <= i && FirstMatch(t, chunks[j]).Some?)
  {
    HeadingTableValuesNonEmpty(FindHeadings(nodes));
    ReferenceIffEarlierMatch(HeadingTable(FindHeadings(nodes)), chunks, i);
  }
}
