/** The session orchestration as values: loading or bootstrapping the index, the reindex
    button, and answering one question from the loaded index. */
module Orchestrator {
  import opened Common
  import opened PdfChunker
  import opened Retrieval

  /** The PDF files indexed on first run, in this order. */
  const PdfFiles: seq<string> := [
    "Strategiya-razvitiya-AO-Bank-Razvitiya-Kazakhstana-na-2024_2033-gody-2.pdf",
    "Kons-FO_2024.pdf"
  ]

  /** The embedding service: the vector of a text, or None when the call raises. */
  type Embedder = string -> Option<Vector>

  /** The chat service: the answer to (system instruction, user message), or None when it raises. */
  type Generator = (string, string) -> Option<string>

  /** The similarity of the query vector with a chunk vector. */
  type Similarity = (Vector, Vector) -> real

  /** The two places the index lives: the pickle file on disk and the session state. */
  datatype Store = Store(file: Option<seq<Chunk>>, session: Option<seq<Chunk>>)

  /** Every stored index carries a vector on each chunk. */
  predicate StoreValid(s: Store)
  {
    (s.file.Some? ==> Embedded(s.file.value)) && (s.session.Some? ==> Embedded(s.session.value))
  }

  /** How the load-or-bootstrap block ended. */
  datatype Startup =
    | InSession        // the session already had an index: nothing happens
    | LoadedFromFile   // the pickle file was read into the session
    | Built            // the PDFs were indexed, saved and installed
    | NoDocuments      // no chunk was extracted: error shown, st.stop()
    | EmbeddingFailed  // the embedding service raised during indexing

  // ---------------------------------------------------------------- embedding the chunks

  /** Every chunk with the vector of its own text, or None if any embedding call fails. */
  function EmbedAll(raw: seq<Chunk>, embed: Embedder): Option<seq<Chunk>>
  {
    if forall i :: 0 <= i < |raw| ==> embed(raw[i].text).Some?
    then Some(seq(|raw|, i requires 0 <= i < |raw| => raw[i].(vector := embed(raw[i].text))))
    else None
  }

  /** The bootstrap loop: each chunk gains chunk["vector"] = get_embedding(chunk["text"]). */
  method AttachVectors(raw: seq<Chunk>, embed: Embedder) returns (index: Option<seq<Chunk>>)
    ensures index == EmbedAll(raw, embed)
    ensures index.Some? ==> |index.value| == |raw| && Embedded(index.value)
  {
    var chunks := raw;
    for i := 0 to |raw|
      invariant |chunks| == |raw|
      invariant forall j :: 0 <= j < i ==> embed(raw[j].text).Some? && chunks[j] == raw[j].(vector := embed(raw[j].text))
      invariant forall j :: i <= j < |raw| ==> chunks[j] == raw[j]
    {
      var v := embed(chunks[i].text);
      if v.None? {
        return None;
      }
      chunks := chunks[i := chunks[i].(vector := v)];
    }
    ghost var embedded := EmbedAll(raw, embed);
    assert embedded.Some? && |embedded.value| == |chunks|;
    assert forall j :: 0 <= j < |raw| ==> embedded.value[j] == chunks[j];
    assert embedded.value == chunks;
    return Some(chunks);
  }

  // ---------------------------------------------------------------- the state machine

  /** The load-or-bootstrap block, run on every script run. */
  function LoadOrBootstrap(s: Store, docs: Documents, embed: Embedder): (Store, Startup)
  {
    if s.session.Some? then (s, InSession)
    else if s.file.Some? then (s.(session := s.file), LoadedFromFile)
    else
      var raw := PdfChunks(docs, PdfFiles);
      if raw == [] then (s, NoDocuments)
      else match EmbedAll(raw, embed)
        case None => (s, EmbeddingFailed)
        case Some(index) => (Store(Some(index), Some(index)), Built)
  }

  /** The reindex button: the pickle file is deleted if present; the session keeps its index. */
  function Reindex(s: Store): Store
  {
    s.(file := None)
  }

  /** Loading keeps every stored chunk embedded. */
  lemma LoadOrBootstrapValid(s: Store, docs: Documents, embed: Embedder)
    requires StoreValid(s)
    ensures StoreValid(LoadOrBootstrap(s, docs, embed).0)
  {
    var raw := PdfChunks(docs, PdfFiles);
    var e := EmbedAll(raw, embed);
    if s.session.None? && s.file.None? && raw != [] && e.Some? {
      forall i | 0 <= i < |e.value|
        ensures e.value[i].vector.Some?
      {
        assert e.value[i].vector == embed(raw[i].text);
      }
    }
  }

  /** When the session has no index and the file exists, the session gets the file's
      contents unchanged and the file is left as it was. */
  lemma LoadTakesFileUnchanged(s: Store, docs: Documents, embed: Embedder)
    requires s.session.None? && s.file.Some?
    ensures LoadOrBootstrap(s, docs, embed) == (Store(s.file, s.file), LoadedFromFile)
  {
  }

  /** With neither an index in the session nor a file, indexing stops without writing the
      file exactly when the existing PDFs have no non-empty page. */
  lemma BootstrapStopsWithoutPages(s: Store, docs: Documents, embed: Embedder)
    requires s.session.None? && s.file.None?
    ensures LoadOrBootstrap(s, docs, embed).1 == NoDocuments <==> CountPages(docs, PdfFiles) == 0
    ensures LoadOrBootstrap(s, docs, embed).1 == NoDocuments ==> LoadOrBootstrap(s, docs, embed).0 == s
  {
    ChunkCount(docs, PdfFiles);
  }

  /** A failed start changes nothing, so the next run tries again from the same state. */
  lemma FailedStartChangesNothing(s: Store, docs: Documents, embed: Embedder)
    requires LoadOrBootstrap(s, docs, embed).1 in {NoDocuments, EmbeddingFailed}
    ensures LoadOrBootstrap(s, docs, embed).0 == s && s.file.None? && s.session.None?
  {
  }

  lemma {:induction false} RejoinIgnoresVectors(a: seq<Chunk>, b: seq<Chunk>)
    requires |a| == |b|
    requires forall i :: 0 <= i < |a| ==> a[i].text == b[i].text && a[i].source == b[i].source
    ensures Rejoin(a) == Rejoin(b)
  {
    if |a| >= 2 {
      RejoinIgnoresVectors(a[..|a| - 2], b[..|b| - 2]);
    }
  }

  /** A successful bootstrap saves and installs the same index: the chunks of the PDFs,
      twice as many as their non-empty pages, that glue back pairwise into those pages,
      each with the vector of its own text. */
  lemma BootstrapSavesWhatItInstalls(s: Store, docs: Documents, embed: Embedder)
    requires s.session.None? && s.file.None?
    requires LoadOrBootstrap(s, docs, embed).1 == Built
    ensures var r := LoadOrBootstrap(s, docs, embed).0;
      && r.file.Some? && r.file == r.session
      && |r.file.value| == 2 * CountPages(docs, PdfFiles) > 0
      && Rejoin(r.file.value) == ExtractedPages(docs, PdfFiles)
      && (forall i :: 0 <= i < |r.file.value| ==>
            r.file.value[i].vector.Some? && r.file.value[i].vector == embed(r.file.value[i].text))
  {
    var raw := PdfChunks(docs, PdfFiles);
    var index := EmbedAll(raw, embed).value;
    ChunkCount(docs, PdfFiles);
    ChunkerRoundTrip(docs, PdfFiles);
    RejoinIgnoresVectors(index, raw);
  }

  /** Running the block again changes nothing more. */
  lemma LoadOrBootstrapIdempotent(s: Store, docs: Documents, embed: Embedder)
    ensures var once := LoadOrBootstrap(s, docs, embed).0;
      LoadOrBootstrap(once, docs, embed).0 == once
  {
  }

  /** After reindexing the file is absent, whether or not it existed; pressing again does nothing more. */
  lemma ReindexIdempotent(s: Store)
    ensures Reindex(s).file.None? && Reindex(s).session == s.session
    ensures Reindex(Reindex(s)) == Reindex(s)
  {
  }

  /** A new session after a reindex, with no PDF pages present, stops with no file written. */
  lemma RestartAfterReindexWithoutPages(s: Store, docs: Documents, embed: Embedder)
    requires CountPages(docs, PdfFiles) == 0
    ensures LoadOrBootstrap(Store(Reindex(s).file, None), docs, embed) == (Store(None, None), NoDocuments)
  {
    ChunkCount(docs, PdfFiles);
  }

  /** As written, the reindex button does not rebuild anything in the running session:
      the rerun finds the old index still in the session state, keeps it, and leaves the
      file deleted, whatever documents are now on disk. */
  lemma ReindexKeepsStaleIndex(s: Store, docs: Documents, embed: Embedder)
    requires s.session.Some?
    ensures LoadOrBootstrap(Reindex(s), docs, embed) == (Store(None, s.session), InSession)
  {
  }

  /** The evidently intended reindex: delete the file and drop the session's index too. */
  function ReindexAndReset(s: Store): Store
  {
    Store(None, None)
  }

  /** With the reset, the rerun indexes the documents now on disk afresh, whatever the
      state was before. */
  lemma ResetReindexRebuilds(s: Store, docs: Documents, embed: Embedder)
    requires CountPages(docs, PdfFiles) > 0
    requires forall i :: 0 <= i < |PdfChunks(docs, PdfFiles)| ==> embed(PdfChunks(docs, PdfFiles)[i].text).Some?
    ensures var r := LoadOrBootstrap(ReindexAndReset(s), docs, embed);
      && r.1 == Built
      && r.0.session.Some? && r.0.file == r.0.session
      && Rejoin(r.0.session.value) == ExtractedPages(docs, PdfFiles)
  {
    ChunkCount(docs, PdfFiles);
    BootstrapSavesWhatItInstalls(ReindexAndReset(s), docs, embed);
  }

  // ---------------------------------------------------------------- answering a question

  const SystemPrompt := "Ты аналитик БРК. Отвечай только по тексту. Если нет данных, скажи 'Не найдено'."

  /** The user message sent to the chat service. */
  function UserMessage(context: string, question: string): string
  {
    "Контекст:\n" + context + "\n\nВопрос: " + question
  }

  /** The answer and the labels shown under it. */
  datatype Reply = Reply(answer: string, sources: set<string>)

  /** The chunks chosen for a question: min(4, N) distinct valid indices, best score first,
      none of the others scoring above any of them. */
  ghost predicate Selects(scores: seq<real>, top: seq<nat>)
  {
    && |top| == (if |scores| < TopK then |scores| else TopK)
    && InRange(top, |scores|)
    && Distinct(top)
    && (forall r, q :: 0 <= r < q < |top| ==> scores[top[r]] >= scores[top[q]])
    && (forall j, r :: 0 <= j < |scores| && j !in top && 0 <= r < |top| ==> scores[j] <= scores[top[r]])
  }

  /** The chat call for a selection `top`: the answer with the set of the selected labels,
      or None when the service raises. */
  function ReplyFor(index: seq<Chunk>, question: string, top: seq<nat>, generate: Generator): Option<Reply>
    requires forall r :: 0 <= r < |top| ==> top[r] < |index|
  {
    match generate(SystemPrompt, UserMessage(Context(index, top), question))
    case None => None
    case Some(answer) => Some(Reply(answer, Shown(Sources(index, top))))
  }

  /** The four indices retrieved for a query vector, best first. */
  function Retrieve(index: seq<Chunk>, q: Vector, sim: Similarity): (top: seq<nat>)
    requires Embedded(index)
    ensures forall r :: 0 <= r < |top| ==> top[r] < |index|
  {
    var scores := Scores(q, index, sim);
    TopIndicesShape(scores, ArgSort(scores));
    TopIndices(ArgSort(scores))
  }

  /** One question: embed it, score every chunk, take the top four, ask the chat service
      with their joined texts, and return its answer with the set of their labels. */
  function Respond(index: seq<Chunk>, question: string, embed: Embedder, sim: Similarity, generate: Generator): Option<Reply>
    requires Embedded(index)
  {
    match embed(question)
    case None => None
    case Some(q) => ReplyFor(index, question, Retrieve(index, q, sim), generate)
  }

  /** `rep` answers `question` from a selection `top` of the best chunks: the chat service
      got their texts, joined in rank order, as context, and the labels shown are exactly theirs. */
  ghost predicate AnsweredFrom(index: seq<Chunk>, question: string, generate: Generator, top: seq<nat>, rep: Reply)
    requires InRange(top, |index|)
  {
    && generate(SystemPrompt, UserMessage(Context(index, top), question)) == Some(rep.answer)
    && (forall s :: s in rep.sources <==> exists r :: 0 <= r < |top| && index[top[r]].source == s)
  }

  /** An answer is grounded in the best chunks: some selection of the best min(4, N) chunks
      was the context sent with the question, and the labels shown are exactly theirs
      (so at most four). */
  lemma RespondGrounded(index: seq<Chunk>, question: string, embed: Embedder, sim: Similarity, generate: Generator, rep: Reply)
    requires Embedded(index)
    requires Respond(index, question, embed, sim, generate) == Some(rep)
    ensures embed(question).Some?
    ensures exists top :: Selects(Scores(embed(question).value, index, sim), top) && AnsweredFrom(index, question, generate, top, rep)
    ensures |rep.sources| <= TopK
  {
    var q := embed(question).value;
    var scores := Scores(q, index, sim);
    var order := ArgSort(scores);
    var top := Retrieve(index, q, sim);
    TopIndicesShape(scores, order);
    TopIndicesBeatRest(scores, order);
    assert Selects(scores, top);
    assert rep == Reply(generate(SystemPrompt, UserMessage(Context(index, top), question)).value, Shown(Sources(index, top)));
    ShownSources(index, top);
    assert AnsweredFrom(index, question, generate, top, rep);
  }
}
