/** The assistant tab's session: the index file on disk, the index held in the session
    state, and the chat transcript, all updated in place by the tab's script runs. */
module Assistant {
  import opened Common
  import opened PdfChunker
  import opened Retrieval
  import opened Orchestrator

  datatype Role = User | Assistant

  /** One entry of the transcript: {"role": ..., "content": ...}. */
  datatype Turn = Turn(role: Role, content: string)

  /** Turns alternate user, assistant, user, assistant, ... */
  ghost predicate Alternating(transcript: seq<Turn>)
  {
    forall i :: 0 <= i < |transcript| ==> transcript[i].role == (if i % 2 == 0 then User else Assistant)
  }

  /** A question with its answer keeps the transcript alternating. */
  lemma ExchangeKeepsAlternating(transcript: seq<Turn>, question: string, answer: string)
    requires Alternating(transcript) && |transcript| % 2 == 0
    ensures var t := transcript + [Turn(User, question), Turn(Assistant, answer)];
      Alternating(t) && |t| % 2 == 0
  {
    var t := transcript + [Turn(User, question), Turn(Assistant, answer)];
    forall i | 0 <= i < |t|
      ensures t[i].role == (if i % 2 == 0 then User else Assistant)
    {
      if i >= |transcript| {
        assert i == |transcript| || i == |transcript| + 1;
      }
    }
  }

  class Session {
    /** The pickle file vector_db.pkl: absent, or the index it holds. */
    var dbFile: Option<seq<Chunk>>
    /** st.session_state.db_chunks: unset, or the index in use. */
    var dbChunks: Option<seq<Chunk>>
    /** st.session_state.messages. */
    var messages: seq<Turn>

    function State(): Store
      reads this
    {
      Store(dbFile, dbChunks)
    }

    ghost predicate Valid()
      reads this
    {
      StoreValid(State())
    }

    /** A fresh session over the file as it is on disk; the transcript starts empty. */
    constructor (persisted: Option<seq<Chunk>>)
      requires persisted.Some? ==> Embedded(persisted.value)
      ensures Valid()
      ensures dbFile == persisted && dbChunks == None && messages == []
    {
      dbFile := persisted;
      dbChunks := None;
      messages := [];
    }

    /** The load-or-bootstrap block at the top of the tab. */
    method Start(docs: Documents, embed: Embedder) returns (outcome: Startup)
      requires Valid()
      modifies this
      ensures Valid()
      ensures (State(), outcome) == LoadOrBootstrap(old(State()), docs, embed)
      ensures messages == old(messages)
    {
      LoadOrBootstrapValid(State(), docs, embed);
      if dbChunks.Some? {
        return InSession;
      }
      if dbFile.Some? {
        dbChunks := dbFile;
        return LoadedFromFile;
      }
      var raw := GetPdfChunks(docs, PdfFiles);
      if raw == [] {
        return NoDocuments;
      }
      var index := AttachVectors(raw, embed);
      if index.None? {
        return EmbeddingFailed;
      }
      dbFile := index;
      dbChunks := index;
      return Built;
    }

    /** The reindex button: the file is removed if present, then the script reruns. */
    method Reindex()
      requires Valid()
      modifies this
      ensures Valid()
      ensures State() == Orchestrator.Reindex(old(State()))
      ensures dbFile.None? && dbChunks == old(dbChunks) && messages == old(messages)
    {
      if dbFile.Some? {
        dbFile := None;
      }
    }

    /** One submitted prompt: the user turn is appended first; if both services answer, the
        assistant turn follows. A service failure leaves only the user turn; an empty prompt
        is not a submission and changes nothing. */
    method Ask(prompt: string, embed: Embedder, sim: Similarity, generate: Generator) returns (reply: Option<Reply>)
      requires Valid() && dbChunks.Some?
      modifies this
      ensures Valid() && State() == old(State())
      ensures reply == if prompt == "" then None else Respond(dbChunks.value, prompt, embed, sim, generate)
      ensures prompt == "" ==> messages == old(messages)
      ensures prompt != "" ==>
                messages == old(messages) + [Turn(User, prompt)]
                            + (if reply.Some? then [Turn(Assistant, reply.value.answer)] else [])
      ensures reply.Some? && Alternating(old(messages)) && |old(messages)| % 2 == 0 ==>
                Alternating(messages) && |messages| % 2 == 0
    {
      if prompt == "" {
        return None;
      }
      messages := messages + [Turn(User, prompt)];
      var index := dbChunks.value;
      var query := embed(prompt);
      if query.None? {
        return None;
      }
      var scores := ScoreAll(query.value, index, sim);
      var order := ArgSort(scores);
      var top := TopIndices(order);
      assert top == Retrieve(index, query.value, sim);
      var context := Context(index, top);
      var sources := Sources(index, top);
      var answer := generate(SystemPrompt, UserMessage(context, prompt));
      if answer.None? {
        return None;
      }
      reply := Some(Reply(answer.value, Shown(sources)));
      assert reply == ReplyFor(index, prompt, top, generate);
      if Alternating(old(messages)) && |old(messages)| % 2 == 0 {
        ExchangeKeepsAlternating(old(messages), prompt, answer.value);
      }
      messages := messages + [Turn(Assistant, answer.value)];
      assert messages == old(messages) + [Turn(User, prompt), Turn(Assistant, answer.value)];
    }
  }
}
