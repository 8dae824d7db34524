# Document assistant of the development-bank dashboard, in Dafny

This project models the "AI analyst" tab of the dashboard (`app.py`, lines 515-621).
The tab answers questions about two PDF reports. It works in four steps:

- It cuts every page of the PDFs into two halves ("chunks"), each labelled
  `"<file>, стр. <page>"`.
- It attaches an embedding vector to every chunk.
- It keeps the resulting index in a pickle file and in the Streamlit session state.
- For each question it picks the four best-scoring chunks, joins their texts into a
  context for the chat model, and shows the answer with the set of their labels in an
  append-only transcript.

Modules, one per component:

- `common.dfy` (`Common`): `Option`, the `Chunk` record (text, source label, optional
  vector), and `Embedded`, which says that every chunk of an index carries a vector.
- `chunker.dfy` (`PdfChunker`): `get_pdf_chunks` as a specification function
  (`PdfChunks`) and as the nested loop that appends chunks (`GetPdfChunks`). Also the
  page labels, and the inverse that glues the halves back into pages (`Rejoin`).
- `retrieval.dfy` (`Retrieval`): the similarity loop, an argsort, the top-4 selection
  (`np.argsort(...)[-4:][::-1]`), `"\n\n".join`, the index-aligned source list and `set(sources)`.
- `orchestrator.dfy` (`Orchestrator`): the in-place embedding loop, and the
  load-or-bootstrap block and the reindex button as transitions of a `Store` value (file,
  session index). Also one question answered from an index (`Respond`).
- `session.dfy` (`Assistant`): the class `Session`. Its fields are the pickle file, the
  session's index and the transcript, updated in place by `Start`, `Reindex` and `Ask`.
  Each method is proved equal to the `Orchestrator` function for its step.

The outside world comes in as parameters:

- The PDFs on disk: a map from file name to page texts.
- The pickle file: an optional index value.
- The embedding service: `string -> Option<Vector>`. `None` stands for the call raising.
- The chat service: `(system, user) -> Option<string>`.
- Cosine similarity: `(Vector, Vector) -> real`.

Where the code and its design description differ, the model follows the code:

- Only pages whose extracted text is exactly `""` are skipped (`if text:`), so a page of
  spaces is indexed. A one-character page gives an empty first half.
- Labels use the word `стр.` (`"<file>, стр. <n>"`), with pages counted from 1.
- Retrieval over an empty index does not fail. The selection is simply empty and the chat
  model is asked with an empty context.
- `np.argsort` is not stable, so the order among equal scores is not fixed. The top-4
  lemmas hold for every ascending permutation (`IsArgsort`). `ArgSort` is one such
  permutation, used to make `Respond` concrete.
- A failed bootstrap (no chunks, or an embedding error) writes nothing and leaves the
  session without an index.
- The reindex button deletes the file but leaves the session's index in place (see Findings).
- The user turn is appended before the services are called. A failing service therefore
  leaves the user turn without an assistant turn.

## Model

| member | source | states |
|---|---|---|
| `PdfChunker.GetPdfChunks` | app.py:520-531 | the nested loop over files and pages returns exactly `PdfChunks(docs, filenames)`: missing files and empty pages skipped, each other page appended as text[:mid] then text[mid:] under the page's label |
| `PdfChunker.ChunksAreHalvesOfPages` | app.py:522-530 | the chunks are the non-empty pages of the existing files, in file order, then page order. Page p gives chunks 2p and 2p+1, which carry the page's label, have no vector yet, concatenate back to the page text, and the first has length len // 2 |
| `PdfChunker.ChunkerRoundTrip` | app.py:526-530 | gluing the chunks back pairwise (`Rejoin`) gives exactly the labelled non-empty pages of the existing files |
| `PdfChunker.RejoinHalves` | app.py:528-530 | any sequence of page halves glues back into its pages |
| `PdfChunker.ChunkCount` | app.py:523-527 | the number of chunks is twice the number of non-empty pages of existing files, counted independently |
| `PdfChunker.NonEmptyPagesCount` | app.py:525-527 | the labelled non-empty pages of a file are as many as its non-empty page texts |
| `PdfChunker.PagesHalves` | app.py:525-530 | the pages of one file, cut in two and labelled, are the halves of its non-empty pages |
| `PdfChunker.LabelInjective` | app.py:529-530 | two different pages of one file never get the same label `"<file>, стр. <i+1>"` |
| `PdfChunker.DecimalRoundTrip` | app.py:529 | the page number written into a label reads back as the same number |
| `PdfChunker.Decimal` | app.py:529 | the page number in a label is a non-empty string of decimal digits |
| `PdfChunker.FourLetterPage` | app.py:526-530 | a file whose one page reads "AAAA" gives two chunks "AA", both labelled `"Report.pdf, стр. 1"` |
| `Retrieval.ScoreAll` | app.py:592-599 | the similarity loop appends one score per stored chunk: score i is the similarity of the query vector with chunk i's vector |
| `Retrieval.Insert` | app.py:601 | inserting an index into an ascending order keeps it ascending and adds exactly that index (multiset) |
| `Retrieval.ArgSortPrefix` | app.py:601 | its multiset is exactly the indices 0..n-1, each once, and scores never decrease from one entry to the next |
| `Retrieval.ArgSort` | app.py:601 | the result is a permutation of 0..N-1 along which scores never decrease, which is what `np.argsort` returns |
| `Retrieval.TopIndices` | app.py:601 | `order[-4:][::-1]` has min(4, len) entries |
| `Retrieval.TopIsTail` | app.py:601 | entry r of the selection is entry len-1-r of the order: the last four, best first |
| `Retrieval.TopIndicesShape` | app.py:601 | for any argsort, the selection has min(4, N) distinct indices, all below N, with non-increasing scores |
| `Retrieval.TopIndicesBeatRest` | app.py:601 | no unselected chunk scores above any selected chunk |
| `Retrieval.JoinLength` | app.py:602 | a join is as long as its parts plus one separator between each two |
| `Retrieval.JoinParts` | app.py:602 | each part of `sep.join(parts)` stands at its offset, in order |
| `Retrieval.JoinSeparators` | app.py:602 | exactly the separator stands between two consecutive parts of a join |
| `Retrieval.ContextLayout` | app.py:602 | the context holds the r-th selected chunk's full text as its r-th block, consecutive blocks separated by `"\n\n"` |
| `Retrieval.ShownSources` | app.py:603-618 | the labels shown under the answer are exactly the labels of the selected chunks, and there are at most as many as selected chunks |
| `Retrieval.ShownBound` | app.py:618 | `set(sources)` has at most as many labels as the list |
| `Orchestrator.AttachVectors` | app.py:558-560 | the loop gives each chunk the vector of its own text, in place, keeping text and label. It gives no index if any embedding call fails |
| `Orchestrator.LoadTakesFileUnchanged` | app.py:538-543 | with no index in the session and the file present, the session gets the file's contents unchanged and the file stays as it is |
| `Orchestrator.BootstrapStopsWithoutPages` | app.py:552-556 | with neither session index nor file, the block stops without writing the file exactly when the existing PDFs have no non-empty page |
| `Orchestrator.FailedStartChangesNothing` | app.py:554-560 | a stopped or failed bootstrap leaves file and session index as they were (both absent) |
| `Orchestrator.BootstrapSavesWhatItInstalls` | app.py:552-566 | a successful bootstrap saves and installs the same index: 2 × (non-empty pages) chunks that glue back into the pages, each with the vector of its own text |
| `Orchestrator.LoadOrBootstrapValid` | app.py:538-566 | loading or bootstrapping keeps every stored chunk embedded |
| `Orchestrator.LoadOrBootstrapIdempotent` | app.py:538 | running the block again on its own result changes nothing |
| `Orchestrator.ReindexIdempotent` | app.py:570-573 | after the button the file is absent, whether or not it existed, and the session index is untouched. Pressing it twice is the same as once |
| `Orchestrator.RestartAfterReindexWithoutPages` | app.py:538-573 | a new session after a reindex, with no PDF pages present, stops with no file written |
| `Orchestrator.ReindexKeepsStaleIndex` | app.py:538-573 | as written, the rerun after the button keeps the session's old index and leaves the file deleted, whatever PDFs are on disk |
| `Orchestrator.ResetReindexRebuilds` | app.py:570-573 | with the session index dropped as well, the rerun rebuilds the index from the PDFs now on disk and saves it |
| `Orchestrator.Retrieve` | app.py:592-601 | the retrieved indices are valid positions of the index |
| `Orchestrator.RespondGrounded` | app.py:590-618 | an answer comes from the chat service called with the context of a best-min(4, N) selection, and its shown labels are exactly those of that selection (at most 4) |
| `Assistant.ExchangeKeepsAlternating` | app.py:584-621 | a question with its answer keeps the transcript alternating user, assistant |
| `Assistant.Session.constructor` | app.py:576-577 | a new session has the file as on disk, no index, and an empty transcript |
| `Assistant.Session.Start` | app.py:538-567 | the load-or-bootstrap block updates file and session index as `LoadOrBootstrap` says, and leaves the transcript alone |
| `Assistant.Session.Reindex` | app.py:570-573 | the file is absent afterwards; session index and transcript unchanged |
| `Assistant.Session.Ask` | app.py:583-621 | an empty prompt changes nothing. Otherwise the user turn is appended, then the assistant turn exactly when both services answer, and the earlier turns stay as they were. The reply is `Respond` on the session's index, file and index are unchanged, and an alternating even transcript stays alternating |

## Left out

- Tabs 1-4 of the dashboard (app.py:70-494): tables, charts and the random simulation. They are display logic and floating-point numerics.
- Cosine similarity (app.py:595-598) is the parameter `sim`, so NaN scores and zero-norm vectors are not modelled. Scores are `real`, not floats.
- The OpenAI embedding and chat calls (app.py:534-535, 605-614) are parameters that answer or fail. A reply whose content is `None` is not modelled.
- The API key lookup (app.py:12-33) and all Streamlit rendering (headers, spinners, messages, replaying the transcript) are not modelled. `st.stop` is the outcome `NoDocuments`, and `st.rerun` is the next call of `Session.Start`.
- PDF text extraction is a map from file name to page texts. The pickle file is an optional index value, so a corrupt or foreign pickle, and a non-atomic write, are not modelled.
- Assistant.Session.Ask: requires every stored chunk to carry a vector (`Valid`). A pickle file written by something else, with chunks lacking `"vector"`, would make the source raise `KeyError`, and that case is not modelled.
- Retrieval.ArgSort: it is one stable argsort. `np.argsort` may order ties differently, so the selection lemmas are stated for every order that `IsArgsort` admits.
- Several sessions sharing the one pickle file at the same time is not modelled.

## Findings

| source | as written | input that shows it | evidently intended | confidence | as-written member | corrected member |
|---|---|---|---|---|---|---|
| app.py:570-573 | the button deletes the file and reruns the script, but `db_chunks` stays in the session state. The rerun therefore skips loading and indexing, and the session keeps answering from the old index until a new session starts | a session with an index loaded, then the button pressed after new PDFs were added | the rerun indexes the PDFs now on disk (the comment on line 569 says the button is for when files were added), i.e. the session index is dropped too | medium, not executed | `Orchestrator.ReindexKeepsStaleIndex` | `Orchestrator.ResetReindexRebuilds` |
