/** Values shared by the document assistant: optional values and the indexed chunk. */
module Common {

  /** A value that may be missing: an absent file, an unset session key, a failed service call. */
  datatype Option<+T> = None | Some(value: T)

  /** An embedding vector as returned by the embedding service. */
  type Vector = seq<real>

  /** One indexed unit: half of one page's text, its "<file>, стр. <n>" label and,
      once the embedding service has been called for it, its vector. */
  datatype Chunk = Chunk(text: string, source: string, vector: Option<Vector>)

  /** Every chunk of an index carries a vector (what the similarity loop reads). */
  predicate Embedded(index: seq<Chunk>)
  {
    forall i :: 0 <= i < |index| ==> index[i].vector.Some?
  }
}
