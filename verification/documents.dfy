/**
  The records that travel between the popup and the background worker.
 */
module Documents {

  /** An embedding as produced by the model: a fixed-length vector. */
  type Vector = seq<real>

  datatype Option<T> = None | Some(value: T)

  /** The outcome of a call that may throw; the error is the thrown value
      already converted with `String(err)`. */
  datatype Result<T> = Success(value: T) | Failure(error: string)

  /** One paragraph or heading scraped from the page: the class added to the
      element so it can be found again, its tag name (`p`, `h1` … `h6`), its
      text content and its position among the scraped elements. */
  datatype Fragment = Fragment(refClass: string, tag: string, text: string, index: int)

  /** `{ ...doc, embedding }`: a fragment with the vector computed for its text. */
  datatype EmbeddedDoc = EmbeddedDoc(doc: Fragment, embedding: Vector)

  /** `{ ...candidate, score }`: an embedded fragment with its similarity to
      the query. */
  datatype ScoredDoc = ScoredDoc(candidate: EmbeddedDoc, score: real)
}
