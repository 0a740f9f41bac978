/** Values shared by every stage of the extraction pipeline. */
module Types {

  datatype Option<+T> = None | Some(value: T)

  datatype Result<+T, +E> = Success(value: T) | Failure(error: E)

  /** One per-keyword result: the keyword, the matched phrase or entity text, and its score.
      Semantic matches and entity matches share this shape. */
  datatype Match = Match(keyword: string, matched: string, score: real)

  /** A named entity reported by the recogniser: its type tag and its text.
      A missing type tag is represented by the empty string. */
  datatype Entity = Entity(etype: string, text: string)
}
