/** The record shapes shared by the generator, the store and the UI (src/types.ts). */
module Types {
  import opened Wrappers

  /** A question/answer pair; its position in a sequence is its only identity. */
  datatype Flashcard = Flashcard(question: string, answer: string)

  /**
   * The creation time of a note. Nothing in the modelled code inspects it,
   * so it is kept opaque: a millisecond count standing for a `Date`.
   */
  datatype Instant = Instant(millis: int)

  /**
   * A generated note. `id` is absent until the note store assigns one;
   * `createdAt` is optional as well.
   */
  datatype Note = Note(
    id: Option<string>,
    title: string,
    originalText: string,
    summary: string,
    flashcards: seq<Flashcard>,
    createdAt: Option<Instant>)
}
