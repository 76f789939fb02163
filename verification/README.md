# Smart Notes Generator — verified model of the flashcard parser and the note store

The Smart Notes Generator takes pasted text and asks a hosted language model
for a summary and for question/answer flashcards. It can keep the resulting
notes in browser-local storage. This project models the two parts of it that
carry real logic, and proves properties about them in Dafny.

- **The flashcard parser** (`generateFlashcards`, src/lib/openai.ts). It turns
  the model's free-text reply into an ordered list of `{question, answer}`
  cards. The reply is split on line feeds and each line is trimmed. The lines
  are then scanned with one "pending question" slot:
  - a `Q:` line overwrites the slot;
  - an `A:` line emits a card and clears the slot, but only if the slot is
    non-empty;
  - any other line is ignored.

  When no card comes out, a fixed two-card fallback is returned. Its first
  answer is the first 100 characters of the source text followed by `...`.
  The empty-summary default of `generateSummary` is modelled as well.
- **The note store** (src/lib/storage.ts). A single entry, `smart-notes`,
  holds the whole collection as JSON:
  - `getNotes` reads it, and a missing or unparsable entry reads as no notes;
  - `saveNote` appends the note stamped with `Date.now().toString()` as its id;
  - `deleteNote` keeps only the notes with a different id.

  Each write replaces the whole entry.

Files:

| file | models |
|---|---|
| `wrappers.dfy` | `Option`, for the optional fields |
| `types.dfy` | `Flashcard` and `Note` (src/types.ts) |
| `jsstrings.dfy` | the JavaScript string built-ins used: `trim`, `split('\n')`, `substring(0, n)`, `Number.prototype.toString` |
| `generation.dfy` | src/lib/openai.ts: the scan loop as a method, its specification `Scan`, and the lemmas |
| `storage.dfy` | src/lib/storage.ts: class `NoteStore` with the three operations, and lemmas about the collections they write |

How the parser is specified. `GenerateFlashcards` is the loop as written. It
is proved equal to the function `ParseReply`. `ParseReply` classifies each line
(`Classify`) and folds the loop body (`Step`) over the lines (`Scan`).

`Scan` is checked against an independent definition that has no slot at all.
Under that definition, a line yields a card exactly when (`Emits`):
- it is an `A:` line, and
- the nearest earlier `Q:` or `A:` line is a `Q:` line with a non-empty question.

The card's question is that of the earlier `Q:` line. `ScanIsPairing` proves
that the scan produces exactly these cards, in document order. From this
follow:
- the earlier of two consecutive questions is lost;
- an `A:` line after an `A:` line, or before any `Q:` line, or after a bare
  `Q:` line, yields nothing;
- a trailing `Q:` line adds nothing.

## Model

| member | source | states |
|---|---|---|
| `Generation.GenerateFlashcards` | src/lib/openai.ts:61-97 | the loop over the trimmed lines, with the `currentQuestion` slot and the pushed cards, returns exactly `ParseReply(response, text)`, and the result is never empty |
| `Generation.ParseReply` | src/lib/openai.ts:84-97 | the list returned for a reply is never empty: either the scanned cards or the two fallback cards |
| `Generation.ParseReplyCases` | src/lib/openai.ts:84-97 | the result is the stateless pairing of the lines when some line emits a card, and exactly the fallback when none does |
| `Generation.ParseReplyScanned` | src/lib/openai.ts:96-97 | when the scan finds cards, those very cards are returned |
| `Generation.FallbackShape` | src/lib/openai.ts:85-94 | the fallback is two cards. The first asks for the main topic. Its answer has length min(100, length of the text) + 3, begins with a prefix of the text, and ends with `...`. The second is the fixed "key points" / "Please try regenerating" pair |
| `Generation.Classify` | src/lib/openai.ts:69-74 | how one raw line is read: trimmed, then a `Q:` line gives its trimmed question, otherwise an `A:` line gives its trimmed answer, otherwise nothing. Its properties are stated by `ClassifyMarkers` |
| `Generation.Step` | src/lib/openai.ts:71-80 | one loop iteration: a `Q:` line replaces the pending question; an `A:` line with a non-empty pending question appends a card and clears the slot; anything else changes nothing. `ScanIsPairing` and the lemmas below state what follows from it |
| `Generation.Scan` | src/lib/openai.ts:66-81 | the state after the loop has read the given lines, starting from an empty slot and no cards. `ScanIsPairing` proves it equal to the slot-free `Pairing` |
| `Generation.Fallback` | src/lib/openai.ts:85-94 | the two default cards; their shape is stated by `FallbackShape` |
| `Generation.ClassifyMarkers` | src/lib/openai.ts:69-74 | a line is a question line iff its trimmed text starts with `Q:`, and an answer line iff it starts with `A:`. The two exclude each other, so a `Q:` line is never read as an answer. The remainder after the marker is trimmed and shorter than the line |
| `Generation.ScanIsPairing` | src/lib/openai.ts:66-81 | after any lines, the slot holds the question of the last `Q:`/`A:` line if that is a `Q:` line, and is empty otherwise. The cards are exactly one per emitting `A:` line, in document order, each pairing the pending question with that line's answer |
| `Generation.PairingEmpty` | src/lib/openai.ts:84 | no card is produced if and only if no line emits one |
| `Generation.ScanCardsWellFormed` | src/lib/openai.ts:69-79 | every scanned card has a non-empty question, and its question and answer are trimmed |
| `Generation.ScanOfTrimmedKinds` | src/lib/openai.ts:72-79 | the slot stays trimmed; every card pushed has a non-empty, trimmed question and a trimmed answer |
| `Generation.ScanCountBounds` | src/lib/openai.ts:73-79 | the number of cards is at most the number of `A:` lines. The number of cards, plus one while a question is pending, is at most the number of non-empty `Q:` lines |
| `Generation.ScanExtends` | src/lib/openai.ts:68-81 | cards are only ever appended: the cards of a prefix of the lines are a prefix of the cards of the whole |
| `Generation.NoAnswerNoCard` | src/lib/openai.ts:71-81 | lines with no `A:` line among them add no card, so a trailing `Q:` line is dropped |
| `Generation.AnswerWithoutQuestionDropped` | src/lib/openai.ts:73 | an `A:` line read while the slot is empty changes nothing |
| `Generation.LaterQuestionOverwrites` | src/lib/openai.ts:71-72 | after two consecutive `Q:` lines the slot holds the second question, and no card was added |
| `Generation.ParseRendered` | src/lib/openai.ts:65-81 | a reply made of one `Q: <question>` line directly followed by its `A: <answer>` line per card, with no blank lines, parses back to exactly its cards, in order. Questions are non-empty, and both parts are trimmed and contain no line feed |
| `Generation.ParseSpaced` | src/lib/openai.ts:48-81 | a reply in the prompt's own layout, a `Q:` line and an `A:` line per card with a blank line between cards, parses back to exactly its cards, in order |
| `Generation.OtherLineIgnored` | src/lib/openai.ts:71-81 | a line that is neither a `Q:` nor an `A:` line, such as a blank line, leaves the scan exactly as if it were absent |
| `Generation.ClassifyQuestionLine` | src/lib/openai.ts:71-72 | `Q: ` followed by a trimmed question, possibly empty, reads as that question |
| `Generation.EmptyQuestionClearsSlot` | src/lib/openai.ts:71-73 | a `Q:` line with an empty question replaces the pending question with nothing, so the `A:` line after it yields no card and the slot stays empty |
| `Generation.ClassifyAnswerLine` | src/lib/openai.ts:73-74 | `A: ` followed by a trimmed answer, possibly empty, reads as that answer |
| `Generation.ScanRendered` | src/lib/openai.ts:68-81 | scanning one question line and one answer line per card, in order, yields those cards and leaves the slot empty |
| `Generation.TrailingQuestionDropped` | src/lib/openai.ts:65-97 | a reply of `Q:`/`A:` line pairs followed by a `Q:` line that never gets its `A:` line (a reply cut off mid-card) parses to exactly the complete cards |
| `Generation.TrailingQuestionExample` | src/lib/openai.ts:65-97 | `"Q: What is X?\nA: X is a thing.\nQ: incomplete"` yields the single card `{What is X?, X is a thing.}` |
| `Generation.SummaryOrDefault` | src/lib/openai.ts:38-39 | the summary is never empty. A non-empty reply is kept as it is, and an empty one becomes "Failed to generate summary" |
| `JsStrings.IsWhitespace` | src/lib/openai.ts:69 | the characters `trim` strips: the ECMAScript WhiteSpace and LineTerminator code points (tab, line feed, vertical tab, form feed, carriage return, space, no-break space, the Unicode space separators, line and paragraph separator, byte order mark) |
| `JsStrings.Trim` | src/lib/openai.ts:69 | `String.prototype.trim`, used on each line and on the text after a marker: leading then trailing whitespace removed. Its contract is stated by `TrimSpec` |
| `JsStrings.TrimStart` | src/lib/openai.ts:69 | the leading-whitespace half of `trim`; its contract is stated by `TrimStartSpec` |
| `JsStrings.TrimEnd` | src/lib/openai.ts:69 | the trailing-whitespace half of `trim`; its contract is stated by `TrimEndSpec` |
| `JsStrings.TrimSpec` | src/lib/openai.ts:69 | the result of `trim` is trimmed and no longer than its input, and a trimmed string is left unchanged, so trimming is idempotent |
| `JsStrings.TrimStartSpec` | src/lib/openai.ts:69 | the result is a suffix of the input, everything dropped is whitespace, and it does not start with whitespace |
| `JsStrings.TrimEndSpec` | src/lib/openai.ts:69 | the result is a prefix of the input, everything dropped is whitespace, and it does not end with whitespace |
| `JsStrings.Split` | src/lib/openai.ts:65 | `split('\n')` yields at least one line and no line contains a line feed |
| `JsStrings.JoinSplit` | src/lib/openai.ts:65 | joining the split lines with line feeds gives back the reply, so no text is lost |
| `JsStrings.SplitJoin` | src/lib/openai.ts:65 | splitting lines joined by line feeds gives back the lines, when none of them contains a line feed |
| `JsStrings.Take` | src/lib/openai.ts:88 | `substring(0, n)` is a prefix of the text of length min(n, length) |
| `JsStrings.DecimalString` | src/lib/storage.ts:8 | `Date.now().toString()` is a non-empty string of decimal digits |
| `JsStrings.DecimalStringInjective` | src/lib/storage.ts:8 | different clock readings give different ids |
| `Storage.ReadNotes` | src/lib/storage.ts:16-23 | what `getNotes` yields for an entry: the stored notes, or none for a missing or unparsable entry. `NoteStore.GetNotes` is proved to return it |
| `Storage.NoteStore.GetNotes` | src/lib/storage.ts:16-24 | returns the stored notes, and returns no notes when the entry is absent or unparsable; the failure is not propagated |
| `Storage.NoteStore.SaveNote` | src/lib/storage.ts:5-14 | on an accepted write, the entry becomes the notes `getNotes` saw followed by the stamped note: one more note, with the old ones unchanged and in order. A missing or unreadable entry is overwritten by a one-note collection. On a refused write, the entry is unchanged and "Failed to save note" is reported |
| `Storage.NoteStore.DeleteNote` | src/lib/storage.ts:26-35 | on an accepted write, the entry becomes the readable notes without those carrying the id, and no stored note has that id. On a refused write, the entry is unchanged and "Failed to delete note" is reported |
| `Storage.Stamped` | src/lib/storage.ts:8 | the saved note carries a non-empty all-digit id, which replaces any id the note had, and equals the input in every other field |
| `Storage.WithoutId` | src/lib/storage.ts:29 | `notes.filter(note => note.id !== id)`; its contract is stated by `WithoutIdSpec` and `DeleteKeepsOthersInOrder` |
| `Storage.WithoutIdSpec` | src/lib/storage.ts:29 | no kept note has the id; every note with another id or with no id is kept; every kept note comes from the input, so nothing is added |
| `Storage.DeleteKeepsOthersInOrder` | src/lib/storage.ts:29 | the survivors are a subsequence of the old notes, in their original order, and exactly the notes carrying the id are missing |
| `Storage.DeleteAbsentId` | src/lib/storage.ts:29 | deleting an id no note carries leaves the collection unchanged |
| `Storage.DeleteIdempotent` | src/lib/storage.ts:29 | deleting twice is deleting once |
| `Storage.DeleteAppend` | src/lib/storage.ts:29 | the filter distributes over concatenation |
| `Storage.DeleteRemovesDuplicates` | src/lib/storage.ts:8-9 | two notes saved at the same clock reading share an id, and deleting that id removes both |
| `Storage.SaveThenDelete` | src/lib/storage.ts:5-35 | deleting a just-saved note by its new id gives the same result as deleting that id before the save. When no older note had that id, this is the collection before the save |
| `Storage.SaveTwoDeleteFirst` | src/lib/storage.ts:5-35 | saving two notes at different clock readings into an empty store and deleting the first by its id leaves exactly the second |

## Left out

- The Hugging Face request (`generateHuggingFaceResponse`, src/lib/openai.ts:9-28) is network I/O through a foreign library. `ParseReply` and `GenerateFlashcards` take the string it returns as a parameter. The same goes for the reply given to `SummaryOrDefault`.
- The prompt templates (src/lib/openai.ts:32-36, 48-59) are fixed text sent over the network. Their `Q:`/`A:` layout, with a blank line between pairs, is the reply shape of `ParseSpaced`. `ParseRendered` and `TrailingQuestionDropped` use the same lines without the blank lines.
- The `try`/`catch` blocks that log and rethrow a fixed message in `generateSummary` and `generateFlashcards` are not modelled. The parser itself never throws, so only failures of the network request reach them.
- `console.error` logging is left out.
- src/App.tsx is not part of this model. It holds React UI state, toasts, the concurrent `Promise.all` join of the two requests, and the blank title and text checks.
- src/lib/export.ts is not part of this model. Its line wrapping depends on font metrics of the PDF library, and saving the PDF is file I/O.
- JSON serialization is not modelled; an entry that reads back holds the notes that were written. A `createdAt` date therefore comes back as a `Date` in the model, while the real code gets a string after the JSON round trip. Its value is opaque.
- `GetNotes`: stored text that parses to something other than an array is treated like unparsable text. In the model, `getNotes` then returns no notes, `saveNote` writes a one-note collection, and `deleteNote` writes an empty collection and succeeds. The real `getNotes` returns the parsed value itself. `saveNote` then throws "Failed to save note" when that value cannot be spread (`null`, a number, a boolean, a plain object); for a JSON string it writes the string's characters followed by the note. `deleteNote` throws "Failed to delete note" for every non-array value, because it has no `filter` method. The model's `Note` type cannot hold such values.
- `Date.now()` is a parameter (`now`), and so is whether the browser accepts a write (`writeAccepted`). Writes can be refused, for example when the storage quota is exceeded. `DecimalString` covers the plain decimal form of `toString`, which is what millisecond clock readings produce.
- JavaScript strings are UTF-16. The model counts Unicode characters, so `substring(0, 100)` in `Take` counts characters where the real code counts UTF-16 code units. Text with characters outside the Basic Multilingual Plane can be cut at a different place, or in the middle of a surrogate pair.

Two behaviours of the store are easy to miss, and the model keeps both:
- Ids are not unique. Two saves in the same millisecond get the same id, and
  `deleteNote` then removes every note with that id (`DeleteRemovesDuplicates`).
- Every note with the id is deleted, not just one.
