/**
 * The note store (src/lib/storage.ts): one browser-local entry under the key
 * `smart-notes` holding the whole collection of notes as JSON. Every operation
 * reads the whole collection, builds a new one and writes it back whole.
 *
 * The entry is modelled by what reading it yields: nothing stored, text that
 * does not parse, or a sequence of notes. The clock reading behind a fresh id
 * and whether the browser accepts a write are parameters.
 */
module Storage {
  import opened Wrappers
  import opened Types
  import opened JsStrings

  const SaveFailedMessage := "Failed to save note"
  const DeleteFailedMessage := "Failed to delete note"

  /** The `smart-notes` entry, as reading and parsing it sees it. */
  datatype Entry = Absent | Unparsable | Holds(notes: seq<Note>)

  /** The outcome of a write: done, or the error the operation throws. */
  datatype Outcome = Done | Failed(message: string)

  /** What `getNotes` returns for an entry: a missing or unreadable entry reads as no notes. */
  function ReadNotes(e: Entry): seq<Note> {
    if e.Holds? then e.notes else []
  }

  /** `{ ...note, id: Date.now().toString() }` for the clock reading `now`. */
  function Stamped(note: Note, now: nat): (saved: Note)
    ensures saved.id.Some? && saved.id.value != ""
    ensures forall k :: 0 <= k < |saved.id.value| ==> '0' <= saved.id.value[k] <= '9'
    ensures saved.(id := note.id) == note
  {
    note.(id := Some(DecimalString(now)))
  }

  /** `notes.filter(note => note.id !== id)` (see WithoutIdSpec). */
  function WithoutId(notes: seq<Note>, id: string): seq<Note> {
    if notes == [] then []
    else (if notes[0].id == Some(id) then [] else [notes[0]]) + WithoutId(notes[1..], id)
  }

  /**
   * No kept note has the id; every note with another id, or with no id, is
   * kept; every kept note comes from the input, so nothing is added.
   */
  lemma {:induction false} WithoutIdSpec(notes: seq<Note>, id: string)
    ensures forall n :: n in WithoutId(notes, id) ==> n.id != Some(id)
    ensures forall n :: n in notes && n.id != Some(id) ==> n in WithoutId(notes, id)
    ensures forall n :: n in WithoutId(notes, id) ==> n in notes
    ensures |WithoutId(notes, id)| <= |notes|
  {
    if notes != [] {
      WithoutIdSpec(notes[1..], id);
      var head := if notes[0].id == Some(id) then [] else [notes[0]];
      var rest := WithoutId(notes[1..], id);
      assert WithoutId(notes, id) == head + rest;
      forall n | n in notes && n.id != Some(id)
        ensures n in WithoutId(notes, id)
      {
        if n != notes[0] {
          assert n in notes[1..];
        }
      }
    }
  }

  /** The notes that carry `id`. */
  function CountWithId(notes: seq<Note>, id: string): nat {
    if notes == [] then 0
    else (if notes[0].id == Some(id) then 1 else 0) + CountWithId(notes[1..], id)
  }

  /** `a` can be obtained from `b` by deleting elements, keeping the order of the rest. */
  predicate IsSubsequence(a: seq<Note>, b: seq<Note>)
    decreases |b|
  {
    if a == [] then true
    else if b == [] then false
    else if a[0] == b[0] then IsSubsequence(a[1..], b[1..])
    else IsSubsequence(a, b[1..])
  }

  class NoteStore {
    var entry: Entry

    constructor (initial: Entry)
      ensures entry == initial
    {
      entry := initial;
    }

    /** `getNotes`: the stored notes, or none when the entry is missing or does not parse. */
    method GetNotes() returns (notes: seq<Note>)
      ensures notes == ReadNotes(entry)
      ensures entry.Holds? ==> notes == entry.notes
      ensures !entry.Holds? ==> notes == []
    {
      match entry
      case Holds(stored) => notes := stored;
      case _ => notes := [];
    }

    /**
     * `saveNote`: append the note, stamped with a fresh id, to what `getNotes`
     * returns and write the collection back. When the browser refuses the write
     * the entry is unchanged and the operation fails.
     */
    method SaveNote(note: Note, now: nat, writeAccepted: bool) returns (outcome: Outcome)
      modifies this
      ensures outcome == if writeAccepted then Done else Failed(SaveFailedMessage)
      ensures writeAccepted ==> entry == Holds(old(ReadNotes(entry)) + [Stamped(note, now)])
      ensures writeAccepted && !old(entry).Holds? ==> entry == Holds([Stamped(note, now)])
      ensures !writeAccepted ==> entry == old(entry)
    {
      var existingNotes := GetNotes();
      var updatedNotes := existingNotes + [note.(id := Some(DecimalString(now)))];
      if writeAccepted {
        entry := Holds(updatedNotes);
        outcome := Done;
      } else {
        outcome := Failed(SaveFailedMessage);
      }
    }

    /**
     * `deleteNote`: keep the notes whose id differs from `id` and write the
     * collection back. When the browser refuses the write the entry is
     * unchanged and the operation fails.
     */
    method DeleteNote(id: string, writeAccepted: bool) returns (outcome: Outcome)
      modifies this
      ensures outcome == if writeAccepted then Done else Failed(DeleteFailedMessage)
      ensures writeAccepted ==> entry == Holds(WithoutId(old(ReadNotes(entry)), id))
      ensures writeAccepted ==> forall n :: n in entry.notes ==> n.id != Some(id)
      ensures !writeAccepted ==> entry == old(entry)
    {
      var notes := GetNotes();
      var updatedNotes := WithoutId(notes, id);
      WithoutIdSpec(notes, id);
      if writeAccepted {
        entry := Holds(updatedNotes);
        outcome := Done;
      } else {
        outcome := Failed(DeleteFailedMessage);
      }
    }
  }

  // ---------------------------------------------------------------------------
  // Properties of the collections the operations write.

  /**
   * Deleting keeps exactly the notes with another id, in their original order:
   * the survivors are a subsequence of the old notes, and only the notes that
   * carry the id are missing. Notes without an id always survive.
   */
  lemma {:induction false} DeleteKeepsOthersInOrder(notes: seq<Note>, id: string)
    ensures IsSubsequence(WithoutId(notes, id), notes)
    ensures |WithoutId(notes, id)| == |notes| - CountWithId(notes, id)
  {
    if notes != [] {
      DeleteKeepsOthersInOrder(notes[1..], id);
      var rest := WithoutId(notes[1..], id);
      if notes[0].id != Some(id) {
        assert ([notes[0]] + rest)[1..] == rest;
      } else {
        assert [] + rest == rest;
        assert WithoutId(notes, id) == rest;
        SubsequenceOfTail(rest, notes);
      }
    }
  }

  lemma {:induction false} SubsequenceOfTail(a: seq<Note>, b: seq<Note>)
    requires b != []
    requires IsSubsequence(a, b[1..])
    ensures IsSubsequence(a, b)
    decreases |b|, 1
  {
    if a != [] && a[0] == b[0] {
      SubsequenceDropFirst(a, b[1..]);
    }
  }

  lemma {:induction false} SubsequenceDropFirst(a: seq<Note>, b: seq<Note>)
    requires a != []
    requires IsSubsequence(a, b)
    ensures IsSubsequence(a[1..], b)
    decreases |b|, 2
  {
    if b != [] {
      if a[0] == b[0] {
        SubsequenceOfTail(a[1..], b);
      } else {
        SubsequenceDropFirst(a, b[1..]);
        SubsequenceOfTail(a[1..], b);
      }
    }
  }

  /** Deleting an id that no note carries leaves the collection as it was. */
  lemma {:induction false} DeleteAbsentId(notes: seq<Note>, id: string)
    requires forall n :: n in notes ==> n.id != Some(id)
    ensures WithoutId(notes, id) == notes
  {
    if notes != [] {
      assert notes[0] in notes;
      assert forall n :: n in notes[1..] ==> n in notes;
      DeleteAbsentId(notes[1..], id);
      assert [notes[0]] + notes[1..] == notes;
    }
  }

  /** Deleting twice is deleting once. */
  lemma DeleteIdempotent(notes: seq<Note>, id: string)
    ensures WithoutId(WithoutId(notes, id), id) == WithoutId(notes, id)
  {
    WithoutIdSpec(notes, id);
    DeleteAbsentId(WithoutId(notes, id), id);
  }

  /** Deleting from two blocks of notes is deleting from each. */
  lemma {:induction false} DeleteAppend(a: seq<Note>, b: seq<Note>, id: string)
    ensures WithoutId(a + b, id) == WithoutId(a, id) + WithoutId(b, id)
  {
    if a == [] {
      assert a + b == b;
    } else {
      assert (a + b)[0] == a[0];
      assert (a + b)[1..] == a[1..] + b;
      DeleteAppend(a[1..], b, id);
    }
  }

  /**
   * Every note that carries the id goes, not only the first: two notes saved
   * at the same clock reading share an id, and deleting it removes both.
   */
  lemma DeleteRemovesDuplicates(notes: seq<Note>, first: Note, second: Note, now: nat)
    ensures WithoutId(notes + [Stamped(first, now), Stamped(second, now)], DecimalString(now))
         == WithoutId(notes, DecimalString(now))
  {
    var id := DecimalString(now);
    var pair := [Stamped(first, now), Stamped(second, now)];
    DeleteAppend(notes, pair, id);
    assert pair[1..][1..] == [];
    assert WithoutId(pair[1..], id) == [] + WithoutId(pair[1..][1..], id);
    assert WithoutId(pair, id) == [];
  }

  /** Deleting a just-saved note by its new id undoes the save, unless an older note shared that id. */
  lemma SaveThenDelete(notes: seq<Note>, note: Note, now: nat)
    ensures WithoutId(notes + [Stamped(note, now)], DecimalString(now)) == WithoutId(notes, DecimalString(now))
    ensures (forall n :: n in notes ==> n.id != Some(DecimalString(now)))
         ==> WithoutId(notes + [Stamped(note, now)], DecimalString(now)) == notes
  {
    var id := DecimalString(now);
    DeleteAppend(notes, [Stamped(note, now)], id);
    assert [Stamped(note, now)][1..] == [];
    if forall n :: n in notes ==> n.id != Some(id) {
      DeleteAbsentId(notes, id);
    }
  }

  /**
   * Saving two notes at different clock readings into an empty store and then
   * deleting the first by its id leaves exactly the second.
   */
  lemma SaveTwoDeleteFirst(first: Note, second: Note, t1: nat, t2: nat)
    requires t1 != t2
    ensures WithoutId([Stamped(first, t1), Stamped(second, t2)], DecimalString(t1)) == [Stamped(second, t2)]
  {
    if DecimalString(t2) == DecimalString(t1) {
      DecimalStringInjective(t2, t1);
    }
    var notes := [Stamped(first, t1), Stamped(second, t2)];
    assert notes[1..] == [Stamped(second, t2)];
    assert notes[1..][1..] == [];
    assert WithoutId(notes[1..], DecimalString(t1)) == [Stamped(second, t2)] + WithoutId([], DecimalString(t1));
  }
}
