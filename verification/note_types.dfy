/**
 * The note record and the small vocabulary every other module shares:
 * an optional value, a partial update of a note, and predicates over the
 * ids of a collection.
 */
module NoteTypes {

  /** An optional field or an optional selection (`undefined` / `null`). */
  datatype Option<+T> = None | Some(value: T) {
    function GetOr(default: T): T {
      match this
      case Some(v) => v
      case None => default
    }
  }

  /** Milliseconds since the epoch, as handed out by the clock. */
  type Timestamp = int

  /**
   * One note. `summary` and `isSummarizing` are optional: a note that never
   * went through summarization carries neither.
   */
  datatype Note = Note(
    id: string,
    title: string,
    content: string,
    summary: Option<string>,
    createdAt: Timestamp,
    updatedAt: Timestamp,
    isSummarizing: Option<bool>)

  /**
   * The fields a caller may merge into a note. `None` means the key is not
   * present in the update object, so the note keeps its own value.
   */
  datatype NotePatch = NotePatch(
    title: Option<string>,
    content: Option<string>,
    summary: Option<string>,
    isSummarizing: Option<bool>)

  /** The title a new note gets, and the title shown for an empty one. */
  const UntitledTitle: string := "Untitled Note"

  /** True when some note of the collection carries this id. */
  predicate HasId(notes: seq<Note>, id: string) {
    exists i :: 0 <= i < |notes| && notes[i].id == id
  }

  /** No two notes of the collection share an id. */
  predicate DistinctIds(notes: seq<Note>) {
    forall i, j :: 0 <= i < j < |notes| ==> notes[i].id != notes[j].id
  }

  /** The selection names a note of the collection, or nothing. */
  predicate ActiveIsPresent(notes: seq<Note>, active: Option<string>) {
    active.Some? ==> HasId(notes, active.value)
  }

  /** Every note was last updated no earlier than it was created. */
  predicate TimesOrdered(notes: seq<Note>) {
    forall i :: 0 <= i < |notes| ==> notes[i].createdAt <= notes[i].updatedAt
  }
}
