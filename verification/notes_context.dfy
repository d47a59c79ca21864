/**
 * The notes state container: the provider that owns the collection, the
 * selection and the theme flag, replaces them on each operation, and
 * mirrors them into local storage through its effects. The two storage
 * entries and the theme class of the document root are ghost fields; the
 * clock, the id generator, the system colour preference and the outcome of
 * the remote summarization are parameters.
 */
module NotesContext {
  import opened NoteTypes
  import NoteOps

  class NotesProvider {
    var notes: seq<Note>
    var activeNoteId: Option<string>
    var isDarkMode: bool

    /** The `notes` entry of local storage. */
    ghost var storedNotes: NoteOps.NotesSlot
    /** The `darkMode` entry of local storage. */
    ghost var storedDarkMode: Option<string>
    /** Whether the document root carries the `dark` class. */
    ghost var rootIsDark: bool

    /**
     * What the effects maintain: a non-empty collection is stored in full,
     * and the theme flag is stored as text and mirrored on the document.
     */
    ghost predicate Valid()
      reads this
    {
      && (|notes| > 0 ==> storedNotes == NoteOps.Saved(notes))
      && storedDarkMode == Some(NoteOps.DarkModeText(isDarkMode))
      && rootIsDark == isDarkMode
    }

    /**
     * Mounting: the theme flag is initialised from storage and the system
     * preference, the load effect runs once, then the save effects run.
     */
    constructor (slot: NoteOps.NotesSlot, darkText: Option<string>, prefersDark: bool,
                 freshId: string, created: Timestamp, updated: Timestamp)
      ensures Valid()
      ensures notes == NoteOps.Bootstrap(slot, freshId, created, updated).notes
      ensures activeNoteId == NoteOps.Bootstrap(slot, freshId, created, updated).active
      ensures isDarkMode == NoteOps.InitialDarkMode(darkText, prefersDark)
      ensures storedNotes == if |notes| > 0 then NoteOps.Saved(notes) else slot
    {
      var dark := NoteOps.InitialDarkMode(darkText, prefersDark);
      isDarkMode := dark;
      storedDarkMode := Some(NoteOps.DarkModeText(dark));
      rootIsDark := dark;
      var loaded := NoteOps.Bootstrap(slot, freshId, created, updated);
      notes := loaded.notes;
      activeNoteId := loaded.active;
      storedNotes := if |loaded.notes| > 0 then NoteOps.Saved(loaded.notes) else slot;
    }

    /** The save effect: writes the collection unless it is empty. */
    method PersistNotes()
      modifies this`storedNotes
      ensures storedNotes == if |notes| > 0 then NoteOps.Saved(notes) else old(storedNotes)
    {
      if |notes| > 0 {
        storedNotes := NoteOps.Saved(notes);
      }
    }

    /** Creates a default note in front of the others and selects it. */
    method AddNote(freshId: string, created: Timestamp, updated: Timestamp)
      requires Valid()
      modifies this
      ensures Valid()
      ensures notes == NoteOps.AddNote(old(notes), freshId, created, updated)
      ensures activeNoteId == Some(freshId) && isDarkMode == old(isDarkMode)
      ensures storedNotes == NoteOps.Saved(notes)
      ensures ActiveIsPresent(notes, activeNoteId)
      ensures old(DistinctIds(notes)) && !old(HasId(notes, freshId)) ==> DistinctIds(notes)
    {
      if DistinctIds(notes) && !HasId(notes, freshId) {
        NoteOps.AddNoteKeepsInvariants(notes, freshId, created, updated);
      }
      notes := NoteOps.AddNote(notes, freshId, created, updated);
      activeNoteId := Some(freshId);
      assert notes[0].id == freshId;
      PersistNotes();
    }

    /** Merges `patch` into the note with `id`; an unknown id changes nothing. */
    method UpdateNote(id: string, patch: NotePatch, now: Timestamp)
      requires Valid()
      modifies this
      ensures Valid()
      ensures notes == NoteOps.UpdateNote(old(notes), id, patch, now)
      ensures activeNoteId == old(activeNoteId) && isDarkMode == old(isDarkMode)
      ensures storedNotes == if |notes| > 0 then NoteOps.Saved(notes) else old(storedNotes)
      ensures !old(HasId(notes, id)) ==> notes == old(notes)
      ensures old(DistinctIds(notes)) ==> DistinctIds(notes)
      ensures old(ActiveIsPresent(notes, activeNoteId)) ==> ActiveIsPresent(notes, activeNoteId)
    {
      NoteOps.UpdateUnknownIdIsNoOp(notes, id, patch, now);
      NoteOps.UpdateKeepsInvariants(notes, id, patch, now, activeNoteId);
      notes := NoteOps.UpdateNote(notes, id, patch, now);
      PersistNotes();
    }

    /**
     * Removes the notes with `id`; when the selected note goes, selects the
     * first survivor in collection order, or nothing.
     */
    method DeleteNote(id: string)
      requires Valid()
      modifies this
      ensures Valid()
      ensures notes == NoteOps.DeleteNote(old(notes), id)
      ensures activeNoteId == NoteOps.ActiveAfterDelete(old(notes), old(activeNoteId), id)
      ensures isDarkMode == old(isDarkMode)
      ensures storedNotes == if |notes| > 0 then NoteOps.Saved(notes) else old(storedNotes)
      ensures old(ActiveIsPresent(notes, activeNoteId)) ==> ActiveIsPresent(notes, activeNoteId)
      ensures old(DistinctIds(notes)) ==> DistinctIds(notes)
    {
      if ActiveIsPresent(notes, activeNoteId) {
        NoteOps.DeleteKeepsActivePresent(notes, activeNoteId, id);
      }
      if DistinctIds(notes) {
        NoteOps.DeleteRemovesOne(notes, id);
      }
      var before := notes;
      notes := NoteOps.DeleteNote(before, id);
      activeNoteId := NoteOps.ActiveAfterDelete(before, activeNoteId, id);
      PersistNotes();
    }

    /** Changes the selection only; a missing id is tolerated. */
    method SetActiveNoteId(id: Option<string>)
      requires Valid()
      modifies this`activeNoteId
      ensures Valid()
      ensures activeNoteId == id
    {
      activeNoteId := id;
    }

    /**
     * First phase of `summarizeNote`: returns the text to send, and marks
     * the note as in flight; returns nothing and changes nothing when there
     * is no such note or its content is blank.
     */
    method SummarizeBegin(id: string, now: Timestamp) returns (request: Option<string>)
      requires Valid()
      modifies this
      ensures Valid()
      ensures request == NoteOps.SummaryRequest(old(notes), id)
      ensures notes == NoteOps.BeginSummary(old(notes), id, now)
      ensures activeNoteId == old(activeNoteId) && isDarkMode == old(isDarkMode)
      ensures request.None? ==> storedNotes == old(storedNotes)
      ensures storedNotes == if |notes| > 0 then NoteOps.Saved(notes) else old(storedNotes)
    {
      request := NoteOps.SummaryRequest(notes, id);
      if request.Some? {
        UpdateNote(id, NoteOps.LoadingPatch, now);
      }
    }

    /**
     * Second phase of `summarizeNote`, when the remote call resolves: clears
     * the in-flight flag and stores the summary on success. A note deleted
     * meanwhile is left alone.
     */
    method SummarizeComplete(id: string, outcome: NoteOps.SummaryOutcome, now: Timestamp)
      requires Valid()
      modifies this
      ensures Valid()
      ensures notes == NoteOps.CompleteSummary(old(notes), id, outcome, now)
      ensures activeNoteId == old(activeNoteId) && isDarkMode == old(isDarkMode)
      ensures storedNotes == if |notes| > 0 then NoteOps.Saved(notes) else old(storedNotes)
    {
      UpdateNote(id, NoteOps.ResolvedPatch(outcome), now);
    }

    /** Flips the theme; its effect stores the new flag and mirrors it on the document. */
    method ToggleDarkMode()
      requires Valid()
      modifies this
      ensures Valid()
      ensures isDarkMode == !old(isDarkMode)
      ensures storedDarkMode == Some(if isDarkMode then "true" else "false")
      ensures notes == old(notes) && activeNoteId == old(activeNoteId)
      ensures storedNotes == old(storedNotes)
    {
      isDarkMode := !isDarkMode;
      storedDarkMode := Some(NoteOps.DarkModeText(isDarkMode));
      rootIsDark := isDarkMode;
    }
  }

  /**
   * A session with a stubbed summarizer: a note whose content is
   * "hello world" is first marked in flight, then receives "test summary";
   * deleting the only note leaves the last non-empty collection stored.
   */
  method SummarizeSession(freshId: string, t0: Timestamp, t1: Timestamp, t2: Timestamp, t3: Timestamp)
  {
    var p := new NotesProvider(NoteOps.Corrupt, None, false, "unused", t0, t0);
    assert p.notes == [] && p.activeNoteId == None && !p.isDarkMode;
    p.AddNote(freshId, t0, t0);
    p.UpdateNote(freshId, NotePatch(None, Some("hello world"), None, None), t1);
    assert p.notes[0].content == "hello world";
    var request := p.SummarizeBegin(freshId, t2);
    assert NoteOps.Find(p.notes, freshId) == Some(p.notes[0]) by {
      assert |p.notes| == 1;
    }
    assert !NoteOps.IsBlank("hello world") by {
      assert !NoteOps.IsJsWhitespace("hello world"[0]);
    }
    assert request == Some("hello world");
    assert p.notes[0].isSummarizing == Some(true);
    p.SummarizeComplete(freshId, NoteOps.Summarized("test summary"), t3);
    assert p.notes[0].isSummarizing == Some(false) && p.notes[0].summary == Some("test summary");
    var stored := p.storedNotes;
    p.DeleteNote(freshId);
    assert p.notes == [] && p.activeNoteId == None;
    assert p.storedNotes == stored && stored.Saved? && |stored.notes| == 1;
  }
}
