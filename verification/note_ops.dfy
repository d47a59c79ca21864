/**
 * The pure transforms behind the notes state container: each operation of
 * the container replaces the collection by one of these functions of the
 * old collection. The clock, the id generator, the stored text and the
 * outcome of the remote summarization are parameters.
 */
module NoteOps {
  import opened NoteTypes
  import Recency

  // ---------------------------------------------------------------- add

  /**
   * The default note with a fresh id. The two stamps are two separate
   * readings of the clock, one for each field.
   */
  function NewNote(id: string, created: Timestamp, updated: Timestamp): Note {
    Note(id, UntitledTitle, "", None, created, updated, None)
  }

  /** Prepends a new default note to the collection. */
  function AddNote(notes: seq<Note>, freshId: string, created: Timestamp, updated: Timestamp): (r: seq<Note>)
    ensures |r| == |notes| + 1
    ensures r[0].id == freshId && r[0].title == UntitledTitle && r[0].content == ""
    ensures r[0].createdAt == created && r[0].updatedAt == updated
    ensures r[0].summary.None? && r[0].isSummarizing.None?
    ensures r[1..] == notes
  {
    [NewNote(freshId, created, updated)] + notes
  }

  /**
   * A fresh id keeps the ids distinct, and the new note can be selected; a
   * clock that does not run backwards keeps the stamps ordered.
   */
  lemma AddNoteKeepsInvariants(notes: seq<Note>, freshId: string, created: Timestamp, updated: Timestamp)
    requires DistinctIds(notes) && !HasId(notes, freshId)
    ensures DistinctIds(AddNote(notes, freshId, created, updated))
    ensures ActiveIsPresent(AddNote(notes, freshId, created, updated), Some(freshId))
    ensures TimesOrdered(notes) && created <= updated ==> TimesOrdered(AddNote(notes, freshId, created, updated))
  {
    var r := AddNote(notes, freshId, created, updated);
    forall i, j | 0 <= i < j < |r|
      ensures r[i].id != r[j].id
    {
      if i == 0 {
        assert r[j] == notes[j - 1];
      } else {
        assert r[i] == notes[i - 1] && r[j] == notes[j - 1];
      }
    }
  }

  // ------------------------------------------------------------- update

  /**
   * `{ ...note, ...patch, updatedAt: now }`: every field the patch supplies
   * wins, every other field is kept, and the note is stamped with `now`.
   */
  function Merge(note: Note, patch: NotePatch, now: Timestamp): (r: Note)
    ensures r.id == note.id && r.createdAt == note.createdAt && r.updatedAt == now
    ensures patch.title.Some? ==> r.title == patch.title.value
    ensures patch.title.None? ==> r.title == note.title
    ensures patch.content.Some? ==> r.content == patch.content.value
    ensures patch.content.None? ==> r.content == note.content
    ensures patch.summary.Some? ==> r.summary == patch.summary
    ensures patch.summary.None? ==> r.summary == note.summary
    ensures patch.isSummarizing.Some? ==> r.isSummarizing == patch.isSummarizing
    ensures patch.isSummarizing.None? ==> r.isSummarizing == note.isSummarizing
    ensures patch == NotePatch(None, None, None, None) ==> r == note.(updatedAt := now)
  {
    note.(title := patch.title.GetOr(note.title),
          content := patch.content.GetOr(note.content),
          summary := if patch.summary.Some? then patch.summary else note.summary,
          isSummarizing := if patch.isSummarizing.Some? then patch.isSummarizing else note.isSummarizing,
          updatedAt := now)
  }

  /**
   * Merges the patch into every note carrying `id` and stamps it with `now`;
   * every other note, the length and the order are kept.
   */
  function UpdateNote(notes: seq<Note>, id: string, patch: NotePatch, now: Timestamp): (r: seq<Note>)
    ensures |r| == |notes|
  {
    if notes == [] then
      []
    else
      var head := if notes[0].id == id then Merge(notes[0], patch, now) else notes[0];
      [head] + UpdateNote(notes[1..], id, patch, now)
  }

  /**
   * What an update does to each position: a note with another id is
   * identical; a matching note keeps its id and creation stamp, takes every
   * field the patch supplies, keeps the others, and is stamped with `now`.
   */
  lemma {:induction false} UpdateNoteEffect(notes: seq<Note>, id: string, patch: NotePatch, now: Timestamp)
    ensures forall i :: 0 <= i < |notes| && notes[i].id != id ==> UpdateNote(notes, id, patch, now)[i] == notes[i]
    ensures forall i :: 0 <= i < |notes| && notes[i].id == id ==>
      var n := UpdateNote(notes, id, patch, now)[i];
      && n.id == id
      && n.createdAt == notes[i].createdAt
      && n.updatedAt == now
      && n.title == patch.title.GetOr(notes[i].title)
      && n.content == patch.content.GetOr(notes[i].content)
      && n.summary == (if patch.summary.Some? then patch.summary else notes[i].summary)
      && n.isSummarizing == (if patch.isSummarizing.Some? then patch.isSummarizing else notes[i].isSummarizing)
  {
    if notes != [] {
      UpdateNoteEffect(notes[1..], id, patch, now);
      var r := UpdateNote(notes, id, patch, now);
      forall i | 1 <= i < |notes| ensures r[i] == UpdateNote(notes[1..], id, patch, now)[i - 1] && notes[i] == notes[1..][i - 1] {
      }
    }
  }

  /** An unknown id leaves the collection as it was. */
  lemma UpdateUnknownIdIsNoOp(notes: seq<Note>, id: string, patch: NotePatch, now: Timestamp)
    ensures !HasId(notes, id) ==> UpdateNote(notes, id, patch, now) == notes
  {
    UpdateNoteEffect(notes, id, patch, now);
  }

  /** Updating keeps every id in place, so the ids stay distinct and the selection valid. */
  lemma UpdateKeepsInvariants(notes: seq<Note>, id: string, patch: NotePatch, now: Timestamp, active: Option<string>)
    ensures forall i :: 0 <= i < |notes| ==> UpdateNote(notes, id, patch, now)[i].id == notes[i].id
    ensures DistinctIds(notes) ==> DistinctIds(UpdateNote(notes, id, patch, now))
    ensures ActiveIsPresent(notes, active) ==> ActiveIsPresent(UpdateNote(notes, id, patch, now), active)
  {
    var r := UpdateNote(notes, id, patch, now);
    UpdateNoteEffect(notes, id, patch, now);
    if ActiveIsPresent(notes, active) && active.Some? {
      var k :| 0 <= k < |notes| && notes[k].id == active.value;
      assert r[k].id == active.value;
    }
  }

  /**
   * With a clock that never runs behind the stored stamps, an update keeps
   * `createdAt <= updatedAt` and never moves a note's `updatedAt` back.
   */
  lemma UpdateKeepsTimesOrdered(notes: seq<Note>, id: string, patch: NotePatch, now: Timestamp)
    requires TimesOrdered(notes)
    requires forall i :: 0 <= i < |notes| ==> notes[i].updatedAt <= now
    ensures TimesOrdered(UpdateNote(notes, id, patch, now))
    ensures forall i :: 0 <= i < |notes| ==> notes[i].updatedAt <= UpdateNote(notes, id, patch, now)[i].updatedAt
  {
    UpdateNoteEffect(notes, id, patch, now);
  }

  // ------------------------------------------------------------- delete

  /** Keeps, in their order, exactly the notes whose id differs from `id`. */
  function DeleteNote(notes: seq<Note>, id: string): (r: seq<Note>)
    ensures |r| <= |notes|
  {
    if notes == [] then
      []
    else
      (if notes[0].id == id then [] else [notes[0]]) + DeleteNote(notes[1..], id)
  }

  /** A note survives a delete exactly when it was there and carries another id. */
  lemma {:induction false} DeleteMembership(notes: seq<Note>, id: string)
    ensures forall n :: n in DeleteNote(notes, id) <==> n in notes && n.id != id
  {
    if notes != [] {
      DeleteMembership(notes[1..], id);
      assert notes == [notes[0]] + notes[1..];
    }
  }

  /**
   * Deleting distributes over concatenation: with the single-note cases this
   * says that the survivors keep their relative order.
   */
  lemma {:induction false} DeleteKeepsOrder(a: seq<Note>, b: seq<Note>, id: string)
    ensures DeleteNote(a + b, id) == DeleteNote(a, id) + DeleteNote(b, id)
  {
    if a == [] {
      assert a + b == b;
    } else {
      var head := if a[0].id == id then [] else [a[0]];
      DeleteKeepsOrder(a[1..], b, id);
      assert (a + b)[0] == a[0];
      assert (a + b)[1..] == a[1..] + b;
      calc {
        DeleteNote(a + b, id);
        head + DeleteNote(a[1..] + b, id);
        head + (DeleteNote(a[1..], id) + DeleteNote(b, id));
        (head + DeleteNote(a[1..], id)) + DeleteNote(b, id);
        DeleteNote(a, id) + DeleteNote(b, id);
      }
    }
  }

  /** On a single note, deleting keeps it exactly when its id differs. */
  lemma DeleteSingle(n: Note, id: string)
    ensures DeleteNote([n], id) == if n.id == id then [] else [n]
  {
    assert [n][1..] == [];
  }

  /** Deleting an id nothing carries changes nothing. */
  lemma {:induction false} DeleteUnknownIdIsNoOp(notes: seq<Note>, id: string)
    requires !HasId(notes, id)
    ensures DeleteNote(notes, id) == notes
  {
    if notes != [] {
      forall k | 0 <= k < |notes[1..]| ensures notes[1..][k].id != id {
        assert notes[1..][k] == notes[k + 1];
      }
      DeleteUnknownIdIsNoOp(notes[1..], id);
      assert notes[0].id != id;
      assert DeleteNote(notes, id) == [notes[0]] + DeleteNote(notes[1..], id);
      assert notes == [notes[0]] + notes[1..];
    }
  }

  /** With distinct ids, deleting an id that is present removes exactly one note. */
  lemma {:induction false} DeleteRemovesOne(notes: seq<Note>, id: string)
    requires DistinctIds(notes)
    ensures DistinctIds(DeleteNote(notes, id))
    ensures HasId(notes, id) ==> |DeleteNote(notes, id)| == |notes| - 1
    ensures !HasId(notes, id) ==> |DeleteNote(notes, id)| == |notes|
  {
    if notes == [] {
      return;
    }
    var tail := notes[1..];
    assert DistinctIds(tail) by {
      forall i, j | 0 <= i < j < |tail| ensures tail[i].id != tail[j].id {
        assert tail[i] == notes[i + 1] && tail[j] == notes[j + 1];
      }
    }
    DeleteRemovesOne(tail, id);
    var rest := DeleteNote(tail, id);
    if notes[0].id == id {
      forall k | 0 <= k < |tail| ensures tail[k].id != id {
        assert tail[k] == notes[k + 1];
      }
    } else {
      assert HasId(notes, id) ==> HasId(tail, id) by {
        if HasId(notes, id) {
          var k :| 0 <= k < |notes| && notes[k].id == id;
          assert tail[k - 1].id == id;
        }
      }
      assert HasId(tail, id) ==> HasId(notes, id) by {
        if HasId(tail, id) {
          var k :| 0 <= k < |tail| && tail[k].id == id;
          assert notes[k + 1].id == id;
        }
      }
      DeleteMembership(tail, id);
      forall j | 0 <= j < |rest| ensures rest[j].id != notes[0].id {
        assert rest[j] in rest;
        var k :| 0 <= k < |tail| && tail[k] == rest[j];
        assert notes[k + 1] == rest[j];
      }
    }
  }

  /**
   * The first survivor of a delete is the first note, in collection order,
   * whose id differs from the deleted one.
   */
  lemma {:induction false} DeleteFirstSurvivor(notes: seq<Note>, id: string)
    requires DeleteNote(notes, id) != []
    ensures exists k :: (0 <= k < |notes| && notes[k] == DeleteNote(notes, id)[0] && notes[k].id != id
                         && forall j :: 0 <= j < k ==> notes[j].id == id)
  {
    if notes[0].id == id {
      DeleteFirstSurvivor(notes[1..], id);
      var k :| 0 <= k < |notes[1..]| && notes[1..][k] == DeleteNote(notes[1..], id)[0] && notes[1..][k].id != id
        && (forall j :: 0 <= j < k ==> notes[1..][j].id == id);
      assert notes[k + 1] == DeleteNote(notes, id)[0];
      assert forall j :: 0 <= j < k + 1 ==> notes[j].id == id by {
        forall j | 0 <= j < k + 1 ensures notes[j].id == id {
          if j > 0 { assert notes[j] == notes[1..][j - 1]; }
        }
      }
    } else {
      assert notes[0] == DeleteNote(notes, id)[0];
    }
  }

  /**
   * The selection after a delete: when the deleted note was selected, the
   * first survivor in collection order (or nothing); otherwise unchanged.
   */
  function ActiveAfterDelete(notes: seq<Note>, active: Option<string>, id: string): (a: Option<string>)
    ensures a != Some(id)
    ensures active != Some(id) ==> a == active
    ensures active == Some(id) ==> (a.None? <==> DeleteNote(notes, id) == [])
    ensures active == Some(id) && a.Some? ==> a.value == DeleteNote(notes, id)[0].id
  {
    if active == Some(id) then
      var remaining := DeleteNote(notes, id);
      DeleteMembership(notes, id);
      if |remaining| > 0 then
        assert remaining[0] in remaining;
        Some(remaining[0].id)
      else
        None
    else
      active
  }

  /** A delete keeps the selection pointing at a note that still exists. */
  lemma DeleteKeepsActivePresent(notes: seq<Note>, active: Option<string>, id: string)
    requires ActiveIsPresent(notes, active)
    ensures ActiveIsPresent(DeleteNote(notes, id), ActiveAfterDelete(notes, active, id))
    ensures ActiveAfterDelete(notes, active, id) != Some(id)
  {
    var r := DeleteNote(notes, id);
    var a := ActiveAfterDelete(notes, active, id);
    DeleteMembership(notes, id);
    if a.Some? {
      if active == Some(id) {
        assert r[0].id == a.value;
      } else {
        var k :| 0 <= k < |notes| && notes[k].id == active.value;
        assert notes[k] in r;
        var j :| 0 <= j < |r| && r[j] == notes[k];
      }
    }
  }

  // -------------------------------------------------------- summarize

  /** The first note carrying `id`, if any (`notes.find`). */
  function Find(notes: seq<Note>, id: string): (r: Option<Note>)
    ensures r.Some? <==> HasId(notes, id)
    ensures r.Some? ==> r.value.id == id && r.value in notes
    ensures r.Some? ==> exists k :: (0 <= k < |notes| && notes[k] == r.value
                                     && forall j :: 0 <= j < k ==> notes[j].id != id)
  {
    if notes == [] then
      None
    else if notes[0].id == id then
      Some(notes[0])
    else
      assert HasId(notes, id) ==> HasId(notes[1..], id) by {
        if HasId(notes, id) {
          var k :| 0 <= k < |notes| && notes[k].id == id;
          assert notes[1..][k - 1].id == id;
        }
      }
      var r := Find(notes[1..], id);
      if r.Some? then
        var k :| 0 <= k < |notes[1..]| && notes[1..][k] == r.value
          && (forall j :: 0 <= j < k ==> notes[1..][j].id != id);
        assert notes[k + 1] == r.value;
        assert forall j :: 0 <= j < k + 1 ==> notes[j].id != id by {
          forall j | 0 <= j < k + 1 ensures notes[j].id != id {
            if j > 0 { assert notes[j] == notes[1..][j - 1]; }
          }
        }
        r
      else
        r
  }

  /** The characters `String.prototype.trim` strips: white space and line terminators. */
  predicate IsJsWhitespace(c: char) {
    var n := c as int;
    n == 0x09 || n == 0x0A || n == 0x0B || n == 0x0C || n == 0x0D || n == 0x20
    || n == 0xA0 || n == 0x1680 || (0x2000 <= n <= 0x200A)
    || n == 0x2028 || n == 0x2029 || n == 0x202F || n == 0x205F
    || n == 0x3000 || n == 0xFEFF
  }

  /** Every character is white space (the empty string included). */
  predicate IsBlank(s: string) {
    forall i :: 0 <= i < |s| ==> IsJsWhitespace(s[i])
  }

  /** Drops the leading white space. */
  function TrimStart(s: string): (r: string)
    ensures |r| <= |s| && r == s[|s| - |r|..]
    ensures r != [] ==> !IsJsWhitespace(r[0])
  {
    if s != [] && IsJsWhitespace(s[0]) then TrimStart(s[1..]) else s
  }

  /** Drops the trailing white space. */
  function TrimEnd(s: string): (r: string)
    ensures |r| <= |s| && r == s[..|r|]
    ensures r != [] ==> !IsJsWhitespace(r[|r| - 1])
  {
    if s != [] && IsJsWhitespace(s[|s| - 1]) then TrimEnd(s[..|s| - 1]) else s
  }

  /** What `TrimStart` drops is white space and nothing else. */
  lemma {:induction false} TrimStartDropsOnlyWhitespace(s: string)
    ensures IsBlank(s[..|s| - |TrimStart(s)|])
  {
    if s != [] && IsJsWhitespace(s[0]) {
      var r := TrimStart(s[1..]);
      TrimStartDropsOnlyWhitespace(s[1..]);
      assert s[..|s| - |r|] == [s[0]] + s[1..][..|s| - 1 - |r|];
    }
  }

  /** What `TrimEnd` drops is white space and nothing else. */
  lemma {:induction false} TrimEndDropsOnlyWhitespace(s: string)
    ensures IsBlank(s[|TrimEnd(s)|..])
  {
    if s != [] && IsJsWhitespace(s[|s| - 1]) {
      var r := TrimEnd(s[..|s| - 1]);
      TrimEndDropsOnlyWhitespace(s[..|s| - 1]);
      assert s[|r|..] == s[..|s| - 1][|r|..] + [s[|s| - 1]];
    }
  }

  /** `s.trim()`: no white space is left at either end. */
  function Trim(s: string): (r: string)
    ensures |r| <= |s|
    ensures r != [] ==> !IsJsWhitespace(r[0]) && !IsJsWhitespace(r[|r| - 1])
  {
    var t := TrimStart(s);
    var r := TrimEnd(t);
    if r != [] then
      assert r[0] == t[0];
      r
    else
      r
  }

  /**
   * `trim()` returns a contiguous piece of the text, cutting off white space
   * on either side and nothing else.
   */
  lemma TrimDropsOnlyWhitespace(s: string)
    ensures exists k :: (0 <= k && k + |Trim(s)| <= |s| && Trim(s) == s[k..k + |Trim(s)|]
                         && IsBlank(s[..k]) && IsBlank(s[k + |Trim(s)|..]))
  {
    var t := TrimStart(s);
    var r := Trim(s);
    var k := |s| - |t|;
    TrimStartDropsOnlyWhitespace(s);
    TrimEndDropsOnlyWhitespace(t);
    assert t == s[k..];
    assert r == t[..|r|];
    assert s[k..k + |r|] == s[k..][..|r|];
    assert s[k + |r|..] == t[|r|..];
  }

  lemma {:induction false} TrimStartEmptyIffBlank(s: string)
    ensures TrimStart(s) == [] <==> IsBlank(s)
  {
    if s == [] {
    } else if IsJsWhitespace(s[0]) {
      var tail := s[1..];
      TrimStartEmptyIffBlank(tail);
      assert TrimStart(s) == TrimStart(tail);
      forall i | 0 <= i < |tail| ensures tail[i] == s[i + 1] { }
      assert IsBlank(s) <==> IsBlank(tail);
    } else {
      assert TrimStart(s) == s;
      assert !IsBlank(s);
    }
  }

  lemma {:induction false} TrimEndEmptyIffBlank(s: string)
    ensures TrimEnd(s) == [] <==> IsBlank(s)
  {
    if s == [] {
    } else if IsJsWhitespace(s[|s| - 1]) {
      var init := s[..|s| - 1];
      TrimEndEmptyIffBlank(init);
      assert TrimEnd(s) == TrimEnd(init);
      forall i | 0 <= i < |init| ensures init[i] == s[i] { }
      assert IsBlank(s) <==> IsBlank(init);
    } else {
      assert TrimEnd(s) == s;
      assert !IsBlank(s);
    }
  }

  /** `!s.trim()` holds exactly for strings made only of white space. */
  lemma TrimEmptyIffBlank(s: string)
    ensures Trim(s) == [] <==> IsBlank(s)
  {
    var t := TrimStart(s);
    TrimStartEmptyIffBlank(s);
    TrimEndEmptyIffBlank(t);
    if t != [] {
      assert !IsBlank(t) by { assert !IsJsWhitespace(t[0]); }
    }
  }

  /** What the remote summarization succeeded or failed with. */
  datatype SummaryOutcome = Summarized(summary: string) | Failed

  /**
   * The text sent for summarization: the content of the first note with
   * `id`, unless there is none or its content is blank.
   */
  function SummaryRequest(notes: seq<Note>, id: string): (r: Option<string>)
    ensures r.None? <==> !HasId(notes, id) || IsBlank(Find(notes, id).value.content)
    ensures r.Some? ==> r.value == Find(notes, id).value.content && r.value != ""
  {
    match Find(notes, id)
    case None => None
    case Some(n) =>
      TrimEmptyIffBlank(n.content);
      if Trim(n.content) == "" then None else Some(n.content)
  }

  /** `{ isSummarizing: true }` */
  const LoadingPatch: NotePatch := NotePatch(None, None, None, Some(true))

  /** The patch applied when the remote call resolves. */
  function ResolvedPatch(outcome: SummaryOutcome): NotePatch {
    match outcome
    case Summarized(s) => NotePatch(None, None, Some(s), Some(false))
    case Failed => NotePatch(None, None, None, Some(false))
  }

  /**
   * First phase of summarizing: mark the note as in flight, or do nothing
   * when there is nothing to summarize.
   */
  function BeginSummary(notes: seq<Note>, id: string, now: Timestamp): (r: seq<Note>)
    ensures SummaryRequest(notes, id).None? ==> r == notes
    ensures |r| == |notes|
    ensures forall i :: 0 <= i < |notes| && notes[i].id != id ==> r[i] == notes[i]
    ensures SummaryRequest(notes, id).Some? ==> forall i :: 0 <= i < |notes| && notes[i].id == id ==>
      r[i] == notes[i].(isSummarizing := Some(true), updatedAt := now)
  {
    UpdateNoteEffect(notes, id, LoadingPatch, now);
    if SummaryRequest(notes, id).None? then notes else UpdateNote(notes, id, LoadingPatch, now)
  }

  /**
   * Second phase: clear the in-flight flag and, on success only, store the
   * summary. A note deleted in the meantime is simply not found.
   */
  function CompleteSummary(notes: seq<Note>, id: string, outcome: SummaryOutcome, now: Timestamp): (r: seq<Note>)
    ensures !HasId(notes, id) ==> r == notes
    ensures |r| == |notes|
    ensures forall i :: 0 <= i < |notes| && notes[i].id != id ==> r[i] == notes[i]
    ensures forall i :: 0 <= i < |notes| && notes[i].id == id ==>
      r[i] == notes[i].(isSummarizing := Some(false), updatedAt := now,
                        summary := if outcome.Summarized? then Some(outcome.summary) else notes[i].summary)
  {
    UpdateUnknownIdIsNoOp(notes, id, ResolvedPatch(outcome), now);
    UpdateNoteEffect(notes, id, ResolvedPatch(outcome), now);
    UpdateNote(notes, id, ResolvedPatch(outcome), now)
  }

  /**
   * Both phases in sequence on a note with something to summarize: the note
   * ends with the flag cleared, its text untouched, and the summary replaced
   * on success or kept on failure.
   */
  lemma SummarizeBothPhases(notes: seq<Note>, id: string, outcome: SummaryOutcome, t1: Timestamp, t2: Timestamp, i: nat)
    requires i < |notes| && notes[i].id == id
    requires SummaryRequest(notes, id).Some?
    ensures BeginSummary(notes, id, t1)[i].isSummarizing == Some(true)
    ensures BeginSummary(notes, id, t1)[i].summary == notes[i].summary
    ensures var r := CompleteSummary(BeginSummary(notes, id, t1), id, outcome, t2);
      && r[i].isSummarizing == Some(false)
      && r[i].title == notes[i].title && r[i].content == notes[i].content
      && r[i].summary == (if outcome.Summarized? then Some(outcome.summary) else notes[i].summary)
  {
  }

  // ---------------------------------------------------------- start-up

  /** What the notes entry of local storage holds when the container mounts. */
  datatype NotesSlot =
    | Absent                  // never written, or the empty string
    | Corrupt                 // present, but not a note array
    | Saved(notes: seq<Note>) // present and parsed

  const WelcomeTitle: string := "Welcome to Notes"
  const WelcomeContent: string :=
    "Start writing your notes here. Select the AI icon to generate a summary of your note."

  /** The welcome note; like a new note, it reads the clock once per stamp. */
  function WelcomeNote(id: string, created: Timestamp, updated: Timestamp): Note {
    Note(id, WelcomeTitle, WelcomeContent, None, created, updated, None)
  }

  /** The collection and selection the one-shot load effect leaves behind. */
  datatype Loaded = Loaded(notes: seq<Note>, active: Option<string>)

  /**
   * The load effect: adopt a parsed collection and select its most recently
   * updated note; leave everything empty when the stored text does not
   * parse; create the welcome note only when nothing was stored.
   */
  function Bootstrap(slot: NotesSlot, freshId: string, created: Timestamp, updated: Timestamp): (r: Loaded)
    ensures ActiveIsPresent(r.notes, r.active)
    ensures slot.Saved? ==> r.notes == slot.notes && (r.active.None? <==> slot.notes == [])
    ensures slot.Saved? && slot.notes != [] ==>
      r.active == Some(slot.notes[Recency.FirstNewest(slot.notes)].id)
    ensures slot.Corrupt? ==> r.notes == [] && r.active.None?
    ensures slot.Absent? ==> r.notes == [WelcomeNote(freshId, created, updated)] && r.active == Some(freshId)
    ensures slot.Absent? ==>
      && r.notes[0].title == WelcomeTitle && r.notes[0].content == WelcomeContent
      && r.notes[0].createdAt == created && r.notes[0].updatedAt == updated
      && r.notes[0].summary.None? && r.notes[0].isSummarizing.None?
  {
    match slot
    case Saved(parsed) =>
      if |parsed| > 0 then
        Recency.SortHeadIsFirstNewest(parsed);
        Loaded(parsed, Some(Recency.SortByRecency(parsed)[0].id))
      else
        Loaded(parsed, None)
    case Corrupt => Loaded([], None)
    case Absent =>
      var welcome := [WelcomeNote(freshId, created, updated)];
      assert welcome[0].id == freshId;
      Loaded(welcome, Some(freshId))
  }

  // -------------------------------------------------------- dark mode

  /** The initial flag: stored text "true", or a system preference for dark. */
  function InitialDarkMode(stored: Option<string>, prefersDark: bool): (dark: bool)
    ensures prefersDark ==> dark
    ensures stored == Some("true") ==> dark
    ensures !prefersDark && stored != Some("true") ==> !dark
  {
    stored == Some("true") || prefersDark
  }

  /** `isDarkMode.toString()` */
  function DarkModeText(dark: bool): (t: string)
    ensures t == "true" || t == "false"
    ensures t == "true" <==> dark
  {
    if dark then "true" else "false"
  }

  /**
   * The persisted text is always "true" or "false", and reading it back
   * restores the flag when the system does not prefer dark; a system that
   * prefers dark overrides a stored "false".
   */
  lemma DarkModeRoundTrip(dark: bool)
    ensures DarkModeText(dark) == "true" || DarkModeText(dark) == "false"
    ensures InitialDarkMode(Some(DarkModeText(dark)), false) == dark
    ensures InitialDarkMode(Some(DarkModeText(dark)), true)
  {
  }
}
