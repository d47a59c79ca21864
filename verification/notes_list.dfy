/**
 * The note list: a recency-ordered copy of the collection rendered as
 * cards, the card of the selected note marked, and an empty-state message
 * when there is nothing to show.
 */
module NotesList {
  import opened NoteTypes
  import Recency
  import NoteCard

  /** What one card renders. */
  datatype Card = Card(id: string, title: string, preview: string, hasSummary: bool, isActive: bool)

  function CardFor(note: Note, active: Option<string>): Card {
    Card(note.id, NoteCard.DisplayTitle(note.title), NoteCard.ContentPreview(note.content),
         NoteCard.HasSummary(note), active == Some(note.id))
  }

  /**
   * The cards, newest first. Sorting works on a copy: the collection itself
   * is a value and keeps its order.
   */
  function Cards(notes: seq<Note>, active: Option<string>): (cards: seq<Card>)
    ensures |cards| == |notes|
    ensures forall i :: 0 <= i < |cards| ==> (cards[i].isActive <==> active == Some(cards[i].id))
    ensures forall i :: 0 <= i < |cards| ==> cards[i] == CardFor(Recency.SortByRecency(notes)[i], active)
  {
    var sorted := Recency.SortByRecency(notes);
    seq(|sorted|, i requires 0 <= i < |sorted| => CardFor(sorted[i], active))
  }

  /** The empty-state message replaces the cards. */
  predicate ShowsEmptyState(notes: seq<Note>) {
    |Recency.SortByRecency(notes)| == 0
  }

  lemma EmptyStateIffNoNotes(notes: seq<Note>)
    ensures ShowsEmptyState(notes) <==> notes == []
  {
  }

  /** With distinct ids, at most one card is marked active. */
  lemma AtMostOneActiveCard(notes: seq<Note>, active: Option<string>)
    requires DistinctIds(notes)
    ensures forall i, j :: (0 <= i < j < |Cards(notes, active)| && Cards(notes, active)[i].isActive
                            ==> !Cards(notes, active)[j].isActive)
  {
    Recency.SortKeepsDistinctIds(notes);
  }

  /** When the selection names a note, exactly that note's card is marked. */
  lemma ActiveCardShown(notes: seq<Note>, active: Option<string>)
    requires active.Some? && ActiveIsPresent(notes, active)
    ensures exists i :: (0 <= i < |Cards(notes, active)| && Cards(notes, active)[i].isActive
                         && Cards(notes, active)[i].id == active.value)
  {
    var sorted := Recency.SortByRecency(notes);
    var k :| 0 <= k < |notes| && notes[k].id == active.value;
    assert notes[k] in multiset(notes);
    assert notes[k] in multiset(sorted);
    var i :| 0 <= i < |sorted| && sorted[i] == notes[k];
    assert Cards(notes, active)[i].isActive;
  }
}
