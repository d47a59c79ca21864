# Notes state container, in Dafny

This project models the core of a browser note-taking application: the
React context provider that owns the note collection, the selected note and
the theme flag, and the two list views that read them.

- `note_types.dfy` (`NoteTypes`): the `Note` record (id, title, content,
  optional summary, optional in-flight flag, creation and update stamps),
  the partial update object `NotePatch`, and predicates over a collection:
  distinct ids, a selection that names an existing note, ordered stamps.
- `recency.dfy` (`Recency`): the recency order. Both the start-up selection
  and the note list sort a copy by `updatedAt`, newest first, with the
  host's stable sort; `SortByRecency` is a stable insertion sort.
- `note_ops.dfy` (`NoteOps`): each operation of the provider as a pure
  transform of the collection: prepend a default note, merge a patch into
  the matching note, filter a note out and reselect, the two phases of
  summarizing, the one-shot load of stored notes, and the theme flag's
  initial value and stored text. `String.prototype.trim` is modelled
  character by character, with the white-space and line-terminator set of
  ECMAScript.
- `notes_context.dfy` (`NotesContext.NotesProvider`): the provider as a
  class whose fields `notes`, `activeNoteId` and `isDarkMode` each method
  replaces. The `notes` and `darkMode` entries of local storage and the
  `dark` class of the document root are ghost fields that the methods keep
  in step the way the provider's effects do. `Valid()` says what the effects
  maintain: a non-empty collection is stored in full, and the stored theme
  text and the document class match the flag. `SummarizeSession` replays a
  session with a stubbed summarizer.
- `note_card.dfy` (`NoteCard`): the content preview, the title fallback
  and the has-summary flag of one card.
- `notes_list.dfy` (`NotesList`): the cards in recency order, the active
  mark and the empty-state condition.

The clock (`Date.now()`), the id generator (`uuidv4()`), the system colour
preference (`matchMedia`), the stored text and the outcome of the remote
summarization are parameters. A new note and the welcome note read the
clock twice, once per stamp, so they take a `created` and an `updated`
stamp that a real clock may make differ by a millisecond. Parsing the stored notes is abstracted as a
`NotesSlot`: `Absent` (never written; an empty string is falsy in the
source and behaves the same), `Corrupt` (the text does not parse) or
`Saved(notes)`. Summarizing, which awaits a network call in the source, is
split into `SummarizeBegin` and `SummarizeComplete`, run one after the
other; the outcome of the call is `Summarized(text)` or `Failed`.

The model follows the code as written, including these behaviours:

- Deleting the selected note selects the first remaining note in
  collection order, not the most recently updated one
  (`src/context/NotesContext.tsx:97-98`).
- A stored notes text that fails to parse leaves the collection empty and
  nothing selected; no welcome note is created (`:39-42`).
- The initial theme is dark when the stored text is `"true"` OR the system
  prefers dark, so a stored `"false"` does not win over a system preference
  for dark (`:20-21`); `NoteOps.DarkModeRoundTrip` states both halves.
- The save effect skips an empty collection, so deleting the last note
  leaves the previous non-empty collection in storage (`:58`).

## Model

| member | source | states |
|---|---|---|
| `Recency.Insert` | src/components/NotesList.tsx:17 | inserting a note adds exactly that note to the multiset and grows the length by one |
| `Recency.InsertKeepsNewestFirst` | src/components/NotesList.tsx:17 | inserting into a newest-first sequence keeps it newest-first |
| `Recency.SortByRecency` | src/components/NotesList.tsx:17 | the sorted copy is a permutation of the collection (same multiset, same length) ordered by `updatedAt` non-increasing |
| `Recency.SortKeepsNewestFirst` | src/components/NotesList.tsx:17 | a collection already ordered newest-first comes back unchanged |
| `Recency.InsertKeepsDistinctIds` | src/components/NotesList.tsx:17 | inserting a note whose id is new into a collection with distinct ids keeps the ids distinct |
| `Recency.SortKeepsDistinctIds` | src/components/NotesList.tsx:17 | sorting keeps ids distinct |
| `Recency.FirstNewest` | src/context/NotesContext.tsx:36 | the index of a note with the greatest `updatedAt`, every earlier note being strictly older |
| `Recency.SortHeadIsFirstNewest` | src/context/NotesContext.tsx:34-37 | the head of the sorted copy is the first note, in collection order, among the most recently updated ones |
| `NoteOps.AddNote` | src/context/NotesContext.tsx:73-80 | the new note (`NoteOps.NewNote`, the default note of `:8-13` with the fresh id) is at index 0 with title "Untitled Note", empty content, `createdAt` from the first clock reading and `updatedAt` from the second, no summary and no flag; the old notes follow unchanged and in order |
| `NoteOps.AddNoteKeepsInvariants` | src/context/NotesContext.tsx:73-82 | with a fresh id not in the collection, ids stay distinct and the new selection names an existing note; with a clock that does not run backwards, ordered stamps stay ordered |
| `NoteOps.Merge` | src/context/NotesContext.tsx:88 | the merged note keeps its id and creation stamp, takes each field the patch supplies and keeps each one it omits, and is stamped with now; an empty patch only restamps |
| `NoteOps.UpdateNote` | src/context/NotesContext.tsx:84-92 | the update is a map: the length is kept |
| `NoteOps.UpdateNoteEffect` | src/context/NotesContext.tsx:86-90 | position by position, every note with another id is identical, and each matching note gets the supplied fields, keeps the others and its id and creation stamp, with `updatedAt` = now |
| `NoteOps.UpdateUnknownIdIsNoOp` | src/context/NotesContext.tsx:86-90 | an id no note carries leaves the collection unchanged |
| `NoteOps.UpdateKeepsInvariants` | src/context/NotesContext.tsx:84-92 | every id stays in its place, so distinct ids and a valid selection are preserved |
| `NoteOps.UpdateKeepsTimesOrdered` | src/context/NotesContext.tsx:88 | with a clock not behind any stamp, `createdAt <= updatedAt` is preserved and no `updatedAt` decreases |
| `NoteOps.DeleteNote` | src/context/NotesContext.tsx:95 | the result is never longer than the collection |
| `NoteOps.DeleteMembership` | src/context/NotesContext.tsx:95 | a note is in the result iff it was in the collection and its id differs from the deleted one |
| `NoteOps.DeleteKeepsOrder` | src/context/NotesContext.tsx:95 | deleting distributes over concatenation, so survivors keep their relative order |
| `NoteOps.DeleteSingle` | src/context/NotesContext.tsx:95 | a single note is kept iff its id differs |
| `NoteOps.DeleteUnknownIdIsNoOp` | src/context/NotesContext.tsx:95 | deleting an id no note carries changes nothing |
| `NoteOps.DeleteRemovesOne` | src/context/NotesContext.tsx:95 | with distinct ids, ids stay distinct and exactly one note goes when the id is present, none otherwise |
| `NoteOps.DeleteFirstSurvivor` | src/context/NotesContext.tsx:97-98 | the first survivor is the first note in collection order whose id differs from the deleted one |
| `NoteOps.ActiveAfterDelete` | src/context/NotesContext.tsx:96-99 | the deleted id is never selected afterwards; a different selection is kept; a deleted selection moves to the first survivor, or to none iff nothing survives |
| `NoteOps.DeleteKeepsActivePresent` | src/context/NotesContext.tsx:94-100 | a selection naming an existing note still names an existing note after the delete |
| `NoteOps.Find` | src/context/NotesContext.tsx:103 | a note is found iff some note has the id; the note found carries that id and sits at an index before which no note carries it (the first match) |
| `NoteOps.TrimStart` | src/context/NotesContext.tsx:104 | the result is a suffix of the input that does not start with white space |
| `NoteOps.TrimEnd` | src/context/NotesContext.tsx:104 | the result is a prefix of the input that does not end with white space |
| `NoteOps.TrimStartDropsOnlyWhitespace` | src/context/NotesContext.tsx:104 | the prefix that trimming the start drops is all white space |
| `NoteOps.TrimEndDropsOnlyWhitespace` | src/context/NotesContext.tsx:104 | the suffix that trimming the end drops is all white space |
| `NoteOps.Trim` | src/context/NotesContext.tsx:104 | `trim()` is never longer than the text, and a non-empty result neither starts nor ends with white space |
| `NoteOps.TrimDropsOnlyWhitespace` | src/context/NotesContext.tsx:104 | `trim()` returns a contiguous piece of the text, and what it cuts off on either side is all white space |
| `NoteOps.TrimStartEmptyIffBlank` | src/context/NotesContext.tsx:104 | trimming the start leaves nothing iff the text is all white space |
| `NoteOps.TrimEndEmptyIffBlank` | src/context/NotesContext.tsx:104 | trimming the end leaves nothing iff the text is all white space |
| `NoteOps.TrimEmptyIffBlank` | src/context/NotesContext.tsx:104 | `trim()` yields the empty string iff the text is empty or all white space |
| `NoteOps.SummaryRequest` | src/context/NotesContext.tsx:103-104 | nothing is sent iff no note has the id or the found note's content is blank; otherwise the found note's (non-empty) content is sent |
| `NoteOps.BeginSummary` | src/context/NotesContext.tsx:102-107 | with nothing to send the collection is unchanged; otherwise only matching notes change, getting the in-flight flag and `updatedAt` = now with summary and text untouched |
| `NoteOps.CompleteSummary` | src/context/NotesContext.tsx:109-115 | matching notes get the flag cleared and `updatedAt` = now, and the summary on success only; other notes and a deleted id change nothing |
| `NoteOps.SummarizeBothPhases` | src/context/NotesContext.tsx:102-116 | after both phases a summarized note is first in flight with its summary untouched, then has the flag cleared, its text unchanged, and the new summary on success or the old one on failure |
| `NoteOps.Bootstrap` | src/context/NotesContext.tsx:27-54 | a parsed collection is adopted with the first most recently updated note selected (none if empty); unparseable text leaves no notes and no selection; absent storage yields exactly one selected welcome note (`NoteOps.WelcomeNote`, `:44-50`) with the welcome title and text, the two clock readings as stamps, no summary and no flag; the selection always names an existing note |
| `NoteOps.InitialDarkMode` | src/context/NotesContext.tsx:18-24 | the theme starts dark when the system prefers dark or the stored text is "true", and light otherwise |
| `NoteOps.DarkModeText` | src/context/NotesContext.tsx:65 | the stored theme text is "true" or "false", and "true" exactly when the flag is set |
| `NoteOps.DarkModeRoundTrip` | src/context/NotesContext.tsx:18-24 | the stored theme text is "true" or "false"; read back without a system dark preference it restores the flag, and with one the theme is dark |
| `NotesContext.NotesProvider.constructor` | src/context/NotesContext.tsx:15-54 | mounting sets the theme from storage and system preference, runs the load once, and stores the collection only if it is non-empty |
| `NotesContext.NotesProvider.PersistNotes` | src/context/NotesContext.tsx:57-61 | the stored notes become the collection when it is non-empty and are left as they were otherwise |
| `NotesContext.NotesProvider.AddNote` | src/context/NotesContext.tsx:73-82 | the collection becomes `NoteOps.AddNote` of the old one, the new note is selected, theme unchanged, the collection stored; fresh ids keep ids distinct |
| `NotesContext.NotesProvider.UpdateNote` | src/context/NotesContext.tsx:84-92 | the collection becomes `NoteOps.UpdateNote` of the old one, selection and theme unchanged, unknown id a no-op; distinct ids and a valid selection are preserved |
| `NotesContext.NotesProvider.DeleteNote` | src/context/NotesContext.tsx:94-100 | the collection is filtered and the selection moved as `NoteOps.ActiveAfterDelete` says; an emptied collection leaves storage at its last non-empty value |
| `NotesContext.NotesProvider.SetActiveNoteId` | src/context/NotesContext.tsx:17 | only the selection changes, to the given id |
| `NotesContext.NotesProvider.SummarizeBegin` | src/context/NotesContext.tsx:102-107 | returns the text to summarize and marks the note in flight, or returns nothing and leaves notes and storage unchanged |
| `NotesContext.NotesProvider.SummarizeComplete` | src/context/NotesContext.tsx:109-115 | applies `NoteOps.CompleteSummary` for the outcome; selection and theme unchanged |
| `NotesContext.NotesProvider.ToggleDarkMode` | src/context/NotesContext.tsx:118-120 | the flag flips, the stored text becomes "true" or "false" to match it, notes and stored notes are untouched |
| `NoteCard.ContentPreview` | src/components/NoteCard.tsx:21-23 | at most 63 characters; content over 60 characters gives its first 60 followed by "..." (exactly 63); 1 to 60 characters are shown whole; empty content gives "Empty note" |
| `NoteCard.PreviewStartsWithContent` | src/components/NoteCard.tsx:21-23 | every preview begins with the content's first min(60, length) characters |
| `NoteCard.DisplayTitle` | src/components/NoteCard.tsx:44 | never empty: the title when non-empty, else "Untitled Note" |
| `NoteCard.HasSummary` | src/components/NoteCard.tsx:26 | true iff the summary is present and non-empty |
| `NotesList.Cards` | src/components/NotesList.tsx:57-64 | one card per note, in the sorted order, each marked active iff its id equals the selection |
| `NotesList.EmptyStateIffNoNotes` | src/components/NotesList.tsx:46 | the empty-state message (`NotesList.ShowsEmptyState`, shown when the sorted copy is empty) appears iff there are no notes |
| `NotesList.AtMostOneActiveCard` | src/components/NotesList.tsx:61 | with distinct ids, at most one card is marked active |
| `NotesList.ActiveCardShown` | src/components/NotesList.tsx:61 | a selection naming an existing note marks some card active, and that card shows the selected note |

## Left out

- JSON encoding and decoding of the stored notes are not modelled; the
  parse result is an input. A stored text that parses to something other
  than an array of notes (`"null"`, an object) is not modelled: in the
  source it fails later, outside the load effect's error handling.
- The remote summarization (`src/services/vertexAI.ts`, the server
  function under `supabase/functions/summarize/`) is network I/O; only its
  outcome enters the model. A response without a `summary` field, which the
  source stores as `undefined`, is not modelled.
- Overlapping summarizations and React's stale closures (`deleteNote` and
  `summarizeNote` read the rendered `notes`, not the latest) are not
  modelled: operations run one after another, where both readings agree.
- NoteOps.UpdateNote: the source reads the clock once for each matching
  note inside the `map` callback (`src/context/NotesContext.tsx:88`); the
  model takes one `now` for all of them. The readings can differ only when
  several notes share the id (a stored collection with duplicate ids), so
  such notes may in the source get stamps a millisecond apart where the
  model gives them the same one. The same holds for `NoteOps.BeginSummary`,
  `NoteOps.CompleteSummary` and the provider methods built on them.
- `NotePatch` covers the fields callers pass (title, content, summary,
  in-flight flag); a patch that rewrites `id` or `createdAt`, or that sets a
  field to `undefined`, is not modelled.
- NoteCard.ContentPreview: lengths are counted in Dafny characters, not in
  the UTF-16 code units the source counts, so text outside the Basic
  Multilingual Plane is measured differently: 31 emoji are 62 code units,
  which the source cuts to 60 units plus "...", splitting the last emoji,
  while the model shows all 31 whole. Cuts inside a surrogate pair are not
  modelled.
- The date shown on a card (`toLocaleDateString`), layout, animation, the
  editor component and its disabled-button guard, the `useNotes` hook's
  error outside a provider, and the `typeof window` branch for rendering
  without a browser are not modelled.
- Recency.SortByRecency: stability is stated only through
  `SortHeadIsFirstNewest` and `SortKeepsNewestFirst`, not as a general
  relative-order property of equally recent notes.
