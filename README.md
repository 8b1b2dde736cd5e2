# Note cache and soft-delete state machine of the notes renderer

This project models the part of the notes application's renderer
(`renderer.js`) that holds state:

- the note cache `notesCache`, an array of `{id, title}` entries kept in
  case-insensitive title order;
- `deleteTimeouts`, which maps a note id to the handle of the timer that will
  delete the note;
- `pendingDeletions`, which maps a note id to the cache entry its delete
  removed, so that undo can put it back;
- `currentNoteId`, the note open in the editor.

The operations that change this state are: loading the list, saving a new
note, retitling a note, opening or creating a note, deleting a note, undoing
the delete, the delete timer firing, and the answer of the deferred DELETE.
Each becomes a method of the class `Renderer.Session`.

Three modules:

- `TitleOrder` (`title_order.dfy`) is the order of titles. It is
  lexicographic order on titles whose ASCII capitals are folded to lower
  case. Lemmas show it is total and transitive. It also shows that two titles
  tie exactly when their folded keys agree.
- `NoteCache` (`note_cache.dfy`) holds the cache entries and the list
  operations the renderer uses:
  - `Sort`, the stable sort that `Array.prototype.sort` with a comparator
    performs;
  - `WithoutIds`, the `filter` by id;
  - `FindIndex` and `FindById`, which model `findIndex` and `find`.

  Lemmas show that the sort is sorted, a permutation and stable. They also
  give what push-then-sort and delete-then-restore do to a sorted list.
- `Renderer` (`renderer.dfy`) holds the class `Session` and some scenarios.
  - The fields of `Session` are the module globals. Every sqlite callback and
    every timer callback is one atomic method, and each method is told the
    outcome the driver reported.
  - The time-based parts of the surroundings are also fields: the host's
    armed timers (`timers`, with the next handle `nextHandle`), the DELETE
    statements that were issued and not yet answered (`deletesInFlight`),
    and the `Test` table as a map from id to title (`store`).
  - `Valid()` is the invariant every method keeps. The cache is sorted, timer
    handles are positive, fresh handles are unused, and a recorded timer that
    is still armed deletes its own note. Every pending id also has a recorded
    timeout, so the visible list never shows a note whose delete can still be
    undone (`PendingNotShown`).

Ids are ints. `deleteNote` reads the id from an HTML attribute as a string
and compares it with `==` to numeric ids, which gives the same outcome as
comparing ints. Timer handles are positive, so `!deleteTimeouts[id]` holds
exactly when the id has no recorded timeout.

A reader might expect a guarded two-state delete/undo protocol. The code is looser, and the model follows the code:

- Deleting an id that is already pending is not refused. `find` then misses,
  the pending entry is replaced by `undefined` (modelled as dropping the key),
  and a second timer is armed. The first timer stays armed.
- A failed DELETE keeps the pending entry, so a later undo still restores the
  note (`UndoAfterFailedDelete`).
- An undo that arrives after the timer fired is not a no-op. It forgets the
  timeout, and if the DELETE has not succeeded yet it restores the entry
  (`UndoWhileDeleteInFlight`).
- After a DELETE, `deleteTimeouts[id]` is never cleared. A note saved later
  under the same id is then never listed (see Findings).
- Deleting always closes the open note (see Findings). The scenarios run the delete as written, `DeleteNote`; none of their claims is about the open note. `DeleteOtherNote` runs both the as-written and the corrected delete.
- The cache is not guaranteed to hold distinct ids. The lemmas that need
  distinct ids require them explicitly.

## Model

| member | source | states |
|---|---|---|
| TitleOrder.Key | renderer.js:56 | defines the key a title is compared by: the title with every ASCII capital folded to lower case |
| TitleOrder.TitleLe | renderer.js:55-57 | defines the comparator: lexicographic order on folded characters, a prefix first |
| TitleOrder.TitleLeTotal | renderer.js:55-57 | any two titles are comparable: one sorts no later than the other |
| TitleOrder.TitleLeTransitive | renderer.js:55-57 | the title order is transitive |
| TitleOrder.TitleTie | renderer.js:56 | under the model's case-folding order, two titles tie exactly when their case-folded keys are equal |
| TitleOrder.KeyIgnoresCase | renderer.js:56 | titles that differ only in letter case have the same key |
| NoteCache.Insert | renderer.js:55 | defines one step of the stable sort: the entry goes before the first entry it sorts no later than |
| NoteCache.Sort | renderer.js:55-57 | defines the stable sort `sortNotesCache` performs, as insertion sort |
| NoteCache.SortIsSorted | renderer.js:54-58 | after `sortNotesCache` the cache is ordered non-decreasingly by case-insensitive title |
| NoteCache.SortIsPermutation | renderer.js:54-58 | the sorted cache holds exactly the entries it held before, each as often |
| NoteCache.SortIsStable | renderer.js:54-58 | entries whose titles tie keep their relative order |
| NoteCache.SortOfSorted | renderer.js:54-58 | sorting a cache that is already sorted changes nothing |
| NoteCache.PushPosition | renderer.js:137-140 | the number of leading entries that sort no later than the pushed one; the entry after them sorts strictly later |
| NoteCache.SortAfterPushPlacesAfterTies | renderer.js:137-140 | push then sort on a sorted cache inserts the entry after every entry that sorts no later than it, and leaves the others in place |
| NoteCache.PushThenSortAdds | renderer.js:137-140 | push then sort adds exactly the pushed entry and leaves the cache sorted |
| NoteCache.ZebraThenApple | renderer.js:137-140 | saving "Zebra" and then "apple" lists "apple" first |
| NoteCache.RetitleThenSort | renderer.js:354-357 | retitling one entry and sorting replaces exactly that entry with its retitled copy and leaves the cache sorted |
| NoteCache.WithoutIds | renderer.js:234 | defines the `filter` by id: the entries whose id is not in the set, in list order; with the recorded timeouts it is the test at renderer.js:64 |
| NoteCache.WithoutIdsCount | renderer.js:234 | the filter drops every entry whose id is filtered and keeps every other entry as often as it occurs |
| NoteCache.WithoutIdsMember | renderer.js:64 | an entry is in the filtered list exactly when it is in the list and its id is not filtered |
| NoteCache.PushedEntryKept | renderer.js:137-140 | an entry pushed and sorted in survives the filter exactly when its id is not filtered |
| NoteCache.WithoutIdsAppend | renderer.js:63-68 | filtering distributes over concatenation, so the kept entries stay in list order |
| NoteCache.WithoutAbsentIds | renderer.js:234 | filtering ids that no entry carries leaves the list unchanged |
| NoteCache.WithoutIdsSorted | renderer.js:234 | filtering a sorted cache leaves it sorted |
| NoteCache.WithoutIdAt | renderer.js:234 | with distinct ids, filtering the id at one position removes exactly that position |
| NoteCache.FindIndex | renderer.js:354 | -1 exactly when no entry has the id; otherwise the position of the first entry with the id |
| NoteCache.FindById | renderer.js:233 | nothing exactly when no entry has the id; otherwise the first entry with the id |
| NoteCache.DeleteThenRestorePermutes | renderer.js:280-286 | for a sorted cache with distinct ids, when a delete is undone the cache is sorted again and holds exactly what it held before the delete |
| NoteCache.DeleteThenRestoreIsIdentity | renderer.js:280-286 | for a sorted cache with distinct ids, when no later entry ties with the deleted one, undo gives back exactly the cache as it was before the delete |
| NoteCache.DeleteThenRestorePlacesAfterTies | renderer.js:280-286 | for every sorted cache with distinct ids, undo puts the restored entry right after the last remaining entry that sorts no later than it, so after every entry it ties with |
| NoteCache.DeleteThenRestoreMovesLaterTie | renderer.js:280-286 | conversely, when some later entry ties with the deleted one, undo does not give back the cache: the next entry takes the deleted one's place |
| NoteCache.DeleteThenRestoreMovesTies | renderer.js:280-286 | an example: deleting "note" from ["note", "Note"] and undoing gives ["Note", "note"] |
| Renderer.IsListing | renderer.js:37 | defines what the ordered SELECT answers: every row of the table once, with its title, in title order |
| Renderer.Remember | renderer.js:235 | `pendingDeletions[noteId] = removedNote`: the id gains the removed entry, or loses its key when `find` missed; other ids are unchanged |
| Renderer.OpenAfterDeleteAsWritten | renderer.js:240-243 | defines the open note after a delete as written: the condition assigns the id, which is truthy, so no note is left open |
| Renderer.OpenAfterDelete | renderer.js:240-243 | the intended open-note test: the editor is closed exactly when the deleted note is the open one, and is otherwise unchanged |
| Renderer.DeleteClosesOtherNote | renderer.js:240 | deleting note 1 while note 2 is open closes note 2 as written, and keeps it open under the intended test |
| Renderer.Session.constructor | renderer.js:15-18 | the globals start empty with no note open; no timer is armed |
| Renderer.Session.Shown | renderer.js:61-69 | defines the visible list: the cache entries whose id has no recorded delete timeout, in cache order |
| Renderer.Session.SoftDeleted | renderer.js:233-251 | defines the effect every delete has on the cache, the pending map, the timers and the recorded timeouts |
| Renderer.Session.SortNotesCache | renderer.js:54-58 | the cache becomes the stable sort of its old contents, which is sorted, so the invariant holds again |
| Renderer.Session.ListNotesCompleted | renderer.js:39-46 | on success the rows of the ordered SELECT replace the cache; on an error nothing changes |
| Renderer.Session.RenderNotesList | renderer.js:61-69 | the loop visits the cache in order and shows exactly the entries whose id has no recorded delete timeout |
| Renderer.Session.SaveNewNoteCompleted | renderer.js:127-146 | on success the new row is stored, the new id is the open note, and the cache is the sort of the old cache with the new entry pushed, and the new note is listed exactly when its id has no recorded delete timeout; on an error nothing changes |
| Renderer.Session.SaveEditedTitleCompleted | renderer.js:345-361 | on success the row gets the new title, and the first cache entry with the id, if any, is retitled and the cache re-sorted; otherwise the cache is unchanged |
| Renderer.Session.GetContent | renderer.js:196 | opening a note makes it the open note and keeps the invariant |
| Renderer.Session.CreateNewNote | renderer.js:220 | a new note leaves no note open and keeps the invariant |
| Renderer.Session.SoftDelete | renderer.js:233-251 | every entry with the id leaves the cache in order; `find`'s entry is remembered; a fresh timer is armed and recorded; the note is no longer shown |
| Renderer.Session.DeleteNote | renderer.js:227-252 | as written: the soft delete, and afterwards no note is open, whichever note was open |
| Renderer.Session.DeleteNoteFixed | renderer.js:227-252 | the soft delete, closing the open note only when it is the deleted one |
| Renderer.Session.Elapse | renderer.js:249-251 | the fired timer is disarmed and a DELETE for its note is issued; the recorded timeout stays |
| Renderer.Session.DeleteCompleted | renderer.js:299-309 | on success the row and the pending entry are gone; on an error both stay; the cache is untouched |
| Renderer.Session.DeleteCompletedFixed | renderer.js:299-307 | the intended callback: as `DeleteCompleted`, and on success the recorded timeout of the id is forgotten too |
| Renderer.Session.UndoDelete | renderer.js:274-293 | the recorded timer is cleared and forgotten; a pending entry is pushed back and the cache re-sorted; otherwise the cache is unchanged |
| Renderer.PendingNotShown | renderer.js:61-69 | in every valid state, no note whose delete is pending (and so can still be undone) is in the visible list |
| Renderer.DeleteThenUndo | renderer.js:227-293 | for a cache with distinct ids, a delete undone before its timer fires restores the cache, the timers and the pending map, and shows the note again, when no later entry ties with it |
| Renderer.DeleteThenUndoShows | renderer.js:227-293 | for every cache with distinct ids, a delete undone before its timer fires shows the note again, keeps every entry, puts the restored entry right after the entries it ties with, restores the armed timers, and leaves the pending map and the recorded timeouts without the id |
| Renderer.UndoWhileDeleteInFlight | renderer.js:274-306 | an undo between the timer and a successful DELETE shows a note whose row is gone |
| Renderer.UndoAfterFailedDelete | renderer.js:299-306 | after a failed DELETE the row stays and an undo shows the note again |
| Renderer.DeleteAndElapse | renderer.js:227-252 | a delete of the entry at a position whose timer then fires: the entry is kept for undo, its timeout stays recorded, its DELETE is in flight, and the table is untouched |
| Renderer.SaveAfterDeleteHidden | renderer.js:299-307 | as written: after a successful DELETE, a note saved under the freed id is in the cache but not listed |
| Renderer.SaveAfterDeleteShown | renderer.js:299-307 | with the intended DELETE callback, the note saved under the freed id is listed |
| Renderer.DeleteOtherNote | renderer.js:240-243 | deleting a note other than the open one leaves no note open as written, and keeps the open one under the intended test, also across an undo |

## Left out

- Window creation, menus and the IPC messages to the host process: `main.js` is not part of this model.
- The SQL text and the sqlite driver are left out. Each callback is one atomic method that receives the outcome, and the table is a map from id to title. Note content is opaque and is not stored.
- Quill and the JSON encoding of its deltas are left out, and so is the content update of `saveNote` (renderer.js:156-177), which changes only the store's content column.
- DOM rendering, HTML templating, notifications and their fade-out timers are left out. `RenderNotesList` returns the visible list instead of building elements.
- The wiring of the title-prompt listeners is left out (renderer.js:98-114, 313-336): which save handler a click reaches is event plumbing, not state.
- Real time and asynchrony are left out. A timer firing is the explicit method `Elapse`, and the host runs callbacks one at a time.
- The undo link's reachability is not modelled. The notification that carries the link is removed by a timer armed just before the delete timer with the same 5000 ms delay, so as written the link is gone by the time the delete timer fires. `UndoWhileDeleteInFlight` therefore shows what a later undo (for example with the 20 seconds the comment names) does.
- TitleOrder: locale-specific `localeCompare` rules (accents, punctuation weights) are not modelled. Titles are compared by ASCII case folding, which is what `COLLATE NOCASE` does. In the program the two orders differ on symbols and non-ASCII letters. "~x" sorts after "b" under NOCASE but before it under `localeCompare`. "é" sorts after "f" under NOCASE but ties with "e" at base sensitivity. So a cache freshly loaded by `listNotes` need not be in comparator order. The `Sorted` part of `Valid()` after `ListNotesCompleted`, and the exact restore of `DeleteThenUndo`, hold only because the model gives the SELECT and the comparator the same order.
- Renderer.Session.ListNotesCompleted: requires that the rows are a correct answer to the ordered SELECT for the modelled table. The driver's guarantee is taken as given.
- Renderer.Session.SaveNewNoteCompleted: requires that the new id is not yet in the table, as sqlite's `lastID` guarantees for a new row.

## Findings

| source | as written | input that shows it | evidently intended | confidence | as-written member | corrected member |
|---|---|---|---|---|---|---|
| renderer.js:299-307 | the DELETE callback removes the pending entry but keeps `deleteTimeouts[noteId]`, and `renderNotesList` hides every id with a recorded timeout | the table's `id INTEGER PRIMARY KEY` has no AUTOINCREMENT, so sqlite gives a new row the largest id plus one. Cache [3 "a"], the newest note: delete note 3, let the timer fire and the DELETE succeed, then save "b". The INSERT reuses id 3, and note "b" is never listed until the app restarts | forget the recorded timeout once the DELETE succeeds | medium; not executed | Renderer.Session.DeleteCompleted, Renderer.SaveAfterDeleteHidden | Renderer.Session.DeleteCompletedFixed, Renderer.SaveAfterDeleteShown |
| renderer.js:240 | `if (currentNoteId = noteId)` assigns the deleted id, whose string value is truthy, so every delete clears the editor and sets `currentNoteId` to null | note 2 is open and note 1 is deleted: afterwards no note is open | `currentNoteId == noteId`: close the editor only when the deleted note is the open one | high; not executed | Renderer.Session.DeleteNote, Renderer.DeleteClosesOtherNote, Renderer.DeleteOtherNote | Renderer.Session.DeleteNoteFixed, Renderer.OpenAfterDelete |
