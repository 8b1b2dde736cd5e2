/** The renderer's note state: the cache of `{id, title}` entries, the armed
    delete timeouts, the entries removed by a delete that can still be undone,
    and the note open in the editor. The module globals of renderer.js are the
    fields of one `Session`; each sqlite callback and each timer callback is
    one atomic method that is told the outcome the driver reported.

    Beside the renderer's own state the session holds the part of its
    surroundings the state machine depends on: the host's armed timers, the
    DELETE statements issued and not yet answered, and the `Test` table as a
    map from id to title (the content column is opaque here). */
module Renderer {
  import opened TitleOrder
  import opened NoteCache

  /** What a sqlite callback receives: a value, or an error. */
  datatype Reply<T> = Ok(value: T) | Err

  /** `rows` is what `SELECT id, title FROM Test ORDER BY title COLLATE
      NOCASE` answers for the table `store`: every row once, in title order. */
  predicate IsListing(rows: seq<Entry>, store: map<int, string>) {
    && Sorted(rows)
    && UniqueIds(rows)
    && Ids(rows) == store.Keys
    && forall r :: r in rows ==> r.id in store && store[r.id] == r.title
  }

  /** The pending-deletion map after `pendingDeletions[noteId] = removedNote`.
      When no entry had the id, `find` gave `undefined`; a key holding
      `undefined` reads exactly like an absent key, so it is dropped. */
  function Remember(pending: map<int, Entry>, id: int, removed: Option<Entry>): (r: map<int, Entry>)
    ensures r.Keys == if removed.Some? then pending.Keys + {id} else pending.Keys - {id}
    ensures forall k :: k in r && k != id ==> r[k] == pending[k]
    ensures removed.Some? ==> r[id] == removed.value
  {
    match removed
    case Some(e) => pending[id := e]
    case None => pending - {id}
  }

  /** The open note after a delete, as written: the condition
      `currentNoteId = noteId` makes the deleted id the open note and yields
      that id, a non-empty attribute string, as the test. The test is always
      truthy, so the branch always runs and leaves no note open. */
  function OpenAfterDeleteAsWritten(id: int): Option<int> {
    var openAfterAssignment := Some(id);
    var testIsTruthy := true;
    if testIsTruthy then None else openAfterAssignment
  }

  /** The open note after a delete, as evidently intended: the editor is
      cleared only when the deleted note is the open one. */
  function OpenAfterDelete(open: Option<int>, id: int): (r: Option<int>)
    ensures r.None? <==> open.None? || open == Some(id)
    ensures r.Some? ==> r == open
  {
    if open == Some(id) then None else open
  }

  /** Deleting a note that is not open closes the open note all the same. */
  lemma DeleteClosesOtherNote()
    ensures OpenAfterDeleteAsWritten(1) == None
    ensures OpenAfterDelete(Some(2), 1) == Some(2)
  {
  }

  class Session {
    /** The note open in the editor; none for a note not yet saved. */
    var currentNoteId: Option<int>
    /** The note list, kept in case-insensitive title order. */
    var notesCache: seq<Entry>
    /** Note id to the handle of the timer that will delete it. */
    var deleteTimeouts: map<int, nat>
    /** Note id to the cache entry its delete removed. */
    var pendingDeletions: map<int, Entry>

    /** The host's armed timers: handle to the note whose delete it runs. */
    var timers: map<nat, int>
    /** The handle the host gives the next timer. */
    var nextHandle: nat
    /** Notes whose DELETE statement was issued and not yet answered. */
    var deletesInFlight: multiset<int>
    /** The `Test` table: id to title. */
    var store: map<int, string>

    /** The cache is sorted; timer handles are positive (so truthy) and fresh
        handles are never in use; a recorded timeout that is still armed runs
        the delete of its own note. */
    ghost predicate Valid()
      reads this
    {
      Sorted(notesCache) && TimersValid()
    }

    /** The timer part of `Valid`, which the cache operations leave alone.
        Every pending entry has a recorded timeout, since each delete records
        both and undo forgets both. */
    ghost predicate TimersValid()
      reads this`timers, this`nextHandle, this`deleteTimeouts, this`pendingDeletions
    {
      && 0 < nextHandle
      && (forall h :: h in timers ==> 0 < h < nextHandle)
      && (forall id :: id in deleteTimeouts ==> 0 < deleteTimeouts[id] < nextHandle)
      && (forall id :: id in deleteTimeouts && deleteTimeouts[id] in timers ==> timers[deleteTimeouts[id]] == id)
      && pendingDeletions.Keys <= deleteTimeouts.Keys
    }

    /** The notes the list view shows: `renderNotesList`'s filter. */
    ghost function Shown(): seq<Entry>
      reads this
    {
      WithoutIds(notesCache, deleteTimeouts.Keys)
    }

    /** The renderer at start-up, before `listNotes` has answered. */
    constructor (table: map<int, string>)
      ensures Valid()
      ensures currentNoteId == None && notesCache == []
      ensures deleteTimeouts == map[] && pendingDeletions == map[]
      ensures timers == map[] && nextHandle == 1 && deletesInFlight == multiset{}
      ensures store == table
    {
      currentNoteId := None;
      notesCache := [];
      deleteTimeouts := map[];
      pendingDeletions := map[];
      timers := map[];
      nextHandle := 1;
      deletesInFlight := multiset{};
      store := table;
    }

    /** `sortNotesCache`: stable sort by case-insensitive title. */
    method SortNotesCache()
      requires TimersValid()
      modifies this`notesCache
      ensures Valid()
      ensures notesCache == Sort(old(notesCache))
    {
      SortIsSorted(notesCache);
      notesCache := Sort(notesCache);
    }

    /** The callback of `listNotes`: on success the rows replace the cache;
        on an error nothing changes. */
    method ListNotesCompleted(reply: Reply<seq<Entry>>)
      requires Valid()
      requires reply.Ok? ==> IsListing(reply.value, store)
      modifies this`notesCache
      ensures Valid()
      ensures notesCache == if reply.Ok? then reply.value else old(notesCache)
    {
      if reply.Ok? {
        notesCache := reply.value;
      }
    }

    /** `renderNotesList`: the cache entries, in cache order, whose id has no
        recorded delete timeout. */
    method RenderNotesList() returns (shown: seq<Entry>)
      ensures shown == WithoutIds(notesCache, deleteTimeouts.Keys)
    {
      shown := [];
      var i := 0;
      while i < |notesCache|
        invariant 0 <= i <= |notesCache|
        invariant shown == WithoutIds(notesCache[..i], deleteTimeouts.Keys)
      {
        var note := notesCache[i];
        WithoutIdsAppend(notesCache[..i], [note], deleteTimeouts.Keys);
        assert [note][1..] == [];
        assert notesCache[..i + 1] == notesCache[..i] + [note];
        if note.id !in deleteTimeouts {
          shown := shown + [note];
        }
        i := i + 1;
      }
      assert notesCache[..i] == notesCache;
    }

    /** `saveNewNote`: the INSERT and its callback. On success the new id is
        the open note and the entry is pushed and sorted in; on an error
        nothing changes. The new note is listed exactly when its id has no
        recorded delete timeout. */
    method SaveNewNoteCompleted(title: string, reply: Reply<int>)
      requires Valid()
      requires reply.Ok? ==> reply.value !in store
      modifies this`notesCache, this`currentNoteId, this`store
      ensures Valid()
      ensures reply.Ok? ==>
        var e := Entry(reply.value, title);
        && store == old(store)[reply.value := title]
        && currentNoteId == Some(reply.value)
        && notesCache == Sort(old(notesCache) + [e])
      ensures reply.Ok? ==>
        (Entry(reply.value, title) in Shown() <==> reply.value !in deleteTimeouts)
      ensures reply.Err? ==>
        store == old(store) && currentNoteId == old(currentNoteId) && notesCache == old(notesCache)
    {
      match reply
      case Err =>
      case Ok(newId) =>
        var e := Entry(newId, title);
        store := store[newId := title];
        currentNoteId := Some(newId);
        ghost var c := notesCache;
        notesCache := notesCache + [e];
        SortNotesCache();
        PushedEntryKept(c, e, deleteTimeouts.Keys);
    }

    /** `saveEditedTitle`: the UPDATE and its callback. On success the first
        entry with the id, if any, gets the new title and the cache is
        re-sorted; otherwise the cache is unchanged. */
    method SaveEditedTitleCompleted(id: int, newTitle: string, ok: bool)
      requires Valid()
      modifies this`notesCache, this`store
      ensures Valid()
      ensures store == if ok && id in old(store) then old(store)[id := newTitle] else old(store)
      ensures var i := FindIndex(old(notesCache), id);
        if ok && i != -1 then
          && notesCache == Sort(old(notesCache)[i := Entry(id, newTitle)])
        else notesCache == old(notesCache)
    {
      if ok {
        if id in store {
          store := store[id := newTitle];
        }
        var noteIndex := FindIndex(notesCache, id);
        if noteIndex != -1 {
          notesCache := notesCache[noteIndex := notesCache[noteIndex].(title := newTitle)];
          SortNotesCache();
        }
      }
    }

    /** `getContent`: opening a note makes it the open one. */
    method GetContent(id: int)
      requires Valid()
      modifies this`currentNoteId
      ensures Valid()
      ensures currentNoteId == Some(id)
    {
      currentNoteId := Some(id);
    }

    /** `createNewNote`: the editor holds an unsaved note. */
    method CreateNewNote()
      requires Valid()
      modifies this`currentNoteId
      ensures Valid()
      ensures currentNoteId == None
    {
      currentNoteId := None;
    }

    /** The effect on the cache and the timers that every delete has. */
    twostate predicate SoftDeleted(id: int)
      reads this
    {
      && notesCache == WithoutIds(old(notesCache), {id})
      && pendingDeletions == Remember(old(pendingDeletions), id, FindById(old(notesCache), id))
      && old(nextHandle) !in old(timers)
      && timers == old(timers)[old(nextHandle) := id]
      && deleteTimeouts == old(deleteTimeouts)[id := old(nextHandle)]
      && nextHandle == old(nextHandle) + 1
      && deletesInFlight == old(deletesInFlight) && store == old(store)
    }

    /** Every entry with the id leaves the cache, the first one is kept for
        undo, and a fresh timer is armed for the deferred delete. */
    method SoftDelete(id: int)
      requires Valid()
      modifies this`notesCache, this`pendingDeletions, this`deleteTimeouts, this`timers, this`nextHandle
      ensures Valid() && SoftDeleted(id)
      ensures forall x :: x in Shown() ==> x.id != id
    {
      var removedNote := FindById(notesCache, id);
      WithoutIdsSorted(notesCache, {id});
      notesCache := WithoutIds(notesCache, {id});
      pendingDeletions := Remember(pendingDeletions, id, removedNote);
      var handle := nextHandle;
      timers := timers[handle := id];
      deleteTimeouts := deleteTimeouts[id := handle];
      nextHandle := nextHandle + 1;
      forall x | x in Shown()
        ensures x.id != id
      {
        WithoutIdsMember(notesCache, deleteTimeouts.Keys, x);
      }
    }

    /** `deleteNote` as written: whatever note is open, none is open after. */
    method DeleteNote(id: int)
      requires Valid()
      modifies this
      ensures Valid() && SoftDeleted(id)
      ensures currentNoteId == OpenAfterDeleteAsWritten(id)
      ensures currentNoteId == None
      ensures forall x :: x in Shown() ==> x.id != id
    {
      SoftDelete(id);
      currentNoteId := OpenAfterDeleteAsWritten(id);
    }

    /** `deleteNote` with the comparison the author meant at its open-note
        test: the open note is closed only when it is the deleted one. */
    method DeleteNoteFixed(id: int)
      requires Valid()
      modifies this
      ensures Valid() && SoftDeleted(id)
      ensures currentNoteId == OpenAfterDelete(old(currentNoteId), id)
      ensures forall x :: x in Shown() ==> x.id != id
    {
      SoftDelete(id);
      currentNoteId := OpenAfterDelete(currentNoteId, id);
    }

    /** A delete timer fires: `actuallyDeleteNote` issues the DELETE. The
        recorded timeout is left in place. */
    method Elapse(handle: nat)
      requires Valid() && handle in timers
      modifies this`timers, this`deletesInFlight
      ensures Valid()
      ensures timers == old(timers) - {handle}
      ensures deletesInFlight == old(deletesInFlight) + multiset{old(timers)[handle]}
    {
      deletesInFlight := deletesInFlight + multiset{timers[handle]};
      timers := timers - {handle};
    }

    /** The callback of that DELETE: on success the row is gone and the
        pending entry is discarded; on an error both stay. The cache and the
        recorded timeout are untouched either way. */
    method DeleteCompleted(id: int, ok: bool)
      requires Valid() && id in deletesInFlight
      modifies this`deletesInFlight, this`store, this`pendingDeletions
      ensures Valid()
      ensures deletesInFlight == old(deletesInFlight) - multiset{id}
      ensures store == if ok then old(store) - {id} else old(store)
      ensures pendingDeletions == if ok then old(pendingDeletions) - {id} else old(pendingDeletions)
    {
      deletesInFlight := deletesInFlight - multiset{id};
      if ok {
        store := store - {id};
        pendingDeletions := pendingDeletions - {id};
      }
    }

    /** The callback of that DELETE as evidently intended: on success the
        recorded timeout is forgotten as well, so that a note saved later
        under the same id is listed. */
    method DeleteCompletedFixed(id: int, ok: bool)
      requires Valid() && id in deletesInFlight
      modifies this`deletesInFlight, this`store, this`pendingDeletions, this`deleteTimeouts
      ensures Valid()
      ensures deletesInFlight == old(deletesInFlight) - multiset{id}
      ensures store == if ok then old(store) - {id} else old(store)
      ensures pendingDeletions == if ok then old(pendingDeletions) - {id} else old(pendingDeletions)
      ensures deleteTimeouts == if ok then old(deleteTimeouts) - {id} else old(deleteTimeouts)
    {
      DeleteCompleted(id, ok);
      if ok {
        deleteTimeouts := deleteTimeouts - {id};
      }
    }

    /** `undoDelete`: cancel the recorded timer and forget it; if an entry is
        pending for the id, push it back and re-sort. */
    method UndoDelete(id: int)
      requires Valid()
      modifies this`timers, this`deleteTimeouts, this`notesCache, this`pendingDeletions
      ensures Valid()
      ensures timers == if id in old(deleteTimeouts) then old(timers) - {old(deleteTimeouts)[id]} else old(timers)
      ensures deleteTimeouts == old(deleteTimeouts) - {id}
      ensures pendingDeletions == old(pendingDeletions) - {id}
      ensures notesCache == if id in old(pendingDeletions)
        then Sort(old(notesCache) + [old(pendingDeletions)[id]])
        else old(notesCache)
    {
      if id in deleteTimeouts {
        timers := timers - {deleteTimeouts[id]};
      }
      deleteTimeouts := deleteTimeouts - {id};
      if id in pendingDeletions {
        var e := pendingDeletions[id];
        pendingDeletions := pendingDeletions - {id};
        notesCache := notesCache + [e];
        SortNotesCache();
      }
    }
  }

  /** In every valid state the visible list leaves out every pending id. */
  lemma PendingNotShown(s: Session)
    requires s.Valid()
    ensures forall x :: x in s.Shown() ==> x.id !in s.pendingDeletions
  {
    forall x | x in s.Shown()
      ensures x.id !in s.pendingDeletions
    {
      WithoutIdsMember(s.notesCache, s.deleteTimeouts.Keys, x);
    }
  }

  /** Arming a fresh handle and clearing it again leaves the timers as
      they were. */
  lemma ArmThenDisarm(timers: map<nat, int>, h: nat, id: int)
    requires h !in timers
    ensures timers[h := id] - {h} == timers
  {
  }

  /** Setting a key and then removing it is removing it. */
  lemma OverwriteThenRemove<V>(m: map<int, V>, k: int, v: V)
    ensures m[k := v] - {k} == m - {k}
  {
  }

  /** Delete followed by undo before the timer fires: when no later entry
      ties with the deleted one, the cache, the timers and the pending map
      are as before, and the note is shown again. */
  method DeleteThenUndo(s: Session, i: nat)
    requires s.Valid() && UniqueIds(s.notesCache) && i < |s.notesCache|
    requires forall j :: i < j < |s.notesCache| ==> Key(s.notesCache[j].title) != Key(s.notesCache[i].title)
    modifies s
    ensures s.Valid()
    ensures s.notesCache == old(s.notesCache)
    ensures s.timers == old(s.timers)
    ensures s.pendingDeletions == old(s.pendingDeletions) - {old(s.notesCache)[i].id}
    ensures s.deleteTimeouts == old(s.deleteTimeouts) - {old(s.notesCache)[i].id}
    ensures old(s.notesCache)[i] in s.Shown()
  {
    var e := s.notesCache[i];
    ghost var c, pending, timeouts, timers := s.notesCache, s.pendingDeletions, s.deleteTimeouts, s.timers;
    ghost var handle := s.nextHandle;
    assert FindById(c, e.id) == Some(e) by {
      assert FindIndex(c, e.id) == i;
    }
    s.DeleteNote(e.id);
    assert s.pendingDeletions == pending[e.id := e];
    assert s.deleteTimeouts == timeouts[e.id := handle];
    assert s.timers == timers[handle := e.id] && handle !in timers;
    s.UndoDelete(e.id);
    ArmThenDisarm(timers, handle, e.id);
    OverwriteThenRemove(pending, e.id, e);
    OverwriteThenRemove(timeouts, e.id, handle);
    assert s.notesCache == Sort(WithoutIds(c, {e.id}) + [e]);
    DeleteThenRestoreIsIdentity(c, i);
    WithoutIdsMember(s.notesCache, s.deleteTimeouts.Keys, e);
  }

  /** Delete followed by undo before the timer fires, whatever the other
      titles: the note is shown again, the cache holds what it held before,
      and the restored entry sits right after the entries it ties with. */
  method DeleteThenUndoShows(s: Session, i: nat)
    requires s.Valid() && UniqueIds(s.notesCache) && i < |s.notesCache|
    modifies s
    ensures s.Valid()
    ensures var c, e := old(s.notesCache), old(s.notesCache)[i];
      var t := c[..i] + c[i + 1..];
      s.notesCache == t[..PushPosition(t, e)] + [e] + t[PushPosition(t, e)..]
    ensures multiset(s.notesCache) == multiset(old(s.notesCache))
    ensures s.timers == old(s.timers)
    ensures s.pendingDeletions == old(s.pendingDeletions) - {old(s.notesCache)[i].id}
    ensures s.deleteTimeouts == old(s.deleteTimeouts) - {old(s.notesCache)[i].id}
    ensures old(s.notesCache)[i] in s.Shown()
  {
    var e := s.notesCache[i];
    ghost var c, pending, timeouts, timers := s.notesCache, s.pendingDeletions, s.deleteTimeouts, s.timers;
    ghost var handle := s.nextHandle;
    assert FindById(c, e.id) == Some(e) by {
      assert FindIndex(c, e.id) == i;
    }
    s.DeleteNote(e.id);
    assert s.pendingDeletions == pending[e.id := e];
    assert s.deleteTimeouts == timeouts[e.id := handle];
    assert s.timers == timers[handle := e.id] && handle !in timers;
    s.UndoDelete(e.id);
    ArmThenDisarm(timers, handle, e.id);
    OverwriteThenRemove(pending, e.id, e);
    OverwriteThenRemove(timeouts, e.id, handle);
    assert s.notesCache == Sort(WithoutIds(c, {e.id}) + [e]);
    DeleteThenRestorePlacesAfterTies(c, i);
    DeleteThenRestorePermutes(c, i);
    assert e in s.notesCache by {
      assert e in multiset(c);
    }
    WithoutIdsMember(s.notesCache, s.deleteTimeouts.Keys, e);
  }

  /** A delete whose timer then fires: the DELETE is issued while the entry
      is still kept for undo. */
  method DeleteAndElapse(s: Session, i: nat) returns (e: Entry)
    requires s.Valid() && UniqueIds(s.notesCache) && i < |s.notesCache|
    modifies s
    ensures s.Valid() && e == old(s.notesCache)[i]
    ensures e.id in s.pendingDeletions && s.pendingDeletions[e.id] == e
    ensures e.id in s.deletesInFlight && e.id in s.deleteTimeouts
    ensures s.store == old(s.store)
  {
    e := s.notesCache[i];
    assert FindById(s.notesCache, e.id) == Some(e) by {
      assert FindIndex(s.notesCache, e.id) == i;
    }
    s.DeleteNote(e.id);
    s.Elapse(s.deleteTimeouts[e.id]);
  }

  /** Undo that lands after the timer fired but before the DELETE answered
      restores the entry, and then the row is deleted: the list shows a note
      the table no longer has. */
  method UndoWhileDeleteInFlight(s: Session, i: nat)
    requires s.Valid() && UniqueIds(s.notesCache) && i < |s.notesCache|
    modifies s
    ensures old(s.notesCache)[i] in s.Shown()
    ensures old(s.notesCache)[i].id !in s.store
  {
    var e := DeleteAndElapse(s, i);
    ghost var filtered := s.notesCache;
    s.UndoDelete(e.id);
    s.DeleteCompleted(e.id, true);
    assert e in s.notesCache by {
      SortIsPermutation(filtered + [e]);
      assert e in multiset(filtered + [e]);
    }
    WithoutIdsMember(s.notesCache, s.deleteTimeouts.Keys, e);
  }

  /** The DELETE fails after the timer fired: the row stays, the pending
      entry is kept, and a later undo still brings the note back. */
  method UndoAfterFailedDelete(s: Session, i: nat)
    requires s.Valid() && UniqueIds(s.notesCache) && i < |s.notesCache|
    modifies s
    ensures old(s.notesCache)[i] in s.Shown()
    ensures s.store == old(s.store)
  {
    var e := DeleteAndElapse(s, i);
    ghost var filtered := s.notesCache;
    s.DeleteCompleted(e.id, false);
    s.UndoDelete(e.id);
    assert e in s.notesCache by {
      SortIsPermutation(filtered + [e]);
      assert e in multiset(filtered + [e]);
    }
    WithoutIdsMember(s.notesCache, s.deleteTimeouts.Keys, e);
  }

  /** A note is deleted and its DELETE succeeds; sqlite then hands the freed
      id to the next new note. As written the recorded timeout of the old
      note still stands, so the new note is in the cache but never listed. */
  method SaveAfterDeleteHidden(s: Session, i: nat, title: string)
    requires s.Valid() && UniqueIds(s.notesCache) && i < |s.notesCache|
    modifies s
    ensures Entry(old(s.notesCache)[i].id, title) in s.notesCache
    ensures Entry(old(s.notesCache)[i].id, title) !in s.Shown()
  {
    var e := DeleteAndElapse(s, i);
    s.DeleteCompleted(e.id, true);
    ghost var c := s.notesCache;
    s.SaveNewNoteCompleted(title, Ok(e.id));
    assert Entry(e.id, title) in s.notesCache by {
      SortIsPermutation(c + [Entry(e.id, title)]);
      assert Entry(e.id, title) in multiset(c + [Entry(e.id, title)]);
    }
  }

  /** The same run with the intended DELETE callback: the new note is
      listed. */
  method SaveAfterDeleteShown(s: Session, i: nat, title: string)
    requires s.Valid() && UniqueIds(s.notesCache) && i < |s.notesCache|
    modifies s
    ensures Entry(old(s.notesCache)[i].id, title) in s.Shown()
  {
    var e := DeleteAndElapse(s, i);
    s.DeleteCompletedFixed(e.id, true);
    s.SaveNewNoteCompleted(title, Ok(e.id));
  }

  /** Deleting a note other than the open one: as written the open note is
      closed; with the intended test it stays open, also across a later undo. */
  method DeleteOtherNote(s: Session, open: int, id: int) returns (asWritten: Option<int>, intended: Option<int>)
    requires s.Valid() && open != id
    modifies s
    ensures asWritten == None
    ensures intended == Some(open)
  {
    s.GetContent(open);
    s.DeleteNote(id);
    asWritten := s.currentNoteId;
    s.UndoDelete(id);
    s.GetContent(open);
    s.DeleteNoteFixed(id);
    s.UndoDelete(id);
    intended := s.currentNoteId;
  }
}
