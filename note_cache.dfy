/** The in-memory note list of the renderer: `{id, title}` entries kept in
    case-insensitive title order, and the list operations the renderer
    applies to it (sort, filter by id, find by id). */
module NoteCache {
  import opened TitleOrder

  datatype Option<T> = None | Some(value: T)

  /** One cached note: the `(id, title)` projection of a row of the store. */
  datatype Entry = Entry(id: int, title: string)

  /** `x` sorts no later than `y` (the comparator of `sortNotesCache`). */
  predicate NoteLe(x: Entry, y: Entry) {
    TitleLe(x.title, y.title)
  }

  /** Ordered non-decreasingly by case-insensitive title. */
  predicate Sorted(s: seq<Entry>) {
    forall i, j :: 0 <= i < j < |s| ==> NoteLe(s[i], s[j])
  }

  predicate UniqueIds(s: seq<Entry>) {
    forall i, j :: 0 <= i < j < |s| ==> s[i].id != s[j].id
  }

  function Ids(s: seq<Entry>): set<int> {
    set e | e in s :: e.id
  }

  lemma SplitAt<T>(s: seq<T>, i: nat)
    requires i < |s|
    ensures s == s[..i] + [s[i]] + s[i + 1..]
  {
  }

  lemma RemoveAtSlices<T>(s: seq<T>, i: nat)
    requires i < |s|
    ensures (s[..i] + s[i + 1..])[..i] == s[..i]
    ensures (s[..i] + s[i + 1..])[i..] == s[i + 1..]
  {
  }

  lemma RemoveAtIndex<T>(s: seq<T>, i: nat, j: nat)
    requires i < |s| && j < |s| - 1
    ensures (s[..i] + s[i + 1..])[j] == if j < i then s[j] else s[j + 1]
  {
    if j >= i {
      assert (s[..i] + s[i + 1..])[j] == s[i + 1..][j - i];
    }
  }

  // ---------------------------------------------------------------------
  // Sorting: `notesCache.sort(...)` with a stable sort

  /** Puts `x` before the first entry it sorts no later than, so that `x`
      precedes every entry whose title ties with its own. */
  function Insert(x: Entry, s: seq<Entry>): seq<Entry> {
    if s == [] then [x]
    else if NoteLe(x, s[0]) then [x] + s
    else [s[0]] + Insert(x, s[1..])
  }

  /** The stable sort by case-insensitive title. */
  function Sort(s: seq<Entry>): seq<Entry> {
    if s == [] then [] else Insert(s[0], Sort(s[1..]))
  }

  /** The entries of `s` whose title folds to `k`, in their order in `s`:
      one class of titles that compare equal. */
  function WithKey(s: seq<Entry>, k: string): seq<Entry> {
    if s == [] then []
    else (if Key(s[0].title) == k then [s[0]] else []) + WithKey(s[1..], k)
  }

  lemma {:induction false} InsertPermutes(x: Entry, s: seq<Entry>)
    ensures multiset(Insert(x, s)) == multiset(s) + multiset{x}
  {
    if s != [] && !NoteLe(x, s[0]) {
      InsertPermutes(x, s[1..]);
      assert multiset(Insert(x, s)) == multiset{s[0]} + multiset(Insert(x, s[1..]));
      assert s == [s[0]] + s[1..];
      assert multiset(s) == multiset{s[0]} + multiset(s[1..]);
    }
  }

  lemma SortedTail(s: seq<Entry>)
    requires Sorted(s) && s != []
    ensures Sorted(s[1..])
  {
    forall i, j | 0 <= i < j < |s[1..]|
      ensures NoteLe(s[1..][i], s[1..][j])
    {
      assert s[1..][i] == s[i + 1] && s[1..][j] == s[j + 1];
    }
  }

  /** An entry that sorts no later than `x` and than every entry of `s`
      sorts no later than every entry of `Insert(x, s)`. */
  lemma {:induction false} InsertBelow(b: Entry, x: Entry, s: seq<Entry>)
    requires NoteLe(b, x)
    requires forall j :: 0 <= j < |s| ==> NoteLe(b, s[j])
    ensures forall j :: 0 <= j < |Insert(x, s)| ==> NoteLe(b, Insert(x, s)[j])
  {
    var r := Insert(x, s);
    if s != [] && !NoteLe(x, s[0]) {
      var rest := Insert(x, s[1..]);
      assert forall j :: 0 <= j < |s[1..]| ==> NoteLe(b, s[1..][j]) by {
        forall j | 0 <= j < |s[1..]|
          ensures NoteLe(b, s[1..][j])
        {
          assert s[1..][j] == s[j + 1];
        }
      }
      InsertBelow(b, x, s[1..]);
      assert r == [s[0]] + rest;
      forall j | 0 <= j < |r|
        ensures NoteLe(b, r[j])
      {
        if j > 0 {
          assert r[j] == rest[j - 1];
        }
      }
    } else {
      assert r == [x] + s;
      forall j | 0 <= j < |r|
        ensures NoteLe(b, r[j])
      {
        if j > 0 {
          assert r[j] == s[j - 1];
        }
      }
    }
  }

  lemma {:induction false} InsertSorted(x: Entry, s: seq<Entry>)
    requires Sorted(s)
    ensures Sorted(Insert(x, s))
  {
    var r := Insert(x, s);
    if s != [] && !NoteLe(x, s[0]) {
      var rest := Insert(x, s[1..]);
      assert Sorted(rest) by {
        SortedTail(s);
        InsertSorted(x, s[1..]);
      }
      assert forall j :: 0 <= j < |rest| ==> NoteLe(s[0], rest[j]) by {
        TitleLeTotal(x.title, s[0].title);
        forall j | 0 <= j < |s[1..]|
          ensures NoteLe(s[0], s[1..][j])
        {
          assert s[1..][j] == s[j + 1];
        }
        InsertBelow(s[0], x, s[1..]);
      }
      assert r == [s[0]] + rest;
      forall i, j | 0 <= i < j < |r|
        ensures NoteLe(r[i], r[j])
      {
        assert r[j] == rest[j - 1];
        if i > 0 {
          assert r[i] == rest[i - 1];
        }
      }
    } else if s != [] {
      assert r == [x] + s;
      forall i, j | 0 <= i < j < |r|
        ensures NoteLe(r[i], r[j])
      {
        assert r[j] == s[j - 1];
        if i == 0 {
          if j > 1 {
            TitleLeTransitive(x.title, s[0].title, s[j - 1].title);
          }
        } else {
          assert r[i] == s[i - 1];
        }
      }
    }
  }

  lemma {:induction false} SortIsSorted(s: seq<Entry>)
    ensures Sorted(Sort(s))
  {
    if s != [] {
      SortIsSorted(s[1..]);
      InsertSorted(s[0], Sort(s[1..]));
    }
  }

  lemma {:induction false} SortIsPermutation(s: seq<Entry>)
    ensures multiset(Sort(s)) == multiset(s)
  {
    if s != [] {
      SortIsPermutation(s[1..]);
      InsertPermutes(s[0], Sort(s[1..]));
      assert s == [s[0]] + s[1..];
    }
  }

  lemma WithKeyCons(y: Entry, s: seq<Entry>, k: string)
    ensures WithKey([y] + s, k) == (if Key(y.title) == k then [y] else []) + WithKey(s, k)
  {
    assert ([y] + s)[0] == y && ([y] + s)[1..] == s;
  }

  lemma {:induction false} InsertWithKey(x: Entry, s: seq<Entry>, k: string)
    ensures WithKey(Insert(x, s), k) == (if Key(x.title) == k then [x] else []) + WithKey(s, k)
  {
    if s == [] {
      assert Insert(x, s) == [x] + [];
      WithKeyCons(x, [], k);
    } else if NoteLe(x, s[0]) {
      WithKeyCons(x, s, k);
    } else {
      var rest := Insert(x, s[1..]);
      assert Insert(x, s) == [s[0]] + rest;
      InsertWithKey(x, s[1..], k);
      WithKeyCons(s[0], rest, k);
      WithKeyCons(s[0], s[1..], k);
      assert [s[0]] + s[1..] == s;
      TitleTie(x.title, s[0].title);
      var w := WithKey(s[1..], k);
      if Key(x.title) == k {
        assert WithKey(rest, k) == [x] + w;
        assert WithKey(s, k) == w;
      } else {
        assert WithKey(rest, k) == w;
      }
    }
  }

  /** Stability: the entries whose titles tie keep their relative order. */
  lemma {:induction false} SortIsStable(s: seq<Entry>, k: string)
    ensures WithKey(Sort(s), k) == WithKey(s, k)
  {
    if s != [] {
      SortIsStable(s[1..], k);
      InsertWithKey(s[0], Sort(s[1..]), k);
    }
  }

  /** Sorting a sorted list changes nothing. */
  lemma {:induction false} SortOfSorted(s: seq<Entry>)
    requires Sorted(s)
    ensures Sort(s) == s
  {
    if s != [] {
      SortOfSorted(s[1..]);
      assert s == [s[0]] + s[1..];
    }
  }

  /** One step of `Sort` on `t + [e]`: it inserts the head of `t` into the
      sort of the rest with `e` pushed. */
  lemma SortPushStep(t: seq<Entry>, e: Entry)
    requires t != []
    ensures Sort(t + [e]) == Insert(t[0], Sort(t[1..] + [e]))
  {
    var u := t + [e];
    assert u[0] == t[0] && u[1..] == t[1..] + [e];
  }

  /** Pushing `e` onto a sorted list and sorting puts `e` at position `p`,
      right after every entry that sorts no later than it. */
  lemma {:induction false} SortAfterPush(t: seq<Entry>, e: Entry, p: nat)
    requires Sorted(t) && p <= |t|
    requires forall j :: 0 <= j < p ==> NoteLe(t[j], e)
    requires forall j :: p <= j < |t| ==> !NoteLe(t[j], e)
    ensures Sort(t + [e]) == t[..p] + [e] + t[p..]
    decreases |t|, 1
  {
    if t == [] {
      assert t + [e] == [e] && [e][1..] == [];
    } else if p > 0 {
      SortAfterPushBehind(t, e, p);
    } else {
      SortAfterPushFirst(t, e);
    }
  }

  /** The step of SortAfterPush where `e` goes behind the first entry. */
  lemma {:induction false} SortAfterPushBehind(t: seq<Entry>, e: Entry, p: nat)
    requires Sorted(t) && 0 < p <= |t|
    requires forall j :: 0 <= j < p ==> NoteLe(t[j], e)
    requires forall j :: p <= j < |t| ==> !NoteLe(t[j], e)
    ensures Sort(t + [e]) == t[..p] + [e] + t[p..]
    decreases |t|, 0
  {
    var tail := t[1..];
    var rest := t[1..p] + [e] + t[p..];
    SortPushStep(t, e);
    assert Sort(tail + [e]) == rest by {
      SortedTail(t);
      assert forall j :: 0 <= j < |tail| ==> tail[j] == t[j + 1];
      SortAfterPush(tail, e, p - 1);
      assert tail[..p - 1] == t[1..p] && tail[p - 1..] == t[p..];
    }
    assert Insert(t[0], rest) == [t[0]] + rest by {
      if p > 1 {
        assert rest[0] == t[1];
      } else {
        assert rest[0] == e;
      }
    }
    assert [t[0]] + rest == t[..p] + [e] + t[p..] by {
      assert t[..p] == [t[0]] + t[1..p];
    }
  }

  /** The step of SortAfterPush where `e` goes before every entry. */
  lemma {:induction false} SortAfterPushFirst(t: seq<Entry>, e: Entry)
    requires Sorted(t) && t != []
    requires forall j :: 0 <= j < |t| ==> !NoteLe(t[j], e)
    ensures Sort(t + [e]) == [e] + t
    decreases |t|, 0
  {
    var tail := t[1..];
    var rest := [e] + tail;
    SortPushStep(t, e);
    assert Sort(tail + [e]) == rest by {
      SortedTail(t);
      assert forall j :: 0 <= j < |tail| ==> tail[j] == t[j + 1];
      SortAfterPush(tail, e, 0);
      assert tail[..0] + [e] + tail[0..] == rest;
    }
    assert Insert(t[0], rest) == [e] + Insert(t[0], tail) by {
      assert !NoteLe(t[0], e);
      assert rest[0] == e && rest[1..] == tail;
    }
    assert Insert(t[0], tail) == t by {
      if |t| > 1 {
        assert NoteLe(t[0], tail[0]);
        assert [t[0]] + tail == t;
      } else {
        assert tail == [] && t == [t[0]];
      }
    }
  }

  /** How many leading entries of `t` sort no later than `e`. */
  function PushPosition(t: seq<Entry>, e: Entry): (p: nat)
    ensures p <= |t|
    ensures forall j :: 0 <= j < p ==> NoteLe(t[j], e)
    ensures p < |t| ==> !NoteLe(t[p], e)
  {
    if t == [] then 0
    else if NoteLe(t[0], e) then 1 + PushPosition(t[1..], e)
    else 0
  }

  /** Push then sort adds exactly the pushed entry and gives a sorted list. */
  lemma PushThenSortAdds(c: seq<Entry>, e: Entry)
    ensures Sorted(Sort(c + [e]))
    ensures multiset(Sort(c + [e])) == multiset(c) + multiset{e}
  {
    SortIsSorted(c + [e]);
    SortIsPermutation(c + [e]);
  }

  /** Retitling one entry then sorting replaces exactly that entry by its
      retitled copy and gives a sorted list. */
  lemma RetitleThenSort(c: seq<Entry>, i: nat, title: string)
    requires i < |c|
    ensures var edited := c[i := c[i].(title := title)];
      && Sorted(Sort(edited))
      && multiset(Sort(edited)) == multiset(c) - multiset{c[i]} + multiset{c[i].(title := title)}
  {
    var edited := c[i := c[i].(title := title)];
    SortIsSorted(edited);
    SortIsPermutation(edited);
    assert multiset(edited) == multiset(c) - multiset{c[i]} + multiset{c[i].(title := title)} by {
      SplitAt(c, i);
      SplitAt(edited, i);
      assert edited[..i] == c[..i] && edited[i + 1..] == c[i + 1..];
    }
  }

  /** Push then sort on a sorted list inserts `e` right after the last entry
      that sorts no later than it, i.e. after every entry it ties with. */
  lemma SortAfterPushPlacesAfterTies(t: seq<Entry>, e: Entry)
    requires Sorted(t)
    ensures Sort(t + [e]) == t[..PushPosition(t, e)] + [e] + t[PushPosition(t, e)..]
  {
    var p := PushPosition(t, e);
    forall j | p <= j < |t|
      ensures !NoteLe(t[j], e)
    {
      if j > p && NoteLe(t[j], e) {
        TitleLeTransitive(t[p].title, t[j].title, e.title);
      }
    }
    SortAfterPush(t, e, p);
  }

  // ---------------------------------------------------------------------
  // Filtering by id: `notesCache.filter(note => note.id != noteId)` and
  // the visible list of `renderNotesList`

  /** The entries of `s` whose id is not in `ids`, in their order in `s`. */
  function WithoutIds(s: seq<Entry>, ids: set<int>): seq<Entry> {
    if s == [] then []
    else (if s[0].id in ids then [] else [s[0]]) + WithoutIds(s[1..], ids)
  }

  /** Each entry is kept as often as it occurs in `s` when its id is not in
      `ids`, and dropped altogether when it is. */
  lemma {:induction false} WithoutIdsCount(s: seq<Entry>, ids: set<int>, x: Entry)
    ensures multiset(WithoutIds(s, ids))[x] == if x.id in ids then 0 else multiset(s)[x]
  {
    if s != [] {
      WithoutIdsCount(s[1..], ids, x);
      var head := if s[0].id in ids then [] else [s[0]];
      assert multiset(WithoutIds(s, ids)) == multiset(head) + multiset(WithoutIds(s[1..], ids));
      assert s == [s[0]] + s[1..];
      assert multiset(s) == multiset{s[0]} + multiset(s[1..]);
    }
  }

  lemma WithoutIdsMember(s: seq<Entry>, ids: set<int>, x: Entry)
    ensures x in WithoutIds(s, ids) <==> x in s && x.id !in ids
  {
    WithoutIdsCount(s, ids, x);
  }

  /** An entry pushed onto a list and sorted in survives the filter exactly
      when its id is not filtered. */
  lemma PushedEntryKept(c: seq<Entry>, e: Entry, ids: set<int>)
    ensures e in WithoutIds(Sort(c + [e]), ids) <==> e.id !in ids
  {
    SortIsPermutation(c + [e]);
    assert e in multiset(c + [e]);
    WithoutIdsMember(Sort(c + [e]), ids, e);
  }

  /** Filtering distributes over concatenation, so order is kept. */
  lemma {:induction false} WithoutIdsAppend(a: seq<Entry>, b: seq<Entry>, ids: set<int>)
    ensures WithoutIds(a + b, ids) == WithoutIds(a, ids) + WithoutIds(b, ids)
  {
    if a != [] {
      WithoutIdsAppend(a[1..], b, ids);
      assert (a + b)[1..] == a[1..] + b;
    } else {
      assert a + b == b;
    }
  }

  /** Filtering out ids that no entry carries changes nothing. */
  lemma {:induction false} WithoutAbsentIds(s: seq<Entry>, ids: set<int>)
    requires forall i :: 0 <= i < |s| ==> s[i].id !in ids
    ensures WithoutIds(s, ids) == s
  {
    if s != [] {
      WithoutAbsentIds(s[1..], ids);
    }
  }

  lemma {:induction false} WithoutIdsSorted(s: seq<Entry>, ids: set<int>)
    requires Sorted(s)
    ensures Sorted(WithoutIds(s, ids))
  {
    if s != [] {
      WithoutIdsSorted(s[1..], ids);
      var rest := WithoutIds(s[1..], ids);
      forall j | 0 <= j < |rest|
        ensures NoteLe(s[0], rest[j])
      {
        WithoutIdsMember(s[1..], ids, rest[j]);
        var k :| 0 <= k < |s[1..]| && s[1..][k] == rest[j];
        assert NoteLe(s[0], s[k + 1]);
      }
    }
  }

  /** With unique ids, filtering out the id at position `i` removes exactly
      that position. */
  lemma WithoutIdAt(s: seq<Entry>, i: nat)
    requires UniqueIds(s) && i < |s|
    ensures WithoutIds(s, {s[i].id}) == s[..i] + s[i + 1..]
  {
    var ids := {s[i].id};
    var before, after := s[..i], s[i + 1..];
    assert WithoutIds(before, ids) == before by {
      forall k | 0 <= k < |before|
        ensures before[k].id !in ids
      {
        assert before[k] == s[k];
      }
      WithoutAbsentIds(before, ids);
    }
    assert WithoutIds(after, ids) == after by {
      forall k | 0 <= k < |after|
        ensures after[k].id !in ids
      {
        assert after[k] == s[i + 1 + k];
      }
      WithoutAbsentIds(after, ids);
    }
    var upTo := before + [s[i]];
    assert WithoutIds(upTo, ids) == before by {
      assert WithoutIds([s[i]], ids) == [] by {
        assert [s[i]][1..] == [];
      }
      WithoutIdsAppend(before, [s[i]], ids);
    }
    SplitAt(s, i);
    WithoutIdsAppend(upTo, after, ids);
  }

  // ---------------------------------------------------------------------
  // Lookup by id: `findIndex` and `find`

  /** The position of the first entry with id `id`, or -1 when there is
      none. */
  function FindIndex(s: seq<Entry>, id: int): (r: int)
    ensures -1 <= r < |s|
    ensures r == -1 <==> forall j :: 0 <= j < |s| ==> s[j].id != id
    ensures 0 <= r ==> s[r].id == id && forall j :: 0 <= j < r ==> s[j].id != id
  {
    if s == [] then -1
    else if s[0].id == id then 0
    else
      var k := FindIndex(s[1..], id);
      if k == -1 then -1 else k + 1
  }

  /** The first entry with id `id`, if any. */
  function FindById(s: seq<Entry>, id: int): (r: Option<Entry>)
    ensures r.None? <==> id !in Ids(s)
    ensures r.Some? ==> r.value in s && r.value.id == id
    ensures r.Some? ==> r.value == s[FindIndex(s, id)]
  {
    var i := FindIndex(s, id);
    if i == -1 then None else Some(s[i])
  }

  // ---------------------------------------------------------------------
  // Delete followed by undo: filter the entry out, push it back, re-sort

  /** The entry is back and the list is sorted and holds what it held
      before, whatever the other titles are. */
  lemma DeleteThenRestorePermutes(c: seq<Entry>, i: nat)
    requires UniqueIds(c) && i < |c|
    ensures Sorted(Sort(WithoutIds(c, {c[i].id}) + [c[i]]))
    ensures multiset(Sort(WithoutIds(c, {c[i].id}) + [c[i]])) == multiset(c)
  {
    var before, after := c[..i], c[i + 1..];
    var u := WithoutIds(c, {c[i].id}) + [c[i]];
    assert u == before + after + [c[i]] by {
      WithoutIdAt(c, i);
    }
    assert multiset(u) == multiset(c) by {
      SplitAt(c, i);
      assert multiset(u) == multiset(before) + multiset(after) + multiset{c[i]};
      assert multiset(c) == multiset(before) + multiset{c[i]} + multiset(after);
    }
    SortIsSorted(u);
    SortIsPermutation(u);
  }

  /** When no later entry ties with the deleted one, restoring it gives back
      exactly the original sorted list. */
  lemma DeleteThenRestoreIsIdentity(c: seq<Entry>, i: nat)
    requires Sorted(c) && UniqueIds(c) && i < |c|
    requires forall j :: i < j < |c| ==> Key(c[j].title) != Key(c[i].title)
    ensures Sort(WithoutIds(c, {c[i].id}) + [c[i]]) == c
  {
    var t := c[..i] + c[i + 1..];
    assert WithoutIds(c, {c[i].id}) == t by {
      WithoutIdAt(c, i);
    }
    assert Sorted(t) by {
      WithoutIdAt(c, i);
      WithoutIdsSorted(c, {c[i].id});
    }
    assert forall j :: 0 <= j < i ==> NoteLe(t[j], c[i]) by {
      forall j | 0 <= j < i
        ensures NoteLe(t[j], c[i])
      {
        RemoveAtIndex(c, i, j);
      }
    }
    assert forall j :: i <= j < |t| ==> !NoteLe(t[j], c[i]) by {
      forall j | i <= j < |t|
        ensures !NoteLe(t[j], c[i])
      {
        RemoveAtIndex(c, i, j);
        assert NoteLe(c[i], c[j + 1]);
        TitleTie(c[i].title, c[j + 1].title);
      }
    }
    SortAfterPush(t, c[i], i);
    RemoveAtSlices(c, i);
    SplitAt(c, i);
  }

  /** In general, restoring the deleted entry puts it back right after the
      last remaining entry that sorts no later than it, so after every entry
      it ties with. */
  lemma DeleteThenRestorePlacesAfterTies(c: seq<Entry>, i: nat)
    requires Sorted(c) && UniqueIds(c) && i < |c|
    ensures var t := c[..i] + c[i + 1..];
      Sort(WithoutIds(c, {c[i].id}) + [c[i]])
        == t[..PushPosition(t, c[i])] + [c[i]] + t[PushPosition(t, c[i])..]
  {
    WithoutIdAt(c, i);
    WithoutIdsSorted(c, {c[i].id});
    SortAfterPushPlacesAfterTies(c[..i] + c[i + 1..], c[i]);
  }

  /** Conversely, when a later entry ties with the deleted one, restoring it
      does not give back the cache: the entry after it moves into its place. */
  lemma DeleteThenRestoreMovesLaterTie(c: seq<Entry>, i: nat, j: nat)
    requires Sorted(c) && UniqueIds(c) && i < j < |c|
    requires Key(c[j].title) == Key(c[i].title)
    ensures var r := Sort(WithoutIds(c, {c[i].id}) + [c[i]]);
      |r| == |c| && r[i] == c[i + 1] && r != c
  {
    var e := c[i];
    var t := c[..i] + c[i + 1..];
    var p := PushPosition(t, e);
    DeleteThenRestorePlacesAfterTies(c, i);
    assert t[j - 1] == c[j] by {
      RemoveAtIndex(c, i, j - 1);
    }
    assert Sorted(t) by {
      WithoutIdAt(c, i);
      WithoutIdsSorted(c, {e.id});
    }
    assert NoteLe(t[j - 1], e) by {
      TitleTie(c[j].title, e.title);
    }
    assert forall k :: 0 <= k < j ==> NoteLe(t[k], e) by {
      forall k | 0 <= k < j
        ensures NoteLe(t[k], e)
      {
        if k < j - 1 {
          TitleLeTransitive(t[k].title, t[j - 1].title, e.title);
        }
      }
    }
    assert i < p;
    var r := t[..p] + [e] + t[p..];
    assert |r| == |c|;
    assert r[i] == t[i];
    assert t[i] == c[i + 1] by {
      RemoveAtIndex(c, i, i);
    }
    assert r[i] != c[i] by {
      assert c[i + 1].id != c[i].id;
    }
  }

  /** When a later entry does tie with it, the restored entry comes back
      after that entry: here "note" and "Note" change places. */
  lemma DeleteThenRestoreMovesTies()
    ensures var c := [Entry(1, "note"), Entry(2, "Note")];
      Sorted(c) && Sort(WithoutIds(c, {1}) + [c[0]]) == [Entry(2, "Note"), Entry(1, "note")]
  {
    var lower, upper := Entry(1, "note"), Entry(2, "Note");
    var c := [lower, upper];
    assert Key("Note") == Key("note") by {
      KeyIgnoresCase("Note", "note");
    }
    SameKeyTitleLe("note", "Note");
    SameKeyTitleLe("Note", "note");
    assert NoteLe(lower, upper) && NoteLe(upper, lower);
    assert WithoutIds(c, {1}) == [upper] by {
      assert [upper][1..] == [];
      assert WithoutIds([upper], {1}) == [upper];
      assert c[1..] == [upper];
    }
    assert [upper] + [lower] == [upper, lower];
    assert Sort([lower]) == [lower] by {
      assert [lower][1..] == [];
    }
    assert [upper, lower][1..] == [lower];
  }

  /** Saving "Zebra" and then "apple" lists "apple" first. */
  lemma ZebraThenApple()
    ensures Sort(Sort([] + [Entry(1, "Zebra")]) + [Entry(2, "apple")]) == [Entry(2, "apple"), Entry(1, "Zebra")]
  {
    var zebra, apple := Entry(1, "Zebra"), Entry(2, "apple");
    assert Sort([] + [zebra]) == [zebra] by {
      SortAfterPushPlacesAfterTies([], zebra);
    }
    assert !NoteLe(zebra, apple) by {
      assert Fold('Z') == 'z' && Fold('a') == 'a';
    }
    SortAfterPushPlacesAfterTies([zebra], apple);
    assert PushPosition([zebra], apple) == 0;
  }
}
