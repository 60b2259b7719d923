/**
 * The note service: listing with search, sort and pagination, lookup by id,
 * and the three writes (create, update, soft delete). Reads are functions
 * over the table, a map from id to row; writes are methods of `NoteStore`,
 * which owns that map and the clock that stamps rows.
 *
 * A row whose `isDeleted` flag is set stays in the table but is invisible:
 * it is never listed, and lookup, update and delete report it as not found,
 * exactly as for an id that was never used.
 */
module NoteController {
  import opened Wrappers
  import opened NoteModel
  import opened NoteOrder
  import NoteValidation
  import Text
  import Paging

  /** What a failed operation reports: an API error with its status, or a rejection by storage. */
  datatype Error =
    | ApiError(status: nat, message: string, details: seq<NoteValidation.FieldError>)
    | StorageError

  const NotFound: Error := ApiError(404, "Note not found", [])

  function ValidationFailed(errors: seq<NoteValidation.FieldError>): Error {
    ApiError(400, "Validation Error", errors)
  }

  /** Every row is stored under its own id, as under a primary key. */
  predicate KeyedById(m: map<Id, Note>) {
    forall id | id in m :: m[id].id == id
  }

  // ---------------------------------------------------------------- listing

  /** The query parameters of a listing; a missing one takes its default. */
  datatype ListParams = ListParams(
    page: Option<nat>,
    limit: Option<nat>,
    search: Option<string>,
    sort: Option<SortField>,
    order: Option<Direction>)

  /** A listing query with every parameter resolved; an empty search means no search. */
  datatype Query = Query(page: nat, limit: nat, search: string, sort: SortField, order: Direction)

  /** The answer to a listing: one page of notes and the paging figures. */
  datatype Listing = Listing(notes: seq<Note>, total: nat, currentPage: nat, totalPages: nat)

  const DefaultPage: nat := 1
  const DefaultLimit: nat := 10
  const DefaultSort: SortField := CreatedAt
  const DefaultOrder: Direction := Desc

  /** Applies the defaults page 1, limit 10, sort by creation time, newest first. */
  function Resolve(p: ListParams): (q: Query)
    ensures q.page == (if p.page.Some? then p.page.value else DefaultPage)
    ensures q.limit == (if p.limit.Some? then p.limit.value else DefaultLimit)
    ensures q.search == (if p.search.Some? then p.search.value else "")
    ensures q.sort == (if p.sort.Some? then p.sort.value else DefaultSort)
    ensures q.order == (if p.order.Some? then p.order.value else DefaultOrder)
  {
    Query(
      if p.page.Some? then p.page.value else DefaultPage,
      if p.limit.Some? then p.limit.value else DefaultLimit,
      if p.search.Some? then p.search.value else "",
      if p.sort.Some? then p.sort.value else DefaultSort,
      if p.order.Some? then p.order.value else DefaultOrder)
  }

  /** The filter of the list query: not deleted and, for a non-empty search, found in title or content. */
  predicate Matches(n: Note, search: string) {
    && !n.isDeleted
    && (search == [] || Text.ContainsIgnoringCase(n.title, search) || Text.ContainsIgnoringCase(n.content, search))
  }

  /** The rows the list query selects. */
  function Matching(m: map<Id, Note>, search: string): (s: set<Note>)
    requires KeyedById(m)
    ensures UniqueIds(s)
    ensures forall n | n in s :: n.id in m && m[n.id] == n && Matches(n, search)
    ensures forall id | id in m && Matches(m[id], search) :: m[id] in s
  {
    set n | n in m.Values && Matches(n, search)
  }

  /** All selected rows in listing order, before the page is cut out. */
  function Ordered(m: map<Id, Note>, q: Query): seq<Note>
    requires KeyedById(m)
  {
    SortNotes(Matching(m, q.search), q.sort, q.order)
  }

  /**
   * The list operation: the selected rows in listing order, cut to the
   * window [offset, offset + limit) with offset (page - 1) * limit, together
   * with the number of selected rows, the requested page and the number of
   * pages.
   */
  function GetNotes(m: map<Id, Note>, q: Query): (r: Listing)
    requires KeyedById(m)
    requires q.page >= 1 && q.limit >= 1
    ensures r.total == |Matching(m, q.search)|
    ensures r.currentPage == q.page
    ensures r.totalPages == Paging.PageCount(r.total, q.limit)
    ensures |r.notes| <= q.limit
    ensures forall i :: 0 <= i < |r.notes| ==> r.notes[i].id in m && m[r.notes[i].id] == r.notes[i]
    ensures forall i :: 0 <= i < |r.notes| ==> !r.notes[i].isDeleted && Matches(r.notes[i], q.search)
    ensures Sorted(q.sort, q.order, r.notes)
  {
    var rows := Ordered(m, q);
    var offset := Paging.Offset(q.page, q.limit);
    var page := Paging.Window(rows, offset, q.limit);
    SortedWindow(q.sort, q.order, rows, Matching(m, q.search), offset, q.limit);
    Listing(page, |rows|, q.page, Paging.PageCount(|rows|, q.limit))
  }

  /** A window cut from sorted rows of a set is sorted and holds rows of that set only. */
  lemma SortedWindow(field: SortField, dir: Direction, rows: seq<Note>, selected: set<Note>, offset: nat, limit: nat)
    requires Sorted(field, dir, rows)
    requires forall i :: 0 <= i < |rows| ==> rows[i] in selected
    ensures Sorted(field, dir, Paging.Window(rows, offset, limit))
    ensures forall i :: 0 <= i < |Paging.Window(rows, offset, limit)| ==> Paging.Window(rows, offset, limit)[i] in selected
  {
    var lo, hi := Paging.WindowIsSlice(rows, offset, limit);
    SortedSlice(field, dir, rows, lo, hi);
  }

  /** The page is the window of the ordered selection that starts at offset (page - 1) * limit. */
  lemma PageIsWindow(m: map<Id, Note>, q: Query)
    requires KeyedById(m) && q.page >= 1 && q.limit >= 1
    ensures GetNotes(m, q).notes == Paging.Window(Ordered(m, q), Paging.Offset(q.page, q.limit), q.limit)
  {
  }

  /** Every page before the last is full, and a page beyond the last is empty. */
  lemma PageSizes(m: map<Id, Note>, q: Query)
    requires KeyedById(m) && q.page >= 1 && q.limit >= 1
    ensures var r := GetNotes(m, q);
      && (q.page < r.totalPages ==> |r.notes| == q.limit)
      && (q.page > r.totalPages ==> r.notes == [])
  {
    Paging.PageSizes(Ordered(m, q), q.limit, q.page);
  }

  /** Every selected row is listed on some page between 1 and the page count. */
  lemma EveryMatchIsListed(m: map<Id, Note>, q: Query, n: Note)
    requires KeyedById(m) && q.page >= 1 && q.limit >= 1
    requires n.id in m && m[n.id] == n && Matches(n, q.search)
    ensures exists p :: 1 <= p <= GetNotes(m, q).totalPages && n in GetNotes(m, q.(page := p)).notes
  {
    var rows := Ordered(m, q);
    assert n in Matching(m, q.search);
    var k :| 0 <= k < |rows| && rows[k] == n;
    var p := Paging.PageOf(rows, q.limit, k);
    assert n in Paging.Window(rows, Paging.Offset(p, q.limit), q.limit);
    ListedOnPage(m, q, p, n);
  }

  lemma ListedOnPage(m: map<Id, Note>, q: Query, p: nat, n: Note)
    requires KeyedById(m) && q.page >= 1 && q.limit >= 1 && 1 <= p <= Paging.PageCount(|Ordered(m, q)|, q.limit)
    requires n in Paging.Window(Ordered(m, q), Paging.Offset(p, q.limit), q.limit)
    ensures 1 <= p <= GetNotes(m, q).totalPages && n in GetNotes(m, q.(page := p)).notes
  {
    assert Ordered(m, q.(page := p)) == Ordered(m, q);
    PageIsWindow(m, q.(page := p));
  }

  /** No row is listed on two different pages. */
  lemma PagesAreDisjoint(m: map<Id, Note>, q: Query, p1: nat, p2: nat, n: Note)
    requires KeyedById(m) && q.limit >= 1 && 1 <= p1 && 1 <= p2
    requires n in GetNotes(m, q.(page := p1)).notes && n in GetNotes(m, q.(page := p2)).notes
    ensures p1 == p2
  {
    Paging.WindowsAreDisjoint(Ordered(m, q), q.limit, p1, p2, n);
  }

  /** Search is case-insensitive: two searches equal up to ASCII case select the same rows. */
  lemma SearchIgnoresCase(m: map<Id, Note>, s1: string, s2: string)
    requires KeyedById(m)
    requires Text.Fold(s1) == Text.Fold(s2)
    ensures Matching(m, s1) == Matching(m, s2)
  {
    assert |s1| == |s2|;
    assert s1 == [] <==> s2 == [];
    forall t: string ensures Text.ContainsIgnoringCase(t, s1) == Text.ContainsIgnoringCase(t, s2) {
      if Text.ContainsIgnoringCase(t, s1) {
        var k :| 0 <= k <= |t| - |s1| && Text.MatchesAt(t, s1, k);
        assert Text.MatchesAt(t, s2, k);
      }
      if Text.ContainsIgnoringCase(t, s2) {
        var k :| 0 <= k <= |t| - |s2| && Text.MatchesAt(t, s2, k);
        assert Text.MatchesAt(t, s1, k);
      }
    }
  }

  // ---------------------------------------------------------------- lookup

  /** Lookup by primary key, with a deleted row reported as not found. */
  function GetNoteById(m: map<Id, Note>, id: Id): (r: Result<Note, Error>)
    ensures r.Success? <==> id in m && !m[id].isDeleted
    ensures r.Success? ==> r.value == m[id]
    ensures r.Failure? ==> r.error == NotFound
  {
    if id !in m || m[id].isDeleted then Failure(NotFound) else Success(m[id])
  }

  // ---------------------------------------------------------------- writes

  /**
   * The row after an update with a validated body: title and content replaced,
   * tags replaced when given, the update time refreshed, and id, deletion
   * flag and creation time kept.
   */
  function ApplyUpdate(n: Note, b: NoteValidation.Body, now: nat): (r: Note)
    requires NoteValidation.Passes(b)
    ensures WellFormed(r)
    ensures r.id == n.id && r.isDeleted == n.isDeleted && r.createdAt == n.createdAt
    ensures r.title == b.title.value && r.content == b.content.value
    ensures r.tags == (if b.tags.Array? then b.tags.items else n.tags)
    ensures r.updatedAt == now
  {
    n.(title := b.title.value,
       content := b.content.value,
       tags := if b.tags.Array? then b.tags.items else n.tags,
       updatedAt := now)
  }

  /** The row after a soft delete: flagged as deleted, update time refreshed, nothing else changed. */
  function SoftDeleted(n: Note, now: nat): (r: Note)
    ensures r.isDeleted
    ensures r.(isDeleted := n.isDeleted, updatedAt := n.updatedAt) == n
    ensures r.updatedAt == now
  {
    n.(isDeleted := true, updatedAt := now)
  }

  /**
   * After a soft delete the row is still in the table under its id, but
   * lookup reports it as not found and no search selects it any more; the
   * other rows stay selected as before.
   */
  lemma {:induction false} SoftDeleteHidesNote(m: map<Id, Note>, id: Id, now: nat, search: string)
    requires KeyedById(m) && id in m
    ensures var m' := m[id := SoftDeleted(m[id], now)];
      && KeyedById(m')
      && id in m' && m'[id].id == id
      && GetNoteById(m', id) == Failure(NotFound)
      && Matching(m', search) == Matching(m, search) - {m[id]}
  {
    var m' := m[id := SoftDeleted(m[id], now)];
    assert KeyedById(m');
    forall n | n in Matching(m', search) ensures n in Matching(m, search) - {m[id]} {
      assert n.id != id by {
        assert !Matches(m'[id], search);
      }
      assert m[n.id] == n;
    }
    forall n | n in Matching(m, search) - {m[id]} ensures n in Matching(m', search) {
      assert n.id != id && m'[n.id] == n;
    }
  }

  /** The note table and the clock that stamps its rows. */
  class NoteStore {
    var notes: map<Id, Note>
    var clock: nat

    /** Rows sit under their own ids, satisfy the column constraints, and carry past timestamps. */
    ghost predicate Valid()
      reads this
    {
      && KeyedById(notes)
      && forall id | id in notes :: WellFormed(notes[id]) && notes[id].createdAt <= notes[id].updatedAt < clock
    }

    constructor ()
      ensures Valid()
      ensures notes == map[] && clock == 0
    {
      notes := map[];
      clock := 0;
    }

    /**
     * Creates a note from a request that went through the rule list. A
     * request with validation errors is rejected with those errors before the
     * table is touched. Otherwise a row with the sanitised fields and the
     * defaults is inserted under `uuid`, the freshly generated key; a key
     * already in use is rejected by storage.
     */
    method CreateNote(req: NoteValidation.Checked, uuid: Id) returns (r: Result<Note, Error>)
      requires Valid()
      requires req.errors == [] ==> NoteValidation.Passes(req.body)
      modifies this
      ensures Valid()
      ensures req.errors != [] ==>
        r == Failure(ValidationFailed(req.errors)) && notes == old(notes) && clock == old(clock)
      ensures req.errors == [] && uuid in old(notes) ==>
        r == Failure(StorageError) && notes == old(notes) && clock == old(clock)
      ensures req.errors == [] && uuid !in old(notes) ==>
        && r.Success?
        && notes == old(notes)[uuid := r.value]
        && clock == old(clock) + 1
        && r.value.id == uuid
        && r.value.title == req.body.title.value
        && r.value.content == req.body.content.value
        && r.value.tags == (if req.body.tags.Array? then req.body.tags.items else [])
        && !r.value.isDeleted
        && r.value.createdAt == old(clock) && r.value.updatedAt == old(clock)
    {
      if req.errors != [] {
        r := Failure(ValidationFailed(req.errors));
        return;
      }
      var built := NoteModel.Create(uuid, NoteValidation.AsAttributes(req.body), clock);
      NoteValidation.PassingBodyIsStorable(req.body, uuid, clock);
      if uuid in notes {
        r := Failure(StorageError);
        return;
      }
      notes := notes[uuid := built.value];
      clock := clock + 1;
      r := Success(built.value);
    }

    /**
     * Updates a note from a request that went through the rule list. The
     * validation errors are reported first, even for an unknown id; then a
     * missing or deleted row is not found; otherwise only that row changes,
     * as `ApplyUpdate` describes, and the updated row is returned.
     */
    method UpdateNote(id: Id, req: NoteValidation.Checked) returns (r: Result<Note, Error>)
      requires Valid()
      requires req.errors == [] ==> NoteValidation.Passes(req.body)
      modifies this
      ensures Valid()
      ensures req.errors != [] ==>
        r == Failure(ValidationFailed(req.errors)) && notes == old(notes) && clock == old(clock)
      ensures req.errors == [] && GetNoteById(old(notes), id).Failure? ==>
        r == Failure(NotFound) && notes == old(notes) && clock == old(clock)
      ensures req.errors == [] && GetNoteById(old(notes), id).Success? ==>
        && r == Success(ApplyUpdate(old(notes)[id], req.body, old(clock)))
        && notes == old(notes)[id := r.value]
        && clock == old(clock) + 1
    {
      if req.errors != [] {
        r := Failure(ValidationFailed(req.errors));
        return;
      }
      var found := GetNoteById(notes, id);
      if found.Failure? {
        r := Failure(found.error);
        return;
      }
      var updated := ApplyUpdate(found.value, req.body, clock);
      notes := notes[id := updated];
      clock := clock + 1;
      r := Success(updated);
    }

    /**
     * Soft-deletes a note: a missing or already deleted row is not found;
     * otherwise the row's flag is set and the row stays in the table. Either
     * way the id is not found afterwards.
     */
    method DeleteNote(id: Id) returns (r: Result<(), Error>)
      requires Valid()
      modifies this
      ensures Valid()
      ensures GetNoteById(old(notes), id).Failure? ==>
        r == Failure(NotFound) && notes == old(notes) && clock == old(clock)
      ensures GetNoteById(old(notes), id).Success? ==>
        && r == Success(())
        && notes == old(notes)[id := SoftDeleted(old(notes)[id], old(clock))]
        && clock == old(clock) + 1
      ensures notes.Keys == old(notes).Keys
      ensures GetNoteById(notes, id) == Failure(NotFound)
    {
      var found := GetNoteById(notes, id);
      if found.Failure? {
        r := Failure(found.error);
        return;
      }
      notes := notes[id := SoftDeleted(found.value, clock)];
      clock := clock + 1;
      r := Success(());
    }
  }
}
