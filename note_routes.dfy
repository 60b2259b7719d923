/**
 * The route table of the notes API. Listing and lookup go straight to their
 * handlers; create and update first run the note rule list, whose
 * sanitised body and errors the handler then reads; delete carries no body
 * and is not validated. A handler's outcome becomes the response: its
 * success status with the result, or the error's status with its details.
 */
module NoteRoutes {
  import opened Wrappers
  import opened NoteModel
  import NoteValidation
  import NoteController
  import Text

  /** A request to one of the five routes, with its path parameter and parsed body. */
  datatype Request =
    | ListNotes(params: NoteController.ListParams)   // GET /
    | ShowNote(id: Id)                               // GET /:id
    | PostNote(body: NoteValidation.Body, uuid: Id)  // POST /, with the key the ORM generates
    | PutNote(id: Id, body: NoteValidation.Body)     // PUT /:id
    | RemoveNote(id: Id)                             // DELETE /:id

  /** The routes that run the note rule list before their handler. */
  predicate Validated(req: Request) {
    req.PostNote? || req.PutNote?
  }

  datatype Payload =
    | Page(listing: NoteController.Listing)
    | One(note: Note)
    | Problem(message: string, errors: seq<NoteValidation.FieldError>)
    | NoBody

  datatype Response = Response(status: nat, payload: Payload)

  /** Page and limit, when given, are positive. */
  predicate InRange(p: NoteController.ListParams) {
    && (p.page.Some? ==> p.page.value >= 1)
    && (p.limit.Some? ==> p.limit.value >= 1)
  }

  /** The response for a failed handler: an API error keeps its status and details. */
  function ErrorResponse(e: NoteController.Error): (resp: Response)
    ensures e.ApiError? ==> resp.status == e.status && resp.payload == Problem(e.message, e.details)
    ensures e.StorageError? ==> resp.status == 500
  {
    match e
    case ApiError(status, message, details) => Response(status, Problem(message, details))
    case StorageError => Response(500, Problem("Internal Server Error", []))
  }

  /**
   * Dispatches one request. Only create and update can answer 400, and they
   * do exactly when the rule list reports errors, leaving the table as it
   * was; reads never change the table.
   */
  method Handle(store: NoteController.NoteStore, req: Request) returns (resp: Response)
    requires store.Valid()
    requires req.ListNotes? ==> InRange(req.params)
    modifies store
    ensures store.Valid()
    ensures Answered(old(store.notes), old(store.clock), req, store.notes, store.clock, resp)
    ensures !Validated(req) ==> resp.status != 400
    ensures Validated(req) ==> (resp.status == 400 <==> NoteValidation.Validate(req.body).errors != [])
    ensures Validated(req) && NoteValidation.Validate(req.body).errors != [] ==>
      && resp.payload == Problem("Validation Error", NoteValidation.Validate(req.body).errors)
      && store.notes == old(store.notes) && store.clock == old(store.clock)
  {
    match req {
    case ListNotes(params) =>
      resp := List(store.notes, params);
    case ShowNote(id) =>
      resp := Show(store.notes, id);
    case PostNote(body, uuid) =>
      resp := Post(store, body, uuid);
    case PutNote(id, body) =>
      resp := Put(store, id, body);
    case RemoveNote(id) =>
      resp := Delete(store, id);
    }
    OnlyRejectedBodiesAnswer400(old(store.notes), old(store.clock), req, store.notes, store.clock, resp);
  }

  /**
   * Across all routes, 400 is the answer exactly for a create or update whose
   * body the rule list rejects; it carries the errors and changes nothing.
   */
  lemma OnlyRejectedBodiesAnswer400(before: map<Id, Note>, clock: nat, req: Request,
                                    after: map<Id, Note>, clock': nat, resp: Response)
    requires Answered(before, clock, req, after, clock', resp)
    ensures !Validated(req) ==> resp.status != 400
    ensures Validated(req) ==> (resp.status == 400 <==> NoteValidation.Validate(req.body).errors != [])
    ensures Validated(req) && NoteValidation.Validate(req.body).errors != [] ==>
      && resp.payload == Problem("Validation Error", NoteValidation.Validate(req.body).errors)
      && after == before && clock' == clock
  {
    match req
    case ListNotes(_) =>
    case ShowNote(_) =>
    case PostNote(_, _) =>
      CreateAnswers400(before, clock, req, after, clock', resp);
    case PutNote(_, _) =>
      UpdateAnswers400(before, clock, req, after, clock', resp);
    case RemoveNote(_) =>
  }

  /**
   * The outcome of one request, route by route: reads answer from the table
   * and leave it as it was; writes change it as their handler describes.
   */
  ghost predicate Answered(before: map<Id, Note>, clock: nat, req: Request,
                           after: map<Id, Note>, clock': nat, resp: Response)
  {
    match req
    case ListNotes(params) =>
      NoteController.KeyedById(before) && InRange(params) &&
      resp == List(before, params) && after == before && clock' == clock
    case ShowNote(id) => resp == Show(before, id) && after == before && clock' == clock
    case PostNote(body, uuid) => Created(before, clock, NoteValidation.Validate(body), uuid, after, clock', resp)
    case PutNote(id, body) => Updated(before, clock, id, NoteValidation.Validate(body), after, clock', resp)
    case RemoveNote(id) => Removed(before, clock, id, after, clock', resp)
  }

  /** `GET /`: the listing for the query parameters, with their defaults applied. */
  function List(notes: map<Id, Note>, params: NoteController.ListParams): (resp: Response)
    requires NoteController.KeyedById(notes) && InRange(params)
    ensures resp.status == 200 && resp.payload.Page?
    ensures resp.payload.listing.currentPage == (if params.page.Some? then params.page.value else 1)
    ensures |resp.payload.listing.notes| <= (if params.limit.Some? then params.limit.value else 10)
    ensures resp.payload.listing.total ==
      |NoteController.Matching(notes, if params.search.Some? then params.search.value else "")|
  {
    Response(200, Page(NoteController.GetNotes(notes, NoteController.Resolve(params))))
  }

  /** `GET /:id`: the stored note, or 404 when it is missing or deleted. */
  function Show(notes: map<Id, Note>, id: Id): (resp: Response)
    ensures resp.status == 200 <==> id in notes && !notes[id].isDeleted
    ensures resp.status == 200 ==> resp.payload == One(notes[id])
    ensures resp.status != 200 ==> resp == Response(404, Problem("Note not found", []))
  {
    var found := NoteController.GetNoteById(notes, id);
    if found.Success? then Response(200, One(found.value)) else ErrorResponse(found.error)
  }

  /**
   * The outcome of `POST /` for the result of the rule list, from the table
   * and clock before to those after. A body the rule list rejects is answered
   * 400 with its errors; a key already in use is a 500; otherwise the table
   * gains exactly one row under the new key, holding the sanitised title and
   * content, the tags or an empty list, not deleted and stamped with the
   * current time, and that row is answered with 201. Only a 201 changes the
   * table.
   */
  ghost predicate Created(before: map<Id, Note>, clock: nat, checked: NoteValidation.Checked, uuid: Id,
                          after: map<Id, Note>, clock': nat, resp: Response)
  {
    var b := checked.body;
    if checked.errors != [] then
      resp == Response(400, Problem("Validation Error", checked.errors)) && after == before && clock' == clock
    else if uuid in before then
      resp.status == 500 && after == before && clock' == clock
    else
      && b.title.Some? && b.content.Some?
      && var row := Note(uuid, b.title.value, b.content.value,
                         if b.tags.Array? then b.tags.items else [], false, clock, clock);
         && after == before[uuid := row]
         && resp == Response(201, One(row))
         && clock' == clock + 1
  }

  /**
   * The outcome of `PUT /:id` for the result of the rule list. A body the
   * rule list rejects is answered 400 with its errors, even for an unknown id;
   * then a missing or deleted note is a 404; otherwise only that row changes:
   * sanitised title and content, the tags when given, the update time
   * refreshed; the row is answered with 200.
   */
  ghost predicate Updated(before: map<Id, Note>, clock: nat, id: Id, checked: NoteValidation.Checked,
                          after: map<Id, Note>, clock': nat, resp: Response)
  {
    var b := checked.body;
    if checked.errors != [] then
      resp == Response(400, Problem("Validation Error", checked.errors)) && after == before && clock' == clock
    else if id !in before || before[id].isDeleted then
      resp == Response(404, Problem("Note not found", [])) && after == before && clock' == clock
    else
      && b.title.Some? && b.content.Some?
      && var row := before[id].(
           title := b.title.value,
           content := b.content.value,
           tags := if b.tags.Array? then b.tags.items else before[id].tags,
           updatedAt := clock);
         && after == before[id := row]
         && resp == Response(200, One(row))
         && clock' == clock + 1
  }

  /** A create is answered 400 exactly when the rule list reports errors, and then nothing changes. */
  lemma CreateAnswers400(before: map<Id, Note>, clock: nat, req: Request, after: map<Id, Note>, clock': nat, resp: Response)
    requires req.PostNote? && Answered(before, clock, req, after, clock', resp)
    ensures resp.status == 400 <==> NoteValidation.Validate(req.body).errors != []
    ensures resp.status == 400 ==>
      resp.payload == Problem("Validation Error", NoteValidation.Validate(req.body).errors) && after == before && clock' == clock
  {
  }

  /** An update is answered 400 exactly when the rule list reports errors, and then nothing changes. */
  lemma UpdateAnswers400(before: map<Id, Note>, clock: nat, req: Request, after: map<Id, Note>, clock': nat, resp: Response)
    requires req.PutNote? && Answered(before, clock, req, after, clock', resp)
    ensures resp.status == 400 <==> NoteValidation.Validate(req.body).errors != []
    ensures resp.status == 400 ==>
      resp.payload == Problem("Validation Error", NoteValidation.Validate(req.body).errors) && after == before && clock' == clock
  {
  }

  /** `POST /`: the rule list, then the create handler. */
  method Post(store: NoteController.NoteStore, body: NoteValidation.Body, uuid: Id) returns (resp: Response)
    requires store.Valid()
    modifies store
    ensures store.Valid()
    ensures Created(old(store.notes), old(store.clock), NoteValidation.Validate(body), uuid, store.notes, store.clock, resp)
  {
    var checked := NoteValidation.Validate(body);
    var r := store.CreateNote(checked, uuid);
    resp := if r.Success? then Response(201, One(r.value)) else ErrorResponse(r.error);
  }

  /** `PUT /:id`: the rule list, then the update handler. */
  method Put(store: NoteController.NoteStore, id: Id, body: NoteValidation.Body) returns (resp: Response)
    requires store.Valid()
    modifies store
    ensures store.Valid()
    ensures Updated(old(store.notes), old(store.clock), id, NoteValidation.Validate(body), store.notes, store.clock, resp)
  {
    var checked := NoteValidation.Validate(body);
    var r := store.UpdateNote(id, checked);
    resp := if r.Success? then Response(200, One(r.value)) else ErrorResponse(r.error);
  }

  /**
   * End to end, a created row holds the request's title and content with the
   * surrounding whitespace removed.
   */
  lemma PostStoresTrimmed(before: map<Id, Note>, clock: nat, body: NoteValidation.Body, uuid: Id,
                          after: map<Id, Note>, clock': nat, resp: Response)
    requires Created(before, clock, NoteValidation.Validate(body), uuid, after, clock', resp)
    requires resp.status == 201
    ensures body.title.Some? && body.content.Some? && uuid !in before
    ensures after == before[uuid := Note(uuid, Text.Trim(body.title.value), Text.Trim(body.content.value),
                                         if body.tags.Array? then body.tags.items else [], false, clock, clock)]
    ensures resp == Response(201, One(after[uuid]))
  {
  }

  /**
   * End to end, an updated row holds the request's title and content with the
   * surrounding whitespace removed, and keeps its tags when none are given.
   */
  lemma PutStoresTrimmed(before: map<Id, Note>, clock: nat, id: Id, body: NoteValidation.Body,
                         after: map<Id, Note>, clock': nat, resp: Response)
    requires Updated(before, clock, id, NoteValidation.Validate(body), after, clock', resp)
    requires resp.status == 200
    ensures body.title.Some? && body.content.Some? && id in before && !before[id].isDeleted
    ensures after == before[id := before[id].(
      title := Text.Trim(body.title.value),
      content := Text.Trim(body.content.value),
      tags := if body.tags.Array? then body.tags.items else before[id].tags,
      updatedAt := clock)]
    ensures resp == Response(200, One(after[id]))
  {
  }

  /**
   * The outcome of `DELETE /:id`: a missing or deleted note is a 404;
   * otherwise only that row changes, flagged as deleted with its update time
   * refreshed, and the answer is 204 without a body.
   */
  ghost predicate Removed(before: map<Id, Note>, clock: nat, id: Id, after: map<Id, Note>, clock': nat, resp: Response) {
    if id !in before || before[id].isDeleted then
      resp == Response(404, Problem("Note not found", [])) && after == before && clock' == clock
    else
      && after == before[id := before[id].(isDeleted := true, updatedAt := clock)]
      && resp == Response(204, NoBody)
      && clock' == clock + 1
  }

  /** `DELETE /:id`: the delete handler, without the rule list. */
  method Delete(store: NoteController.NoteStore, id: Id) returns (resp: Response)
    requires store.Valid()
    modifies store
    ensures store.Valid()
    ensures Removed(old(store.notes), old(store.clock), id, store.notes, store.clock, resp)
  {
    var r := store.DeleteNote(id);
    resp := if r.Success? then Response(204, NoBody) else ErrorResponse(r.error);
  }
}
