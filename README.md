# Notes API: a Dafny model

The notes service is a small REST API that stores notes. A note has a title,
a content text, a list of tags, a soft-delete flag and two timestamps. It
offers five routes:

- `GET /` lists notes, one page at a time. The list can be searched
  case-insensitively in title and content and sorted by a column.
- `GET /:id` returns one note.
- `POST /` creates a note.
- `PUT /:id` updates a note.
- `DELETE /:id` soft-deletes a note. The row is kept, but it is flagged and
  hidden from every read.

Create and update first pass the request body through a rule list. It trims
title and content, requires both to be non-empty, limits the title to 255
characters and requires `tags`, when given, to be an array. The table schema
adds its own constraints and defaults.

The model has one Dafny module per concern:

- `NoteModel` (note_model.dfy): the note record and its schema, meaning the
  column constraints and the defaults a new row gets.
- `NoteValidation` (note_validation.dfy): the rule list, with its sanitised
  body and its error list, in rule order.
- `NoteController` (note_controller.dfy): the five handlers.
  - Listing and lookup are functions over the table, a `map` from id to note.
  - Create, update and delete are methods of the `NoteStore` class. They
    change its `notes` map and its `clock`.
- `NoteOrder` (note_order.dfy): the `ORDER BY` of the listing. It is a
  strict total order, and sorting a set of rows is proved to produce a sorted
  permutation of it.
- `Paging` (paging.dfy): `LIMIT`/`OFFSET` windows and the page count.
- `Text` (text.dfy): JavaScript whitespace trimming, the case-insensitive
  substring test of `LIKE '%…%'`, and lexicographic string order.
- `NoteRoutes` (note_routes.dfy): the route table. It says which routes run
  the rule list and which status each outcome gets.
- `NoteScenarios` (note_scenarios.dfy): the integration tests' listing
  scenarios, derived from the general contracts.
- `Wrappers` (wrappers.dfy): `Option` and `Result`.

The length rule's message says a title "must be less than 255 characters".
Both the rule and the schema accept exactly 255 characters
(`NoteValidation.TitleLimitInclusive`). The model follows the code.

## Model

| member | source | states |
|---|---|---|
| NoteModel.Create | src/models/Note.js:4-29 | a row is accepted exactly when the title is present with 1 to 255 characters and the content is present; the accepted row has the given fields, tags default to the empty list, it is not deleted and both timestamps are the current instant; a missing title, an empty title and a missing content are each reported |
| NoteValidation.TitleErrors | src/routes/noteRoutes.js:8-9 | the title chain reports "required" exactly for a missing or empty value, and "too long" exactly for more than 255 characters |
| NoteValidation.ContentErrors | src/routes/noteRoutes.js:10 | the content chain reports an error exactly for a missing or empty value, and at most that one |
| NoteValidation.TagsErrors | src/routes/noteRoutes.js:11 | tags are optional; an error is reported exactly when the value given is not an array |
| NoteValidation.Validate | src/routes/noteRoutes.js:7-12 | title and content are passed on trimmed and tags unchanged; the error list is empty exactly when the sanitised body passes every rule; each error is present exactly when its rule fails, with whitespace-only text counting as empty; there are at most three errors, listed in rule order (title required, title length, content, tags) |
| NoteValidation.Errors | src/routes/noteRoutes.js:7-12 | the three chains' errors are empty exactly when the body passes, each is present exactly when its rule fails, there are at most three, and they are in rule order |
| NoteValidation.ChainsInRuleOrder | src/routes/noteRoutes.js:7-12 | the title chain's errors, then the content chain's, then the tags chain's, form a list in rule order |
| NoteValidation.InRuleOrderPairwise | src/controllers/noteController.js:54 | a list is in rule order exactly when every error's rule comes before every later error's rule, so the order is fixed and no rule is reported twice |
| NoteValidation.ValidateIdempotent | src/routes/noteRoutes.js:7-12 | running the rules again on the sanitised body gives the same body and errors |
| NoteValidation.EmptyBodyRejected | src/routes/noteRoutes.js:7-12 | an empty body yields exactly the title and content "required" errors, in that order |
| NoteValidation.TitleLimitInclusive | src/routes/noteRoutes.js:8-9 | a title of exactly 255 characters, not padded with whitespace, passes |
| NoteValidation.PassingBodyIsStorable | src/models/Note.js:10-21 | every body the rules accept satisfies the schema's column constraints |
| Text.TrimStart | src/routes/noteRoutes.js:8 | removes only leading whitespace and leaves a suffix that does not start with whitespace |
| Text.TrimEnd | src/routes/noteRoutes.js:8 | removes only trailing whitespace and leaves a prefix that does not end with whitespace |
| Text.Trim | src/routes/noteRoutes.js:8-10 | the input is whitespace, then the result, then whitespace; the result neither starts nor ends with whitespace; it is empty exactly when the input is all whitespace |
| Text.TrimPadding | src/routes/noteRoutes.js:8-10 | trimming the start and then the end strips exactly whitespace padding |
| Text.TrimFixesTrimmed | src/routes/noteRoutes.js:8-10 | a string with non-whitespace ends is unchanged by trimming |
| Text.TrimIdempotent | src/routes/noteRoutes.js:8-10 | trimming twice equals trimming once |
| Text.FoldChar | src/controllers/noteController.js:14-15 | an upper-case ASCII letter maps to its lower-case letter, 32 code points above it; every other character is kept |
| Text.SameFold | src/controllers/noteController.js:14-15 | two characters fold alike exactly when they are equal or are the upper- and lower-case forms of one ASCII letter |
| Text.Fold | src/controllers/noteController.js:14-15 | case folding is applied character by character and keeps the length |
| Text.NoMatchWithoutFirstChar | src/controllers/noteController.js:14-15 | a text without the pattern's first character, up to case, does not contain the pattern |
| Text.LexIrreflexive | src/controllers/noteController.js:23 | no string sorts before itself |
| Text.LexTransitive | src/controllers/noteController.js:23 | string order is transitive |
| Text.LexTotal | src/controllers/noteController.js:23 | of two different strings one sorts before the other |
| NoteOrder.KeyLessIsStrictTotal | src/controllers/noteController.js:23 | the column order is irreflexive, transitive and total |
| NoteOrder.BeforeTotal | src/controllers/noteController.js:23 | of any two rows one may be listed first |
| NoteOrder.BeforeTransitive | src/controllers/noteController.js:23 | listing order is transitive, in both directions |
| NoteOrder.BeforeAntisymmetric | src/controllers/noteController.js:23 | two rows that may each be listed before the other are the same row, when ids identify rows |
| NoteOrder.FirstExists | src/controllers/noteController.js:23 | every non-empty set of rows has a row that may be listed before all the others |
| NoteOrder.FirstUnique | src/controllers/noteController.js:23 | that first row is unique when ids identify rows |
| NoteOrder.SortedSlice | src/controllers/noteController.js:21-23 | a contiguous part of a sorted list is sorted |
| NoteOrder.PrependFirst | src/controllers/noteController.js:23 | putting the first row of a set before a sorted listing of the others lists the whole set exactly once, sorted |
| NoteOrder.SortNotes | src/controllers/noteController.js:19-24 | the ordered rows are a permutation of the selected set: same size, every row exactly once, nothing else; and they are sorted by the requested column and direction |
| Paging.Offset | src/controllers/noteController.js:9 | the first page skips no rows |
| Paging.NextPageOffset | src/controllers/noteController.js:9 | each page starts exactly `limit` rows after the page before it |
| Paging.PageCount | src/controllers/noteController.js:30 | the page count is the ceiling of total over limit: its pages hold every row, and its last page is not empty |
| Paging.Window | src/controllers/noteController.js:21-22 | the page holds the rows from the offset on, at most `limit` of them, and its exact size is given |
| Paging.WindowIsSlice | src/controllers/noteController.js:21-22 | a page is a contiguous slice of the rows |
| Paging.PageSizes | src/controllers/noteController.js:9-30 | every page before the last is full, and every page after the last is empty |
| Paging.PageOf | src/controllers/noteController.js:9-30 | every row position is on some counted page, at the expected place |
| Paging.OnePagePerPosition | src/controllers/noteController.js:9 | the windows of different pages do not overlap |
| Paging.WindowsAreDisjoint | src/controllers/noteController.js:9-22 | with distinct rows, no row is on two pages |
| NoteController.Resolve | src/controllers/noteController.js:8 | a missing parameter takes its default: page 1, limit 10, sort `createdAt`, order `DESC`, no search |
| NoteController.Matching | src/controllers/noteController.js:11-17 | the selected rows are rows of the table, not deleted and matching the search; no two share an id |
| NoteController.GetNotes | src/controllers/noteController.js:6-36 | total counts every selected row; currentPage is the requested page; totalPages is the ceiling of total over limit; the page has at most `limit` rows, all non-deleted table rows that match the search, in the requested order |
| NoteController.SortedWindow | src/controllers/noteController.js:19-24 | a page cut from the ordered rows stays sorted and holds selected rows only |
| NoteController.PageIsWindow | src/controllers/noteController.js:9-24 | the page is exactly the window at offset (page - 1) * limit of the ordered selection |
| NoteController.PageSizes | src/controllers/noteController.js:19-30 | pages before the last are full and pages after the last are empty |
| NoteController.EveryMatchIsListed | src/controllers/noteController.js:6-36 | every selected row is on some page between 1 and totalPages |
| NoteController.ListedOnPage | src/controllers/noteController.js:9-30 | a row in the window of a counted page is listed on that page |
| NoteController.PagesAreDisjoint | src/controllers/noteController.js:6-36 | no row is listed on two different pages |
| NoteController.SearchIgnoresCase | src/controllers/noteController.js:12-16 | two searches that differ only in ASCII case select the same rows |
| NoteController.GetNoteById | src/controllers/noteController.js:38-48 | succeeds exactly for an id whose row exists and is not deleted, and returns that row; otherwise 404 "Note not found" |
| NoteController.ApplyUpdate | src/controllers/noteController.js:76 | the updated row has the new title and content, the new tags when given, a refreshed update time, the same id, deletion flag and creation time, and still satisfies the column constraints |
| NoteController.SoftDeleted | src/controllers/noteController.js:90 | a soft-deleted row is flagged, gets a new update time and is otherwise unchanged |
| NoteController.SoftDeleteHidesNote | src/controllers/noteController.js:83-95 | after a soft delete the row is still stored under its id, but lookup reports it not found and every search selects exactly the other rows it selected before |
| NoteController.NoteStore.CreateNote | src/controllers/noteController.js:50-62 | validation errors are reported as 400 "Validation Error" with the errors, and nothing changes; otherwise one row is inserted under the fresh key, with the sanitised fields, the defaults and the current time; a key already in use is a storage error that changes nothing; the store invariant is kept |
| NoteController.NoteStore.UpdateNote | src/controllers/noteController.js:64-81 | validation errors come first, even for an unknown id; then a missing or deleted row is 404 and nothing changes; otherwise only that row changes, as `ApplyUpdate` describes; the store invariant is kept |
| NoteController.NoteStore.DeleteNote | src/controllers/noteController.js:83-95 | a missing or deleted row is 404 and nothing changes; otherwise only the row's flag and update time change; the stored ids never change, and the id is not found afterwards; the store invariant is kept |
| NoteRoutes.ErrorResponse | src/controllers/noteController.js:42-54 | an API error becomes a response with its own status, message and details |
| NoteRoutes.Handle | src/routes/noteRoutes.js:14-18 | every request gets the outcome its route describes (`Answered`: listing and lookup answer from the table and leave it unchanged; create, update and delete as `Post`, `Put` and `Delete` state); only create and update answer 400, exactly when the rule list reports errors, with "Validation Error" and those errors, and the table is then unchanged |
| NoteRoutes.OnlyRejectedBodiesAnswer400 | src/routes/noteRoutes.js:14-18 | for any answered request, 400 is given exactly for a create or update whose body the rule list rejects; it carries "Validation Error" with the errors and nothing changes |
| NoteRoutes.CreateAnswers400 | src/controllers/noteController.js:52-55 | a create answers 400 exactly when the rule list reports errors, with those errors, and leaves table and clock unchanged |
| NoteRoutes.UpdateAnswers400 | src/controllers/noteController.js:66-69 | an update answers 400 exactly when the rule list reports errors, with those errors, and leaves table and clock unchanged |
| NoteRoutes.List | src/routes/noteRoutes.js:14 | `GET /` answers 200 with a listing whose current page is the requested one (1 by default), with at most `limit` notes (10 by default), whose total counts the non-deleted rows matching the search |
| NoteRoutes.Show | src/routes/noteRoutes.js:15 | `GET /:id` answers 200 with the note exactly when it is stored and not deleted, and 404 "Note not found" otherwise |
| NoteRoutes.Post | src/routes/noteRoutes.js:16 | `POST /` (`Created`): errors from the rule list give 400 "Validation Error" with them and change nothing; a key in use gives 500 and changes nothing; otherwise the table gains exactly one row under the new key, with the sanitised title and content, the tags or an empty list, not deleted and stamped with the current time, the answer is 201 with that row, and the clock advances |
| NoteRoutes.Put | src/routes/noteRoutes.js:17 | `PUT /:id` (`Updated`): errors from the rule list give 400 with them, even for an unknown id, and change nothing; then a missing or deleted note gives 404 "Note not found" and changes nothing; otherwise only that row changes, to the sanitised title and content, the new tags when given and the current update time, the answer is 200 with that row, and the clock advances |
| NoteRoutes.PostStoresTrimmed | src/controllers/noteController.js:57-58 | a 201 means the table gained exactly the row holding the request's title and content with surrounding whitespace removed, and the answer carries that row |
| NoteRoutes.PutStoresTrimmed | src/controllers/noteController.js:76-77 | a 200 means only the note's row changed, to the request's title and content with surrounding whitespace removed and the tags when given, and the answer carries that row |
| NoteRoutes.Delete | src/routes/noteRoutes.js:18 | `DELETE /:id` (`Removed`) runs no rule list; a missing or deleted note gives 404 "Note not found" and changes nothing; otherwise only that row changes, flagged as deleted with the current update time, the answer is 204 without a body, and the clock advances |
| NoteScenarios.SearchScenario | tests/integration/notes.test.js:37-50 | searching "meeting" among the three test notes selects two |
| NoteScenarios.MeetingInTitle | tests/integration/notes.test.js:37-50 | "Meeting notes" matches the search "meeting" |
| NoteScenarios.MeetingInContent | tests/integration/notes.test.js:37-50 | a note whose content is "Meeting tomorrow" matches the search "meeting" |
| NoteScenarios.NoMeeting | tests/integration/notes.test.js:37-50 | "Shopping list" with content "Content 2" does not match the search "meeting" |
| NoteScenarios.ThreeNotesTwoPerPage | tests/integration/notes.test.js:19-35 | three notes with limit 2 give 2 pages, and page 1 holds 2 notes |
| NoteScenarios.FourNotesSecondPage | tests/integration/notes.test.js:71-87 | four notes with limit 2: page 2 is reported as current, there are 2 pages, and it holds 2 notes |
| NoteScenarios.TitleSortScenario | tests/integration/notes.test.js:52-69 | notes titled "B Note", "A Note" and "C Note", sorted by title ascending, are listed exactly as A, B, C |
| NoteScenarios.FirstPageOfFewIsAll | src/controllers/noteController.js:9-24 | when the selection fits in one page, page 1 is the whole ordered selection |
| NoteScenarios.ThreeInOrder | src/controllers/noteController.js:23 | three distinct rows sorted by title ascending appear in alphabetical order |
| NoteScenarios.AlphabeticalTitles | tests/integration/notes.test.js:52-69 | "A Note" sorts before "B Note", and "B Note" before "C Note" |

## Left out

- I/O, the HTTP server, `async`/`await` and the database connection are not modelled. Handlers take the table as a value or as the state of `NoteStore`.
- Primary-key generation (UUID v4) is a parameter of `CreateNote`. A key that is already in use is modelled as a storage error. Keys are natural numbers, not UUID strings.
- Time is a counter that the store advances once per write, not a wall clock.
- Query strings are not parsed. `page` and `limit` arrive as natural numbers, and the listing requires both to be at least 1. The source's behaviour for zero, negative or non-numeric values (`parseInt`, `NaN`, `Infinity` pages) is not modelled.
- `sort` and `order` are limited to the four columns the model supports and to `ASC`/`DESC`. An unknown column or direction is a database error in the source and is not modelled.
- The database leaves the order of rows with equal sort keys open. The model breaks ties by ascending id.
- NoteController.EveryMatchIsListed, NoteController.PagesAreDisjoint and Paging.WindowsAreDisjoint rest on that tie-break. The source orders by the requested column only (src/controllers/noteController.js:23). With equal keys, separate page queries may order the tied rows differently, so a row can be listed on two pages or on none.
- Text columns compare by code point. Database collations are not modelled.
- Case-insensitive `LIKE` is modelled as ASCII case folding. The `%` and `_` wildcards inside a search term are not modelled; the term is matched literally.
- An empty search term means "no search", as in the source, where an empty string is falsy.
- Request bodies carry only `title`, `content` and `tags`, and title and content are strings. Other keys that the source would hand to the ORM (such as `isDeleted` or `id`) are not modelled. Neither are non-string JSON values for title and content, nor the element types inside `tags`.
- The schema's `notEmpty` check does not treat whitespace-only strings as empty in the model. The rule list trims first, so such strings never reach the schema.
- Length counting follows the model's characters. The validator's special treatment of variation selectors is not modelled.
- `NoteController.ApplyUpdate`: the update time is always refreshed. The ORM skips the write when no field value changes; that case is not modelled.
- The `paranoid` option of the schema (a `deletedAt` column) is not used by the handlers, which rely on `isDeleted`. It is not modelled.
- NoteValidation.FieldError keeps the rule, the field path and the message of a validation error. The sanitised `value` and the `location` that the validator also reports for each error are not modelled.
- The central error handler is not part of this model. An API error is assumed to keep its status, message and details; any other error is assumed to become a 500.
- The browser UI (src/ui) and the end-to-end tests are not part of this model.
