/**
 * The note record and the table schema it is stored under: column
 * constraints (title 1..255 characters and not null, content not null) and
 * the defaults a new row receives (fresh primary key, empty tag list, not
 * deleted, both timestamps set to the current instant).
 */
module NoteModel {
  import opened Wrappers

  /** Primary key; the service generates a fresh one for every new row. */
  type Id = nat

  const MaxTitleLength: nat := 255

  /** One row of the note table. Timestamps are ticks of the store's clock. */
  datatype Note = Note(
    id: Id,
    title: string,
    content: string,
    tags: seq<string>,
    isDeleted: bool,
    createdAt: nat,
    updatedAt: nat)

  /** The column constraints every stored row satisfies. */
  predicate WellFormed(n: Note) {
    1 <= |n.title| <= MaxTitleLength
  }

  /** The attribute values handed to the ORM's create; an absent value is a missing key. */
  datatype Attributes = Attributes(title: Option<string>, content: Option<string>, tags: Option<seq<string>>)

  /** A column constraint the ORM's validation found broken. */
  datatype Violation = NotNull(column: string) | NotEmpty(column: string) | Len(column: string)

  function TitleViolations(title: Option<string>): seq<Violation> {
    match title
    case None => [NotNull("title")]
    case Some(t) =>
      (if t == [] then [NotEmpty("title")] else [])
      + (if 1 <= |t| <= MaxTitleLength then [] else [Len("title")])
  }

  function ContentViolations(content: Option<string>): seq<Violation> {
    if content.None? then [NotNull("content")] else []
  }

  /**
   * Builds a new row from the given attributes, applying the defaults, or
   * reports the broken column constraints. The row is accepted exactly when
   * the title is present with 1..255 characters and the content is present.
   */
  function Create(id: Id, attrs: Attributes, now: nat): (r: Result<Note, seq<Violation>>)
    ensures r.Success? <==> attrs.title.Some? && 1 <= |attrs.title.value| <= MaxTitleLength && attrs.content.Some?
    ensures r.Success? ==>
      && WellFormed(r.value)
      && r.value.id == id
      && r.value.title == attrs.title.value
      && r.value.content == attrs.content.value
      && r.value.tags == (if attrs.tags.Some? then attrs.tags.value else [])
      && !r.value.isDeleted
      && r.value.createdAt == now && r.value.updatedAt == now
    ensures attrs.title.None? ==> r == Failure([NotNull("title")] + ContentViolations(attrs.content))
    ensures attrs.title == Some([]) ==> r.Failure? && NotEmpty("title") in r.error && Len("title") in r.error
    ensures attrs.content.None? ==> r.Failure? && NotNull("content") in r.error
  {
    var violations := TitleViolations(attrs.title) + ContentViolations(attrs.content);
    if violations != [] then
      Failure(violations)
    else
      Success(Note(
        id := id,
        title := attrs.title.value,
        content := attrs.content.value,
        tags := if attrs.tags.Some? then attrs.tags.value else [],
        isDeleted := false,
        createdAt := now,
        updatedAt := now))
  }
}
