/**
 * The scenarios of the API's integration and model tests, stated over the
 * model: each is derived from the general contracts, not computed.
 */
module NoteScenarios {
  import opened Wrappers
  import opened NoteModel
  import opened NoteOrder
  import opened NoteValidation
  import opened NoteController
  import Text

  function Row(id: Id, title: string, content: string): Note {
    Note(id, title, content, [], false, 0, 0)
  }

  /** Searching "meeting" selects the two notes that mention a meeting, in title or in content. */
  lemma SearchScenario()
    ensures var m := map[1 := Row(1, "Meeting notes", "Content 1"), 2 := Row(2, "Shopping list", "Content 2"),
                         3 := Row(3, "Ideas", "Meeting tomorrow")];
      var r := GetNotes(m, Resolve(ListParams(None, None, Some("meeting"), None, None)));
      r.total == 2 && |r.notes| == 2
  {
    var m := map[1 := Row(1, "Meeting notes", "Content 1"), 2 := Row(2, "Shopping list", "Content 2"),
                 3 := Row(3, "Ideas", "Meeting tomorrow")];
    var q := Query(1, 10, "meeting", CreatedAt, Desc);
    assert Resolve(ListParams(None, None, Some("meeting"), None, None)) == q;
    MeetingInTitle();
    MeetingInContent();
    NoMeeting();
    assert Matching(m, "meeting") == {m[1], m[3]} by {
      assert m[1] in Matching(m, "meeting") && m[3] in Matching(m, "meeting");
      assert m[2] !in Matching(m, "meeting");
    }
    assert |{m[1], m[3]}| == 2;
    FirstPageOfFewIsAll(m, q);
  }

  lemma MeetingInTitle()
    ensures Matches(Row(1, "Meeting notes", "Content 1"), "meeting")
  {
    assert Text.MatchesAt("Meeting notes", "meeting", 0);
  }

  lemma MeetingInContent()
    ensures Matches(Row(3, "Ideas", "Meeting tomorrow"), "meeting")
  {
    assert Text.MatchesAt("Meeting tomorrow", "meeting", 0);
  }

  lemma NoMeeting()
    ensures !Matches(Row(2, "Shopping list", "Content 2"), "meeting")
  {
    Text.NoMatchWithoutFirstChar("Shopping list", "meeting");
    Text.NoMatchWithoutFirstChar("Content 2", "meeting");
  }

  /** Three notes with page size 2 give two pages, the first one full. */
  lemma ThreeNotesTwoPerPage(m: map<Id, Note>)
    requires KeyedById(m) && |Matching(m, "")| == 3
    ensures var r := GetNotes(m, Resolve(ListParams(Some(1), Some(2), None, None, None)));
      r.total == 3 && r.totalPages == 2 && |r.notes| == 2
  {
    PageSizes(m, Resolve(ListParams(Some(1), Some(2), None, None, None)));
  }

  /** Page 2 of four notes with page size 2 is the full last page. */
  lemma FourNotesSecondPage(m: map<Id, Note>)
    requires KeyedById(m) && |Matching(m, "")| == 4
    ensures var r := GetNotes(m, Resolve(ListParams(Some(2), Some(2), None, None, None)));
      r.currentPage == 2 && r.totalPages == 2 && |r.notes| == 2
  {
    PageIsWindow(m, Resolve(ListParams(Some(2), Some(2), None, None, None)));
  }

  /** Listing three notes titled "B Note", "A Note", "C Note" by title ascending gives them alphabetically. */
  lemma TitleSortScenario(m: map<Id, Note>, a: Note, b: Note, c: Note)
    requires KeyedById(m) && Matching(m, "") == {a, b, c}
    requires a.title == "A Note" && b.title == "B Note" && c.title == "C Note"
    ensures GetNotes(m, Resolve(ListParams(None, None, None, Some(Title), Some(Asc)))).notes == [a, b, c]
  {
    var q := Query(1, 10, "", Title, Asc);
    assert Resolve(ListParams(None, None, None, Some(Title), Some(Asc))) == q;
    var rows := Ordered(m, q);
    CardinalityOfThree(a, b, c);
    assert |rows| == 3;
    FirstPageOfFewIsAll(m, q);
    AlphabeticalTitles();
    ThreeInOrder(rows, Matching(m, ""), a, b, c);
  }

  lemma CardinalityOfThree(a: Note, b: Note, c: Note)
    requires a != b && b != c && a != c
    ensures |{a, b, c}| == 3
  {
  }

  /** When the selection fits in one page, the first page is all of it. */
  lemma FirstPageOfFewIsAll(m: map<Id, Note>, q: Query)
    requires KeyedById(m) && q.page == 1 && q.limit >= 1
    requires |Matching(m, q.search)| <= q.limit
    ensures GetNotes(m, q).notes == Ordered(m, q)
  {
    PageIsWindow(m, q);
    assert Paging.Offset(q.page, q.limit) == 0;
  }

  lemma AlphabeticalTitles()
    ensures Text.LexLess("A Note", "B Note") && Text.LexLess("B Note", "C Note")
    ensures !Text.LexLess("B Note", "A Note") && !Text.LexLess("C Note", "B Note") && !Text.LexLess("C Note", "A Note")
  {
    assert "A Note" == ['A'] + " Note" && "B Note" == ['B'] + " Note" && "C Note" == ['C'] + " Note";
  }

  lemma ThreeInOrder(s: seq<Note>, selected: set<Note>, a: Note, b: Note, c: Note)
    requires |s| == 3 && forall i, j :: 0 <= i < j < |s| ==> s[i] != s[j]
    requires selected == {a, b, c} && forall i :: 0 <= i < |s| ==> s[i] in selected
    requires Sorted(Title, Asc, s)
    requires a.title == "A Note" && b.title == "B Note" && c.title == "C Note"
    requires Text.LexLess("A Note", "B Note") && Text.LexLess("B Note", "C Note")
    requires !Text.LexLess("B Note", "A Note") && !Text.LexLess("C Note", "B Note") && !Text.LexLess("C Note", "A Note")
    ensures s == [a, b, c]
  {
    assert Before(Title, Asc, s[0], s[1]) && Before(Title, Asc, s[1], s[2]) && Before(Title, Asc, s[0], s[2]);
  }
}
