/**
 * The `ORDER BY <sort> <order>` of the list query. A note's sort key is the
 * value of the chosen column; text columns compare lexicographically and
 * numeric ones numerically. The database leaves the order of equal keys
 * open; this model lists them by ascending id, which makes the order total.
 */
module NoteOrder {
  import opened NoteModel
  import Text

  /** The columns a listing can be sorted by. */
  datatype SortField = Title | Content | CreatedAt | UpdatedAt

  /** The sort direction keyword, `ASC` or `DESC`, after upper-casing. */
  datatype Direction = Asc | Desc

  datatype SortKey = Number(n: int) | Words(s: string)

  function Key(n: Note, field: SortField): SortKey {
    match field
    case Title => Words(n.title)
    case Content => Words(n.content)
    case CreatedAt => Number(n.createdAt)
    case UpdatedAt => Number(n.updatedAt)
  }

  /** Ascending order on keys; keys of one column are always of the same kind. */
  predicate KeyLess(a: SortKey, b: SortKey) {
    match (a, b)
    case (Number(x), Number(y)) => x < y
    case (Words(s), Words(t)) => Text.LexLess(s, t)
    case (Number(_), Words(_)) => true
    case (Words(_), Number(_)) => false
  }

  lemma KeyLessIsStrictTotal(a: SortKey, b: SortKey, c: SortKey)
    ensures !KeyLess(a, a)
    ensures KeyLess(a, b) && KeyLess(b, c) ==> KeyLess(a, c)
    ensures a != b ==> KeyLess(a, b) || KeyLess(b, a)
  {
    if a.Words? {
      Text.LexIrreflexive(a.s);
    }
    if a.Words? && b.Words? && c.Words? && KeyLess(a, b) && KeyLess(b, c) {
      Text.LexTransitive(a.s, b.s, c.s);
    }
    if a.Words? && b.Words? && a != b {
      Text.LexTotal(a.s, b.s);
    }
  }

  /**
   * `x` may be listed before `y`: its key comes strictly earlier in the
   * requested direction, or the keys are equal and its id is not larger.
   */
  predicate Before(field: SortField, dir: Direction, x: Note, y: Note) {
    var kx, ky := Key(x, field), Key(y, field);
    if kx == ky then x.id <= y.id
    else if dir == Asc then KeyLess(kx, ky)
    else KeyLess(ky, kx)
  }

  lemma BeforeTotal(field: SortField, dir: Direction, x: Note, y: Note)
    ensures Before(field, dir, x, y) || Before(field, dir, y, x)
  {
    KeyLessIsStrictTotal(Key(x, field), Key(y, field), Key(x, field));
  }

  lemma BeforeTransitive(field: SortField, dir: Direction, x: Note, y: Note, z: Note)
    requires Before(field, dir, x, y) && Before(field, dir, y, z)
    ensures Before(field, dir, x, z)
  {
    var kx, ky, kz := Key(x, field), Key(y, field), Key(z, field);
    KeyLessIsStrictTotal(kx, ky, kz);
    KeyLessIsStrictTotal(kz, ky, kx);
    KeyLessIsStrictTotal(ky, kx, kz);
    KeyLessIsStrictTotal(ky, kz, kx);
    KeyLessIsStrictTotal(kx, kz, ky);
    KeyLessIsStrictTotal(kz, kx, ky);
  }

  lemma BeforeAntisymmetric(field: SortField, dir: Direction, x: Note, y: Note)
    requires Before(field, dir, x, y) && Before(field, dir, y, x)
    ensures x.id == y.id
  {
    var kx, ky := Key(x, field), Key(y, field);
    KeyLessIsStrictTotal(kx, ky, kx);
    KeyLessIsStrictTotal(ky, kx, ky);
  }

  /** No two distinct notes of the set share an id, as rows of one table cannot. */
  predicate UniqueIds(s: set<Note>) {
    forall x, y | x in s && y in s && x.id == y.id :: x == y
  }

  predicate IsFirst(field: SortField, dir: Direction, f: Note, s: set<Note>) {
    f in s && forall y | y in s :: Before(field, dir, f, y)
  }

  lemma {:induction false} FirstExists(field: SortField, dir: Direction, s: set<Note>)
    requires s != {}
    ensures exists f :: IsFirst(field, dir, f, s)
    decreases s
  {
    var x :| x in s;
    if s == {x} {
      assert IsFirst(field, dir, x, s);
    } else {
      FirstExists(field, dir, s - {x});
      var f :| IsFirst(field, dir, f, s - {x});
      BeforeTotal(field, dir, x, f);
      if Before(field, dir, x, f) {
        forall y | y in s ensures Before(field, dir, x, y) {
          if y != x {
            BeforeTransitive(field, dir, x, f, y);
          }
        }
        assert IsFirst(field, dir, x, s);
      } else {
        assert IsFirst(field, dir, f, s);
      }
    }
  }

  lemma FirstUnique(field: SortField, dir: Direction, s: set<Note>)
    requires UniqueIds(s)
    ensures forall f, g :: IsFirst(field, dir, f, s) && IsFirst(field, dir, g, s) ==> f == g
  {
    forall f, g | IsFirst(field, dir, f, s) && IsFirst(field, dir, g, s) ensures f == g {
      BeforeAntisymmetric(field, dir, f, g);
    }
  }

  /** Each note of `s` may be listed before every later one. */
  predicate Sorted(field: SortField, dir: Direction, s: seq<Note>) {
    forall i, j :: 0 <= i < j < |s| ==> Before(field, dir, s[i], s[j])
  }

  lemma SortedSlice(field: SortField, dir: Direction, s: seq<Note>, lo: nat, hi: nat)
    requires Sorted(field, dir, s) && lo <= hi <= |s|
    ensures Sorted(field, dir, s[lo..hi])
  {
    forall i, j | 0 <= i < j < hi - lo ensures Before(field, dir, s[lo..hi][i], s[lo..hi][j]) {
      assert s[lo..hi][i] == s[lo + i] && s[lo..hi][j] == s[lo + j];
    }
  }

  /**
   * The notes of `s` in listing order: every note exactly once, and each one
   * before every later one.
   */
  function SortNotes(s: set<Note>, field: SortField, dir: Direction): (r: seq<Note>)
    requires UniqueIds(s)
    ensures |r| == |s|
    ensures forall i :: 0 <= i < |r| ==> r[i] in s
    ensures forall n :: n in s ==> n in r
    ensures forall i, j :: 0 <= i < j < |r| ==> r[i] != r[j]
    ensures Sorted(field, dir, r)
    decreases s
  {
    if s == {} then []
    else
      FirstExists(field, dir, s);
      FirstUnique(field, dir, s);
      var f :| f in s && IsFirst(field, dir, f, s);
      var rest := SortNotes(s - {f}, field, dir);
      PrependFirst(field, dir, s, f, rest);
      [f] + rest
  }

  /** Putting the first row of `s` before a sorted listing of the others lists all of `s`, sorted. */
  lemma PrependFirst(field: SortField, dir: Direction, s: set<Note>, f: Note, rest: seq<Note>)
    requires IsFirst(field, dir, f, s)
    requires |rest| == |s - {f}|
    requires forall i :: 0 <= i < |rest| ==> rest[i] in s - {f}
    requires forall n :: n in s - {f} ==> n in rest
    requires forall i, j :: 0 <= i < j < |rest| ==> rest[i] != rest[j]
    requires Sorted(field, dir, rest)
    ensures var r := [f] + rest;
      && |r| == |s|
      && (forall i :: 0 <= i < |r| ==> r[i] in s)
      && (forall n :: n in s ==> n in r)
      && (forall i, j :: 0 <= i < j < |r| ==> r[i] != r[j])
      && Sorted(field, dir, r)
  {
    var r := [f] + rest;
    forall i | 0 < i < |r| ensures r[i] == rest[i - 1] && r[i] in s - {f} {}
    forall i, j | 0 <= i < j < |r| ensures Before(field, dir, r[i], r[j]) && r[i] != r[j] {
      if i == 0 {
        assert r[j] in s - {f};
      } else {
        assert r[i] == rest[i - 1] && r[j] == rest[j - 1];
      }
    }
  }
}
