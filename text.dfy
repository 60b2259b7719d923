/**
 * String operations the note service depends on: the whitespace trimming the
 * request validator applies to title and content, the ASCII case folding and
 * substring test behind the list search, and the lexicographic order used
 * when notes are sorted by a text column.
 */
module Text {

  /** The characters matched by JavaScript's `\s` class, which `trim()` strips. */
  predicate IsSpace(c: char) {
    || c == ' ' || c == '\t' || c == '\n' || c == '\U{000B}' || c == '\U{000C}' || c == '\r'
    || c == '\U{00A0}' || c == '\U{1680}' || ('\U{2000}' <= c <= '\U{200A}')
    || c == '\U{2028}' || c == '\U{2029}' || c == '\U{202F}' || c == '\U{205F}'
    || c == '\U{3000}' || c == '\U{FEFF}'
  }

  predicate AllSpace(s: string) {
    forall i :: 0 <= i < |s| ==> IsSpace(s[i])
  }

  /** Removes the leading whitespace: what is dropped is all whitespace, what is kept is a suffix. */
  function TrimStart(s: string): (r: string)
    ensures |r| <= |s| && r == s[|s| - |r|..]
    ensures AllSpace(s[..|s| - |r|])
    ensures r == [] || !IsSpace(r[0])
  {
    if s != [] && IsSpace(s[0]) then
      var r := TrimStart(s[1..]);
      var dropped := s[..|s| - |r|];
      assert forall i :: 0 < i < |dropped| ==> dropped[i] == s[1..][..|s| - 1 - |r|][i - 1];
      r
    else s
  }

  /** Removes the trailing whitespace: what is dropped is all whitespace, what is kept is a prefix. */
  function TrimEnd(s: string): (r: string)
    ensures |r| <= |s| && r == s[..|r|]
    ensures AllSpace(s[|r|..])
    ensures r == [] || !IsSpace(r[|r| - 1])
  {
    if s != [] && IsSpace(s[|s| - 1]) then TrimEnd(s[..|s| - 1]) else s
  }

  /** `s` is `r` with only whitespace before it (the first `k` characters) and after it. */
  predicate PaddedBySpace(s: string, r: string, k: int) {
    0 <= k <= |s| - |r| && r == s[k..k + |r|] && AllSpace(s[..k]) && AllSpace(s[k + |r|..])
  }

  /**
   * Whitespace trimming at both ends: `s` is whitespace, then `r`, then
   * whitespace; `r` is empty exactly when `s` is all whitespace, and otherwise
   * neither starts nor ends with whitespace.
   */
  function Trim(s: string): (r: string)
    ensures exists k :: PaddedBySpace(s, r, k)
    ensures r == [] <==> AllSpace(s)
    ensures r != [] ==> !IsSpace(r[0]) && !IsSpace(r[|r| - 1])
  {
    var t := TrimStart(s);
    TrimPadding(s, t, TrimEnd(t));
    TrimEnd(t)
  }

  lemma {:induction false} TrimPadding(s: string, t: string, r: string)
    requires t == TrimStart(s) && r == TrimEnd(t)
    ensures PaddedBySpace(s, r, |s| - |t|)
    ensures r == [] <==> AllSpace(s)
  {
    var k := |s| - |t|;
    assert s[k..] == t;
    assert r == s[k..k + |r|] by {
      assert t[..|r|] == s[k..k + |r|];
    }
    var tail := s[k + |r|..];
    forall i | 0 <= i < |tail| ensures IsSpace(tail[i]) {
      assert tail[i] == t[|r|..][i];
    }
    assert AllSpace(s[..k]);
    assert PaddedBySpace(s, r, k);
    if r == [] {
      assert t == [] by {
        assert t[|r|..] == t;
      }
      assert s[..k] == s;
    } else {
      assert s[k + |r| - 1] == r[|r| - 1];
    }
  }

  /** A string that starts and ends with a non-space character is its own trim. */
  lemma {:induction false} TrimFixesTrimmed(s: string)
    requires s == [] || (!IsSpace(s[0]) && !IsSpace(s[|s| - 1]))
    ensures Trim(s) == s
  {
    assert TrimStart(s) == s;
    assert TrimEnd(s) == s;
  }

  /** Trimming twice is trimming once. */
  lemma TrimIdempotent(s: string)
    ensures Trim(Trim(s)) == Trim(s)
  {
    TrimFixesTrimmed(Trim(s));
  }

  /** ASCII case folding of one character (upper-case letters to lower case). */
  function FoldChar(c: char): (d: char)
    ensures 'A' <= c <= 'Z' ==> 'a' <= d <= 'z' && d as int - c as int == 'a' as int - 'A' as int
    ensures !('A' <= c <= 'Z') ==> d == c
  {
    if 'A' <= c <= 'Z' then (c as int + 32) as char else c
  }

  /** Two characters fold alike exactly when they are equal or are the two cases of one ASCII letter. */
  lemma SameFold(c: char, d: char)
    ensures FoldChar(c) == FoldChar(d) <==>
      || c == d
      || ('A' <= c <= 'Z' && d as int == c as int + 32)
      || ('A' <= d <= 'Z' && c as int == d as int + 32)
  {
  }

  function Fold(s: string): (r: string)
    ensures |r| == |s|
    ensures forall i :: 0 <= i < |s| ==> r[i] == FoldChar(s[i])
  {
    seq(|s|, i requires 0 <= i < |s| => FoldChar(s[i]))
  }

  /** `pattern` occurs in `text` when both are case-folded: the `LIKE '%pattern%'` test. */
  predicate ContainsIgnoringCase(text: string, pattern: string) {
    exists k | 0 <= k <= |text| - |pattern| :: MatchesAt(text, pattern, k)
  }

  /** `pattern` occurs case-folded in `text` starting at index `k`. */
  predicate MatchesAt(text: string, pattern: string, k: int) {
    0 <= k <= |text| - |pattern| && Fold(text[k..k + |pattern|]) == Fold(pattern)
  }

  /** A text without the pattern's first character (up to case) does not contain the pattern. */
  lemma NoMatchWithoutFirstChar(text: string, pattern: string)
    requires pattern != []
    requires forall k :: 0 <= k < |text| ==> FoldChar(text[k]) != FoldChar(pattern[0])
    ensures !ContainsIgnoringCase(text, pattern)
  {
    forall k | 0 <= k <= |text| - |pattern| ensures !MatchesAt(text, pattern, k) {
      assert Fold(text[k..k + |pattern|])[0] == FoldChar(text[k]);
    }
  }

  /** Strict lexicographic order on code points; a proper prefix comes first. */
  predicate LexLess(s: string, t: string)
    decreases |s|
  {
    if s == [] then t != []
    else if t == [] then false
    else if s[0] != t[0] then s[0] < t[0]
    else LexLess(s[1..], t[1..])
  }

  lemma {:induction false} LexIrreflexive(s: string)
    ensures !LexLess(s, s)
  {
    if s != [] {
      LexIrreflexive(s[1..]);
    }
  }

  lemma {:induction false} LexTransitive(a: string, b: string, c: string)
    requires LexLess(a, b) && LexLess(b, c)
    ensures LexLess(a, c)
    decreases |a|
  {
    if a != [] && b != [] && c != [] && a[0] == b[0] && b[0] == c[0] {
      LexTransitive(a[1..], b[1..], c[1..]);
    }
  }

  lemma {:induction false} LexTotal(s: string, t: string)
    requires s != t
    ensures LexLess(s, t) || LexLess(t, s)
    decreases |s|
  {
    if s != [] && t != [] && s[0] == t[0] {
      assert s == [s[0]] + s[1..] && t == [t[0]] + t[1..];
      LexTotal(s[1..], t[1..]);
    }
  }
}
