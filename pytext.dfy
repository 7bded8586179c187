/** The few Python string built-ins the text post-processing relies on:
    the character classes `\s`, `\d`, `\w`, `str.lower`, `str.strip`,
    slicing `t[a:b]` and `str.find`. */
module PyText {

  /** `str.isspace()`, which is also what `\s` matches in a `str` pattern:
      the ASCII controls TAB..CR and FS..US, the space, and the Unicode
      separators NEL, NBSP, OGHAM SPACE MARK, EN QUAD..HAIR SPACE, LINE and
      PARAGRAPH SEPARATOR, NARROW NBSP, MEDIUM MATHEMATICAL SPACE and
      IDEOGRAPHIC SPACE. */
  predicate IsSpace(c: char) {
    c == ' ' || ('\t' <= c <= '\r') || ('\U{1C}' <= c <= '\U{1F}')
    || c == '\U{85}' || c == '\U{A0}' || c == '\U{1680}'
    || ('\U{2000}' <= c <= '\U{200A}') || c == '\U{2028}' || c == '\U{2029}'
    || c == '\U{202F}' || c == '\U{205F}' || c == '\U{3000}'
  }

  /** `\d`, restricted to the ASCII digits. */
  predicate IsDigit(c: char) {
    '0' <= c <= '9'
  }

  /** `\w`, restricted to ASCII letters, ASCII digits and the underscore. */
  predicate IsWordChar(c: char) {
    ('a' <= c <= 'z') || ('A' <= c <= 'Z') || IsDigit(c) || c == '_'
  }

  /** `str.lower()` on one character, for the ASCII letters. */
  function LowerChar(c: char): (l: char)
    ensures 'A' <= c <= 'Z' ==> 'a' <= l <= 'z' && l as int - c as int == 32
    ensures !('A' <= c <= 'Z') ==> l == c
  {
    if 'A' <= c <= 'Z' then (c as int + 32) as char else c
  }

  /** `str.lower()`: one character at a time, so the length is kept. */
  function Lower(t: string): (l: string)
    ensures |l| == |t|
    ensures forall i :: 0 <= i < |t| ==> l[i] == LowerChar(t[i])
  {
    seq(|t|, i requires 0 <= i < |t| => LowerChar(t[i]))
  }

  lemma LowerKeepsSpaces(c: char)
    ensures IsSpace(LowerChar(c)) == IsSpace(c)
  {
  }

  /** Every character of `t` is whitespace. */
  predicate AllSpace(t: string) {
    forall i :: 0 <= i < |t| ==> IsSpace(t[i])
  }

  /** No leading and no trailing whitespace. */
  predicate Trimmed(t: string) {
    t == [] || (!IsSpace(t[0]) && !IsSpace(t[|t| - 1]))
  }

  /** Index of the first non-whitespace character of `t` at or after `i`,
      or `|t|` when there is none. */
  function SkipSpace(t: string, i: nat): (j: nat)
    requires i <= |t|
    ensures i <= j <= |t|
    ensures AllSpace(t[i..j])
    ensures j < |t| ==> !IsSpace(t[j])
    decreases |t| - i
  {
    if i == |t| || !IsSpace(t[i]) then i else SkipSpace(t, i + 1)
  }

  /** One past the last non-whitespace character of `t` before `j`, or `i`
      when `t[i..j]` is all whitespace. */
  function SkipSpaceBack(t: string, i: nat, j: nat): (k: nat)
    requires i <= j <= |t|
    ensures i <= k <= j
    ensures AllSpace(t[k..j])
    ensures k > i ==> !IsSpace(t[k - 1])
    decreases j
  {
    if j == i || !IsSpace(t[j - 1]) then j
    else
      var k := SkipSpaceBack(t, i, j - 1);
      assert t[k..j] == t[k..j - 1] + [t[j - 1]];
      k
  }

  /** `t.strip()`: the slice that drops the leading and the trailing
      whitespace of `t`. */
  function Strip(t: string): (r: string)
    ensures |r| <= |t|
    ensures Trimmed(r)
    ensures exists a, b :: 0 <= a <= b <= |t| && r == t[a..b] && AllSpace(t[..a]) && AllSpace(t[b..])
  {
    var a := SkipSpace(t, 0);
    var b := SkipSpaceBack(t, a, |t|);
    StripBounds(t, a, b);
    t[a..b]
  }

  /** The slice `Strip` takes is trimmed and only whitespace lies around it. */
  lemma StripBounds(t: string, a: nat, b: nat)
    requires a == SkipSpace(t, 0) && b == SkipSpaceBack(t, a, |t|)
    ensures Trimmed(t[a..b]) && AllSpace(t[..a]) && AllSpace(t[b..])
  {
    assert t[..a] == t[0..a];
    assert t[b..] == t[b..|t|];
  }

  /** Lower-casing commutes with slicing. */
  lemma LowerSlice(t: string, a: nat, b: nat)
    requires a <= b <= |t|
    ensures Lower(t[a..b]) == Lower(t)[a..b]
  {
  }

  lemma {:induction false} SkipSpaceLower(t: string, i: nat)
    requires i <= |t|
    ensures SkipSpace(Lower(t), i) == SkipSpace(t, i)
    decreases |t| - i
  {
    if i < |t| {
      LowerKeepsSpaces(t[i]);
      SkipSpaceLower(t, i + 1);
    }
  }

  lemma {:induction false} SkipSpaceBackLower(t: string, i: nat, j: nat)
    requires i <= j <= |t|
    ensures SkipSpaceBack(Lower(t), i, j) == SkipSpaceBack(t, i, j)
    decreases j
  {
    if i < j {
      LowerKeepsSpaces(t[j - 1]);
      SkipSpaceBackLower(t, i, j - 1);
    }
  }

  /** `t.strip().lower() == t.lower().strip()`: lower-casing moves no
      character in or out of the whitespace class. */
  lemma StripLower(t: string)
    ensures Lower(Strip(t)) == Strip(Lower(t))
  {
    SkipSpaceLower(t, 0);
    var a := SkipSpace(t, 0);
    SkipSpaceBackLower(t, a, |t|);
    LowerSlice(t, a, SkipSpaceBack(t, a, |t|));
  }

  /** `t[a:b]` for two indices inside `t`: empty unless `a < b`. */
  function Slice(t: string, a: nat, b: nat): (r: string)
    requires a <= |t| && b <= |t|
    ensures a < b ==> r == t[a..b]
    ensures b <= a ==> r == []
    ensures |r| <= |t|
  {
    if a < b then t[a..b] else []
  }

  /** `w` occurs in `t` at index `k`. */
  predicate OccursAt(t: string, w: string, k: nat) {
    k + |w| <= |t| && t[k..k + |w|] == w
  }

  /** `t.find(w, i)` for a non-empty `w` and `i <= len(t)`: the least index at
      or after `i` where `w` occurs, or -1. */
  function Find(t: string, w: string, i: nat): (r: int)
    requires |w| > 0 && i <= |t|
    ensures r == -1 || (i <= r && OccursAt(t, w, r))
    ensures forall k :: i <= k && (r == -1 || k < r) ==> !OccursAt(t, w, k)
    decreases |t| - i
  {
    if i + |w| > |t| then -1
    else if OccursAt(t, w, i) then i
    else Find(t, w, i + 1)
  }
}
