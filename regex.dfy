/** The fragment of Python's `re` that the text post-processing uses, with
    the order in which Python's backtracking engine tries the ways a pattern
    can match.

    `Ends(r, s, i)` lists every end position of a match of `r` that starts
    at index `i` of `s`, in the order the engine reaches them: greedy
    repetition tries the longest run first, lazy repetition the shortest,
    alternation its branches left to right, and a concatenation tries the
    continuation after each way of matching its front in turn. The match
    Python reports at `i` is the first entry of that list (`FirstEnd`).
    On top of it sit `re.search` (`Search`), `re.finditer` (`FindAll`) and
    `re.sub` (`Sub`), which scan left to right without overlap. */
module Regex {
  import opened PyText

  datatype Option<T> = None | Some(value: T)

  /** A single-character test. */
  datatype CharClass =
    | Exactly(c: char)   // a literal character
    | Caseless(c: char)  // a literal ASCII letter under `re.IGNORECASE`
    | Whitespace         // `\s`
    | Digit              // `\d`
    | AnyButNewline      // `.` without `re.DOTALL`

  predicate InClass(k: CharClass, x: char) {
    match k
    case Exactly(c) => x == c
    case Caseless(c) => LowerChar(x) == LowerChar(c)
    case Whitespace => IsSpace(x)
    case Digit => IsDigit(x)
    case AnyButNewline => x != '\n'
  }

  datatype Regex =
    | One(k: CharClass)                  // one character of the class
    | Word(w: string, caseless: bool)    // a literal string, under `re.IGNORECASE` when `caseless`
    | Star(k: CharClass, greedy: bool)   // `k*`, or `k*?` when not greedy
    | Plus(k: CharClass)                 // `k+` (greedy)
    | WordBoundary                       // `\b`
    | EndOfText                          // `$` without `re.MULTILINE`
    | Cat(front: Regex, back: Regex)     // `front` then `back`
    | Alt(first: Regex, second: Regex)   // `first|second`

  /** `s[i..]` begins with `w`, compared one character at a time as the
      engine compares a literal. */
  predicate Spells(s: string, i: nat, w: string, caseless: bool) {
    i + |w| <= |s|
    && forall j :: 0 <= j < |w| ==>
         InClass(if caseless then Caseless(w[j]) else Exactly(w[j]), s[i + j])
  }

  /** `(w0|w1|...)`: the alternation of the words `ws`, tried in order. */
  function AnyOf(ws: seq<string>): Regex
    requires ws != []
    decreases |ws|
  {
    if |ws| == 1 then Word(ws[0], false) else Alt(Word(ws[0], false), AnyOf(ws[1..]))
  }

  /** The least length of any match of `r` (the `getwidth` of Python's
      pattern compiler). */
  function MinLen(r: Regex): nat {
    match r
    case One(_) => 1
    case Word(w, _) => |w|
    case Star(_, _) => 0
    case Plus(_) => 1
    case WordBoundary => 0
    case EndOfText => 0
    case Cat(a, b) => MinLen(a) + MinLen(b)
    case Alt(a, b) => if MinLen(a) <= MinLen(b) then MinLen(a) else MinLen(b)
  }

  /** `\b` at index `i`: a word character on exactly one side. */
  predicate AtWordBoundary(s: string, i: nat)
    requires i <= |s|
  {
    (i > 0 && IsWordChar(s[i - 1])) != (i < |s| && IsWordChar(s[i]))
  }

  /** `$` without `re.MULTILINE`: the end of the text, or just before a
      newline that ends the text. */
  predicate AtEndOfText(s: string, i: nat)
    requires i <= |s|
  {
    i == |s| || (i + 1 == |s| && s[i] == '\n')
  }

  /** The end of the longest run of characters of class `k` starting at `i`. */
  function RunEnd(k: CharClass, s: string, i: nat): (n: nat)
    requires i <= |s|
    ensures i <= n <= |s|
    ensures forall j :: i <= j < n ==> InClass(k, s[j])
    ensures n < |s| ==> !InClass(k, s[n])
    decreases |s| - i
  {
    if i == |s| || !InClass(k, s[i]) then i else RunEnd(k, s, i + 1)
  }

  /** `[hi, hi - 1, ..., lo]`: the order in which greedy repetition backs off. */
  function Down(hi: nat, lo: nat): (xs: seq<nat>)
    requires lo <= hi
    ensures |xs| == hi - lo + 1
    ensures forall j :: 0 <= j < |xs| ==> xs[j] == hi - j
    decreases hi - lo
  {
    if hi == lo then [lo] else [hi] + Down(hi - 1, lo)
  }

  /** `[lo, lo + 1, ..., hi]`: the order in which lazy repetition extends. */
  function Up(lo: nat, hi: nat): (xs: seq<nat>)
    requires lo <= hi
    ensures |xs| == hi - lo + 1
    ensures forall j :: 0 <= j < |xs| ==> xs[j] == lo + j
    decreases hi - lo
  {
    if hi == lo then [lo] else [lo] + Up(lo + 1, hi)
  }

  /** The ends of the matches of `r` at `i`, in the engine's order of trial. */
  function Ends(r: Regex, s: string, i: nat): (ends: seq<nat>)
    requires i <= |s|
    ensures forall e :: e in ends ==> i <= e <= |s|
    decreases r, 0
  {
    match r
    case One(k) => if i < |s| && InClass(k, s[i]) then [i + 1] else []
    case Word(w, caseless) => if Spells(s, i, w, caseless) then [i + |w|] else []
    case Star(k, greedy) =>
      var n := RunEnd(k, s, i);
      if greedy then Down(n, i) else Up(i, n)
    case Plus(k) =>
      var n := RunEnd(k, s, i);
      if n == i then [] else Down(n, i + 1)
    case WordBoundary => if AtWordBoundary(s, i) then [i] else []
    case EndOfText => if AtEndOfText(s, i) then [i] else []
    case Cat(a, b) => CatEnds(b, s, Ends(a, s, i))
    case Alt(a, b) => Ends(a, s, i) + Ends(b, s, i)
  }

  /** The ends of `b` tried after each of the positions `ks`, in order. */
  function CatEnds(b: Regex, s: string, ks: seq<nat>): (ends: seq<nat>)
    requires forall k :: k in ks ==> k <= |s|
    ensures forall e :: e in ends ==> e <= |s| && exists k :: k in ks && k <= e
    decreases b, 1, |ks|
  {
    if ks == [] then []
    else
      assert ks[0] in ks;
      assert forall k :: k in ks[1..] ==> k in ks;
      var rest := CatEnds(b, s, ks[1..]);
      assert forall e :: e in rest ==> exists k :: k in ks && k <= e by {
        forall e | e in rest ensures exists k :: k in ks && k <= e {
          var k :| k in ks[1..] && k <= e;
          assert k in ks;
        }
      }
      Ends(b, s, ks[0]) + rest
  }

  function Head(xs: seq<nat>): Option<nat> {
    if xs == [] then None else Some(xs[0])
  }

  /** The end of the match Python reports for `r` at index `i`, if any. */
  function FirstEnd(r: Regex, s: string, i: nat): Option<nat>
    requires i <= |s|
  {
    Head(Ends(r, s, i))
  }

  /** Every match of `r` is at least `MinLen(r)` long. */
  lemma {:induction false} EndsAtLeast(r: Regex, s: string, i: nat)
    requires i <= |s|
    ensures forall e :: e in Ends(r, s, i) ==> i + MinLen(r) <= e
    decreases r, 0
  {
    match r
    case Cat(a, b) =>
      EndsAtLeast(a, s, i);
      CatEndsAtLeast(b, s, Ends(a, s, i), i + MinLen(a));
    case Alt(a, b) =>
      EndsAtLeast(a, s, i);
      EndsAtLeast(b, s, i);
    case _ =>
  }

  lemma {:induction false} CatEndsAtLeast(b: Regex, s: string, ks: seq<nat>, lo: nat)
    requires forall k :: k in ks ==> lo <= k <= |s|
    ensures forall e :: e in CatEnds(b, s, ks) ==> lo + MinLen(b) <= e
    decreases b, 1, |ks|
  {
    if ks != [] {
      assert ks[0] in ks;
      assert forall k :: k in ks[1..] ==> k in ks;
      EndsAtLeast(b, s, ks[0]);
      CatEndsAtLeast(b, s, ks[1..], lo);
    }
  }

  /** The match reported at `i`, if any, is at least `MinLen(r)` long. */
  lemma FirstEndAtLeast(r: Regex, s: string, i: nat)
    requires i <= |s|
    ensures FirstEnd(r, s, i).Some? ==> i + MinLen(r) <= FirstEnd(r, s, i).value <= |s|
  {
    EndsAtLeast(r, s, i);
    var ends := Ends(r, s, i);
    if ends != [] {
      assert ends[0] in ends;
    }
  }

  datatype Match = Match(start: nat, end: nat)

  /** `re.search(r, s[from:])` with positions in `s`: the leftmost index at or
      after `from` where `r` matches, with the end Python reports there. */
  function Search(r: Regex, s: string, from: nat): (m: Option<Match>)
    requires from <= |s|
    ensures m.Some? ==> from <= m.value.start <= |s| && FirstEnd(r, s, m.value.start) == Some(m.value.end)
    ensures m.Some? ==> forall j :: from <= j < m.value.start ==> FirstEnd(r, s, j) == None
    ensures m.None? ==> forall j :: from <= j <= |s| ==> FirstEnd(r, s, j) == None
    decreases |s| - from
  {
    match FirstEnd(r, s, from)
    case Some(e) => Some(Match(from, e))
    case None => if from == |s| then None else Search(r, s, from + 1)
  }

  /** A match found by `Search` for a pattern that cannot match the empty
      string is non-empty and lies inside `s`. */
  lemma SearchNonEmpty(r: Regex, s: string, from: nat)
    requires from <= |s| && MinLen(r) > 0
    ensures Search(r, s, from).Some? ==>
              from <= Search(r, s, from).value.start < Search(r, s, from).value.end <= |s|
  {
    var m := Search(r, s, from);
    if m.Some? {
      FirstEndAtLeast(r, s, m.value.start);
    }
  }

  /** `ms` is the list `re.finditer` yields for `r` on `s` from index `from`:
      empty exactly when nothing matches; otherwise its first match is the
      leftmost one from `from`, each later match is the leftmost one from the
      end of the match before it, and nothing matches after the last one. */
  predicate Scanned(r: Regex, s: string, from: nat, ms: seq<Match>)
    requires from <= |s|
  {
    && (forall j :: 0 <= j < |ms| ==>
          from <= ms[j].start < ms[j].end <= |s| && FirstEnd(r, s, ms[j].start) == Some(ms[j].end))
    && (forall j :: 0 < j < |ms| ==> ms[j - 1].end <= ms[j].start)
    && (ms == [] <==> Search(r, s, from).None?)
    && (ms != [] ==> Search(r, s, from) == Some(ms[0]))
    && (forall j :: 0 < j < |ms| ==> Search(r, s, ms[j - 1].end) == Some(ms[j]))
    && (ms != [] ==> Search(r, s, ms[|ms| - 1].end).None?)
  }

  /** `list(re.finditer(r, s))` from index `from`: successive leftmost matches,
      each search resuming where the previous match ended. */
  function FindAll(r: Regex, s: string, from: nat): (ms: seq<Match>)
    requires from <= |s| && MinLen(r) > 0
    ensures Scanned(r, s, from, ms)
    decreases |s| - from
  {
    SearchNonEmpty(r, s, from);
    match Search(r, s, from)
    case None => []
    case Some(m) =>
      var rest := FindAll(r, s, m.end);
      FindAllCons(r, s, from, m, rest);
      [m] + rest
  }

  /** A leftmost match `m` followed by the scan from its end is the scan
      from `from`. */
  lemma FindAllCons(r: Regex, s: string, from: nat, m: Match, rest: seq<Match>)
    requires from <= m.start < m.end <= |s| && Search(r, s, from) == Some(m)
    requires Scanned(r, s, m.end, rest)
    ensures Scanned(r, s, from, [m] + rest)
  {
    ConsBounds(r, s, from, m, rest);
    ConsChain(r, s, from, m, rest);
    var ms := [m] + rest;
    assert ms[|ms| - 1] == if rest == [] then m else rest[|rest| - 1];
  }

  lemma ConsBounds(r: Regex, s: string, from: nat, m: Match, rest: seq<Match>)
    requires from <= m.start < m.end <= |s| && Search(r, s, from) == Some(m)
    requires Scanned(r, s, m.end, rest)
    ensures var ms := [m] + rest;
            forall j :: 0 <= j < |ms| ==>
              from <= ms[j].start < ms[j].end <= |s| && FirstEnd(r, s, ms[j].start) == Some(ms[j].end)
  {
    var ms := [m] + rest;
    forall j | 0 < j < |ms|
      ensures from <= ms[j].start < ms[j].end <= |s| && FirstEnd(r, s, ms[j].start) == Some(ms[j].end)
    {
      assert ms[j] == rest[j - 1];
    }
  }

  lemma ConsChain(r: Regex, s: string, from: nat, m: Match, rest: seq<Match>)
    requires from <= m.start < m.end <= |s|
    requires Scanned(r, s, m.end, rest)
    ensures var ms := [m] + rest;
            forall j :: 0 < j < |ms| ==> ms[j - 1].end <= ms[j].start && Search(r, s, ms[j - 1].end) == Some(ms[j])
  {
    var ms := [m] + rest;
    forall j | 0 < j < |ms|
      ensures ms[j - 1].end <= ms[j].start && Search(r, s, ms[j - 1].end) == Some(ms[j])
    {
      assert ms[j] == rest[j - 1];
      if j > 1 {
        assert ms[j - 1] == rest[j - 2];
      }
    }
  }

  /** `re.sub(r, repl, s)` from index `from`: the text before each leftmost
      match is kept, the match is replaced by `repl`, and the scan resumes
      after the match. */
  function SubFrom(r: Regex, repl: string, s: string, from: nat): (o: string)
    requires from <= |s| && MinLen(r) > 0
    ensures Search(r, s, from).None? ==> o == s[from..]
    decreases |s| - from
  {
    SearchNonEmpty(r, s, from);
    match Search(r, s, from)
    case None => s[from..]
    case Some(m) => s[from..m.start] + repl + SubFrom(r, repl, s, m.end)
  }

  /** `re.sub(r, repl, s)`. */
  function Sub(r: Regex, repl: string, s: string): (o: string)
    requires MinLen(r) > 0
    ensures Search(r, s, 0).None? ==> o == s
  {
    assert s[0..] == s;
    SubFrom(r, repl, s, 0)
  }
}
