/** Facts about the regex engine of module `Regex`: how the reported match of
    a concatenation follows from its parts, and what `re.sub` keeps of its
    input (length, double spaces). */
module RegexFacts {
  import opened PyText
  import opened Regex

  /** A literal character in front: the rest is tried right after it. */
  lemma CatOne(k: CharClass, b: Regex, s: string, i: nat)
    requires i <= |s|
    ensures Ends(Cat(One(k), b), s, i) == if i < |s| && InClass(k, s[i]) then Ends(b, s, i + 1) else []
  {
    if i < |s| && InClass(k, s[i]) {
      assert Ends(One(k), s, i) == [i + 1];
      assert CatEnds(b, s, [i + 1]) == Ends(b, s, i + 1) + CatEnds(b, s, []);
    }
  }

  /** A literal word in front: the rest is tried right after it. */
  lemma WordThenEnds(w: string, caseless: bool, tail: Regex, s: string, i: nat)
    requires i <= |s|
    ensures Ends(Cat(Word(w, caseless), tail), s, i) ==
              if Spells(s, i, w, caseless) then Ends(tail, s, i + |w|) else []
  {
    if Spells(s, i, w, caseless) {
      assert Ends(Word(w, caseless), s, i) == [i + |w|];
      assert CatEnds(tail, s, [i + |w|]) == Ends(tail, s, i + |w|) + CatEnds(tail, s, []);
    }
  }

  /** Tried after positions none of which lets `b` match, `b` yields nothing. */
  lemma {:induction false} CatEndsNone(b: Regex, s: string, ks: seq<nat>)
    requires forall k :: k in ks ==> k <= |s|
    requires forall k :: k in ks ==> Ends(b, s, k) == []
    ensures CatEnds(b, s, ks) == []
    decreases |ks|
  {
    if ks != [] {
      assert ks[0] in ks;
      assert forall k :: k in ks[1..] ==> k in ks;
      CatEndsNone(b, s, ks[1..]);
    }
  }

  /** When only position `J` can let `b` match, the reported match is
      `b`'s match at `J`. */
  lemma {:induction false} CatEndsOnly(b: Regex, s: string, ks: seq<nat>, J: nat)
    requires forall k :: k in ks ==> k <= |s|
    requires J <= |s|
    requires forall k :: k in ks && k != J ==> Ends(b, s, k) == []
    ensures Head(CatEnds(b, s, ks)) == if J in ks then Head(Ends(b, s, J)) else None
    decreases |ks|
  {
    if ks != [] {
      assert ks[0] in ks;
      assert forall k :: k in ks[1..] ==> k in ks;
      CatEndsOnly(b, s, ks[1..], J);
      assert J in ks <==> (ks[0] == J || J in ks[1..]);
    }
  }

  /** Greedy back-off: the reported match is the one after the largest
      position `J` from which `b` matches. */
  lemma {:induction false} CatEndsDownFirst(b: Regex, s: string, hi: nat, lo: nat, J: nat)
    requires lo <= J <= hi <= |s|
    requires Ends(b, s, J) != []
    requires forall j :: J < j <= hi ==> Ends(b, s, j) == []
    ensures Head(CatEnds(b, s, Down(hi, lo))) == Head(Ends(b, s, J))
    decreases hi - lo
  {
    var ks := Down(hi, lo);
    if hi == J {
      assert ks == [hi] + ks[1..];
    } else {
      assert ks == [hi] + Down(hi - 1, lo);
      CatEndsDownFirst(b, s, hi - 1, lo, J);
    }
  }

  /** A repetition followed by something that cannot start inside the run:
      only the whole run can be followed by `b`. */
  lemma StarThen(k: CharClass, greedy: bool, b: Regex, s: string, i: nat)
    requires i <= |s|
    requires forall j :: i <= j < RunEnd(k, s, i) ==> Ends(b, s, j) == []
    ensures FirstEnd(Cat(Star(k, greedy), b), s, i) == FirstEnd(b, s, RunEnd(k, s, i))
  {
    var n := RunEnd(k, s, i);
    var ks := if greedy then Down(n, i) else Up(i, n);
    assert Ends(Cat(Star(k, greedy), b), s, i) == CatEnds(b, s, ks);
    assert ks[if greedy then 0 else n - i] == n;
    assert n in ks;
    assert forall j :: j in ks ==> i <= j <= n;
    CatEndsOnly(b, s, ks, n);
  }

  lemma WordNowhere(w: string, caseless: bool, tail: Regex, s: string, lo: nat, hi: nat)
    requires lo <= hi <= |s|
    requires forall j :: lo <= j < hi ==> !Spells(s, j, w, caseless)
    ensures forall j :: lo <= j < hi ==> Ends(Cat(Word(w, caseless), tail), s, j) == []
  {
    forall j | lo <= j < hi
      ensures Ends(Cat(Word(w, caseless), tail), s, j) == []
    {
      WordThenEnds(w, caseless, tail, s, j);
    }
  }

  lemma WordThenFirst(w: string, caseless: bool, tail: Regex, s: string, i: nat)
    requires i <= |s|
    ensures FirstEnd(Cat(Word(w, caseless), tail), s, i) ==
              if Spells(s, i, w, caseless) then FirstEnd(tail, s, i + |w|) else None
  {
    WordThenEnds(w, caseless, tail, s, i);
  }

  /** A word that begins with a non-blank letter is not spelled inside a
      run of blanks. */
  lemma BlanksNotWord(w: string, caseless: bool, s: string, c: nat)
    requires c <= |s| && |w| > 0 && !IsSpace(w[0]) && !IsSpace(LowerChar(w[0]))
    ensures forall j :: c <= j < RunEnd(Whitespace, s, c) ==> !Spells(s, j, w, caseless)
  {
    forall j | c <= j < RunEnd(Whitespace, s, c)
      ensures !Spells(s, j, w, caseless)
    {
      assert !InClass(if caseless then Caseless(w[0]) else Exactly(w[0]), s[j]);
    }
  }

  /** A repetition followed by a word that cannot begin inside the run. */
  lemma StarThenWord(k: CharClass, w: string, caseless: bool, tail: Regex, s: string, i: nat)
    requires i <= |s|
    requires forall j :: i <= j < RunEnd(k, s, i) ==> !Spells(s, j, w, caseless)
    ensures FirstEnd(Cat(Star(k, true), Cat(Word(w, caseless), tail)), s, i) ==
              var n := RunEnd(k, s, i);
              if Spells(s, n, w, caseless) then FirstEnd(tail, s, n + |w|) else None
  {
    var n := RunEnd(k, s, i);
    var word := Cat(Word(w, caseless), tail);
    assert FirstEnd(Cat(Star(k, true), word), s, i) == FirstEnd(word, s, n) by {
      WordNowhere(w, caseless, tail, s, i, n);
      StarThen(k, true, word, s, i);
    }
    WordThenFirst(w, caseless, tail, s, n);
  }

  /** `k+` followed by something that cannot start inside the run. */
  lemma PlusThen(k: CharClass, b: Regex, s: string, i: nat)
    requires i <= |s|
    requires forall j :: i < j < RunEnd(k, s, i) ==> Ends(b, s, j) == []
    ensures FirstEnd(Cat(Plus(k), b), s, i) ==
              if RunEnd(k, s, i) == i then None else FirstEnd(b, s, RunEnd(k, s, i))
  {
    var n := RunEnd(k, s, i);
    if n > i {
      var ks := Down(n, i + 1);
      assert Ends(Cat(Plus(k), b), s, i) == CatEnds(b, s, ks);
      assert ks[0] == n;
      assert n in ks;
      assert forall j :: j in ks ==> i < j <= n;
      CatEndsOnly(b, s, ks, n);
    } else {
      assert Ends(Plus(k), s, i) == [];
      assert Ends(Cat(Plus(k), b), s, i) == CatEnds(b, s, []);
    }
  }

  /** `k+` followed by something that can start at the end of the run: that
      is the match reported. */
  lemma PlusThenLongest(k: CharClass, b: Regex, s: string, i: nat)
    requires i <= |s|
    requires RunEnd(k, s, i) > i && Ends(b, s, RunEnd(k, s, i)) != []
    ensures FirstEnd(Cat(Plus(k), b), s, i) == FirstEnd(b, s, RunEnd(k, s, i))
  {
    var n := RunEnd(k, s, i);
    assert Ends(Cat(Plus(k), b), s, i) == CatEnds(b, s, Down(n, i + 1));
    CatEndsDownFirst(b, s, n, i + 1, n);
  }

  /** No character of class `k` at `j`: nothing starting with `k` matches there. */
  lemma CatOneBlocked(k: CharClass, b: Regex, s: string, j: nat)
    requires j <= |s| && (j == |s| || !InClass(k, s[j]))
    ensures Ends(Cat(One(k), b), s, j) == []
  {
    CatOne(k, b, s, j);
  }

  lemma CatPlusBlocked(k: CharClass, b: Regex, s: string, j: nat)
    requires j <= |s| && (j == |s| || !InClass(k, s[j]))
    ensures Ends(Cat(Plus(k), b), s, j) == []
  {
    assert Ends(Plus(k), s, j) == [];
  }

  /** Skipping characters of the class does not move the end of the run. */
  lemma {:induction false} RunEndSkip(k: CharClass, s: string, i: nat, j: nat)
    requires i <= j <= |s|
    requires forall idx :: i <= idx < j ==> InClass(k, s[idx])
    ensures RunEnd(k, s, i) == RunEnd(k, s, j)
    decreases j - i
  {
    if i < j {
      assert RunEnd(k, s, i) == RunEnd(k, s, i + 1);
      RunEndSkip(k, s, i + 1, j);
    }
  }

  /** The last index in `[lo, hi)` holding `x`, if any. */
  function LastIndexOf(x: char, s: string, lo: nat, hi: nat): (l: Option<nat>)
    requires lo <= hi <= |s|
    ensures l.Some? ==> lo <= l.value < hi && s[l.value] == x
    ensures l.Some? ==> forall j :: l.value < j < hi ==> s[j] != x
    ensures l.None? ==> forall j :: lo <= j < hi ==> s[j] != x
    decreases hi - lo
  {
    if lo == hi then None else if s[hi - 1] == x then Some(hi - 1) else LastIndexOf(x, s, lo, hi - 1)
  }

  /** The last occurrence is unique. */
  lemma LastIndexOfIs(x: char, s: string, lo: nat, hi: nat, l: nat)
    requires lo <= l < hi <= |s| && s[l] == x
    requires forall j :: l < j < hi ==> s[j] != x
    ensures LastIndexOf(x, s, lo, hi) == Some(l)
  {
  }

  function Succ(l: Option<nat>): Option<nat> {
    match l
    case None => None
    case Some(v) => Some(v + 1)
  }

  lemma {:induction false} DownThenChar(x: char, s: string, m: nat, lo: nat)
    requires lo <= m < |s|
    ensures Head(CatEnds(One(Exactly(x)), s, Down(m, lo))) == Succ(LastIndexOf(x, s, lo, m + 1))
    decreases m - lo
  {
    var ks := Down(m, lo);
    if m == lo {
      assert ks == [m];
      assert CatEnds(One(Exactly(x)), s, ks) == Ends(One(Exactly(x)), s, m) + CatEnds(One(Exactly(x)), s, []);
    } else {
      assert ks == [m] + Down(m - 1, lo);
      DownThenChar(x, s, m - 1, lo);
    }
  }

  /** A greedy run of `k` followed by a character `x` of the same class: the
      match reported ends just after the last `x` of the run. */
  lemma StarThenChar(k: CharClass, x: char, s: string, i: nat)
    requires i <= |s| && InClass(k, x)
    ensures FirstEnd(Cat(Star(k, true), One(Exactly(x))), s, i) ==
              Succ(LastIndexOf(x, s, i, RunEnd(k, s, i)))
  {
    var n := RunEnd(k, s, i);
    var ks := Down(n, i);
    assert Ends(Star(k, true), s, i) == ks;
    assert FirstEnd(Cat(Star(k, true), One(Exactly(x))), s, i) == Head(CatEnds(One(Exactly(x)), s, ks));
    if n < |s| {
      DownThenChar(x, s, n, i);
      assert s[n] != x;
      assert LastIndexOf(x, s, i, n + 1) == LastIndexOf(x, s, i, n);
    } else if n == i {
      assert ks == [n];
      assert CatEnds(One(Exactly(x)), s, ks) == Ends(One(Exactly(x)), s, n) + CatEnds(One(Exactly(x)), s, []);
    } else {
      assert ks == [n] + Down(n - 1, i);
      DownThenChar(x, s, n - 1, i);
    }
  }

  /** A lazy run of `k` followed by a character `x` outside the class: the
      match reported ends just after the first character the run stops at,
      if that is `x`. */
  lemma LazyStarThenChar(k: CharClass, x: char, s: string, i: nat)
    requires i <= |s| && !InClass(k, x)
    ensures FirstEnd(Cat(Star(k, false), One(Exactly(x))), s, i) ==
              var n := RunEnd(k, s, i); if n < |s| && s[n] == x then Some(n + 1) else None
  {
    StarThen(k, false, One(Exactly(x)), s, i);
  }

  /** `x k* x` at `j`, for a character `x` of class `k`: the match ends just
      after the last `x` of the run that follows the first. */
  lemma CharStarChar(k: CharClass, x: char, s: string, j: nat)
    requires j <= |s| && InClass(k, x)
    ensures FirstEnd(Cat(One(Exactly(x)), Cat(Star(k, true), One(Exactly(x)))), s, j) ==
              if j < |s| && s[j] == x then Succ(LastIndexOf(x, s, j + 1, RunEnd(k, s, j + 1))) else None
  {
    CatOne(Exactly(x), Cat(Star(k, true), One(Exactly(x))), s, j);
    if j < |s| && s[j] == x {
      StarThenChar(k, x, s, j + 1);
    }
  }

  /** Inside the run of `k` that starts at `lo` and ends at `a`, `x k* x`
      matches at `j` through the last `x` of the run after `j`. */
  lemma CharStarCharInRun(k: CharClass, x: char, s: string, lo: nat, j: nat)
    requires lo <= |s| && lo <= j <= RunEnd(k, s, lo) && InClass(k, x)
    ensures FirstEnd(Cat(One(Exactly(x)), Cat(Star(k, true), One(Exactly(x)))), s, j) ==
              var a := RunEnd(k, s, lo);
              if j < a && s[j] == x then Succ(LastIndexOf(x, s, j + 1, a)) else None
  {
    CharStarChar(k, x, s, j);
    if j < RunEnd(k, s, lo) && s[j] == x {
      RunEndSkip(k, s, lo, j + 1);
    }
  }

  /** `k* x k* x` at `lo`, for a character `x` of class `k`: the run must hold
      two `x`, and the match ends just after its last one. */
  lemma StarCharStarChar(k: CharClass, x: char, s: string, lo: nat)
    requires lo <= |s| && InClass(k, x)
    ensures FirstEnd(Cat(Star(k, true), Cat(One(Exactly(x)), Cat(Star(k, true), One(Exactly(x))))), s, lo) ==
              var a := RunEnd(k, s, lo);
              match LastIndexOf(x, s, lo, a)
              case None => None
              case Some(last) => if LastIndexOf(x, s, lo, last).Some? then Some(last + 1) else None
  {
    var a := RunEnd(k, s, lo);
    match LastIndexOf(x, s, lo, a)
    case None =>
      TwoCharsMissing(k, x, s, lo);
    case Some(last) =>
      match LastIndexOf(x, s, lo, last)
      case None =>
        TwoCharsMissing(k, x, s, lo);
      case Some(prev) =>
        TwoCharsFound(k, x, s, lo, prev, last);
  }

  /** `k* x k* x` does not match at `lo` when the run holds fewer than two `x`. */
  lemma TwoCharsMissing(k: CharClass, x: char, s: string, lo: nat)
    requires lo <= |s| && InClass(k, x)
    requires var a := RunEnd(k, s, lo);
             LastIndexOf(x, s, lo, a).None? || LastIndexOf(x, s, lo, LastIndexOf(x, s, lo, a).value).None?
    ensures FirstEnd(Cat(Star(k, true), Cat(One(Exactly(x)), Cat(Star(k, true), One(Exactly(x))))), s, lo) == None
  {
    var second := Cat(One(Exactly(x)), Cat(Star(k, true), One(Exactly(x))));
    var ks := Down(RunEnd(k, s, lo), lo);
    assert Ends(Cat(Star(k, true), second), s, lo) == CatEnds(second, s, ks);
    forall j | j in ks
      ensures Ends(second, s, j) == []
    {
      CharStarCharInRun(k, x, s, lo, j);
    }
    CatEndsNone(second, s, ks);
  }

  /** With `prev` and `last` the last two `x` of the run, `k* x k* x` matches
      at `lo` through `last`. */
  lemma TwoCharsFound(k: CharClass, x: char, s: string, lo: nat, prev: nat, last: nat)
    requires lo <= |s| && InClass(k, x)
    requires LastIndexOf(x, s, lo, RunEnd(k, s, lo)) == Some(last)
    requires LastIndexOf(x, s, lo, last) == Some(prev)
    ensures FirstEnd(Cat(Star(k, true), Cat(One(Exactly(x)), Cat(Star(k, true), One(Exactly(x))))), s, lo) == Some(last + 1)
  {
    var second := Cat(One(Exactly(x)), Cat(Star(k, true), One(Exactly(x))));
    var a := RunEnd(k, s, lo);
    assert Ends(Cat(Star(k, true), second), s, lo) == CatEnds(second, s, Down(a, lo));
    SecondCharAt(k, x, s, lo, prev, last);
    SecondCharAfter(k, x, s, lo, prev, last);
    CatEndsDownFirst(second, s, a, lo, prev);
  }

  /** From the next-to-last `x` of the run, `x k* x` reaches the last. */
  lemma SecondCharAt(k: CharClass, x: char, s: string, lo: nat, prev: nat, last: nat)
    requires lo <= |s| && InClass(k, x)
    requires LastIndexOf(x, s, lo, RunEnd(k, s, lo)) == Some(last)
    requires LastIndexOf(x, s, lo, last) == Some(prev)
    ensures FirstEnd(Cat(One(Exactly(x)), Cat(Star(k, true), One(Exactly(x)))), s, prev) == Some(last + 1)
  {
    LastIndexOfIs(x, s, prev + 1, RunEnd(k, s, lo), last);
    CharStarCharInRun(k, x, s, lo, prev);
  }

  /** After the next-to-last `x` of the run, `x k* x` matches nowhere in it. */
  lemma SecondCharAfter(k: CharClass, x: char, s: string, lo: nat, prev: nat, last: nat)
    requires lo <= |s| && InClass(k, x)
    requires LastIndexOf(x, s, lo, RunEnd(k, s, lo)) == Some(last)
    requires LastIndexOf(x, s, lo, last) == Some(prev)
    ensures forall j :: prev < j <= RunEnd(k, s, lo) ==>
              Ends(Cat(One(Exactly(x)), Cat(Star(k, true), One(Exactly(x)))), s, j) == []
  {
    forall j | prev < j <= RunEnd(k, s, lo)
      ensures Ends(Cat(One(Exactly(x)), Cat(Star(k, true), One(Exactly(x)))), s, j) == []
    {
      CharStarCharInRun(k, x, s, lo, j);
    }
  }

  // ---------------------------------------------------------------------
  // The engine against a declarative reading of the patterns

  /** `s[i..e]` is a match of `r`, by the textbook meaning of each operator,
      with no regard to the order in which the engine tries them. */
  ghost predicate Matches(r: Regex, s: string, i: nat, e: nat)
    requires i <= |s|
    decreases r
  {
    match r
    case One(k) => i < |s| && InClass(k, s[i]) && e == i + 1
    case Word(w, caseless) => Spells(s, i, w, caseless) && e == i + |w|
    case Star(k, _) => i <= e <= |s| && forall j :: i <= j < e ==> InClass(k, s[j])
    case Plus(k) => i < e <= |s| && forall j :: i <= j < e ==> InClass(k, s[j])
    case WordBoundary => e == i && AtWordBoundary(s, i)
    case EndOfText => e == i && AtEndOfText(s, i)
    case Cat(a, b) => exists m :: i <= m <= |s| && Matches(a, s, i, m) && Matches(b, s, m, e)
    case Alt(a, b) => Matches(a, s, i, e) || Matches(b, s, i, e)
  }

  lemma InDown(hi: nat, lo: nat, e: nat)
    requires lo <= hi
    ensures e in Down(hi, lo) <==> lo <= e <= hi
  {
    if lo <= e <= hi {
      assert Down(hi, lo)[hi - e] == e;
    }
  }

  lemma InUp(lo: nat, hi: nat, e: nat)
    requires lo <= hi
    ensures e in Up(lo, hi) <==> lo <= e <= hi
  {
    if lo <= e <= hi {
      assert Up(lo, hi)[e - lo] == e;
    }
  }

  /** A run of class `k` from `i` reaches `e` exactly when `e` is at most the
      end of the longest run. */
  lemma RunReaches(k: CharClass, s: string, i: nat, e: nat)
    requires i <= e <= |s|
    ensures (forall j :: i <= j < e ==> InClass(k, s[j])) <==> e <= RunEnd(k, s, i)
  {
  }

  /** An end of a concatenation is an end of `b` after one of the positions. */
  lemma {:induction false} InCatEnds(b: Regex, s: string, ks: seq<nat>, e: nat)
    requires forall k :: k in ks ==> k <= |s|
    ensures e in CatEnds(b, s, ks) <==> exists k :: k in ks && e in Ends(b, s, k)
    decreases |ks|
  {
    if ks != [] {
      assert ks[0] in ks;
      assert forall k :: k in ks[1..] ==> k in ks;
      InCatEnds(b, s, ks[1..], e);
      assert forall k :: k in ks <==> k == ks[0] || k in ks[1..];
    }
  }

  /** The engine tries every match and only matches: `e` is among the ends
      it lists at `i` exactly when `s[i..e]` matches `r`. */
  lemma {:induction false} EndsMatches(r: Regex, s: string, i: nat, e: nat)
    requires i <= |s|
    ensures e in Ends(r, s, i) <==> Matches(r, s, i, e)
    decreases r
  {
    match r
    case One(k) =>
    case Word(w, caseless) =>
    case Star(k, greedy) =>
      var n := RunEnd(k, s, i);
      InDown(n, i, e);
      InUp(i, n, e);
      if i <= e <= |s| {
        RunReaches(k, s, i, e);
      }
    case Plus(k) =>
      var n := RunEnd(k, s, i);
      if n > i {
        InDown(n, i + 1, e);
      }
      if i < e <= |s| {
        RunReaches(k, s, i, e);
      }
    case WordBoundary =>
    case EndOfText =>
    case Cat(a, b) =>
      InCatEnds(b, s, Ends(a, s, i), e);
      forall m | i <= m <= |s|
        ensures (m in Ends(a, s, i) <==> Matches(a, s, i, m)) && (e in Ends(b, s, m) <==> Matches(b, s, m, e))
      {
        EndsMatches(a, s, i, m);
        EndsMatches(b, s, m, e);
      }
    case Alt(a, b) =>
      EndsMatches(a, s, i, e);
      EndsMatches(b, s, i, e);
  }

  /** The engine reports a match at `i` exactly when there is one, and what
      it reports is one. */
  lemma FirstEndMatches(r: Regex, s: string, i: nat)
    requires i <= |s|
    ensures FirstEnd(r, s, i).Some? <==> exists e :: Matches(r, s, i, e)
    ensures FirstEnd(r, s, i).Some? ==> Matches(r, s, i, FirstEnd(r, s, i).value)
  {
    var ends := Ends(r, s, i);
    if ends != [] {
      assert ends[0] in ends;
      EndsMatches(r, s, i, ends[0]);
    } else {
      forall e
        ensures !Matches(r, s, i, e)
      {
        EndsMatches(r, s, i, e);
      }
    }
  }

  /** `re.search` finds a match exactly when one starts at or after `from`,
      and the one it finds starts leftmost. */
  lemma SearchMatches(r: Regex, s: string, from: nat)
    requires from <= |s|
    ensures Search(r, s, from).Some? ==>
              Matches(r, s, Search(r, s, from).value.start, Search(r, s, from).value.end)
    ensures Search(r, s, from).Some? ==>
              forall j, e :: from <= j < Search(r, s, from).value.start ==> !Matches(r, s, j, e)
    ensures Search(r, s, from).None? <==>
              forall j, e :: from <= j <= |s| ==> !Matches(r, s, j, e)
  {
    match Search(r, s, from)
    case Some(m) =>
      FirstEndMatches(r, s, m.start);
      forall j, e | from <= j < m.start
        ensures !Matches(r, s, j, e)
      {
        FirstEndMatches(r, s, j);
      }
    case None =>
      forall j, e | from <= j <= |s|
        ensures !Matches(r, s, j, e)
      {
        FirstEndMatches(r, s, j);
      }
  }

  /** `\b r \b` */
  function Bounded(r: Regex): Regex {
    Cat(WordBoundary, Cat(r, WordBoundary))
  }

  /** `w\s*x`: two words with any whitespace, or none, between them. */
  function Spaced(w: string, x: string): Regex {
    Cat(Word(w, false), Cat(Star(Whitespace, true), Word(x, false)))
  }

  /** A match of `a` then `b` splits where `a` stops. */
  lemma CatSplit(a: Regex, b: Regex, s: string, i: nat, e: nat) returns (m: nat)
    requires i <= |s| && Matches(Cat(a, b), s, i, e)
    ensures i <= m <= |s| && Matches(a, s, i, m) && Matches(b, s, m, e)
  {
    m :| i <= m <= |s| && Matches(a, s, i, m) && Matches(b, s, m, e);
  }

  lemma CatJoin(a: Regex, b: Regex, s: string, i: nat, m: nat, e: nat)
    requires i <= m <= |s| && Matches(a, s, i, m) && Matches(b, s, m, e)
    ensures Matches(Cat(a, b), s, i, e)
  {
  }

  /** Every match lies inside the text, after its start. */
  lemma MatchesInside(r: Regex, s: string, i: nat, e: nat)
    requires i <= |s| && Matches(r, s, i, e)
    ensures i <= e <= |s|
  {
    EndsMatches(r, s, i, e);
  }

  /** `\b r \b` matches `s[i..e]` when `r` does and both ends are at a word
      boundary. */
  lemma BoundedMatches(r: Regex, s: string, i: nat, e: nat)
    requires i <= |s|
    ensures Matches(Bounded(r), s, i, e) <==>
              e <= |s| && AtWordBoundary(s, i) && Matches(r, s, i, e) && AtWordBoundary(s, e)
  {
    if Matches(Bounded(r), s, i, e) {
      var m := CatSplit(WordBoundary, Cat(r, WordBoundary), s, i, e);
      var n := CatSplit(r, WordBoundary, s, m, e);
    }
    if e <= |s| && AtWordBoundary(s, i) && Matches(r, s, i, e) && AtWordBoundary(s, e) {
      MatchesInside(r, s, i, e);
      CatJoin(r, WordBoundary, s, i, e, e);
      CatJoin(WordBoundary, Cat(r, WordBoundary), s, i, i, e);
    }
  }

  /** `w\s*x` matches `s[i..e]` when `s[i..e]` is `w`, whitespace, then `x`. */
  lemma SpacedMatches(w: string, x: string, s: string, i: nat, e: nat)
    requires i <= |s|
    ensures Matches(Spaced(w, x), s, i, e) <==>
              i + |w| + |x| <= e <= |s| && Spells(s, i, w, false)
              && AllSpace(s[i + |w|..e - |x|]) && Spells(s, e - |x|, x, false)
  {
    var blanks := Star(Whitespace, true);
    if Matches(Spaced(w, x), s, i, e) {
      var m := CatSplit(Word(w, false), Cat(blanks, Word(x, false)), s, i, e);
      var n := CatSplit(blanks, Word(x, false), s, m, e);
      forall j | 0 <= j < |s[m..n]|
        ensures IsSpace(s[m..n][j])
      {
        assert s[m..n][j] == s[m + j];
      }
    }
    if i + |w| + |x| <= e <= |s| && Spells(s, i, w, false)
       && AllSpace(s[i + |w|..e - |x|]) && Spells(s, e - |x|, x, false) {
      var m := i + |w|;
      var n := e - |x|;
      forall j | m <= j < n
        ensures InClass(Whitespace, s[j])
      {
        assert s[m..n][j - m] == s[j];
      }
      CatJoin(blanks, Word(x, false), s, m, n, e);
      CatJoin(Word(w, false), Cat(blanks, Word(x, false)), s, i, m, e);
    }
  }

  /** `(w0|w1|...)` matches `s[i..e]` when `s[i..e]` is one of the words. */
  lemma {:induction false} AnyOfMatches(ws: seq<string>, s: string, i: nat, e: nat)
    requires ws != [] && i <= |s|
    ensures Matches(AnyOf(ws), s, i, e) <==>
              exists k :: 0 <= k < |ws| && Spells(s, i, ws[k], false) && e == i + |ws[k]|
    decreases |ws|
  {
    if |ws| > 1 {
      AnyOfMatches(ws[1..], s, i, e);
      if exists k :: 0 <= k < |ws[1..]| && Spells(s, i, ws[1..][k], false) && e == i + |ws[1..][k]| {
        var k :| 0 <= k < |ws[1..]| && Spells(s, i, ws[1..][k], false) && e == i + |ws[1..][k]|;
        assert ws[1..][k] == ws[k + 1];
      }
      if exists k :: 0 <= k < |ws| && Spells(s, i, ws[k], false) && e == i + |ws[k]| {
        var k :| 0 <= k < |ws| && Spells(s, i, ws[k], false) && e == i + |ws[k]|;
        if k > 0 {
          assert ws[1..][k - 1] == ws[k];
        }
      }
    } else {
      if exists k :: 0 <= k < |ws| && Spells(s, i, ws[k], false) && e == i + |ws[k]| {
        var k :| 0 <= k < |ws| && Spells(s, i, ws[k], false) && e == i + |ws[k]|;
        assert k == 0;
      }
    }
  }

  // ---------------------------------------------------------------------
  // re.sub

  /** `re.sub` never lengthens the text when the replacement is no longer
      than the shortest match. */
  lemma {:induction false} SubShrinks(r: Regex, repl: string, s: string, from: nat)
    requires from <= |s| && MinLen(r) > 0 && |repl| <= MinLen(r)
    ensures |SubFrom(r, repl, s, from)| <= |s| - from
    decreases |s| - from
  {
    SearchNonEmpty(r, s, from);
    match Search(r, s, from)
    case None =>
    case Some(m) =>
      FirstEndAtLeast(r, s, m.start);
      SubShrinks(r, repl, s, m.end);
  }

  /** Where nothing matches, `re.search` moves on by one character. */
  lemma SearchSkip(r: Regex, s: string, from: nat)
    requires from < |s| && FirstEnd(r, s, from).None?
    ensures Search(r, s, from) == Search(r, s, from + 1)
  {
  }

  /** Where nothing matches, `re.sub` copies the character and moves on. */
  lemma SubFromSkip(r: Regex, repl: string, s: string, from: nat)
    requires from < |s| && MinLen(r) > 0 && FirstEnd(r, s, from).None?
    ensures SubFrom(r, repl, s, from) == [s[from]] + SubFrom(r, repl, s, from + 1)
  {
    SearchSkip(r, s, from);
    if Search(r, s, from + 1).None? {
      SkipToRest(r, repl, s, from);
    } else {
      SkipToNext(r, repl, s, from, Search(r, s, from + 1).value);
    }
  }

  lemma SkipToRest(r: Regex, repl: string, s: string, from: nat)
    requires from < |s| && MinLen(r) > 0
    requires Search(r, s, from).None? && Search(r, s, from + 1).None?
    ensures SubFrom(r, repl, s, from) == [s[from]] + SubFrom(r, repl, s, from + 1)
  {
    assert s[from..] == [s[from]] + s[from + 1..];
  }

  lemma SkipToNext(r: Regex, repl: string, s: string, from: nat, m: Match)
    requires from < |s| && MinLen(r) > 0
    requires Search(r, s, from) == Some(m) && Search(r, s, from + 1) == Some(m)
    ensures SubFrom(r, repl, s, from) == [s[from]] + SubFrom(r, repl, s, from + 1)
  {
    SubFromNext(r, repl, s, from, m);
    SubFromNext(r, repl, s, from + 1, m);
    ConsSlice(s, from, m.start, repl, SubFrom(r, repl, s, m.end));
  }

  /** `re.sub` keeps the text before the next match, writes `repl` in its
      place and resumes after it. */
  lemma SubFromNext(r: Regex, repl: string, s: string, from: nat, m: Match)
    requires from <= |s| && MinLen(r) > 0 && Search(r, s, from) == Some(m)
    ensures from <= m.start < m.end <= |s|
    ensures SubFrom(r, repl, s, from) == s[from..m.start] + repl + SubFrom(r, repl, s, m.end)
  {
    SearchNonEmpty(r, s, from);
  }

  lemma ConsSlice(s: string, i: nat, j: nat, mid: string, tail: string)
    requires i < j <= |s|
    ensures s[i..j] + mid + tail == [s[i]] + (s[i + 1..j] + mid + tail)
  {
    assert s[i..j] == [s[i]] + s[i + 1..j];
  }

  /** Where a match is reported, `re.sub` writes the replacement and resumes
      after the match. */
  lemma SubFromAt(r: Regex, repl: string, s: string, from: nat, e: nat)
    requires from <= |s| && MinLen(r) > 0 && FirstEnd(r, s, from) == Some(e)
    ensures from < e <= |s|
    ensures SubFrom(r, repl, s, from) == repl + SubFrom(r, repl, s, e)
  {
    assert Search(r, s, from) == Some(Match(from, e));
    SubFromNext(r, repl, s, from, Match(from, e));
    EmptySlice(s, from, repl, SubFrom(r, repl, s, e));
  }

  lemma EmptySlice(s: string, i: nat, mid: string, tail: string)
    requires i <= |s|
    ensures s[i..i] + mid + tail == mid + tail
  {
    assert s[i..i] == [];
  }

  /** With no match at the last character nor at the end, `re.sub` keeps
      the last character. */
  lemma SubFromLast(r: Regex, repl: string, s: string)
    requires |s| > 0 && MinLen(r) > 0
    requires FirstEnd(r, s, |s| - 1).None? && FirstEnd(r, s, |s|).None?
    ensures SubFrom(r, repl, s, |s| - 1) == [s[|s| - 1]]
  {
  }

  /** `r` matches nowhere in `s`. */
  ghost predicate NoMatch(r: Regex, s: string) {
    forall j, e :: 0 <= j <= |s| ==> !Matches(r, s, j, e)
  }

  /** A pattern with no match anywhere leaves the text unchanged. */
  lemma SubNoMatch(r: Regex, repl: string, s: string)
    requires MinLen(r) > 0 && NoMatch(r, s)
    ensures Sub(r, repl, s) == s
  {
    SearchMatches(r, s, 0);
    assert s[0..] == s;
  }

  /** No two consecutive spaces. */
  predicate NoDoubleSpace(t: string) {
    forall k :: 0 < k < |t| ==> !(t[k - 1] == ' ' && t[k] == ' ')
  }

  predicate NoSpace(t: string) {
    forall k :: 0 <= k < |t| ==> t[k] != ' '
  }

  lemma NoDoubleSpaceSlice(t: string, a: nat, b: nat)
    requires a <= b <= |t| && NoDoubleSpace(t)
    ensures NoDoubleSpace(t[a..b])
  {
    var u := t[a..b];
    forall k | 0 < k < |u|
      ensures !(u[k - 1] == ' ' && u[k] == ' ')
    {
      assert u[k - 1] == t[a + k - 1] && u[k] == t[a + k];
    }
  }

  /** Gluing two texts without double spaces keeps that property unless a
      space meets a space at the seam. */
  lemma NoDoubleSpaceConcat(x: string, y: string)
    requires NoDoubleSpace(x) && NoDoubleSpace(y)
    requires x == [] || y == [] || x[|x| - 1] != ' ' || y[0] != ' '
    ensures NoDoubleSpace(x + y)
  {
    var t := x + y;
    forall k | 0 < k < |t|
      ensures !(t[k - 1] == ' ' && t[k] == ' ')
    {
      if k < |x| {
        assert t[k - 1] == x[k - 1] && t[k] == x[k];
      } else if k == |x| {
        assert t[k - 1] == x[|x| - 1] && t[k] == y[0];
      } else {
        assert t[k - 1] == y[k - 1 - |x|] && t[k] == y[k - |x|];
      }
    }
  }

  /** A substitution whose replacement is non-empty and holds no space keeps
      a text free of double spaces. */
  lemma {:induction false} SubKeepsNoDoubleSpace(r: Regex, repl: string, s: string, from: nat)
    requires from <= |s| && MinLen(r) > 0
    requires repl != [] && NoSpace(repl) && NoDoubleSpace(s)
    ensures NoDoubleSpace(SubFrom(r, repl, s, from))
    decreases |s| - from
  {
    SearchNonEmpty(r, s, from);
    match Search(r, s, from)
    case None =>
      NoDoubleSpaceSlice(s, from, |s|);
      assert s[from..] == s[from..|s|];
    case Some(m) =>
      SubKeepsNoDoubleSpace(r, repl, s, m.end);
      NoDoubleSpaceSlice(s, from, m.start);
      assert NoDoubleSpace(repl);
      NoDoubleSpaceConcat(s[from..m.start], repl);
      NoDoubleSpaceConcat(s[from..m.start] + repl, SubFrom(r, repl, s, m.end));
  }
}
