/** `extract_core_content`: cut a book's text down to its body. The first
    start pattern that occurs anywhere in the lower-cased text fixes where
    the body begins (its leftmost match); the first end pattern that occurs
    fixes where it stops (the first blank line after its LAST match, or the
    end of the text). The slice of the original text between the two,
    stripped, is the result. */
module Extract {
  import opened PyText
  import opened Regex
  import opened RegexFacts

  /** `\s*` */
  const Blanks := Star(Whitespace, true)


  /** `\b(introduction|prologue|preface|chapter\s*1)\b` */
  const OpeningWord :=
    Bounded(Alt(Word("introduction", false),
                Alt(Word("prologue", false), Alt(Word("preface", false), Spaced("chapter", "1")))))
  /** `\bchapter\s*one\b` */
  const ChapterOne := Bounded(Spaced("chapter", "one"))
  /** `\bpart\s*i\b` */
  const PartOne := Bounded(Spaced("part", "i"))
  /** `\bsection\s*1\b` */
  const SectionOne := Bounded(Spaced("section", "1"))

  const StartPatterns := [OpeningWord, ChapterOne, PartOne, SectionOne]

  const ClosingWords := ["conclusion", "epilogue", "afterword", "appendix", "bibliography", "references", "index"]
  /** `\b(conclusion|epilogue|afterword|appendix|bibliography|references|index)\b` */
  const ClosingWord := Bounded(AnyOf(ClosingWords))
  /** The part of `\bchapter\s*\d+\s*$` after the word "chapter". */
  const ChapterNumberAtEnd := Cat(Blanks, Cat(Plus(Digit), Cat(Blanks, EndOfText)))
  /** `\bchapter\s*\d+\s*$`: a numbered chapter heading that ends the text. */
  const TrailingChapter := Cat(WordBoundary, Cat(Word("chapter", false), ChapterNumberAtEnd))
  /** `\bfinal\s*chapter\b` */
  const FinalChapter := Bounded(Spaced("final", "chapter"))

  const EndPatterns := [ClosingWord, TrailingChapter, FinalChapter]

  /** Every pattern of `ps` needs at least one character, as `re.finditer`
      needs here to move forward after each match. */
  predicate AllNonEmpty(ps: seq<Regex>) {
    forall j :: 0 <= j < |ps| ==> MinLen(ps[j]) > 0
  }

  lemma {:induction false} MinLenAnyOf(ws: seq<string>)
    requires ws != [] && forall j :: 0 <= j < |ws| ==> ws[j] != []
    ensures MinLen(AnyOf(ws)) > 0
    decreases |ws|
  {
    if |ws| > 1 {
      MinLenAnyOf(ws[1..]);
    }
  }

  lemma ClosingWordWidth()
    ensures MinLen(ClosingWord) > 0
  {
    MinLenAnyOf(ClosingWords);
  }

  lemma TrailingChapterWidth()
    ensures MinLen(TrailingChapter) == 8
  {
  }

  lemma FinalChapterWidth()
    ensures MinLen(FinalChapter) == 12
  {
  }

  lemma EndPatternWidths()
    ensures AllNonEmpty(EndPatterns)
  {
    ClosingWordWidth();
    TrailingChapterWidth();
    FinalChapterWidth();
  }

  /** Where the body begins: the leftmost match of the first pattern of `ps`
      that occurs in `lower`, or 0 when none does. */
  function StartPos(ps: seq<Regex>, lower: string): (p: nat)
    ensures p <= |lower|
    ensures p == 0 || exists i :: 0 <= i < |ps| && FirstEnd(ps[i], lower, p).Some?
  {
    if ps == [] then 0
    else match Search(ps[0], lower, 0)
      case Some(m) => m.start
      case None =>
        var p := StartPos(ps[1..], lower);
        assert p == 0 || exists i :: 1 <= i < |ps| && FirstEnd(ps[i], lower, p).Some? by {
          if p != 0 {
            var i :| 0 <= i < |ps[1..]| && FirstEnd(ps[1..][i], lower, p).Some?;
            assert ps[1..][i] == ps[i + 1];
          }
        }
        p
  }

  /** `lower.find("\n\n", from)`, with -1 read as the end of the text: the
      first blank line at or after `from`, or the end. */
  function SectionEnd(lower: string, from: nat): (e: nat)
    requires from <= |lower|
    ensures from <= e <= |lower|
    ensures e < |lower| ==> OccursAt(lower, "\n\n", e)
    ensures forall k :: from <= k < e ==> !OccursAt(lower, "\n\n", k)
  {
    var f := Find(lower, "\n\n", from);
    if f == -1 then |lower| else f
  }

  /** Where the body stops: the section end after the last match of the
      first pattern of `ps` that occurs in `lower`, or the end of the text. */
  function EndPos(ps: seq<Regex>, lower: string): (e: nat)
    requires AllNonEmpty(ps)
    ensures e <= |lower|
    ensures e == |lower| || OccursAt(lower, "\n\n", e)
  {
    if ps == [] then |lower|
    else
      var ms := FindAll(ps[0], lower, 0);
      if ms == [] then EndPos(ps[1..], lower) else SectionEnd(lower, ms[|ms| - 1].end)
  }

  /** `start_pos` for the lower-cased text `lower`. */
  function BodyStart(lower: string): (p: nat)
    ensures p <= |lower|
  {
    StartPos(StartPatterns, lower)
  }

  /** `end_pos` for the lower-cased text `lower`. */
  function BodyEnd(lower: string): (e: nat)
    ensures e <= |lower|
  {
    EndPatternWidths();
    EndPos(EndPatterns, lower)
  }

  /** What `extract_core_content(text)` returns. */
  function CoreContent(text: string): (r: string)
    ensures Trimmed(r) && |r| <= |text|
  {
    var lower := Lower(text);
    Strip(Slice(text, BodyStart(lower), BodyEnd(lower)))
  }

  /** Lines 28-34: try the start patterns in order; the first one that
      occurs gives the start of its leftmost match. */
  method StartPosition(lower: string) returns (startPos: nat)
    ensures startPos == BodyStart(lower)
  {
    startPos := 0;
    var i := 0;
    while i < |StartPatterns|
      invariant i <= |StartPatterns|
      invariant StartPos(StartPatterns[i..], lower) == StartPos(StartPatterns, lower)
      invariant startPos == 0
    {
      var found := Search(StartPatterns[i], lower, 0);
      if found.Some? {
        startPos := found.value.start;
        break;
      }
      i := i + 1;
    }
  }

  /** Lines 37-47: try the end patterns in order; the first one that occurs
      gives the first blank line after its last match, or the end. */
  method EndPosition(lower: string) returns (endPos: nat)
    ensures endPos == BodyEnd(lower)
  {
    EndPatternWidths();
    endPos := ScanEndPatterns(EndPatterns, lower);
  }

  /** The loop of lines 38-47 over the patterns `ps`. */
  method ScanEndPatterns(ps: seq<Regex>, lower: string) returns (endPos: nat)
    requires AllNonEmpty(ps)
    ensures endPos == EndPos(ps, lower)
  {
    endPos := |lower|;
    var j := 0;
    while j < |ps|
      invariant j <= |ps|
      invariant EndPos(ps[j..], lower) == EndPos(ps, lower)
      invariant endPos == |lower|
    {
      var matches := FindAll(ps[j], lower, 0);
      if matches != [] {
        var lastMatch := matches[|matches| - 1];
        var sectionEnd := Find(lower, "\n\n", lastMatch.end);
        if sectionEnd == -1 {
          sectionEnd := |lower|;
        }
        endPos := sectionEnd;
        break;
      }
      j := j + 1;
    }
  }

  /** Lines 6-49: `extract_core_content(text)`. The positions are found in
      the lower-cased copy, which has the same length, and cut from the
      original text. */
  method ExtractCoreContent(text: string) returns (core: string)
    ensures core == CoreContent(text)
  {
    var lower := Lower(text);
    var startPos := StartPosition(lower);
    var endPos := EndPosition(lower);
    core := Strip(Slice(text, startPos, endPos));
  }

  // ---------------------------------------------------------------------
  // Which pattern decides

  /** The first start pattern that occurs decides, whatever the others find,
      and the body begins at its leftmost match. */
  lemma {:induction false} StartPosIs(ps: seq<Regex>, lower: string, i: nat)
    requires i < |ps| && Search(ps[i], lower, 0).Some?
    requires forall j :: 0 <= j < i ==> Search(ps[j], lower, 0).None?
    ensures StartPos(ps, lower) == Search(ps[i], lower, 0).value.start
    decreases i
  {
    if i > 0 {
      assert Search(ps[0], lower, 0).None?;
      StartPosIs(ps[1..], lower, i - 1);
    }
  }

  /** Without any start pattern in the text, the body begins at 0. */
  lemma {:induction false} StartPosNone(ps: seq<Regex>, lower: string)
    requires forall j :: 0 <= j < |ps| ==> Search(ps[j], lower, 0).None?
    ensures StartPos(ps, lower) == 0
    decreases |ps|
  {
    if ps != [] {
      assert Search(ps[0], lower, 0).None?;
      StartPosNone(ps[1..], lower);
    }
  }

  /** In terms of what the patterns mean: when pattern `i` is the first that
      occurs, the body begins where its leftmost occurrence begins. */
  lemma StartPosLeftmost(ps: seq<Regex>, lower: string, i: nat, e: nat, at: nat)
    requires i < |ps| && at <= |lower| && Matches(ps[i], lower, at, e)
    requires forall j :: 0 <= j < i ==> NoMatch(ps[j], lower)
    ensures exists end :: Matches(ps[i], lower, StartPos(ps, lower), end)
    ensures StartPos(ps, lower) <= at
    ensures forall k, end :: 0 <= k < StartPos(ps, lower) ==> !Matches(ps[i], lower, k, end)
  {
    forall j | 0 <= j < i
      ensures Search(ps[j], lower, 0).None?
    {
      SearchMatches(ps[j], lower, 0);
    }
    SearchMatches(ps[i], lower, 0);
    FirstEndMatches(ps[i], lower, at);
    assert exists end :: Matches(ps[i], lower, at, end);
    assert Search(ps[i], lower, 0).Some?;
    StartPosIs(ps, lower, i);
  }

  /** The first end pattern that occurs decides, and the body stops at the
      first blank line after its last match. */
  lemma {:induction false} EndPosIs(ps: seq<Regex>, lower: string, i: nat)
    requires AllNonEmpty(ps) && i < |ps| && FindAll(ps[i], lower, 0) != []
    requires forall j :: 0 <= j < i ==> FindAll(ps[j], lower, 0) == []
    ensures EndPos(ps, lower) ==
              var ms := FindAll(ps[i], lower, 0); SectionEnd(lower, ms[|ms| - 1].end)
    decreases i
  {
    if i > 0 {
      assert FindAll(ps[0], lower, 0) == [];
      assert AllNonEmpty(ps[1..]) by {
        forall j | 0 <= j < |ps[1..]| ensures MinLen(ps[1..][j]) > 0 {
          assert ps[1..][j] == ps[j + 1];
        }
      }
      EndPosIs(ps[1..], lower, i - 1);
    }
  }

  /** Lines 41-46: the end marker itself stays inside the body. The body
      stops at the first blank line after the last match of the deciding
      pattern, so that match lies wholly before the end, and no blank line
      lies between the match and the end. */
  lemma EndMarkerKept(ps: seq<Regex>, lower: string, i: nat)
    requires AllNonEmpty(ps) && i < |ps| && FindAll(ps[i], lower, 0) != []
    requires forall j :: 0 <= j < i ==> FindAll(ps[j], lower, 0) == []
    ensures var ms := FindAll(ps[i], lower, 0);
            var last := ms[|ms| - 1];
            last.start < last.end <= EndPos(ps, lower)
            && forall k :: last.end <= k < EndPos(ps, lower) ==> !OccursAt(lower, "\n\n", k)
  {
    EndPosIs(ps, lower, i);
  }

  /** Without any end pattern in the text, the body runs to the end. */
  lemma {:induction false} EndPosNone(ps: seq<Regex>, lower: string)
    requires AllNonEmpty(ps)
    requires forall j :: 0 <= j < |ps| ==> NoMatch(ps[j], lower)
    ensures EndPos(ps, lower) == |lower|
    decreases |ps|
  {
    if ps != [] {
      SearchMatches(ps[0], lower, 0);
      assert AllNonEmpty(ps[1..]) by {
        forall j | 0 <= j < |ps[1..]| ensures MinLen(ps[1..][j]) > 0 {
          assert ps[1..][j] == ps[j + 1];
        }
      }
      assert forall j :: 0 <= j < |ps[1..]| ==> ps[1..][j] == ps[j + 1];
      EndPosNone(ps[1..], lower);
    }
  }

  // ---------------------------------------------------------------------
  // What the markers are

  /** Line 20: a closing marker is one of the seven closing words standing
      as a whole word. */
  lemma ClosingWordMatches(s: string, i: nat, e: nat)
    requires i <= |s|
    ensures Matches(ClosingWord, s, i, e) <==>
              e <= |s| && AtWordBoundary(s, i) && AtWordBoundary(s, e)
              && exists k :: 0 <= k < |ClosingWords| && Spells(s, i, ClosingWords[k], false)
                             && e == i + |ClosingWords[k]|
  {
    BoundedMatches(AnyOf(ClosingWords), s, i, e);
    AnyOfMatches(ClosingWords, s, i, e);
  }

  /** Line 12: an opening marker is "introduction", "prologue", "preface",
      or "chapter" and the digit 1 with only whitespace between, standing as
      a whole word. */
  lemma OpeningWordMatches(s: string, i: nat, e: nat)
    requires i <= |s|
    ensures Matches(OpeningWord, s, i, e) <==>
              e <= |s| && AtWordBoundary(s, i) && AtWordBoundary(s, e)
              && ((Spells(s, i, "introduction", false) && e == i + 12)
                  || (Spells(s, i, "prologue", false) && e == i + 8)
                  || (Spells(s, i, "preface", false) && e == i + 7)
                  || (i + 8 <= e && Spells(s, i, "chapter", false)
                      && AllSpace(s[i + 7..e - 1]) && s[e - 1] == '1'))
  {
    var chapter1 := Spaced("chapter", "1");
    var rest := Alt(Word("preface", false), chapter1);
    var inner := Alt(Word("introduction", false), Alt(Word("prologue", false), rest));
    assert Matches(inner, s, i, e) <==>
             (Spells(s, i, "introduction", false) && e == i + 12)
             || (Spells(s, i, "prologue", false) && e == i + 8)
             || Matches(rest, s, i, e);
    assert Matches(rest, s, i, e) <==>
             (Spells(s, i, "preface", false) && e == i + 7) || Matches(chapter1, s, i, e);
    SpacedChapterDigit(s, i, e);
    BoundedMatches(inner, s, i, e);
  }

  /** `chapter\s*1`: "chapter", whitespace, then the digit 1. */
  lemma SpacedChapterDigit(s: string, i: nat, e: nat)
    requires i <= |s|
    ensures Matches(Spaced("chapter", "1"), s, i, e) <==>
              i + 8 <= e <= |s| && Spells(s, i, "chapter", false) && AllSpace(s[i + 7..e - 1]) && s[e - 1] == '1'
  {
    SpacedMatches("chapter", "1", s, i, e);
    if i + 8 <= e <= |s| {
      assert "1"[0] == '1';
      assert Spells(s, e - 1, "1", false) <==> s[e - 1] == '1';
    }
  }

  // ---------------------------------------------------------------------
  // The trailing chapter heading

  /** Every match `r` reports, wherever it starts, ends at `e`. */
  predicate ReportsOnly(r: Regex, s: string, e: nat) {
    forall k :: 0 <= k <= |s| ==> FirstEnd(r, s, k) == None || FirstEnd(r, s, k) == Some(e)
  }

  lemma {:induction false} HeadCatEndsFrom(b: Regex, s: string, ks: seq<nat>, e: nat)
    requires forall k :: k in ks ==> k <= |s|
    requires ReportsOnly(b, s, e)
    ensures Head(CatEnds(b, s, ks)) == None || Head(CatEnds(b, s, ks)) == Some(e)
    decreases |ks|
  {
    if ks != [] {
      assert ks[0] in ks;
      assert forall k :: k in ks[1..] ==> k in ks;
      assert FirstEnd(b, s, ks[0]) == None || FirstEnd(b, s, ks[0]) == Some(e);
      HeadCatEndsFrom(b, s, ks[1..], e);
    }
  }

  /** What a concatenation reports is something its back part reports. */
  lemma CatReportsOnly(a: Regex, b: Regex, s: string, e: nat)
    requires ReportsOnly(b, s, e)
    ensures ReportsOnly(Cat(a, b), s, e)
  {
    forall k | 0 <= k <= |s|
      ensures FirstEnd(Cat(a, b), s, k) == None || FirstEnd(Cat(a, b), s, k) == Some(e)
    {
      HeadCatEndsFrom(b, s, Ends(a, s, k), e);
    }
  }

  lemma WordReportsOnly(w: string, tail: Regex, s: string, e: nat)
    requires ReportsOnly(tail, s, e)
    ensures ReportsOnly(Cat(Word(w, false), tail), s, e)
  {
    forall k | 0 <= k <= |s|
      ensures FirstEnd(Cat(Word(w, false), tail), s, k) == None || FirstEnd(Cat(Word(w, false), tail), s, k) == Some(e)
    {
      WordThenFirst(w, false, tail, s, k);
    }
  }

  /** `\s*$`: greedy blanks reach the end of the text or `$` never holds
      after them, so the only end reported is the end of the text. */
  lemma BlanksThenEndOfText(s: string, k: nat)
    requires k <= |s|
    ensures FirstEnd(Cat(Blanks, EndOfText), s, k) ==
              if RunEnd(Whitespace, s, k) == |s| then Some(|s|) else None
  {
    var n := RunEnd(Whitespace, s, k);
    var ks := Down(n, k);
    assert Ends(Cat(Blanks, EndOfText), s, k) == CatEnds(EndOfText, s, ks);
    if n == |s| {
      assert ks == [n] + ks[1..];
    } else {
      forall m | m in ks
        ensures Ends(EndOfText, s, m) == []
      {
        InDown(n, k, m);
      }
      CatEndsNone(EndOfText, s, ks);
    }
  }

  /** Line 21: a match of `\bchapter\s*\d+\s*$` always ends at the very end
      of the text, never before a final newline. */
  lemma TrailingChapterAtEnd(s: string)
    ensures ReportsOnly(TrailingChapter, s, |s|)
  {
    forall k | 0 <= k <= |s|
      ensures FirstEnd(Cat(Blanks, EndOfText), s, k) == None || FirstEnd(Cat(Blanks, EndOfText), s, k) == Some(|s|)
    {
      BlanksThenEndOfText(s, k);
    }
    CatReportsOnly(Plus(Digit), Cat(Blanks, EndOfText), s, |s|);
    CatReportsOnly(Blanks, Cat(Plus(Digit), Cat(Blanks, EndOfText)), s, |s|);
    WordReportsOnly("chapter", ChapterNumberAtEnd, s, |s|);
    CatReportsOnly(WordBoundary, Cat(Word("chapter", false), ChapterNumberAtEnd), s, |s|);
  }

  /** An end pattern whose matches all end at the end of the text, when it
      is the one that decides, leaves the body running to the end. */
  lemma EndPosAtEnd(ps: seq<Regex>, lower: string, i: nat)
    requires AllNonEmpty(ps) && i < |ps| && FindAll(ps[i], lower, 0) != []
    requires forall j :: 0 <= j < i ==> FindAll(ps[j], lower, 0) == []
    requires ReportsOnly(ps[i], lower, |lower|)
    ensures EndPos(ps, lower) == |lower|
  {
    EndPosIs(ps, lower, i);
    var ms := FindAll(ps[i], lower, 0);
    assert FirstEnd(ps[i], lower, ms[|ms| - 1].start) == Some(ms[|ms| - 1].end);
  }

  /** Lines 36-47 with the trailing chapter heading as the end pattern that
      decides (as it is in `EndPatterns` when no closing word occurs): the
      body runs to the end of the text. */
  lemma TrailingChapterDecides(ps: seq<Regex>, lower: string, i: nat)
    requires AllNonEmpty(ps) && i < |ps| && ps[i] == TrailingChapter && FindAll(ps[i], lower, 0) != []
    requires forall j :: 0 <= j < i ==> FindAll(ps[j], lower, 0) == []
    ensures EndPos(ps, lower) == |lower|
  {
    TrailingChapterAtEnd(lower);
    EndPosAtEnd(ps, lower, i);
  }

  // ---------------------------------------------------------------------
  // The result

  lemma SliceOfSlice(t: string, p: nat, q: nat, a: nat, b: nat)
    requires p <= q <= |t| && a <= b <= q - p
    ensures t[p..q][a..b] == t[p + a..p + b]
  {
    assert forall k :: 0 <= k < b - a ==> t[p..q][a..b][k] == t[p + a + k];
  }

  /** `text[p:q].strip()` is a slice of `text` lying between `p` and `q`
      with only whitespace cut off either side, and empty when `q <= p`. */
  lemma StripSliceShape(text: string, p: nat, q: nat)
    requires p <= |text| && q <= |text|
    ensures Trimmed(Strip(Slice(text, p, q)))
    ensures q <= p ==> Strip(Slice(text, p, q)) == []
    ensures p < q ==> exists a, b :: p <= a <= b <= q && Strip(Slice(text, p, q)) == text[a..b]
                                     && AllSpace(text[p..a]) && AllSpace(text[b..q])
  {
    if p < q {
      var u := text[p..q];
      var a, b :| 0 <= a <= b <= |u| && Strip(u) == u[a..b] && AllSpace(u[..a]) && AllSpace(u[b..]);
      SliceOfSlice(text, p, q, a, b);
      SliceOfSlice(text, p, q, 0, a);
      SliceOfSlice(text, p, q, b, q - p);
      assert u[..a] == u[0..a] && u[b..] == u[b..q - p];
    }
  }

  /** The result is a stripped slice of the ORIGINAL text (letter case kept)
      lying between the start and the end position, and empty when the end
      does not come after the start. */
  lemma CoreContentShape(text: string)
    ensures Trimmed(CoreContent(text))
    ensures var p := BodyStart(Lower(text));
            var q := BodyEnd(Lower(text));
            (q <= p ==> CoreContent(text) == [])
            && (p < q ==> exists a, b :: p <= a <= b <= q && CoreContent(text) == text[a..b]
                                         && AllSpace(text[p..a]) && AllSpace(text[b..q]))
  {
    StripSliceShape(text, BodyStart(Lower(text)), BodyEnd(Lower(text)));
  }

  /** Lines 25 and 49: the positions are found in the lower-cased copy and
      applied to the original; since lower-casing keeps every position,
      the result is, letter case aside, exactly the stripped slice of the
      copy that was searched. */
  lemma CoreContentLowered(text: string)
    ensures var lower := Lower(text);
            Lower(CoreContent(text)) == Strip(Slice(lower, BodyStart(lower), BodyEnd(lower)))
  {
    var lower := Lower(text);
    var p := BodyStart(lower);
    var q := BodyEnd(lower);
    StripLower(Slice(text, p, q));
    if p < q {
      LowerSlice(text, p, q);
    }
  }

  /** A text without any start or end marker is only stripped. */
  lemma NoMarkersKeepsAll(text: string)
    requires forall j :: 0 <= j < |StartPatterns| ==> NoMatch(StartPatterns[j], Lower(text))
    requires forall j :: 0 <= j < |EndPatterns| ==> NoMatch(EndPatterns[j], Lower(text))
    ensures CoreContent(text) == Strip(text)
  {
    var lower := Lower(text);
    forall j | 0 <= j < |StartPatterns|
      ensures Search(StartPatterns[j], lower, 0).None?
    {
      SearchMatches(StartPatterns[j], lower, 0);
    }
    StartPosNone(StartPatterns, lower);
    EndPatternWidths();
    EndPosNone(EndPatterns, lower);
    assert text[0..|text|] == text;
  }
}
