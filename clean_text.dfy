/** `clean_text`: six regular-expression substitutions applied in a fixed
    order, then `strip()`. Each substitution is one left-to-right,
    non-overlapping pass of `re.sub` over the output of the previous one. */
module CleanText {
  import opened PyText
  import opened Regex
  import opened RegexFacts

  const Newline := One(Exactly('\n'))
  /** `\s*` */
  const Blanks := Star(Whitespace, true)
  /** `.*?\n`: the rest of the line, through its newline. */
  const RestOfLine := Cat(Star(AnyButNewline, false), Newline)

  /** `\n\s*\d+\s*\n`: a line holding only a page number. */
  const PageNumberLine := Cat(Newline, Cat(Blanks, Cat(Plus(Digit), Cat(Blanks, Newline))))
  /** `\n\s*Page\s*\d+.*?\n` under `re.IGNORECASE`: a "Page N" header or footer. */
  const PageHeaderLine := Cat(Newline, Cat(Blanks, Cat(Word("Page", true), Cat(Blanks, Cat(Plus(Digit), RestOfLine)))))
  /** `\n\s*\n\s*\n`: three or more line breaks with only blanks between. */
  const BlankLines := Cat(Newline, Cat(Blanks, Cat(Newline, Cat(Blanks, Newline))))
  /** ` +`: a run of spaces. */
  const SpaceRun := Plus(Exactly(' '))
  /** `\n\s*©.*?\n`: a copyright line. */
  const CopyrightLine := Cat(Newline, Cat(Blanks, Cat(One(Exactly('©')), RestOfLine)))
  /** `\n\s*www\..*?\n`: a line starting with a web address. */
  const WebsiteLine := Cat(Newline, Cat(Blanks, Cat(Word("www.", false), RestOfLine)))

  /** Each pattern needs at least one character, so every `re.sub` pass
      moves forward. */
  lemma PatternWidths()
    ensures MinLen(PageNumberLine) == 3 && MinLen(PageHeaderLine) == 7 && MinLen(BlankLines) == 3
    ensures MinLen(SpaceRun) == 1 && MinLen(CopyrightLine) == 3 && MinLen(WebsiteLine) == 6
  {
    assert MinLen(Blanks) == 0 && MinLen(Newline) == 1;
    assert MinLen(RestOfLine) == 1;
    assert MinLen(Cat(Blanks, Newline)) == 1;
  }

  /** `clean_text(text)`. */
  function CleanText(text: string): (r: string)
    ensures Trimmed(r)
  {
    PatternWidths();
    var noNumbers := Sub(PageNumberLine, "\n", text);
    var noHeaders := Sub(PageHeaderLine, "\n", noNumbers);
    var fewBlanks := Sub(BlankLines, "\n\n", noHeaders);
    var oneSpace := Sub(SpaceRun, " ", fewBlanks);
    var noCopyright := Sub(CopyrightLine, "\n", oneSpace);
    var noWebsites := Sub(WebsiteLine, "\n", noCopyright);
    Strip(noWebsites)
  }

  // ---------------------------------------------------------------------
  // Which match each pattern reports at a given index

  /** The index just after the next newline at or after `j`, if there is one. */
  function LineEnd(s: string, j: nat): (e: Option<nat>)
    requires j <= |s|
    ensures e.Some? ==> j < e.value <= |s| && s[e.value - 1] == '\n'
    ensures e.Some? ==> forall k :: j <= k < e.value - 1 ==> s[k] != '\n'
    ensures e.None? ==> forall k :: j <= k < |s| ==> s[k] != '\n'
  {
    var n := RunEnd(AnyButNewline, s, j);
    if n < |s| then Some(n + 1) else None
  }

  /** `.*?\n` reaches exactly through the next newline. */
  lemma RestOfLineMatch(s: string, j: nat)
    requires j <= |s|
    ensures FirstEnd(RestOfLine, s, j) == LineEnd(s, j)
  {
    LazyStarThenChar(AnyButNewline, '\n', s, j);
  }

  /** `\s*\n` reaches through the last newline of the blank run. */
  lemma BlanksThenNewline(s: string, j: nat)
    requires j <= |s|
    ensures FirstEnd(Cat(Blanks, Newline), s, j) == Succ(LastIndexOf('\n', s, j, RunEnd(Whitespace, s, j)))
  {
    StarThenChar(Whitespace, '\n', s, j);
  }

  /** `\d+\s*\n`: a number, then blanks through their last newline. */
  lemma NumberThenNewline(s: string, a: nat)
    requires a <= |s|
    ensures FirstEnd(Cat(Plus(Digit), Cat(Blanks, Newline)), s, a) ==
              var b := RunEnd(Digit, s, a);
              if b == a then None else Succ(LastIndexOf('\n', s, b, RunEnd(Whitespace, s, b)))
  {
    var b := RunEnd(Digit, s, a);
    forall j | a < j < b
      ensures Ends(Cat(Blanks, Newline), s, j) == []
    {
      BlanksThenNewline(s, j);
    }
    PlusThen(Digit, Cat(Blanks, Newline), s, a);
    if b > a {
      BlanksThenNewline(s, b);
    }
  }

  /** Line 56: at a newline, blanks, a number, then blanks: the match runs
      through the LAST newline among the blanks after the number (greedy
      `\s*` backs off only as far as it must). */
  lemma PageNumberLineMatch(s: string, i: nat)
    requires i <= |s|
    ensures FirstEnd(PageNumberLine, s, i) ==
              if i < |s| && s[i] == '\n' then
                var a := RunEnd(Whitespace, s, i + 1);
                var b := RunEnd(Digit, s, a);
                if b == a then None else Succ(LastIndexOf('\n', s, b, RunEnd(Whitespace, s, b)))
              else None
  {
    var number := Cat(Plus(Digit), Cat(Blanks, Newline));
    CatOne(Exactly('\n'), Cat(Blanks, number), s, i);
    if i < |s| && s[i] == '\n' {
      var a := RunEnd(Whitespace, s, i + 1);
      forall j | i + 1 <= j < a
        ensures Ends(number, s, j) == []
      {
        CatPlusBlocked(Digit, Cat(Blanks, Newline), s, j);
      }
      StarThen(Whitespace, true, number, s, i + 1);
      NumberThenNewline(s, a);
    }
  }

  /** Where a number at `b` and the rest of its line end: just after the
      first newline following the digits, if there are digits and a newline. */
  function NumberLineEnd(s: string, b: nat): (e: Option<nat>)
    requires b <= |s|
    ensures e.Some? ==> b < e.value <= |s| && s[e.value - 1] == '\n' && IsDigit(s[b])
  {
    var d := RunEnd(Digit, s, b);
    if d == b then None else LineEnd(s, d)
  }

  /** `\d+.*?\n`: a number, then the rest of its line. */
  lemma NumberThenRestOfLine(s: string, b: nat)
    requires b <= |s|
    ensures FirstEnd(Cat(Plus(Digit), RestOfLine), s, b) == NumberLineEnd(s, b)
  {
    var d := RunEnd(Digit, s, b);
    if d > b {
      RestOfLineMatch(s, d);
      if LineEnd(s, d).Some? {
        PlusThenLongest(Digit, RestOfLine, s, b);
      } else {
        forall j | b < j < d
          ensures Ends(RestOfLine, s, j) == []
        {
          RunEndSkip(AnyButNewline, s, j, d);
          RestOfLineMatch(s, j);
        }
        PlusThen(Digit, RestOfLine, s, b);
      }
    } else {
      PlusThen(Digit, RestOfLine, s, b);
    }
  }

  /** `\s*\d+.*?\n` */
  lemma BlanksNumberRestOfLine(s: string, c: nat)
    requires c <= |s|
    ensures FirstEnd(Cat(Blanks, Cat(Plus(Digit), RestOfLine)), s, c) == NumberLineEnd(s, RunEnd(Whitespace, s, c))
  {
    var b := RunEnd(Whitespace, s, c);
    forall j | c <= j < b
      ensures Ends(Cat(Plus(Digit), RestOfLine), s, j) == []
    {
      CatPlusBlocked(Digit, RestOfLine, s, j);
    }
    StarThen(Whitespace, true, Cat(Plus(Digit), RestOfLine), s, c);
    NumberThenRestOfLine(s, b);
  }

  /** `\s*Page\s*\d+.*?\n` under `re.IGNORECASE` */
  lemma BlanksPageRestOfLine(s: string, c: nat)
    requires c <= |s|
    ensures FirstEnd(Cat(Blanks, Cat(Word("Page", true), Cat(Blanks, Cat(Plus(Digit), RestOfLine)))), s, c) ==
              var a := RunEnd(Whitespace, s, c);
              if Spells(s, a, "Page", true) then NumberLineEnd(s, RunEnd(Whitespace, s, a + 4)) else None
  {
    var a := RunEnd(Whitespace, s, c);
    BlanksThenPage(Cat(Blanks, Cat(Plus(Digit), RestOfLine)), s, c);
    if Spells(s, a, "Page", true) {
      BlanksNumberRestOfLine(s, a + 4);
    }
  }

  /** `\s*Page` under `re.IGNORECASE`, then `tail`. */
  lemma BlanksThenPage(tail: Regex, s: string, c: nat)
    requires c <= |s|
    ensures FirstEnd(Cat(Blanks, Cat(Word("Page", true), tail)), s, c) ==
              var a := RunEnd(Whitespace, s, c);
              if Spells(s, a, "Page", true) then FirstEnd(tail, s, a + 4) else None
  {
    BlanksNotWord("Page", true, s, c);
    StarThenWord(Whitespace, "Page", true, tail, s, c);
  }

  /** Line 57: at a newline, blanks, "page" in any letter case, blanks and a
      number: the match runs through the end of that line. */
  lemma PageHeaderLineMatch(s: string, i: nat)
    requires i <= |s|
    ensures FirstEnd(PageHeaderLine, s, i) ==
              if i < |s| && s[i] == '\n' then
                var a := RunEnd(Whitespace, s, i + 1);
                if Spells(s, a, "Page", true) then
                  var b := RunEnd(Whitespace, s, a + 4);
                  var d := RunEnd(Digit, s, b);
                  if d == b then None else LineEnd(s, d)
                else None
              else None
  {
    CatOne(Exactly('\n'), Cat(Blanks, Cat(Word("Page", true), Cat(Blanks, Cat(Plus(Digit), RestOfLine)))), s, i);
    if i < |s| && s[i] == '\n' {
      BlanksPageRestOfLine(s, i + 1);
    }
  }

  /** Line 60: at a newline whose following blanks hold at least two more
      newlines, the match takes the whole blank stretch up to and including
      its last newline; otherwise there is no match. */
  lemma BlankLinesMatch(s: string, i: nat)
    requires i <= |s|
    ensures FirstEnd(BlankLines, s, i) ==
              if i < |s| && s[i] == '\n' then
                var a := RunEnd(Whitespace, s, i + 1);
                match LastIndexOf('\n', s, i + 1, a)
                case None => None
                case Some(last) =>
                  if LastIndexOf('\n', s, i + 1, last).Some? then Some(last + 1) else None
              else None
  {
    CatOne(Exactly('\n'), Cat(Blanks, Cat(Newline, Cat(Blanks, Newline))), s, i);
    if i < |s| && s[i] == '\n' {
      StarCharStarChar(Whitespace, '\n', s, i + 1);
    }
  }

  /** Line 61: at a space, the match is the whole run of spaces. */
  lemma SpaceRunMatch(s: string, i: nat)
    requires i <= |s|
    ensures FirstEnd(SpaceRun, s, i) ==
              if i < |s| && s[i] == ' ' then Some(RunEnd(Exactly(' '), s, i)) else None
  {
  }

  /** `©.*?\n` */
  lemma MarkRestOfLine(s: string, a: nat)
    requires a <= |s|
    ensures FirstEnd(Cat(One(Exactly('©')), RestOfLine), s, a) ==
              if a < |s| && s[a] == '©' then LineEnd(s, a + 1) else None
  {
    CatOne(Exactly('©'), RestOfLine, s, a);
    if a < |s| && s[a] == '©' {
      RestOfLineMatch(s, a + 1);
    }
  }

  /** `\s*©.*?\n` */
  lemma BlanksMarkRestOfLine(s: string, c: nat)
    requires c <= |s|
    ensures FirstEnd(Cat(Blanks, Cat(One(Exactly('©')), RestOfLine)), s, c) ==
              var a := RunEnd(Whitespace, s, c);
              if a < |s| && s[a] == '©' then LineEnd(s, a + 1) else None
  {
    var mark := Cat(One(Exactly('©')), RestOfLine);
    var a := RunEnd(Whitespace, s, c);
    forall j | c <= j < a
      ensures Ends(mark, s, j) == []
    {
      CatOneBlocked(Exactly('©'), RestOfLine, s, j);
    }
    StarThen(Whitespace, true, mark, s, c);
    MarkRestOfLine(s, a);
  }

  /** Line 64: at a newline, blanks, then "©": the match runs through the end
      of that line. */
  lemma CopyrightLineMatch(s: string, i: nat)
    requires i <= |s|
    ensures FirstEnd(CopyrightLine, s, i) ==
              if i < |s| && s[i] == '\n' then
                var a := RunEnd(Whitespace, s, i + 1);
                if a < |s| && s[a] == '©' then LineEnd(s, a + 1) else None
              else None
  {
    CatOne(Exactly('\n'), Cat(Blanks, Cat(One(Exactly('©')), RestOfLine)), s, i);
    if i < |s| && s[i] == '\n' {
      BlanksMarkRestOfLine(s, i + 1);
    }
  }

  /** `\s*www\..*?\n` */
  lemma BlanksWwwRestOfLine(s: string, c: nat)
    requires c <= |s|
    ensures FirstEnd(Cat(Blanks, Cat(Word("www.", false), RestOfLine)), s, c) ==
              var a := RunEnd(Whitespace, s, c);
              if Spells(s, a, "www.", false) then LineEnd(s, a + 4) else None
  {
    var a := RunEnd(Whitespace, s, c);
    BlanksNotWord("www.", false, s, c);
    StarThenWord(Whitespace, "www.", false, RestOfLine, s, c);
    if Spells(s, a, "www.", false) {
      RestOfLineMatch(s, a + 4);
    }
  }

  /** Line 65: at a newline, blanks, then "www.": the match runs through the
      end of that line. */
  lemma WebsiteLineMatch(s: string, i: nat)
    requires i <= |s|
    ensures FirstEnd(WebsiteLine, s, i) ==
              if i < |s| && s[i] == '\n' then
                var a := RunEnd(Whitespace, s, i + 1);
                if Spells(s, a, "www.", false) then LineEnd(s, a + 4) else None
              else None
  {
    CatOne(Exactly('\n'), Cat(Blanks, Cat(Word("www.", false), RestOfLine)), s, i);
    if i < |s| && s[i] == '\n' {
      BlanksWwwRestOfLine(s, i + 1);
    }
  }

  // ---------------------------------------------------------------------
  // What the whole pass guarantees

  /** The space squeeze written directly: a space that is followed by
      another space is dropped, every other character is kept. */
  function Squeeze(t: string): string
    decreases |t|
  {
    if t == [] then []
    else if t[0] == ' ' && |t| > 1 && t[1] == ' ' then Squeeze(t[1..])
    else [t[0]] + Squeeze(t[1..])
  }

  /** The characters of `t` other than spaces. */
  function NonSpaces(t: string): string
    decreases |t|
  {
    if t == [] then [] else (if t[0] == ' ' then [] else [t[0]]) + NonSpaces(t[1..])
  }

  /** `Squeeze` starts with the character `t` starts with, leaves no two
      spaces side by side, and keeps every other character in order. */
  lemma {:induction false} SqueezeFacts(t: string)
    ensures t != [] ==> Squeeze(t) != [] && Squeeze(t)[0] == t[0]
    ensures NoDoubleSpace(Squeeze(t))
    ensures NonSpaces(Squeeze(t)) == NonSpaces(t)
    decreases |t|
  {
    if t != [] {
      SqueezeFacts(t[1..]);
      if !(t[0] == ' ' && |t| > 1 && t[1] == ' ') {
        var rest := Squeeze(t[1..]);
        NoDoubleSpaceConcat([t[0]], rest);
        assert ([t[0]] + rest)[1..] == rest;
      }
    }
  }

  /** A text without double spaces is its own squeeze. */
  lemma {:induction false} SqueezeKeeps(t: string)
    requires NoDoubleSpace(t)
    ensures Squeeze(t) == t
    decreases |t|
  {
    if t != [] {
      NoDoubleSpaceSlice(t, 1, |t|);
      assert t[1..|t|] == t[1..];
      SqueezeKeeps(t[1..]);
      assert t == [t[0]] + t[1..];
      if |t| > 1 {
        assert !(t[0] == ' ' && t[1] == ' ');
      }
    }
  }

  /** A run of spaces from `j` to `n` squeezes to one space. */
  lemma {:induction false} SqueezeRun(s: string, j: nat, n: nat)
    requires j < n <= |s|
    requires forall k :: j <= k < n ==> s[k] == ' '
    requires n < |s| ==> s[n] != ' '
    ensures Squeeze(s[j..]) == " " + Squeeze(s[n..])
    decreases n - j
  {
    assert s[j..][1..] == s[j + 1..];
    if j + 1 < n {
      SqueezeRun(s, j + 1, n);
    }
  }

  /** Line 61: replacing every run of spaces by one space is `Squeeze`. */
  lemma {:induction false} SpaceRunSub(s: string, from: nat)
    requires from <= |s|
    ensures SubFrom(SpaceRun, " ", s, from) == Squeeze(s[from..])
    decreases |s| - from
  {
    SpaceRunMatch(s, from);
    if from == |s| {
      assert Search(SpaceRun, s, from).None?;
    } else if s[from] != ' ' {
      SubFromSkip(SpaceRun, " ", s, from);
      SpaceRunSub(s, from + 1);
      assert s[from..][1..] == s[from + 1..];
    } else {
      var n := RunEnd(Exactly(' '), s, from);
      SubFromAt(SpaceRun, " ", s, from, n);
      SpaceRunSub(s, n);
      SqueezeRun(s, from, n);
    }
  }

  /** A substitution leaves the text no longer than it was. */
  lemma CleanTextShrinks(text: string)
    ensures |CleanText(text)| <= |text|
  {
    PatternWidths();
    var noNumbers := Sub(PageNumberLine, "\n", text);
    SubShrinks(PageNumberLine, "\n", text, 0);
    var noHeaders := Sub(PageHeaderLine, "\n", noNumbers);
    SubShrinks(PageHeaderLine, "\n", noNumbers, 0);
    var fewBlanks := Sub(BlankLines, "\n\n", noHeaders);
    SubShrinks(BlankLines, "\n\n", noHeaders, 0);
    var oneSpace := Sub(SpaceRun, " ", fewBlanks);
    SubShrinks(SpaceRun, " ", fewBlanks, 0);
    var noCopyright := Sub(CopyrightLine, "\n", oneSpace);
    SubShrinks(CopyrightLine, "\n", oneSpace, 0);
    SubShrinks(WebsiteLine, "\n", noCopyright, 0);
  }

  /** The cleaned text never holds two spaces side by side: the space pass
      squeezes them, the later passes only write newlines and remove whole
      stretches, and `strip()` takes a slice. */
  lemma CleanTextNoDoubleSpace(text: string)
    ensures NoDoubleSpace(CleanText(text))
  {
    PatternWidths();
    var noNumbers := Sub(PageNumberLine, "\n", text);
    var noHeaders := Sub(PageHeaderLine, "\n", noNumbers);
    var fewBlanks := Sub(BlankLines, "\n\n", noHeaders);
    SpaceRunNoDoubleSpace(fewBlanks);
    LaterPassesNoDoubleSpace(Sub(SpaceRun, " ", fewBlanks));
  }

  /** After the space pass no two spaces are side by side. */
  lemma SpaceRunNoDoubleSpace(t: string)
    ensures NoDoubleSpace(Sub(SpaceRun, " ", t))
  {
    SpaceRunSub(t, 0);
    assert t[0..] == t;
    SqueezeFacts(t);
  }

  /** The passes of lines 64-65 and `strip()` keep a text free of double
      spaces. */
  lemma LaterPassesNoDoubleSpace(oneSpace: string)
    requires NoDoubleSpace(oneSpace)
    ensures NoDoubleSpace(Strip(Sub(WebsiteLine, "\n", Sub(CopyrightLine, "\n", oneSpace))))
  {
    PatternWidths();
    var noCopyright := Sub(CopyrightLine, "\n", oneSpace);
    SubKeepsNoDoubleSpace(CopyrightLine, "\n", oneSpace, 0);
    var noWebsites := Sub(WebsiteLine, "\n", noCopyright);
    SubKeepsNoDoubleSpace(WebsiteLine, "\n", noCopyright, 0);
    var a, b :| 0 <= a <= b <= |noWebsites| && Strip(noWebsites) == noWebsites[a..b];
    NoDoubleSpaceSlice(noWebsites, a, b);
  }

  lemma StripKeepsTrimmed(t: string)
    requires Trimmed(t)
    ensures Strip(t) == t
  {
    if t != [] {
      assert SkipSpace(t, 0) == 0;
      assert SkipSpaceBack(t, 0, |t|) == |t|;
      assert t[0..|t|] == t;
    }
  }

  /** Text with no leading or trailing whitespace, no two spaces side by
      side, and none of the five line patterns comes back unchanged: the
      space pass then rewrites each single space as itself. */
  lemma CleanTextKeepsCleanText(text: string)
    requires Trimmed(text) && NoDoubleSpace(text)
    requires NoMatch(PageNumberLine, text) && NoMatch(PageHeaderLine, text) && NoMatch(BlankLines, text)
    requires NoMatch(CopyrightLine, text) && NoMatch(WebsiteLine, text)
    ensures CleanText(text) == text
  {
    PatternWidths();
    SubNoMatch(PageNumberLine, "\n", text);
    SubNoMatch(PageHeaderLine, "\n", text);
    SubNoMatch(BlankLines, "\n\n", text);
    assert Sub(SpaceRun, " ", text) == text by {
      SpaceRunSub(text, 0);
      assert text[0..] == text;
      SqueezeKeeps(text);
    }
    SubNoMatch(CopyrightLine, "\n", text);
    SubNoMatch(WebsiteLine, "\n", text);
    StripKeepsTrimmed(text);
  }

  // ---------------------------------------------------------------------
  // Examples

  /** Line 56 in one pass: the two number lines of "\n1\n2\n" share a
      newline, the first match consumes it, so only "1" goes. */
  lemma PageNumberOnePass()
    ensures Sub(PageNumberLine, "\n", "\n1\n2\n") == "\n2\n"
  {
    var s := "\n1\n2\n";
    PageNumberFirst(s);
    PageNumberSkip(s);
    PageNumberLast(s);
  }

  lemma PageNumberFirst(s: string)
    requires s == "\n1\n2\n"
    ensures SubFrom(PageNumberLine, "\n", s, 0) == "\n" + SubFrom(PageNumberLine, "\n", s, 3)
  {
    PatternWidths();
    PageNumberLineMatch(s, 0);
    assert RunEnd(Whitespace, s, 1) == 1;
    assert RunEnd(Digit, s, 1) == 2;
    assert RunEnd(Whitespace, s, 2) == 3;
    assert LastIndexOf('\n', s, 2, 3) == Some(2);
    SubFromAt(PageNumberLine, "\n", s, 0, 3);
  }

  lemma PageNumberSkip(s: string)
    requires s == "\n1\n2\n"
    ensures SubFrom(PageNumberLine, "\n", s, 3) == "2" + SubFrom(PageNumberLine, "\n", s, 4)
  {
    PatternWidths();
    PageNumberLineMatch(s, 3);
    SubFromSkip(PageNumberLine, "\n", s, 3);
  }

  lemma PageNumberLast(s: string)
    requires s == "\n1\n2\n"
    ensures SubFrom(PageNumberLine, "\n", s, 4) == "\n"
  {
    PatternWidths();
    PageNumberLineMatch(s, 4);
    PageNumberLineMatch(s, 5);
    SubFromLast(PageNumberLine, "\n", s);
  }

  /** Line 60: four line breaks in a row become two. */
  lemma BlankLinesExample(s: string)
    requires s == "a\n\n\n\nb"
    ensures Sub(BlankLines, "\n\n", s) == "a\n\nb"
  {
    BlankLinesLast(s);
    BlankLinesRun(s);
    BlankLinesSkip(s, 0);
    assert Sub(BlankLines, "\n\n", s) == [s[0]] + ("\n\n" + "b");
  }

  lemma BlankLinesSkip(s: string, i: nat)
    requires i < |s| && s[i] != '\n'
    ensures SubFrom(BlankLines, "\n\n", s, i) == [s[i]] + SubFrom(BlankLines, "\n\n", s, i + 1)
  {
    PatternWidths();
    BlankLinesMatch(s, i);
    SubFromSkip(BlankLines, "\n\n", s, i);
  }

  lemma BlankLinesRun(s: string)
    requires s == "a\n\n\n\nb"
    ensures SubFrom(BlankLines, "\n\n", s, 1) == "\n\n" + SubFrom(BlankLines, "\n\n", s, 5)
  {
    PatternWidths();
    BlankLinesMatch(s, 1);
    assert RunEnd(Whitespace, s, 2) == 5;
    assert LastIndexOf('\n', s, 2, 5) == Some(4);
    assert LastIndexOf('\n', s, 2, 4) == Some(3);
    SubFromAt(BlankLines, "\n\n", s, 1, 5);
  }

  lemma BlankLinesLast(s: string)
    requires s == "a\n\n\n\nb"
    ensures SubFrom(BlankLines, "\n\n", s, 5) == "b"
  {
    PatternWidths();
    BlankLinesMatch(s, 5);
    BlankLinesMatch(s, 6);
    SubFromLast(BlankLines, "\n\n", s);
  }
}
