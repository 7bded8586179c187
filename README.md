# Book text extraction and clean-up, modelled in Dafny

This project models the text post-processing of a PDF-to-text converter
(`convert_to_txt.py`). It covers two functions.

- `extract_core_content(text)` keeps a book's body. It finds where the body
  starts and where it stops, using ordered lists of regular expressions run
  over a lower-cased copy of the text. It then slices the original text
  between the two positions and strips it.
- `clean_text(text)` runs six `re.sub` passes and then a `strip()`. The passes
  remove page-number lines, remove "Page N" lines, collapse blank lines,
  collapse runs of spaces, remove copyright lines and remove `www.` lines.

The files:

- `pytext.dfy` (module `PyText`) holds the Python string built-ins that are
  used: `\s` as `str.isspace`, ASCII `\d`, `\w` and `lower()`, and `strip()`,
  slicing and `find`.
- `regex.dfy` (module `Regex`) is the fragment of Python's `re` the patterns
  need, with the order in which the backtracking engine tries alternatives.
  `Ends(r, s, i)` lists the ends of the matches of `r` at `i` in the order the
  engine reaches them. The match Python reports is the first of them.
  `re.search`, `re.finditer` and `re.sub` are built on it as left-to-right,
  non-overlapping scans.
- `regex_facts.dfy` (module `RegexFacts`) holds what the engine reports for the
  pattern shapes used. It also has a declarative meaning of every pattern
  (`Matches`) and proves that the engine tries exactly the ends at which the
  pattern matches by that meaning. Which of those ends is reported is fixed
  by the order of trial in `Ends`, not by `Matches`. It also holds the laws of
  one `re.sub` pass.
- `clean_text.dfy` (module `CleanText`) models `clean_text`, states the match
  of each of its six patterns, and proves properties of the whole pipeline.
- `extract.dfy` (module `Extract`) models `extract_core_content`. It has two
  loop methods, one per `for` loop, proved against the functions `StartPos`
  and `EndPos`. It also proves the lemmas on which pattern decides, what the
  markers are, and the shape of the result.

The end marker is kept. For `"Foo\nIntroduction\nBody\nBibliography\nBar"`
one might expect the body to stop before "Bibliography", but the code does
not stop there. It takes the first `"\n\n"` at or after the end of the last
closing word, and there is none. So `find` returns -1 and the slice runs to
the end of the text, keeping "Bibliography\nBar" (`Extract.EndMarkerKept`,
`Extract.EndPosIs`).

A note on line 21. `\bchapter\s*\d+\s*$` is searched without `re.MULTILINE`.
So `$` holds only at the end of the text or before a newline that ends it.
Every match therefore ends at the very end of the text (`\s*` is greedy and
takes that final newline too). When this pattern decides, the body runs to
the end of the text (`Extract.TrailingChapterAtEnd`,
`Extract.TrailingChapterDecides`).

## Model

| member | source | states |
|---|---|---|
| PyText.Lower | convert_to_txt.py:25 | lower-casing keeps the length and maps each character on its own (ASCII letters to lower case, the rest unchanged) |
| PyText.StripLower | convert_to_txt.py:25 | lower-casing then stripping equals stripping then lower-casing, since no character enters or leaves the whitespace class |
| PyText.Strip | convert_to_txt.py:49 | the result has no leading or trailing whitespace and is a slice of the input with only whitespace outside it |
| PyText.Slice | convert_to_txt.py:49 | `t[a:b]` is the slice when `a < b` and empty otherwise |
| PyText.Find | convert_to_txt.py:43 | the result is -1 or an index at or after the start where the needle occurs, and the needle occurs nowhere from the start up to the result (or anywhere, for -1) |
| Regex.Search | convert_to_txt.py:30 | a found match starts at the leftmost index where the engine reports one, with the end reported there; no match means no index reports one |
| Regex.Ends | convert_to_txt.py:30 | every end the engine tries at `i` lies between `i` and the end of the text; which ends they are is stated by `RegexFacts.EndsMatches` |
| Regex.FirstEndAtLeast | convert_to_txt.py:30 | the match the engine reports at `i` (the first of `Ends`, `FirstEnd`) is at least as long as the pattern's shortest match and ends within the text |
| Regex.FindAll | convert_to_txt.py:38 | the matches are in order and do not overlap; each is the engine's match at its start; the first is what search finds from the start, and each later one is what search finds from the end of the one before; the list is empty exactly when search fails; nothing matches after the last one |
| Regex.SubFrom | convert_to_txt.py:56-65 | where search from `from` finds nothing, the pass copies the rest of the text unchanged; the steps of the pass are stated by `RegexFacts.SubFromAt` and `RegexFacts.SubFromSkip` |
| Regex.Sub | convert_to_txt.py:56-65 | where search finds nothing, `re.sub` returns the text unchanged |
| RegexFacts.EndsMatches | convert_to_txt.py:12-22 | an end is among those the engine tries at `i` exactly when `s[i..e]` matches the pattern by the textbook meaning of its operators |
| RegexFacts.FirstEndMatches | convert_to_txt.py:30 | the engine reports a match at `i` exactly when some match exists there, and what it reports is one |
| RegexFacts.SearchMatches | convert_to_txt.py:30 | search fails exactly when the pattern matches nowhere; a found match is a real match and no match starts before it |
| RegexFacts.BoundedMatches | convert_to_txt.py:12-22 | `\b r \b` matches `s[i..e]` exactly when `r` does and both ends are word boundaries |
| RegexFacts.SpacedMatches | convert_to_txt.py:13-15 | `w\s*x` matches exactly when `w`, then whitespace only, then `x` fill `s[i..e]` |
| RegexFacts.AnyOfMatches | convert_to_txt.py:20 | an alternation of words matches exactly when one of the words is spelled at `i` and `e` is its end |
| RegexFacts.SubShrinks | convert_to_txt.py:56-65 | a pass whose replacement is no longer than the shortest match never lengthens the text |
| RegexFacts.SubFromAt | convert_to_txt.py:56-65 | where a match is reported, the pass writes the replacement and resumes after the match |
| RegexFacts.SubFromSkip | convert_to_txt.py:56-65 | where nothing matches, the pass copies the character and moves on |
| RegexFacts.SubNoMatch | convert_to_txt.py:56-65 | a pattern that matches nowhere leaves the text unchanged |
| RegexFacts.SubKeepsNoDoubleSpace | convert_to_txt.py:64-65 | a pass whose replacement is non-empty and holds no space keeps a text free of double spaces |
| CleanText.CleanText | convert_to_txt.py:51-67 | the cleaned text has no leading or trailing whitespace |
| CleanText.PageNumberLineMatch | convert_to_txt.py:56 | at a newline followed by blanks and a number, the match runs through the last newline of the blanks after the number; otherwise there is none |
| CleanText.PageHeaderLineMatch | convert_to_txt.py:57 | at a newline, blanks, "page" in any letter case, blanks and a number, the match runs through the end of that line; otherwise there is none |
| CleanText.BlankLinesMatch | convert_to_txt.py:60 | at a newline whose following blanks hold two more newlines, the match runs through the last newline of the blanks; otherwise there is none |
| CleanText.SpaceRunMatch | convert_to_txt.py:61 | at a space, the match is the whole run of spaces |
| CleanText.SpaceRunSub | convert_to_txt.py:61 | the space pass equals `Squeeze`, which drops every space followed by a space |
| CleanText.SqueezeFacts | convert_to_txt.py:61 | `Squeeze` keeps the first character, leaves no two spaces side by side and keeps every non-space character in order |
| CleanText.SqueezeKeeps | convert_to_txt.py:61 | a text without double spaces is unchanged by `Squeeze` |
| CleanText.CopyrightLineMatch | convert_to_txt.py:64 | at a newline, blanks and "©", the match runs through the end of that line; otherwise there is none |
| CleanText.WebsiteLineMatch | convert_to_txt.py:65 | at a newline, blanks and "www.", the match runs through the end of that line; otherwise there is none |
| CleanText.CleanTextShrinks | convert_to_txt.py:56-67 | the cleaned text is never longer than the input |
| CleanText.CleanTextNoDoubleSpace | convert_to_txt.py:61-67 | the cleaned text never holds two spaces side by side |
| CleanText.CleanTextKeepsCleanText | convert_to_txt.py:51-67 | a trimmed text with no double space and none of the five line patterns comes back unchanged |
| CleanText.PageNumberOnePass | convert_to_txt.py:56 | in `"\n1\n2\n"` one pass removes only the "1" line, because the first match consumes the shared newline |
| CleanText.BlankLinesExample | convert_to_txt.py:60 | four line breaks in a row become two |
| Extract.StartPos | convert_to_txt.py:28-33 | the start lies within the text, and is 0 or a position where one of the start patterns matches |
| Extract.EndPos | convert_to_txt.py:36-47 | the end lies within the text, and is the end of the text or the start of a `"\n\n"` |
| Extract.CoreContent | convert_to_txt.py:6-49 | the result has no leading or trailing whitespace and is no longer than the text |
| Extract.SectionEnd | convert_to_txt.py:43-45 | the section end is the first `"\n\n"` at or after the given index, or the end of the text when there is none |
| Extract.StartPosition | convert_to_txt.py:27-33 | the loop returns the start of the body, `StartPos` over the start patterns |
| Extract.ScanEndPatterns | convert_to_txt.py:36-47 | the loop over the end patterns returns `EndPos` |
| Extract.EndPosition | convert_to_txt.py:36-47 | the end of the body, `EndPos` over the end patterns |
| Extract.ExtractCoreContent | convert_to_txt.py:6-49 | the method returns the stripped slice of the original text between the two positions found in the lower-cased copy |
| Extract.StartPosIs | convert_to_txt.py:29-33 | the first start pattern that occurs decides, whatever later patterns find, at its leftmost match |
| Extract.StartPosNone | convert_to_txt.py:28-33 | with no start pattern in the text, the body starts at 0 |
| Extract.StartPosLeftmost | convert_to_txt.py:29-33 | when pattern `i` is the first that matches anywhere, the start is a position where it matches and no position before it matches |
| Extract.EndPosIs | convert_to_txt.py:37-47 | the first end pattern that occurs decides, and the body stops at the section end after its last match |
| Extract.EndMarkerKept | convert_to_txt.py:41-46 | the deciding end marker lies wholly before the end of the body, and no blank line lies between it and that end |
| Extract.EndPosNone | convert_to_txt.py:36-47 | with no end pattern in the text, the body runs to the end |
| Extract.ClosingWordMatches | convert_to_txt.py:20 | a closing marker is one of the seven closing words standing as a whole word |
| Extract.OpeningWordMatches | convert_to_txt.py:12 | an opening marker is "introduction", "prologue", "preface", or "chapter" and "1" with only whitespace between, standing as a whole word |
| Extract.TrailingChapterAtEnd | convert_to_txt.py:21 | every match of the numbered-chapter pattern ends at the very end of the text |
| Extract.TrailingChapterDecides | convert_to_txt.py:21 | when the numbered-chapter pattern decides the end, the body runs to the end of the text |
| Extract.StripSliceShape | convert_to_txt.py:49 | `text[p:q].strip()` is trimmed, empty when `q <= p`, and otherwise a slice of the text between `p` and `q` with only whitespace cut off |
| Extract.CoreContentShape | convert_to_txt.py:49 | the result is a trimmed slice of the original text between the start and the end, and empty when the end does not come after the start |
| Extract.CoreContentLowered | convert_to_txt.py:25-49 | lower-casing the result gives the stripped slice of the lower-cased copy between the same two positions: the positions found in the copy cut the original text at the same places |
| Extract.NoMarkersKeepsAll | convert_to_txt.py:28-49 | a text without any start or end marker is only stripped |

## Left out

- `pdf_to_txt` and the command-line entry point are not part of this model. They do file I/O, PDF page extraction with pypdf, and print and catch errors.
- The other modules of the repository are not part of this model: the vector store and embedding wrappers, the semantic splitter, the chat prompt and the web API. They hand their work to hosted services and frameworks.
- PyText.Lower: models `str.lower()` on ASCII letters only. Python also lower-cases other scripts, and a few characters (such as "İ") become two characters. Such a character would shift the positions found in the lower-cased copy.
- PyText.IsDigit: `\d` is restricted to the ASCII digits, and `\w` (used by `\b`) to ASCII letters, digits and the underscore. Python's `str` patterns use the Unicode classes.
- Regex.MinLen: only patterns that cannot match the empty string are modelled. All thirteen patterns of the source (four start, three end and six clean-up patterns) are such patterns, so Python's rules for empty matches in `finditer` and `sub` are not needed.
