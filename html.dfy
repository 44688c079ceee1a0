/** The HTML text the builder writes into its content documents: one
    paragraph element per line (main.py, Chapter.html_content) and a level-one
    heading in front of each chapter. The text is inserted without escaping,
    as the source does.

    Besides the renderers, the module has the matching decoders. They recover
    the lines from the HTML whenever no line contains a line break. That holds
    for every line the builder sees, because it splits the file at '\n'. */
module Html {
  import opened Wrappers
  import opened Lines

  const ParagraphOpen: string := "<p>"
  const ParagraphClose: string := "</p>\n"
  const HeadingOpen: string := "<h1>"
  const HeadingClose: string := "</h1>\n"

  function Paragraph(line: string): string {
    ParagraphOpen + line + ParagraphClose
  }

  function Heading(title: string): string {
    HeadingOpen + title + HeadingClose
  }

  /** Chapter.html_content: the paragraphs of all lines, joined with nothing between them. */
  function Paragraphs(lines: seq<string>): (r: string)
    ensures r == "" <==> lines == []
    decreases |lines|
  {
    if lines == [] then "" else Paragraph(lines[0]) + Paragraphs(lines[1..])
  }

  /** Rendering is a homomorphism from line concatenation to string concatenation. */
  lemma {:induction false} ParagraphsAppend(a: seq<string>, b: seq<string>)
    ensures Paragraphs(a + b) == Paragraphs(a) + Paragraphs(b)
    decreases |a|
  {
    if a != [] {
      assert (a + b)[1..] == a[1..] + b;
      ParagraphsAppend(a[1..], b);
    } else {
      assert a + b == b;
    }
  }

  /** Tags that delimit one line: the opening tag has no line break and the
      closing tag has exactly one, as its last character. */
  predicate LineTags(open: string, close: string) {
    && NoLineBreak(open)
    && |close| > 0 && close[|close| - 1] == '\n'
    && NoLineBreak(close[..|close| - 1])
  }

  /** Reads one element `open + text + close` off the front of `s`, giving
      the text and what follows it. */
  function ParseElement(open: string, close: string, s: string): (r: Option<(string, string)>)
    ensures r.Some? ==> |r.value.1| < |s|
  {
    if !(open <= s) then None
    else
      var t := s[|open|..];
      var k := FirstLineBreak(t);
      if k == |t| || k + 1 < |close| || !(close <= t[k + 1 - |close|..]) then None
      else Some((t[..k + 1 - |close|], t[k + 1..]))
  }

  /** Reading one element succeeds only on the opening tag, the text, the
      closing tag and the rest, in that order. */
  lemma ParseElementSound(open: string, close: string, s: string)
    ensures var r := ParseElement(open, close, s);
      r.Some? ==> s == open + r.value.0 + close + r.value.1
  {
    var r := ParseElement(open, close, s);
    if r.Some? {
      assert open <= s;
      var t := s[|open|..];
      var k := FirstLineBreak(t);
      assert k < |t| && |close| <= k + 1;
      var j := k + 1 - |close|;
      assert close <= t[j..];
      assert r.value == (t[..j], t[k + 1..]);
      JoinPieces(open, s, t, t[..j], close, t[k + 1..], j, k + 1);
    }
  }

  /** The pieces ParseElement cuts `s` into join back to `s`. */
  lemma JoinPieces(open: string, s: string, t: string, text: string, close: string, rest: string, j: nat, k: nat)
    requires open <= s && t == s[|open|..]
    requires j <= k <= |t| && k - j == |close|
    requires text == t[..j] && close <= t[j..] && rest == t[k..]
    ensures s == open + text + close + rest
  {
    assert s == s[..|open|] + t;
    assert t[j..k] == close;
    assert t == t[..j] + t[j..k] + t[k..];
  }

  /** A line without line breaks is read back from its element. */
  lemma ParseElementOf(open: string, close: string, text: string, rest: string)
    requires LineTags(open, close) && NoLineBreak(text)
    ensures ParseElement(open, close, open + text + close + rest) == Some((text, rest))
  {
    var s := open + text + close + rest;
    var t := s[|open|..];
    var a := text + close[..|close| - 1];
    assert t == a + ("\n" + rest) by {
      assert close == close[..|close| - 1] + "\n";
    }
    FirstLineBreakAfter(a, "\n" + rest);
    assert FirstLineBreak(t) == |a|;
    assert t[|a| + 1 - |close|..|a| + 1] == close;
    assert t[..|a| + 1 - |close|] == text;
    assert t[|a| + 1..] == rest;
  }

  /** Reads a run of paragraph elements back into its lines. */
  function ParseParagraphs(s: string): Option<seq<string>>
    decreases |s|
  {
    if s == "" then Some([])
    else
      match ParseElement(ParagraphOpen, ParagraphClose, s)
      case None => None
      case Some((line, rest)) =>
        match ParseParagraphs(rest)
        case None => None
        case Some(lines) => Some([line] + lines)
  }

  /** Reading paragraphs succeeds only on text that renders back from the lines read. */
  lemma {:induction false} ParseParagraphsSound(s: string)
    ensures var r := ParseParagraphs(s);
      r.Some? ==> Paragraphs(r.value) == s
    decreases |s|
  {
    var r := ParseParagraphs(s);
    if s != "" && r.Some? {
      var (line, rest) := ParseElement(ParagraphOpen, ParagraphClose, s).value;
      ParseElementSound(ParagraphOpen, ParagraphClose, s);
      ParseParagraphsSound(rest);
      var lines := ParseParagraphs(rest).value;
      assert r.value == [line] + lines;
      assert ([line] + lines)[1..] == lines;
    }
  }

  /** Lines without line breaks survive rendering and reading back. */
  lemma {:induction false} ParseParagraphsOf(lines: seq<string>)
    requires AllWithoutLineBreak(lines)
    ensures ParseParagraphs(Paragraphs(lines)) == Some(lines)
    decreases |lines|
  {
    if lines != [] {
      assert NoLineBreak(lines[0]);
      assert AllWithoutLineBreak(lines[1..]) by {
        forall i | 0 <= i < |lines[1..]| ensures NoLineBreak(lines[1..][i]) {
          assert lines[1..][i] == lines[i + 1];
        }
      }
      var rest := Paragraphs(lines[1..]);
      assert Paragraphs(lines) == ParagraphOpen + lines[0] + ParagraphClose + rest;
      ParseElementOf(ParagraphOpen, ParagraphClose, lines[0], rest);
      ParseParagraphsOf(lines[1..]);
      assert [lines[0]] + lines[1..] == lines;
    }
  }

  /** The content of a chapter document: its heading, then its paragraphs. */
  function ChapterContent(title: string, lines: seq<string>): string {
    Heading(title) + Paragraphs(lines)
  }

  /** Reads a chapter document's content back into its title and lines. */
  function ParseChapterContent(s: string): Option<(string, seq<string>)>
  {
    match ParseElement(HeadingOpen, HeadingClose, s)
    case None => None
    case Some((title, rest)) =>
      match ParseParagraphs(rest)
      case None => None
      case Some(lines) => Some((title, lines))
  }

  /** Reading a chapter document succeeds only on the heading of the title
      read, followed by the paragraphs of the lines read. */
  lemma ParseChapterContentSound(s: string)
    ensures var r := ParseChapterContent(s);
      r.Some? ==> ChapterContent(r.value.0, r.value.1) == s
  {
    var e := ParseElement(HeadingOpen, HeadingClose, s);
    if e.Some? {
      ParseElementSound(HeadingOpen, HeadingClose, s);
      ParseParagraphsSound(e.value.1);
    }
  }

  /** A chapter whose title and lines have no line breaks is read back from its content. */
  lemma ParseChapterContentOf(title: string, lines: seq<string>)
    requires NoLineBreak(title) && AllWithoutLineBreak(lines)
    ensures ParseChapterContent(ChapterContent(title, lines)) == Some((title, lines))
  {
    ParseElementOf(HeadingOpen, HeadingClose, title, Paragraphs(lines));
    ParseParagraphsOf(lines);
  }
}
