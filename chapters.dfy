/** The Chapter objects of main.py and split_content, which builds them in
    one pass over the lines, appending to the last chapter's list in place. */
module Chapters {
  import Html
  import opened Segmentation

  class Chapter {
    var title: string
    var contentLines: seq<string>

    /** Chapter(title): a chapter with the given title and an empty body. */
    constructor (title: string)
      ensures this.title == title && contentLines == []
    {
      this.title := title;
      contentLines := [];
    }

    /** The html_content property: one paragraph element per body line. */
    function HtmlContent(): string
      reads this
    {
      Html.Paragraphs(contentLines)
    }

    /** The chapter's current title and body, as a value. */
    function Value(): ChapterValue
      reads this
    {
      ChapterValue(title, contentLines)
    }
  }

  /** The values of a list of chapters, in order. */
  function Values(chapters: seq<Chapter>): (r: seq<ChapterValue>)
    reads chapters
    ensures |r| == |chapters|
    ensures forall k :: 0 <= k < |r| ==> r[k] == chapters[k].Value()
  {
    seq(|chapters|, k reads chapters requires 0 <= k < |chapters| => chapters[k].Value())
  }

  /** No chapter object occurs twice. */
  predicate Distinct(chapters: seq<Chapter>) {
    forall k, l :: 0 <= k < l < |chapters| ==> chapters[k] != chapters[l]
  }

  /** The chapter objects hold, in order, the titles and bodies of `values`. */
  predicate Mirrors(chapters: seq<Chapter>, values: seq<ChapterValue>)
    reads chapters
  {
    && |chapters| == |values|
    && forall k :: 0 <= k < |chapters| ==>
         chapters[k].title == values[k].title && chapters[k].contentLines == values[k].body
  }

  /** One pass of the loop of split_content: a title line opens a new
      chapter; any other line is appended to the last chapter's list. */
  method AddLine(chapters: seq<Chapter>, line: string, isTitle: string -> bool,
                 ghost values: seq<ChapterValue>) returns (result: seq<Chapter>)
    requires |chapters| > 0 && Distinct(chapters) && Mirrors(chapters, values)
    modifies chapters[|chapters| - 1]
    ensures Distinct(result) && Mirrors(result, Step(values, line, isTitle))
    ensures forall k :: 0 <= k < |result| ==> (k < |chapters| && result[k] == chapters[k]) || fresh(result[k])
  {
    var n := |chapters| - 1;
    if isTitle(line) {
      var chapter := new Chapter(line);
      result := chapters + [chapter];
      StepTitle(values, line, isTitle);
    } else {
      var last := chapters[n];
      last.contentLines := last.contentLines + [line];
      result := chapters;
      var next := Step(values, line, isTitle);
      StepBody(values, line, isTitle);
      forall k | 0 <= k < n ensures chapters[k].contentLines == next[k].body {
        assert chapters[k] != last;
      }
    }
  }

  /** split_content: the chapters of `lines`, as new, distinct objects whose
      values are Split(lines) (whose properties module Segmentation proves). */
  method SplitContent(lines: seq<string>, isTitle: string -> bool) returns (chapters: seq<Chapter>)
    ensures Values(chapters) == Split(lines, isTitle)
    ensures Distinct(chapters)
    ensures forall k :: 0 <= k < |chapters| ==> fresh(chapters[k])
  {
    var head := new Chapter(HeadTitle);
    chapters := [head];
    assert lines[..0] == [];
    ghost var current := Split(lines[..0], isTitle);
    for i := 0 to |lines|
      invariant current == Split(lines[..i], isTitle)
      invariant forall k :: 0 <= k < |chapters| ==> fresh(chapters[k])
      invariant Distinct(chapters) && Mirrors(chapters, current)
    {
      SplitPrefixStep(lines, i, isTitle);
      chapters := AddLine(chapters, lines[i], isTitle, current);
      current := Step(current, lines[i], isTitle);
    }
    assert lines[..|lines|] == lines;
    assert Values(chapters) == current;
  }
}
