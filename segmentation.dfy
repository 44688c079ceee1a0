/** What split_content (main.py) computes, stated on values: the chapters of a
    line sequence under a title predicate. The predicate stands for the
    compiled title regex; `reg.match` is a match anchored at the start of the line, and
    nothing here depends on how the predicate decides.

    Split is a left fold, written from the end of the input so that it follows
    the source's loop one line at a time; the lemmas below state what that
    fold guarantees and that these guarantees determine it. */
module Segmentation {

  /** The title of the synthetic first chapter (main.py:39). */
  const HeadTitle: string := "Head (Content before first title)"

  /** The value of a Chapter object: its title and its body lines. */
  datatype ChapterValue = ChapterValue(title: string, body: seq<string>)

  /** One iteration of the loop: a title opens a new, empty chapter; any
      other line goes at the end of the last chapter's body. */
  function Step(chapters: seq<ChapterValue>, line: string, isTitle: string -> bool): (r: seq<ChapterValue>)
    requires |chapters| > 0
    ensures |r| >= |chapters| && r[0].title == chapters[0].title
  {
    var n := |chapters| - 1;
    if isTitle(line) then chapters + [ChapterValue(line, [])]
    else chapters[..n] + [chapters[n].(body := chapters[n].body + [line])]
  }

  /** The chapters of `lines`: the Head chapter, and one more per title line. */
  function Split(lines: seq<string>, isTitle: string -> bool): (r: seq<ChapterValue>)
    ensures |r| > 0 && r[0].title == HeadTitle
    decreases |lines|
  {
    if lines == [] then [ChapterValue(HeadTitle, [])]
    else Step(Split(lines[..|lines| - 1], isTitle), lines[|lines| - 1], isTitle)
  }

  /** The lines that the predicate calls titles, in their order, duplicates kept. */
  function TitleLines(lines: seq<string>, isTitle: string -> bool): (r: seq<string>)
    ensures |r| <= |lines|
    ensures forall i :: 0 <= i < |r| ==> isTitle(r[i])
    decreases |lines|
  {
    if lines == [] then []
    else
      var last := lines[|lines| - 1];
      TitleLines(lines[..|lines| - 1], isTitle) + (if isTitle(last) then [last] else [])
  }

  /** The text a chapter list stands for: the Head body, then each later
      chapter's title line followed by its body. */
  function Flatten(chapters: seq<ChapterValue>): seq<string>
    requires |chapters| > 0
    decreases |chapters|
  {
    var n := |chapters| - 1;
    if n == 0 then chapters[0].body
    else Flatten(chapters[..n]) + [chapters[n].title] + chapters[n].body
  }

  predicate NoTitleIn(lines: seq<string>, isTitle: string -> bool) {
    forall j :: 0 <= j < |lines| ==> !isTitle(lines[j])
  }

  /** The shape every result of split_content has: the Head chapter first,
      a title line heading every later chapter, and no title line in any body. */
  predicate WellFormed(chapters: seq<ChapterValue>, isTitle: string -> bool) {
    && |chapters| > 0
    && chapters[0].title == HeadTitle
    && (forall k :: 1 <= k < |chapters| ==> isTitle(chapters[k].title))
    && (forall k :: 0 <= k < |chapters| ==> NoTitleIn(chapters[k].body, isTitle))
  }

  /** Split's result has that shape. */
  lemma {:induction false} SplitWellFormed(lines: seq<string>, isTitle: string -> bool)
    ensures WellFormed(Split(lines, isTitle), isTitle)
    decreases |lines|
  {
    if lines != [] {
      var init := lines[..|lines| - 1];
      SplitWellFormed(init, isTitle);
      var cs := Split(init, isTitle);
      var n := |cs| - 1;
      var line := lines[|lines| - 1];
      if !isTitle(line) {
        var r := Split(lines, isTitle);
        assert r == cs[..n] + [cs[n].(body := cs[n].body + [line])];
        forall k | 0 <= k < |r| ensures NoTitleIn(r[k].body, isTitle) {
          if k < n {
            assert r[k] == cs[k];
          } else {
            assert NoTitleIn(cs[n].body, isTitle);
          }
        }
      }
    }
  }

  /** `p` holds of every chapter title after the Head and of every body line. */
  predicate EveryLine(chapters: seq<ChapterValue>, p: string -> bool) {
    && (forall k :: 1 <= k < |chapters| ==> p(chapters[k].title))
    && (forall k, j :: 0 <= k < |chapters| && 0 <= j < |chapters[k].body| ==> p(chapters[k].body[j]))
  }

  /** One Step on a line with property `p` keeps EveryLine. */
  lemma EveryLineStep(cs: seq<ChapterValue>, line: string, isTitle: string -> bool, p: string -> bool)
    requires |cs| > 0 && EveryLine(cs, p) && p(line)
    ensures EveryLine(Step(cs, line, isTitle), p)
  {
    var r, n := Step(cs, line, isTitle), |cs| - 1;
    if !isTitle(line) {
      StepBody(cs, line, isTitle);
      forall k, j | 0 <= k < |r| && 0 <= j < |r[k].body| ensures p(r[k].body[j]) {
        if k < n {
          assert r[k] == cs[k];
        } else if j < |cs[k].body| {
          assert r[k].body[j] == cs[k].body[j];
        }
      }
      forall k | 1 <= k < |r| ensures p(r[k].title) {
        assert r[k].title == cs[k].title;
      }
    } else {
      assert r == cs + [ChapterValue(line, [])];
      forall k | 0 <= k < |cs| ensures r[k] == cs[k] {
      }
    }
  }

  /** Whatever holds of every input line holds of every chapter title after
      the Head and of every body line: they are all lines of the input. */
  lemma {:induction false} SplitKeepsLineProperty(lines: seq<string>, isTitle: string -> bool, p: string -> bool)
    requires forall i :: 0 <= i < |lines| ==> p(lines[i])
    ensures EveryLine(Split(lines, isTitle), p)
    decreases |lines|
  {
    if lines != [] {
      var init := lines[..|lines| - 1];
      var line := lines[|lines| - 1];
      forall i | 0 <= i < |init| ensures p(init[i]) {
        assert init[i] == lines[i];
      }
      SplitKeepsLineProperty(init, isTitle, p);
      EveryLineStep(Split(init, isTitle), line, isTitle, p);
    }
  }

  /** Partition round trip: flattening the chapters gives back the input lines. */
  lemma {:induction false} SplitFlatten(lines: seq<string>, isTitle: string -> bool)
    ensures Flatten(Split(lines, isTitle)) == lines
    decreases |lines|
  {
    if lines != [] {
      var init := lines[..|lines| - 1];
      var line := lines[|lines| - 1];
      SplitFlatten(init, isTitle);
      var cs := Split(init, isTitle);
      var n := |cs| - 1;
      var r := Split(lines, isTitle);
      assert lines == init + [line];
      if isTitle(line) {
        assert r[..|cs|] == cs;
      } else {
        assert r[..n] == cs[..n];
        if n > 0 {
          assert Flatten(cs) == Flatten(cs[..n]) + [cs[n].title] + cs[n].body;
        }
      }
    }
  }

  /** One chapter for the Head plus one per title line; the later chapters'
      titles are exactly the title lines, in source order. */
  lemma {:induction false} SplitTitles(lines: seq<string>, isTitle: string -> bool)
    ensures |Split(lines, isTitle)| == 1 + |TitleLines(lines, isTitle)|
    ensures forall i :: 0 <= i < |TitleLines(lines, isTitle)| ==>
              Split(lines, isTitle)[i + 1].title == TitleLines(lines, isTitle)[i]
    decreases |lines|
  {
    if lines != [] {
      var init := lines[..|lines| - 1];
      SplitTitles(init, isTitle);
      var cs := Split(init, isTitle);
      var r := Split(lines, isTitle);
      var ts := TitleLines(init, isTitle);
      var n := |cs| - 1;
      forall i | 0 <= i < |TitleLines(lines, isTitle)|
        ensures r[i + 1].title == TitleLines(lines, isTitle)[i]
      {
        if i < |ts| {
          assert TitleLines(lines, isTitle)[i] == ts[i];
          if i + 1 < n {
            assert r[i + 1] == r[..n][i + 1] == cs[..n][i + 1];
          }
        }
      }
    }
  }

  /** Flattening starts with the Head body, and a second chapter's title comes right after it. */
  lemma {:induction false} FlattenStart(chapters: seq<ChapterValue>)
    requires |chapters| > 0
    ensures |chapters[0].body| <= |Flatten(chapters)|
    ensures Flatten(chapters)[..|chapters[0].body|] == chapters[0].body
    ensures |chapters| == 1 ==> Flatten(chapters) == chapters[0].body
    ensures |chapters| > 1 ==> |chapters[0].body| < |Flatten(chapters)| &&
                               Flatten(chapters)[|chapters[0].body|] == chapters[1].title
    decreases |chapters|
  {
    var n := |chapters| - 1;
    if n > 0 {
      var init := chapters[..n];
      FlattenStart(init);
      assert init[0] == chapters[0];
      var f := Flatten(init);
      assert Flatten(chapters) == f + [chapters[n].title] + chapters[n].body;
      if n == 1 {
        assert f == chapters[0].body;
      } else {
        assert init[1] == chapters[1];
      }
    }
  }

  /** The Head chapter's body is the longest prefix of the input without a
      title line: all of it when no line is a title, nothing when the first is. */
  lemma SplitHead(lines: seq<string>, isTitle: string -> bool)
    ensures var head := Split(lines, isTitle)[0].body;
      && |head| <= |lines| && head == lines[..|head|]
      && NoTitleIn(head, isTitle)
      && (|head| < |lines| ==> isTitle(lines[|head|]))
    ensures NoTitleIn(lines, isTitle) ==> Split(lines, isTitle)[0].body == lines
    ensures |lines| > 0 && isTitle(lines[0]) ==> Split(lines, isTitle)[0].body == []
  {
    var cs := Split(lines, isTitle);
    SplitWellFormed(lines, isTitle);
    SplitFlatten(lines, isTitle);
    FlattenStart(cs);
    var head := cs[0].body;
    assert NoTitleIn(head, isTitle);
    assert |head| < |lines| ==> |cs| > 1 && isTitle(lines[|head|]);
    assert |head| > 0 ==> head[0] == lines[0];
  }

  /** `chapters` with `more` added to the end of the last chapter's body. */
  function ExtendLast(chapters: seq<ChapterValue>, more: seq<string>): seq<ChapterValue>
    requires |chapters| > 0
  {
    var n := |chapters| - 1;
    chapters[..n] + [chapters[n].(body := chapters[n].body + more)]
  }

  lemma StepExtendLast(chapters: seq<ChapterValue>, more: seq<string>, line: string, isTitle: string -> bool)
    requires |chapters| > 0 && !isTitle(line)
    ensures Step(ExtendLast(chapters, more), line, isTitle) == ExtendLast(chapters, more + [line])
  {
    var n := |chapters| - 1;
    var e := ExtendLast(chapters, more);
    assert e[..n] == chapters[..n];
    assert chapters[n].body + more + [line] == chapters[n].body + (more + [line]);
  }

  /** Split consumes its input one line at a time, from the front. */
  lemma SplitSnoc(init: seq<string>, line: string, isTitle: string -> bool)
    ensures Split(init + [line], isTitle) == Step(Split(init, isTitle), line, isTitle)
  {
    var lines := init + [line];
    assert lines[..|lines| - 1] == init;
    assert lines[|lines| - 1] == line;
  }

  /** One more line of the input is one more Step. */
  lemma SplitPrefixStep(lines: seq<string>, i: nat, isTitle: string -> bool)
    requires i < |lines|
    ensures Split(lines[..i + 1], isTitle) == Step(Split(lines[..i], isTitle), lines[i], isTitle)
  {
    assert lines[..i + 1] == lines[..i] + [lines[i]];
    SplitSnoc(lines[..i], lines[i], isTitle);
  }

  /** Step on a title line appends a new chapter. */
  lemma StepTitle(chapters: seq<ChapterValue>, line: string, isTitle: string -> bool)
    requires |chapters| > 0 && isTitle(line)
    ensures Step(chapters, line, isTitle) == chapters + [ChapterValue(line, [])]
  {
  }

  /** Step on a body line, element by element. */
  lemma StepBody(chapters: seq<ChapterValue>, line: string, isTitle: string -> bool)
    requires |chapters| > 0 && !isTitle(line)
    ensures var r, n := Step(chapters, line, isTitle), |chapters| - 1;
      && |r| == |chapters|
      && (forall k :: 0 <= k < n ==> r[k] == chapters[k])
      && r[n] == ChapterValue(chapters[n].title, chapters[n].body + [line])
  {
  }

  /** Appending title-free lines extends the last chapter's body and nothing else. */
  lemma {:induction false} SplitAppendBody(prefix: seq<string>, more: seq<string>, isTitle: string -> bool)
    requires NoTitleIn(more, isTitle)
    ensures Split(prefix + more, isTitle) == ExtendLast(Split(prefix, isTitle), more)
    decreases |more|
  {
    var cs := Split(prefix, isTitle);
    if more == [] {
      var n := |cs| - 1;
      assert prefix + more == prefix;
      assert cs[n].body + more == cs[n].body;
      assert cs == cs[..n] + [cs[n]];
    } else {
      var m := |more| - 1;
      var front, line := more[..m], more[m];
      assert NoTitleIn(front, isTitle);
      assert !isTitle(line);
      SplitAppendBody(prefix, front, isTitle);
      assert prefix + more == (prefix + front) + [line] by {
        assert more == front + [line];
      }
      SplitSnoc(prefix + front, line, isTitle);
      StepExtendLast(cs, front, line, isTitle);
      assert front + [line] == more;
    }
  }

  /** A title line followed by title-free lines adds exactly one chapter. */
  lemma SplitAppendChapter(prefix: seq<string>, chapter: ChapterValue, isTitle: string -> bool)
    requires isTitle(chapter.title) && NoTitleIn(chapter.body, isTitle)
    ensures Split(prefix + [chapter.title] + chapter.body, isTitle) == Split(prefix, isTitle) + [chapter]
  {
    var title, body := chapter.title, chapter.body;
    var cs := Split(prefix, isTitle);
    SplitSnoc(prefix, title, isTitle);
    var withTitle := cs + [ChapterValue(title, [])];
    SplitAppendBody(prefix + [title], body, isTitle);
    assert withTitle[..|withTitle| - 1] == cs;
    assert [] + body == body;
  }

  /** Input without a title line stays in the Head chapter. */
  lemma SplitTitleFree(lines: seq<string>, isTitle: string -> bool)
    requires NoTitleIn(lines, isTitle)
    ensures Split(lines, isTitle) == [ChapterValue(HeadTitle, lines)]
  {
    SplitAppendBody([], lines, isTitle);
    assert [] + lines == lines;
  }

  /** Dropping the last chapter keeps a chapter list well formed. */
  lemma WellFormedInit(chapters: seq<ChapterValue>, isTitle: string -> bool)
    requires WellFormed(chapters, isTitle) && |chapters| > 1
    ensures WellFormed(chapters[..|chapters| - 1], isTitle)
  {
    var init := chapters[..|chapters| - 1];
    forall k | 0 <= k < |init| ensures NoTitleIn(init[k].body, isTitle) {
      assert init[k] == chapters[k];
    }
  }

  /** The properties above pin the result down: a well-formed chapter list
      that flattens to `lines` is Split(lines). */
  lemma {:induction false} SplitUnique(lines: seq<string>, chapters: seq<ChapterValue>, isTitle: string -> bool)
    requires WellFormed(chapters, isTitle) && Flatten(chapters) == lines
    ensures chapters == Split(lines, isTitle)
    decreases |chapters|
  {
    var n := |chapters| - 1;
    var last := chapters[n];
    assert NoTitleIn(last.body, isTitle);
    if n == 0 {
      SplitTitleFree(lines, isTitle);
      assert chapters == [last];
    } else {
      var init := chapters[..n];
      WellFormedInit(chapters, isTitle);
      assert isTitle(last.title);
      var prefix := Flatten(init);
      assert lines == prefix + [last.title] + last.body;
      SplitUnique(prefix, init, isTitle);
      SplitAppendChapter(prefix, last, isTitle);
      assert chapters == chapters[..n] + [chapters[n]];
    }
  }

  /** Split as the one well-formed partition of the input. */
  lemma SplitCharacterized(lines: seq<string>, chapters: seq<ChapterValue>, isTitle: string -> bool)
    ensures chapters == Split(lines, isTitle) <==>
            WellFormed(chapters, isTitle) && Flatten(chapters) == lines
  {
    SplitWellFormed(lines, isTitle);
    SplitFlatten(lines, isTitle);
    if WellFormed(chapters, isTitle) && Flatten(chapters) == lines {
      SplitUnique(lines, chapters, isTitle);
    }
  }
}
