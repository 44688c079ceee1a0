/** The title pattern the page offers by default (main.py:64), `第.*章.*`,
    as `reg.match` applies it: it must match at the start of the line, and
    `.` matches any character except a line break. */
module DefaultPattern {
  import opened Segmentation

  const Di: char := '\U{7B2C}'     // 第
  const Zhang: char := '\U{7AE0}'  // 章

  /** Some 章 occurs in `s` before the first line break: the part `.*章` of the pattern. */
  predicate MarkBeforeLineBreak(s: string)
    decreases |s|
  {
    if s == [] || s[0] == '\n' then false
    else s[0] == Zhang || MarkBeforeLineBreak(s[1..])
  }

  /** The default title predicate; the final `.*` matches the empty string, so it adds no condition. */
  predicate IsDefaultTitle(line: string) {
    |line| > 0 && line[0] == Di && MarkBeforeLineBreak(line[1..])
  }

  /** The scan finds exactly the positions the regex can use for 章. */
  lemma {:induction false} MarkBeforeLineBreakIff(s: string)
    ensures MarkBeforeLineBreak(s) <==>
            exists j :: 0 <= j < |s| && s[j] == Zhang && '\n' !in s[..j]
    decreases |s|
  {
    if s != [] && s[0] != '\n' {
      MarkBeforeLineBreakIff(s[1..]);
      if s[0] == Zhang {
        assert s[..0] == [];
      } else if MarkBeforeLineBreak(s[1..]) {
        var j :| 0 <= j < |s[1..]| && s[1..][j] == Zhang && '\n' !in s[1..][..j];
        assert s[..j + 1] == [s[0]] + s[1..][..j];
      } else {
        forall j | 0 <= j < |s| && s[j] == Zhang ensures '\n' in s[..j] {
          assert s[1..][j - 1] == Zhang;
          assert '\n' in s[1..][..j - 1];
          assert s[..j] == [s[0]] + s[1..][..j - 1];
        }
      }
    } else if s != [] {
      forall j | 0 <= j < |s| && s[j] == Zhang ensures '\n' in s[..j] {
        assert s[..j][0] == '\n';
      }
    }
  }

  const FirstTitle: string := [Di, '一', Zhang, ' ', 's', 't', 'a', 'r', 't']  // 第一章 start
  const SecondTitle: string := [Di, '二', Zhang, ' ', 'e', 'n', 'd']          // 第二章 end

  /** Which lines of the five-line example below the default pattern takes for titles. */
  lemma ScenarioTitles()
    ensures IsDefaultTitle(FirstTitle) && IsDefaultTitle(SecondTitle)
    ensures !IsDefaultTitle("foo") && !IsDefaultTitle("bar") && !IsDefaultTitle("baz")
  {
    assert MarkBeforeLineBreak(FirstTitle[1..]) by { assert FirstTitle[1..][1..][0] == Zhang; }
    assert MarkBeforeLineBreak(SecondTitle[1..]) by { assert SecondTitle[1..][1..][0] == Zhang; }
  }

  /** Body, title, body, title, body: three chapters, under any title test. */
  lemma ThreeChapters(a: string, t1: string, b: string, t2: string, c: string, isTitle: string -> bool)
    requires !isTitle(a) && isTitle(t1) && !isTitle(b) && isTitle(t2) && !isTitle(c)
    ensures Split([a, t1, b, t2, c], isTitle) ==
              [ChapterValue(HeadTitle, [a]), ChapterValue(t1, [b]), ChapterValue(t2, [c])]
  {
    var c1, c2 := ChapterValue(t1, [b]), ChapterValue(t2, [c]);
    var head := ChapterValue(HeadTitle, [a]);
    var upToB, all := [a, t1, b], [a, t1, b, t2, c];
    assert [a] + [c1.title] + c1.body == upToB;
    assert upToB + [c2.title] + c2.body == all;
    SplitTitleFree([a], isTitle);
    SplitAppendChapter([a], c1, isTitle);
    SplitAppendChapter(upToB, c2, isTitle);
    assert Split(all, isTitle) == [head] + [c1] + [c2];
    assert [head] + [c1] + [c2] == [head, c1, c2];
  }

  /** A five-line example: foo, 第一章 start, bar, 第二章 end, baz split into three chapters. */
  lemma ScenarioThreeChapters()
    ensures Split(["foo", FirstTitle, "bar", SecondTitle, "baz"], IsDefaultTitle) ==
              [ChapterValue(HeadTitle, ["foo"]), ChapterValue(FirstTitle, ["bar"]), ChapterValue(SecondTitle, ["baz"])]
  {
    ScenarioTitles();
    ThreeChapters("foo", FirstTitle, "bar", SecondTitle, "baz", IsDefaultTitle);
  }
}
