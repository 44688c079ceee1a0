/** Line breaks. main.py cuts the decoded file into lines with
    content.split('\n') (main.py:57), so no line it hands on contains '\n'. */
module Lines {

  predicate NoLineBreak(s: string) {
    '\n' !in s
  }

  predicate AllWithoutLineBreak(lines: seq<string>) {
    forall i :: 0 <= i < |lines| ==> NoLineBreak(lines[i])
  }

  /** Index of the first '\n' in `s`, or |s| when there is none. */
  function FirstLineBreak(s: string): (k: nat)
    ensures k <= |s|
    ensures forall i :: 0 <= i < k ==> s[i] != '\n'
    ensures k < |s| ==> s[k] == '\n'
    decreases |s|
  {
    if s == [] || s[0] == '\n' then 0 else 1 + FirstLineBreak(s[1..])
  }

  lemma {:induction false} FirstLineBreakAfter(a: string, b: string)
    requires NoLineBreak(a)
    ensures FirstLineBreak(a + b) == |a| + FirstLineBreak(b)
    decreases |a|
  {
    if a != [] {
      assert (a + b)[0] == a[0];
      assert (a + b)[1..] == a[1..] + b;
      FirstLineBreakAfter(a[1..], b);
    } else {
      assert a + b == b;
    }
  }

  /** str.split('\n'): the pieces between line breaks; the empty string is one empty line. */
  function SplitLines(s: string): (lines: seq<string>)
    ensures |lines| > 0
    ensures AllWithoutLineBreak(lines)
    decreases |s|
  {
    var k := FirstLineBreak(s);
    if k == |s| then [s] else [s[..k]] + SplitLines(s[k + 1..])
  }

  /** '\n'.join(lines). */
  function JoinLines(lines: seq<string>): string
    requires |lines| > 0
    decreases |lines|
  {
    if |lines| == 1 then lines[0] else lines[0] + "\n" + JoinLines(lines[1..])
  }

  /** Splitting loses nothing: joining the lines with '\n' gives the text back. */
  lemma {:induction false} JoinSplitLines(s: string)
    ensures JoinLines(SplitLines(s)) == s
    decreases |s|
  {
    var k := FirstLineBreak(s);
    if k < |s| {
      JoinSplitLines(s[k + 1..]);
      var lines := SplitLines(s);
      assert lines[1..] == SplitLines(s[k + 1..]);
      assert s == s[..k] + "\n" + s[k + 1..];
    }
  }

  /** The line break cut first is the one right after the first line. */
  lemma FirstLineBreakJoined(a: string, b: string)
    requires NoLineBreak(a)
    ensures FirstLineBreak(a + "\n" + b) == |a|
  {
    assert a + "\n" + b == a + ("\n" + b);
    FirstLineBreakAfter(a, "\n" + b);
  }

  /** Splitting a join of break-free lines gives those lines back. */
  lemma {:induction false} SplitJoinLines(lines: seq<string>)
    requires |lines| > 0 && AllWithoutLineBreak(lines)
    ensures SplitLines(JoinLines(lines)) == lines
    decreases |lines|
  {
    var first := lines[0];
    assert NoLineBreak(first);
    if |lines| == 1 {
      assert first + [] == first;
      FirstLineBreakAfter(first, []);
    } else {
      var more := lines[1..];
      assert AllWithoutLineBreak(more) by {
        forall i | 0 <= i < |more| ensures NoLineBreak(more[i]) {
          assert more[i] == lines[i + 1];
        }
      }
      SplitJoinLines(more);
      var rest := JoinLines(more);
      var s := first + "\n" + rest;
      assert JoinLines(lines) == s;
      FirstLineBreakJoined(first, rest);
      assert s[..|first|] == first;
      assert s[|first| + 1..] == rest;
      assert SplitLines(s) == [first] + SplitLines(rest);
      assert [first] + more == lines;
    }
  }
}
