/**
 * Plain-text files as the store sees them. A file is its whole text; it is
 * read back line by line the way BufferedReader.readLine and Files.lines do
 * ("\n", "\r" and "\r\n" end a line, a final unterminated line still counts),
 * and written line by line with a "\n" after each line.
 */
module Text {

  /** Index of the first occurrence of c in s, or |s| when there is none (String.indexOf, with |s| for -1). */
  function IndexOf(s: string, c: char): (i: nat)
    ensures i <= |s|
    ensures c !in s[..i]
    ensures i < |s| ==> s[i] == c
  {
    if |s| == 0 || s[0] == c then 0 else 1 + IndexOf(s[1..], c)
  }

  /** The first c in k + [c] + rest is the one after k. */
  lemma {:induction false} IndexOfAfterPrefix(k: string, c: char, rest: string)
    requires c !in k
    ensures IndexOf(k + [c] + rest, c) == |k|
  {
    if |k| > 0 {
      assert (k + [c] + rest)[1..] == k[1..] + [c] + rest;
      IndexOfAfterPrefix(k[1..], c, rest);
    }
  }

  predicate IsBreak(c: char) {
    c == '\n' || c == '\r'
  }

  predicate NoBreaks(s: string) {
    forall i :: 0 <= i < |s| ==> !IsBreak(s[i])
  }

  /** Index of the first line terminator character in s, or |s| when there is none. */
  function FirstBreak(s: string): (i: nat)
    ensures i <= |s|
    ensures NoBreaks(s[..i])
    ensures i < |s| ==> IsBreak(s[i])
  {
    if |s| == 0 || IsBreak(s[0]) then 0 else 1 + FirstBreak(s[1..])
  }

  /** The text left after readLine has consumed the first line and its terminator. */
  function AfterFirstLine(s: string): (rest: string)
    requires |s| > 0
    ensures |rest| < |s|
  {
    var i := FirstBreak(s);
    if i == |s| then []
    else if s[i] == '\r' && i + 1 < |s| && s[i + 1] == '\n' then s[i + 2..]
    else s[i + 1..]
  }

  /** The lines readLine returns, in order, until it returns null. */
  function ReadLines(s: string): (lines: seq<string>)
    ensures forall j :: 0 <= j < |lines| ==> NoBreaks(lines[j])
    ensures |lines| <= |s|
    decreases |s|
  {
    if |s| == 0 then [] else [s[..FirstBreak(s)]] + ReadLines(AfterFirstLine(s))
  }

  /** The text of a file written as `line + "\n"` for each line in turn. */
  function JoinLines(lines: seq<string>): (s: string)
    ensures |lines| > 0 ==> |s| > 0 && s[|s| - 1] == '\n'
  {
    if |lines| == 0 then [] else lines[0] + "\n" + JoinLines(lines[1..])
  }

  /** Writing one more line appends it, with its terminator, to the end of the text. */
  lemma {:induction false} JoinLinesSnoc(lines: seq<string>, line: string)
    ensures JoinLines(lines + [line]) == JoinLines(lines) + line + "\n"
  {
    if |lines| > 0 {
      assert (lines + [line])[1..] == lines[1..] + [line];
      JoinLinesSnoc(lines[1..], line);
    } else {
      assert JoinLines([line]) == line + "\n" + JoinLines([]);
    }
  }

  lemma {:induction false} FirstBreakAfterLine(line: string, c: char, rest: string)
    requires NoBreaks(line) && IsBreak(c)
    ensures FirstBreak(line + [c] + rest) == |line|
  {
    if |line| > 0 {
      assert (line + [c] + rest)[1..] == line[1..] + [c] + rest;
      FirstBreakAfterLine(line[1..], c, rest);
    }
  }

  /** Reading back what was written line by line gives the same lines, when no line holds a terminator. */
  lemma {:induction false} ReadJoinedLines(lines: seq<string>)
    requires forall j :: 0 <= j < |lines| ==> NoBreaks(lines[j])
    ensures ReadLines(JoinLines(lines)) == lines
  {
    if |lines| > 0 {
      var s := JoinLines(lines);
      var l := lines[0];
      assert s == l + ['\n'] + JoinLines(lines[1..]);
      FirstBreakAfterLine(l, '\n', JoinLines(lines[1..]));
      assert s[..|l|] == l;
      assert AfterFirstLine(s) == JoinLines(lines[1..]);
      ReadJoinedLines(lines[1..]);
    }
  }

  lemma {:induction false} FirstBreakOfPrefix(p: string, q: string)
    requires FirstBreak(p) < |p|
    ensures FirstBreak(p + q) == FirstBreak(p)
  {
    if !IsBreak(p[0]) {
      assert (p + q)[1..] == p[1..] + q;
      FirstBreakOfPrefix(p[1..], q);
    }
  }

  /**
   * Text whose last line is terminated is read independently of what is
   * appended after it: appending to a log never merges into its last line.
   */
  lemma {:induction false} ReadLinesAppend(p: string, q: string)
    requires |p| > 0 ==> p[|p| - 1] == '\n'
    ensures ReadLines(p + q) == ReadLines(p) + ReadLines(q)
    decreases |p|
  {
    if |p| > 0 {
      ReadFirstLineOfPrefix(p, q);
      ReadLinesAppend(p[LineEnd(p)..], q);
    } else {
      assert p + q == q;
    }
  }

  lemma ReadFirstLineOfPrefix(p: string, q: string)
    requires |p| > 0 && p[|p| - 1] == '\n'
    ensures ReadLines(p) == [p[..FirstBreak(p)]] + ReadLines(p[LineEnd(p)..])
    ensures ReadLines(p + q) == [p[..FirstBreak(p)]] + ReadLines(p[LineEnd(p)..] + q)
    ensures |p[LineEnd(p)..]| > 0 ==> p[LineEnd(p)..][|p[LineEnd(p)..]| - 1] == '\n'
  {
    var i := FirstBreak(p);
    FirstBreakOfPrefix(p, q);
    AfterFirstLineOfPrefix(p, q);
    assert (p + q)[..i] == p[..i];
  }

  lemma FirstBreakBeforeEnd(p: string)
    requires |p| > 0 && p[|p| - 1] == '\n'
    ensures FirstBreak(p) < |p|
  {
    var i := FirstBreak(p);
    if i == |p| {
      assert false;
    }
  }

  /** Where the first line of p, terminator included, ends. */
  function LineEnd(p: string): (n: nat)
    requires |p| > 0 && p[|p| - 1] == '\n'
    ensures FirstBreak(p) < n <= |p|
    ensures AfterFirstLine(p) == p[n..]
  {
    FirstBreakBeforeEnd(p);
    var i := FirstBreak(p);
    if p[i] == '\r' && i + 1 < |p| && p[i + 1] == '\n' then i + 2 else i + 1
  }

  lemma AfterFirstLineOfPrefix(p: string, q: string)
    requires |p| > 0 && p[|p| - 1] == '\n'
    requires FirstBreak(p + q) == FirstBreak(p)
    ensures AfterFirstLine(p + q) == p[LineEnd(p)..] + q
    ensures |p[LineEnd(p)..]| > 0 ==> p[LineEnd(p)..][|p[LineEnd(p)..]| - 1] == '\n'
  {
    var i := FirstBreak(p);
    var n := LineEnd(p);
    if p[i] == '\r' {
      assert i + 1 < |p|;
      assert (p + q)[i + 1] == p[i + 1];
    }
    assert (p + q)[n..] == p[n..] + q;
  }
}
