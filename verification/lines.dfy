/** Python's `str.splitlines(keepends=True)`, the line source of both splitters. */
module Lines {
  import opened Text

  /** The characters at which `str.splitlines` ends a line; "\r\n" is one terminator. */
  const LineBreaks: set<char> := {
    '\n', '\r', '\U{0B}', '\U{0C}', '\U{1C}', '\U{1D}', '\U{1E}', '\U{85}', '\U{2028}', '\U{2029}'
  }

  /** The line ends in a terminator character (for "\r\n", in its '\n'). */
  predicate EndsWithBreak(line: string) {
    |line| > 0 && line[|line| - 1] in LineBreaks
  }

  /** One line: no terminator before its last character, except the '\r' of a final "\r\n". */
  predicate IsOneLine(line: string) {
    forall j :: 0 <= j < |line| - 1 ==>
      line[j] !in LineBreaks || (line[j] == '\r' && j == |line| - 2 && line[j + 1] == '\n')
  }

  /** The end (exclusive) of the line that continues at position `k` of `s`. */
  function LineEndFrom(s: string, k: nat): (e: nat)
    requires k < |s|
    ensures k < e <= |s|
    ensures e == |s| || s[e - 1] in LineBreaks
    ensures e < |s| ==> !(s[e - 1] == '\r' && s[e] == '\n')
    ensures forall j :: k <= j < e - 1 ==>
      s[j] !in LineBreaks || (s[j] == '\r' && j == e - 2 && s[e - 1] == '\n')
    decreases |s| - k
  {
    if s[k] == '\r' && k + 1 < |s| && s[k + 1] == '\n' then k + 2
    else if s[k] in LineBreaks then k + 1
    else if k + 1 == |s| then |s|
    else LineEndFrom(s, k + 1)
  }

  /** `s.splitlines(keepends=True)`: the lines of `s`, terminators kept, no empty trailing line.
      Joining them gives `s` back; every line but the last ends in a terminator, and a
      "\r\n" is never cut between its two characters. */
  function SplitLines(s: string): (lines: seq<string>)
    ensures Concat(lines) == s
    ensures forall k :: 0 <= k < |lines| ==> |lines[k]| > 0 && IsOneLine(lines[k])
    ensures forall k :: 0 <= k < |lines| - 1 ==> EndsWithBreak(lines[k])
    ensures forall k :: 0 <= k < |lines| - 1 ==>
      !(lines[k][|lines[k]| - 1] == '\r' && lines[k + 1][0] == '\n')
    decreases |s|
  {
    if |s| == 0 then []
    else
      var e := LineEndFrom(s, 0);
      var rest := SplitLines(s[e..]);
      ConsLine(s, e, rest);
      [s[..e]] + rest
  }

  /** The first line in front of the lines of the rest: the shape `SplitLines` promises. */
  lemma ConsLine(s: string, e: nat, rest: seq<string>)
    requires |s| > 0 && e == LineEndFrom(s, 0)
    requires Concat(rest) == s[e..]
    requires forall k :: 0 <= k < |rest| ==> |rest[k]| > 0 && IsOneLine(rest[k])
    requires forall k :: 0 <= k < |rest| - 1 ==> EndsWithBreak(rest[k])
    requires forall k :: 0 <= k < |rest| - 1 ==>
      !(rest[k][|rest[k]| - 1] == '\r' && rest[k + 1][0] == '\n')
    ensures var lines := [s[..e]] + rest;
      && Concat(lines) == s
      && (forall k :: 0 <= k < |lines| ==> |lines[k]| > 0 && IsOneLine(lines[k]))
      && (forall k :: 0 <= k < |lines| - 1 ==> EndsWithBreak(lines[k]))
      && (forall k :: 0 <= k < |lines| - 1 ==>
            !(lines[k][|lines[k]| - 1] == '\r' && lines[k + 1][0] == '\n'))
  {
    var lines := [s[..e]] + rest;
    FirstLine(s, e);
    SplitAt(s, e);
    FirstOfRest(s[e..], rest);
    assert Concat(lines) == s[..e] + Concat(rest);
    forall k | 0 <= k < |lines| - 1
      ensures !(lines[k][|lines[k]| - 1] == '\r' && lines[k + 1][0] == '\n')
    {
      if k > 0 {
        assert lines[k] == rest[k - 1] && lines[k + 1] == rest[k];
      }
    }
  }

  /** The text up to the first line end is one line. */
  lemma FirstLine(s: string, e: nat)
    requires |s| > 0 && e == LineEndFrom(s, 0)
    ensures IsOneLine(s[..e])
  {
    var line := s[..e];
    forall j | 0 <= j < |line| - 1
      ensures line[j] !in LineBreaks || (line[j] == '\r' && j == |line| - 2 && line[j + 1] == '\n')
    {
      assert line[j] == s[j] && line[j + 1] == s[j + 1];
    }
  }

  lemma SplitAt(s: string, e: nat)
    requires e <= |s|
    ensures s == s[..e] + s[e..]
  {
  }

  /** The first line of the rest starts with the rest's first character. */
  lemma FirstOfRest(t: string, lines: seq<string>)
    requires Concat(lines) == t
    requires forall k :: 0 <= k < |lines| ==> |lines[k]| > 0
    ensures |lines| > 0 ==> |t| > 0 && lines[0][0] == t[0]
  {
    if |lines| > 0 {
      assert t == lines[0] + Concat(lines[1..]);
    }
  }

  /** Text without an inner terminator is a single line. */
  lemma SingleLine(s: string)
    requires |s| > 0
    requires forall j :: 0 <= j < |s| - 1 ==> s[j] !in LineBreaks
    ensures SplitLines(s) == [s]
  {
    var e := LineEndFrom(s, 0);
    assert e == |s|;
    assert s[..e] == s;
  }
}
