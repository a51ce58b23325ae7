/** The line-accumulation policy shared by `split_code_block` and `split_text_block`
    (gpt_telegram_bot.py:105-131 and 138-164), and the fixed-width slicing of the
    fallback path (gpt_telegram_bot.py:174-177).

    Three places of the source are modelled as they are evidently meant, not as written:
    - line 146 adds the integer `line_length` to the string buffer (a TypeError);
      the model appends the line itself, as line 113 does for code;
    - line 152 makes the text buffer the one-element list `[line]` on every overflow,
      where line 119 makes the code buffer the line itself; the model keeps both buffers
      strings;
    - lines 125 and 158 refill the buffer from `line[budget:]` instead of from the
      buffer's own remainder, and store it as a one-element list; the model keeps the
      buffer a string and slices the remainder (see `HardSlice`, and `AsWrittenSliceStep`
      for the loop as written).
    With a list buffer, lines 117 and 129 raise a TypeError when they concatenate it with
    the markers, while lines 150 and 162 succeed and append the list itself as a chunk. */
module Packing {
  import opened Text
  import opened Lines

  /** Python's `s[:n]`: the slice is clamped to the length. */
  function Take(s: string, n: nat): string {
    if n <= |s| then s[..n] else s
  }

  /** Python's `s[n:]`. */
  function Drop(s: string, n: nat): string {
    if n <= |s| then s[n..] else []
  }

  /** The hard-slice loop `while current_length > budget`, slicing the remainder:
      pieces of exactly `budget` characters, then a non-empty remainder that fits,
      which stays in the buffer. Nothing of the line is lost. */
  function HardSlice(line: string, budget: nat): (r: (seq<string>, string))
    requires budget > 0
    ensures Concat(r.0) + r.1 == line
    ensures forall k :: 0 <= k < |r.0| ==> |r.0[k]| == budget
    ensures |r.1| <= budget
    ensures |line| > 0 ==> |r.1| > 0
    ensures |line| <= budget ==> r.0 == []
    decreases |line|
  {
    if |line| <= budget then ([], line)
    else
      var tail := HardSlice(line[budget..], budget);
      assert line == line[..budget] + line[budget..];
      ([line[..budget]] + tail.0, tail.1)
  }

  /** Greedy packing of whole lines into buffers of at most `budget` characters.
      `current` is the buffer carried in from the lines already read. A line that
      does not fit flushes a non-empty buffer and starts the next one; a line that
      alone exceeds the budget is hard-sliced first. The final buffer is flushed when
      non-empty (`if current_part:`). */
  function Pack(lines: seq<string>, budget: nat, current: string): seq<string>
    requires budget > 0 && |current| <= budget
    decreases |lines|
  {
    if |lines| == 0 then
      (if |current| > 0 then [current] else [])
    else if |current| + |lines[0]| <= budget then
      Pack(lines[1..], budget, current + lines[0])
    else
      var sliced := HardSlice(lines[0], budget);
      (if |current| > 0 then [current] else []) + sliced.0 + Pack(lines[1..], budget, sliced.1)
  }

  /** The shared splitter: pack the lines within `budget` and, for code, re-wrap every
      chunk in its own pair of fence markers. */
  function SplitLinesWithin(lines: seq<string>, budget: nat, wrap: bool): seq<string>
    requires budget > 0
  {
    var bodies := Pack(lines, budget, []);
    if wrap then FenceAll(bodies) else bodies
  }

  /** `[s[i:i+width] for i in range(0, len(s), width)]`: consecutive slices of exactly
      `width` characters, the last one possibly shorter. */
  function FixedSlices(s: string, width: nat): (chunks: seq<string>)
    requires width > 0
    decreases |s|
  {
    if |s| == 0 then []
    else if |s| <= width then [s]
    else
      [s[..width]] + FixedSlices(s[width..], width)
  }

  /** The fallback slices lose nothing: joined they give `s` back; every slice is
      non-empty and at most `width` long, and all but the last are exactly `width`. */
  lemma {:induction false} FixedSlicesShape(s: string, width: nat)
    requires width > 0
    ensures var chunks := FixedSlices(s, width);
      && Concat(chunks) == s
      && (forall k :: 0 <= k < |chunks| ==> 0 < |chunks[k]| <= width)
      && (forall k :: 0 <= k < |chunks| - 1 ==> |chunks[k]| == width)
    decreases |s|
  {
    if |s| == 0 {
    } else if |s| <= width {
      ConcatSingleton(s);
    } else {
      FixedSlicesShape(s[width..], width);
      var rest := FixedSlices(s[width..], width);
      assert FixedSlices(s, width) == [s[..width]] + rest;
      assert Concat([s[..width]] + rest) == s[..width] + Concat(rest);
      assert s == s[..width] + s[width..];
      assert |rest| > 0 by { assert Concat(rest) == s[width..]; }
    }
  }

  /** One round of the fallback loop: the slice `s[i:i + width]` comes off the front. */
  lemma FixedSlicesStep(s: string, i: nat, width: nat)
    requires width > 0 && i < |s|
    ensures FixedSlices(Drop(s, i), width) == [Take(Drop(s, i), width)] + FixedSlices(Drop(s, i + width), width)
  {
    var rest := s[i..];
    assert Drop(s, i) == rest;
    if |rest| <= width {
      assert Drop(s, i + width) == [];
      assert FixedSlices(rest, width) == [rest];
      assert Take(rest, width) == rest;
      assert FixedSlices([], width) == [];
    } else {
      assert rest[width..] == s[i + width..] == Drop(s, i + width);
    }
  }

  /** The loop state after one round: the slice moved from the pending slices to the result. */
  lemma SliceLoopStep(s: string, i: nat, width: nat, result: seq<string>, whole: seq<string>)
    requires width > 0 && i < |s|
    requires result + FixedSlices(Drop(s, i), width) == whole
    ensures (result + [Take(Drop(s, i), width)]) + FixedSlices(Drop(s, i + width), width) == whole
  {
    FixedSlicesStep(s, i, width);
  }

  /** The fallback loop as written: `for i in range(0, len(s), width)` appending `s[i:i + width]`. */
  method SliceEvery(s: string, width: nat) returns (result: seq<string>)
    requires width > 0
    ensures result == FixedSlices(s, width)
  {
    result := [];
    var i: nat := 0;
    ghost var whole := FixedSlices(s, width);
    assert Drop(s, 0) == s;
    assert [] + FixedSlices(Drop(s, 0), width) == whole;
    while i < |s|
      invariant result + FixedSlices(Drop(s, i), width) == whole
      decreases |s| - i
    {
      SliceLoopStep(s, i, width, result, whole);
      result := result + [Take(Drop(s, i), width)];
      i := i + width;
    }
    assert Drop(s, i) == [];
    assert FixedSlices(Drop(s, i), width) == [];
    assert result + [] == result;
  }

  // ---------------------------------------------------------------------------
  // Properties of the packing

  lemma ConcatSingleton(x: string)
    ensures Concat([x]) == x
  {
    assert [x][1..] == [];
  }

  /** Packing loses and duplicates nothing: the chunks join back to the buffer followed by all lines. */
  lemma {:induction false} PackPreservesText(lines: seq<string>, budget: nat, current: string)
    requires budget > 0 && |current| <= budget
    ensures Concat(Pack(lines, budget, current)) == current + Concat(lines)
    decreases |lines|
  {
    if |lines| == 0 {
      if |current| > 0 {
        ConcatSingleton(current);
      }
    } else {
      var rest := Concat(lines[1..]);
      assert Concat(lines) == lines[0] + rest;
      if |current| + |lines[0]| <= budget {
        PackPreservesText(lines[1..], budget, current + lines[0]);
        assert Pack(lines, budget, current) == Pack(lines[1..], budget, current + lines[0]);
        assert (current + lines[0]) + rest == current + (lines[0] + rest);
      } else {
        var sliced := HardSlice(lines[0], budget);
        PackPreservesText(lines[1..], budget, sliced.1);
        OverflowPreservesText(lines, budget, current);
      }
    }
  }

  /** The overflow step of `PackPreservesText`, given its claim for the remaining lines. */
  lemma OverflowPreservesText(lines: seq<string>, budget: nat, current: string)
    requires budget > 0 && |current| <= budget && |lines| > 0
    requires |current| + |lines[0]| > budget
    requires var sliced := HardSlice(lines[0], budget);
      Concat(Pack(lines[1..], budget, sliced.1)) == sliced.1 + Concat(lines[1..])
    ensures Concat(Pack(lines, budget, current)) == current + (lines[0] + Concat(lines[1..]))
  {
    var sliced := HardSlice(lines[0], budget);
    var later := Pack(lines[1..], budget, sliced.1);
    assert Pack(lines, budget, current) == (if |current| > 0 then [current] else []) + sliced.0 + later;
    FlushPreservesText(current, sliced.0, later);
    var pieces, kept, rest := Concat(sliced.0), sliced.1, Concat(lines[1..]);
    assert pieces + kept == lines[0];
    calc {
      Concat(Pack(lines, budget, current));
      current + pieces + (kept + rest);
      { SeqAssoc4(current, pieces, kept, rest); }
      current + ((pieces + kept) + rest);
    }
  }

  lemma SeqAssoc4(a: string, b: string, c: string, d: string)
    ensures a + b + (c + d) == a + ((b + c) + d)
  {
  }

  /** The text of an overflow step: the flushed buffer, the hard-sliced pieces, then the rest. */
  lemma FlushPreservesText(current: string, pieces: seq<string>, rest: seq<string>)
    ensures Concat((if |current| > 0 then [current] else []) + pieces + rest)
      == current + Concat(pieces) + Concat(rest)
  {
    var head: seq<string> := if |current| > 0 then [current] else [];
    ConcatAppend(head + pieces, rest);
    ConcatAppend(head, pieces);
    if |current| > 0 {
      ConcatSingleton(current);
    }
  }

  /** Every chunk is non-empty and within the budget. */
  lemma {:induction false} PackWithinBudget(lines: seq<string>, budget: nat, current: string)
    requires budget > 0 && |current| <= budget
    ensures forall k :: 0 <= k < |Pack(lines, budget, current)| ==>
      0 < |Pack(lines, budget, current)[k]| <= budget
    decreases |lines|
  {
    if |lines| == 0 {
    } else if |current| + |lines[0]| <= budget {
      PackWithinBudget(lines[1..], budget, current + lines[0]);
    } else {
      PackWithinBudget(lines[1..], budget, HardSlice(lines[0], budget).1);
    }
  }

  /** A non-empty buffer is always flushed eventually. */
  lemma {:induction false} PackFlushesBuffer(lines: seq<string>, budget: nat, current: string)
    requires budget > 0 && |current| <= budget
    requires |current| > 0
    ensures |Pack(lines, budget, current)| > 0
    decreases |lines|
  {
    if |lines| > 0 && |current| + |lines[0]| <= budget {
      PackFlushesBuffer(lines[1..], budget, current + lines[0]);
    }
  }

  /** Lines as `splitlines` delivers them: non-empty, and all but the last terminated. */
  ghost predicate LineShaped(lines: seq<string>) {
    && (forall k :: 0 <= k < |lines| ==> |lines[k]| > 0)
    && (forall k :: 0 <= k < |lines| - 1 ==> EndsWithBreak(lines[k]))
  }

  /** Where a chunk may end: on a line terminator, or after a full hard-sliced piece. */
  predicate BreaksCleanly(chunk: string, budget: nat) {
    |chunk| == budget || EndsWithBreak(chunk)
  }

  /** A suffix of a terminated line is terminated. */
  lemma SuffixEndsWithBreak(prefix: string, rest: string)
    requires EndsWithBreak(prefix + rest)
    requires |rest| > 0
    ensures EndsWithBreak(rest)
  {
    assert (prefix + rest)[|prefix + rest| - 1] == rest[|rest| - 1];
  }

  /** Every chunk but the last ends on a line terminator, unless it is a full hard-sliced piece. */
  lemma {:induction false} PackBreaksAtLineEnds(lines: seq<string>, budget: nat, current: string)
    requires budget > 0 && |current| <= budget
    requires LineShaped(lines)
    requires |lines| > 0 && |current| > 0 ==> EndsWithBreak(current)
    ensures var parts := Pack(lines, budget, current);
      forall k :: 0 <= k < |parts| - 1 ==> BreaksCleanly(parts[k], budget)
    decreases |lines|
  {
    var parts := Pack(lines, budget, current);
    if |lines| == 0 {
    } else if |current| + |lines[0]| <= budget {
      var next := current + lines[0];
      FittingLineKeepsShape(lines, budget, current);
      PackBreaksAtLineEnds(lines[1..], budget, next);
      FittingLineJoinsBuffer(lines, budget, current);
    } else {
      var sliced := HardSlice(lines[0], budget);
      var head: seq<string> := if |current| > 0 then [current] else [];
      var rest := Pack(lines[1..], budget, sliced.1);
      if |lines| > 1 {
        SuffixEndsWithBreak(Concat(sliced.0), sliced.1);
      }
      assert LineShaped(lines[1..]);
      PackBreaksAtLineEnds(lines[1..], budget, sliced.1);
      PackFlushesBuffer(lines[1..], budget, sliced.1);
      assert parts == (head + sliced.0) + rest;
      forall k | 0 <= k < |parts| - 1
        ensures BreaksCleanly(parts[k], budget)
      {
        if k < |head| {
          assert parts[k] == current;
        } else if k < |head| + |sliced.0| {
          assert parts[k] == sliced.0[k - |head|];
        } else {
          assert parts[k] == rest[k - |head| - |sliced.0|];
        }
      }
    }
  }

  /** A line that fits joins the buffer: packing goes on from the grown buffer. */
  lemma FittingLineJoinsBuffer(lines: seq<string>, budget: nat, current: string)
    requires budget > 0 && |lines| > 0 && |current| + |lines[0]| <= budget
    ensures Pack(lines, budget, current) == Pack(lines[1..], budget, current + lines[0])
  {
  }

  /** The fitting step of `PackBreaksAtLineEnds`: the grown buffer still ends a line
      whenever more lines follow. */
  lemma FittingLineKeepsShape(lines: seq<string>, budget: nat, current: string)
    requires LineShaped(lines) && |lines| > 0
    ensures LineShaped(lines[1..])
    ensures |lines| > 1 ==> EndsWithBreak(current + lines[0])
  {
    var next := current + lines[0];
    if |lines| > 1 {
      assert EndsWithBreak(lines[0]);
      assert next[|next| - 1] == lines[0][|lines[0]| - 1];
    }
  }

  /** `parts` cut `lines` greedily into runs of whole consecutive lines: each part is one
      run joined, fits the budget, and is closed only because the next line would not fit. */
  ghost predicate GreedyRuns(parts: seq<string>, lines: seq<string>, budget: nat)
    decreases |parts|
  {
    if |parts| == 0 then |lines| == 0
    else exists j ::
      && 0 < j <= |lines|
      && parts[0] == Concat(lines[..j])
      && |parts[0]| <= budget
      && (j < |lines| ==> |parts[0]| + |lines[j]| > budget)
      && GreedyRuns(parts[1..], lines[j..], budget)
  }

  /** A list of non-empty strings joins to the empty string only when it is empty. */
  lemma {:induction false} ConcatNonEmpty(xs: seq<string>)
    requires forall k :: 0 <= k < |xs| ==> |xs[k]| > 0
    ensures |Concat(xs)| == 0 <==> |xs| == 0
  {
  }

  /** Flushing the open lines as one part in front of greedy runs of the rest, when the
      next line does not fit beside them. */
  lemma RunsCons(open: seq<string>, parts: seq<string>, lines: seq<string>, budget: nat)
    requires |open| > 0 && |Concat(open)| <= budget
    requires |lines| > 0 ==> |Concat(open)| + |lines[0]| > budget
    requires GreedyRuns(parts, lines, budget)
    ensures GreedyRuns([Concat(open)] + parts, open + lines, budget)
  {
    var all := open + lines;
    var ps := [Concat(open)] + parts;
    var j := |open|;
    assert all[..j] == open;
    assert all[j..] == lines;
    assert ps[1..] == parts;
    assert j < |all| ==> all[j] == lines[0];
    assert 0 < j <= |all| && ps[0] == Concat(all[..j]) && |ps[0]| <= budget
      && (j < |all| ==> |ps[0]| + |all[j]| > budget)
      && GreedyRuns(ps[1..], all[j..], budget);
  }

  /** When no line exceeds the budget, packing is greedy line accumulation: the chunks
      are runs of whole lines, each within the budget and closed only when the next line
      does not fit. `open` are the lines already in the buffer. */
  lemma {:induction false} PackKeepsLinesWhole(lines: seq<string>, budget: nat, open: seq<string>)
    requires budget > 0
    requires forall k :: 0 <= k < |lines| ==> 0 < |lines[k]| <= budget
    requires forall k :: 0 <= k < |open| ==> |open[k]| > 0
    requires |Concat(open)| <= budget
    ensures GreedyRuns(Pack(lines, budget, Concat(open)), open + lines, budget)
    decreases |lines|
  {
    ConcatNonEmpty(open);
    var current := Concat(open);
    if |lines| == 0 {
      assert open + lines == open;
      if |open| > 0 {
        assert GreedyRuns([], [], budget);
        RunsCons(open, [], [], budget);
        assert [Concat(open)] + [] == [Concat(open)];
      }
    } else if |current| + |lines[0]| <= budget {
      var open' := open + [lines[0]];
      ConcatAppend(open, [lines[0]]);
      ConcatSingleton(lines[0]);
      PackKeepsLinesWhole(lines[1..], budget, open');
      assert open' + lines[1..] == open + lines;
    } else {
      ConcatSingleton(lines[0]);
      PackKeepsLinesWhole(lines[1..], budget, [lines[0]]);
      assert [lines[0]] + lines[1..] == lines;
      var rest := Pack(lines[1..], budget, lines[0]);
      assert |open| > 0;
      RunsCons(open, rest, lines, budget);
    }
  }

  /** The packed lines of any text: every chunk but the last ends a line or is a full
      piece, and when no line exceeds the budget the chunks are runs of whole lines. */
  lemma PackedLinesBreakCleanly(text: string, budget: nat)
    requires budget > 0
    ensures var parts := Pack(SplitLines(text), budget, []);
      forall k :: 0 <= k < |parts| - 1 ==> BreaksCleanly(parts[k], budget)
  {
    var lines := SplitLines(text);
    assert LineShaped(lines);
    PackBreaksAtLineEnds(lines, budget, []);
  }

  /** When no line of the text exceeds the budget, packing keeps every line whole. */
  lemma PackedLinesStayWhole(text: string, budget: nat)
    requires budget > 0
    requires forall k :: 0 <= k < |SplitLines(text)| ==> |SplitLines(text)[k]| <= budget
    ensures GreedyRuns(Pack(SplitLines(text), budget, []), SplitLines(text), budget)
  {
    var lines := SplitLines(text);
    assert Concat<string>([]) == [];
    PackKeepsLinesWhole(lines, budget, []);
    assert [] + lines == lines;
  }

  /** The hard-slice of a non-empty line is its fixed-width slicing: pieces of exactly the
      budget, then the shorter (or equal) remainder. */
  lemma {:induction false} HardSliceIsFixedWidth(line: string, budget: nat)
    requires budget > 0 && |line| > 0
    ensures HardSlice(line, budget).0 + [HardSlice(line, budget).1] == FixedSlices(line, budget)
    decreases |line|
  {
    if |line| > budget {
      HardSliceIsFixedWidth(line[budget..], budget);
    }
  }

  /** A single line longer than the budget is emitted as its fixed-width slicing. */
  lemma LongLineIsSlicedAtBudget(line: string, budget: nat)
    requires budget > 0 && |line| > budget
    ensures Pack([line], budget, []) == FixedSlices(line, budget)
  {
    HardSliceIsFixedWidth(line, budget);
    var sliced := HardSlice(line, budget);
    assert [line][1..] == [];
    assert Pack([], budget, sliced.1) == [sliced.1];
  }

  // ---------------------------------------------------------------------------
  // The hard-slice loop as written at lines 122-126 (and 155-159)

  /** One iteration as written: the piece is cut from the buffer (`''.join(current_part)[:budget]`),
      but the new buffer is `line[budget:]`, sliced from the original line every time. */
  function AsWrittenSliceStep(line: string, buffer: string, budget: nat): (string, string) {
    (Take(buffer, budget), Drop(line, budget))
  }

  /** For a line longer than twice the budget the loop as written never ends: after the
      first step the buffer is `line[budget:]`, still over the budget, and every further
      step reproduces the same buffer and emits the same piece again. */
  lemma AsWrittenSliceStaysLong(line: string, budget: nat)
    requires budget > 0 && |line| > 2 * budget
    ensures var first := AsWrittenSliceStep(line, line, budget);
      && |first.1| > budget
      && AsWrittenSliceStep(line, first.1, budget) == (first.1[..budget], first.1)
  {
  }

  /** The concrete input: one line of 8181 characters under the code budget 4090. */
  lemma AsWrittenSliceLoopsOnLongLine()
    ensures var line := seq(8181, _ => 'x');
      var first := AsWrittenSliceStep(line, line, 4090);
      |first.1| == 4091 && AsWrittenSliceStep(line, first.1, 4090).1 == first.1
  {
    AsWrittenSliceStaysLong(seq(8181, _ => 'x'), 4090);
  }
}
