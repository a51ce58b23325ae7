/** `split_long_message` and the two block splitters it dispatches to
    (gpt_telegram_bot.py:99-186): a reply longer than the transport's 4096-character
    limit is cut along the scanner's segments, or, when the scanner's segment count is
    even, into plain fixed-width slices. */
module Segmenter {
  import opened Text
  import opened Lines
  import opened Scanner
  import opened Packing

  /** The transport's maximum message length. */
  const MaxMessage: nat := 4096

  /** The code budget: six characters are held back for the two markers re-added around each chunk. */
  const CodeBudget: nat := 4090

  /** `code_itself` (line 103): the block without any leading or trailing backticks. */
  function CodeOf(block: string): (code: string)
    ensures exists a :: StripsTo(block, Backticks, a, code)
    ensures code == [] || (code[0] !in Backticks && code[|code| - 1] !in Backticks)
  {
    var code := Strip(block, Backticks);
    StripCutsOnlyChars(block, Backticks);
    code
  }

  /** `split_code_block`: a block that fits is returned as it is (Python returns the bare
      string; here a one-element list); otherwise the lines of its code are packed within
      4090 characters and every chunk is re-wrapped in markers. */
  function SplitCodeBlock(block: string): seq<string> {
    if |block| <= MaxMessage then [block]
    else SplitLinesWithin(SplitLines(CodeOf(block)), CodeBudget, true)
  }

  /** `split_text_block`: the same policy with budget 4096 and no wrapping. */
  function SplitTextBlock(block: string): seq<string> {
    if |block| <= MaxMessage then [block]
    else SplitLinesWithin(SplitLines(block), MaxMessage, false)
  }

  /** The dispatch of lines 181-184 on the block's string form. */
  function SplitBlock(block: string): seq<string> {
    if IsFenced(block) then SplitCodeBlock(block) else SplitTextBlock(block)
  }

  /** The three shapes `split_long_message` returns: the message itself, the fallback's
      list of slices, or one list of chunks per scanner segment (not flattened). */
  datatype Reply = Unchanged(text: string) | Sliced(chunks: seq<string>) | PerSegment(parts: seq<seq<string>>)

  /** `split_long_message`. */
  function SplitLongMessage(message: string): Reply {
    if |message| <= MaxMessage then Unchanged(message)
    else
      var blocks := SplitIntoBlocks(message);
      if |blocks| % 2 != 1 then Sliced(FixedSlices(message, MaxMessage))
      else PerSegment(seq(|blocks|, k requires 0 <= k < |blocks| => SplitBlock(blocks[k])))
  }

  /** The chunks of a reply in order, with the per-segment lists concatenated. */
  function Outgoing(reply: Reply): seq<string> {
    match reply
    case Unchanged(t) => [t]
    case Sliced(cs) => cs
    case PerSegment(ps) => Concat(ps)
  }

  // ---------------------------------------------------------------------------
  // Short inputs and the fallback

  /** Any input of at most 4096 characters comes back unchanged, from all three entry points. */
  lemma ShortInputUnchanged(s: string)
    requires |s| <= MaxMessage
    ensures SplitLongMessage(s) == Unchanged(s) && Outgoing(SplitLongMessage(s)) == [s]
    ensures SplitCodeBlock(s) == [s] && SplitTextBlock(s) == [s]
  {
  }

  /** The fallback is taken exactly for a long message whose segment count is even, and
      its slices rejoin to the message, all of 4096 characters but the last. */
  lemma {:induction false} FallbackSlicesLosslessly(message: string)
    ensures SplitLongMessage(message).Sliced? <==>
      |message| > MaxMessage && |SplitIntoBlocks(message)| % 2 == 0
    ensures SplitLongMessage(message).Sliced? ==>
      var chunks := SplitLongMessage(message).chunks;
      && Concat(chunks) == message
      && |chunks| >= 2
      && (forall k :: 0 <= k < |chunks| ==> 0 < |chunks[k]| <= MaxMessage)
      && (forall k :: 0 <= k < |chunks| - 1 ==> |chunks[k]| == MaxMessage)
  {
    if SplitLongMessage(message).Sliced? {
      FixedSlicesShape(message, MaxMessage);
      FixedSlicesShape(message[MaxMessage..], MaxMessage);
      assert FixedSlices(message, MaxMessage) ==
        [message[..MaxMessage]] + FixedSlices(message[MaxMessage..], MaxMessage);
      assert |FixedSlices(message[MaxMessage..], MaxMessage)| > 0;
    }
  }

  /** Text after the last marker is never emitted, so a long message without any fence
      scans to nothing, an even count, and always takes the fallback. */
  lemma FenceFreeMessageFallsBack(message: string)
    requires |message| > MaxMessage
    requires NoMarker(message)
    ensures SplitLongMessage(message) == Sliced(FixedSlices(message, MaxMessage))
  {
    MarkerFreeScansEmpty(message);
  }

  // ---------------------------------------------------------------------------
  // Dispatch

  /** What the splitter does with one scanner segment. */
  function SplitSegment(seg: Segment): seq<string> {
    match seg
    case Code(b) => SplitCodeBlock(Fence(b))
    case Prose(t) => SplitTextBlock(t)
  }

  /** Dispatch agrees with the scanner: segment `k` reaches the code splitter exactly when
      the scanner emitted it as code, and the per-segment results follow the scanner's order. */
  lemma DispatchFollowsScanner(message: string)
    requires SplitLongMessage(message).PerSegment?
    ensures var parts := SplitLongMessage(message).parts;
      && |parts| == |Scan(message)|
      && forall k :: 0 <= k < |parts| ==> parts[k] == SplitSegment(Scan(message)[k])
  {
    var segs := Scan(message);
    var blocks := SplitIntoBlocks(message);
    var parts := SplitLongMessage(message).parts;
    ScanWellFormed(message);
    forall k | 0 <= k < |parts|
      ensures parts[k] == SplitSegment(segs[k])
    {
      assert blocks[k] == Render(segs[k]);
      RenderedKind(segs[k]);
    }
  }

  // ---------------------------------------------------------------------------
  // The code splitter

  /** Every chunk of a long code block is `"```" + body + "```"` with a non-empty body of at
      most 4090 characters, so at most 4096 in all; the bodies rejoin to the block's code. */
  lemma CodeChunksFencedAndRejoin(block: string)
    requires |block| > MaxMessage
    ensures var chunks := SplitCodeBlock(block);
      && (forall k :: 0 <= k < |chunks| ==>
            && IsFenced(chunks[k])
            && 7 <= |chunks[k]| <= MaxMessage
            && chunks[k] == Fence(Unfence(chunks[k])))
      && Concat(UnfenceAll(chunks)) == CodeOf(block)
  {
    var lines := SplitLines(CodeOf(block));
    var bodies := Pack(lines, CodeBudget, []);
    PackWithinBudget(lines, CodeBudget, []);
    PackPreservesText(lines, CodeBudget, []);
    FenceAllRoundTrip(bodies);
    var chunks := SplitCodeBlock(block);
    forall k | 0 <= k < |chunks|
      ensures IsFenced(chunks[k]) && chunks[k] == Fence(Unfence(chunks[k]))
    {
      FenceRoundTrip(bodies[k]);
    }
  }

  /** Without over-long lines, every code chunk's body is a run of whole lines of the code;
      in general every body but the last ends a line or is a full 4090-character piece. */
  lemma CodeChunksFollowLines(block: string)
    requires |block| > MaxMessage
    ensures var chunks := SplitCodeBlock(block);
      && (forall k :: 0 <= k < |chunks| ==> |chunks[k]| >= 6)
      && (forall k :: 0 <= k < |chunks| - 1 ==> BreaksCleanly(Unfence(chunks[k]), CodeBudget))
      && ((forall k :: 0 <= k < |SplitLines(CodeOf(block))| ==> |SplitLines(CodeOf(block))[k]| <= CodeBudget) ==>
            GreedyRuns(UnfenceAll(chunks), SplitLines(CodeOf(block)), CodeBudget))
  {
    var lines := SplitLines(CodeOf(block));
    var bodies := Pack(lines, CodeBudget, []);
    var chunks := SplitCodeBlock(block);
    CodeChunksAreFencedBodies(block);
    PackedLinesBreakCleanly(CodeOf(block), CodeBudget);
    forall k | 0 <= k < |chunks| - 1
      ensures BreaksCleanly(Unfence(chunks[k]), CodeBudget)
    {
      assert Unfence(chunks[k]) == UnfenceAll(chunks)[k];
    }
    if forall k :: 0 <= k < |lines| ==> |lines[k]| <= CodeBudget {
      PackedLinesStayWhole(CodeOf(block), CodeBudget);
    }
  }

  /** A long code block's chunks are its packed lines, each fenced. */
  lemma CodeChunksAreFencedBodies(block: string)
    requires |block| > MaxMessage
    ensures var chunks := SplitCodeBlock(block);
      && (forall k :: 0 <= k < |chunks| ==> |chunks[k]| >= 6)
      && UnfenceAll(chunks) == Pack(SplitLines(CodeOf(block)), CodeBudget, [])
  {
    FenceAllRoundTrip(Pack(SplitLines(CodeOf(block)), CodeBudget, []));
  }

  /** A block whose code is one line longer than 4090 characters comes out as that line's
      4090-character slices, each fenced. */
  lemma LongCodeLineSlicedAtBudget(block: string)
    requires |block| > MaxMessage
    requires |CodeOf(block)| > CodeBudget
    requires forall j :: 0 <= j < |CodeOf(block)| - 1 ==> CodeOf(block)[j] !in LineBreaks
    ensures SplitCodeBlock(block) == FenceAll(FixedSlices(CodeOf(block), CodeBudget))
  {
    SingleLine(CodeOf(block));
    LongLineIsSlicedAtBudget(CodeOf(block), CodeBudget);
  }

  /** The code of a scanned code segment is its body without leading and trailing backticks:
      the scanner's own markers and any backticks next to them go together. */
  lemma CodeOfSegment(body: string)
    ensures CodeOf(Fence(body)) == RStrip(LStrip(body, Backticks), Backticks)
  {
    assert forall k :: 0 <= k < |Marker| ==> Marker[k] in Backticks;
    assert Fence(body) == Marker + (body + Marker);
    LStripSkips(Marker, body + Marker, Backticks);
    var l := LStrip(body, Backticks);
    if l == [] {
      assert forall k :: 0 <= k < |body| ==> body[k] in Backticks;
      assert forall k :: 0 <= k < |body + Marker| ==> (body + Marker)[k] in Backticks;
      LStripSkips(body + Marker, [], Backticks);
      assert body + Marker + [] == body + Marker;
    } else {
      LStripKeepsTail(body, Marker, Backticks);
      RStripSkips(l, Marker, Backticks);
    }
  }

  // ---------------------------------------------------------------------------
  // The text splitter

  /** The text splitter loses nothing: its chunks rejoin to the text, each within 4096
      characters, and every chunk but the last ends a line or is a full 4096-character piece. */
  lemma TextChunksRejoin(block: string)
    ensures Concat(SplitTextBlock(block)) == block
    ensures forall k :: 0 <= k < |SplitTextBlock(block)| ==> |SplitTextBlock(block)[k]| <= MaxMessage
    ensures forall k :: 0 <= k < |SplitTextBlock(block)| - 1 ==> BreaksCleanly(SplitTextBlock(block)[k], MaxMessage)
  {
    if |block| <= MaxMessage {
      ConcatSingleton(block);
    } else {
      var lines := SplitLines(block);
      PackPreservesText(lines, MaxMessage, []);
      PackWithinBudget(lines, MaxMessage, []);
      PackBreaksAtLineEnds(lines, MaxMessage, []);
    }
  }

  /** Without over-long lines, the text splitter packs greedily: every flush falls on a line
      boundary, and only when the next line would not fit. */
  lemma TextChunksFollowLines(block: string)
    requires |block| > MaxMessage
    requires forall k :: 0 <= k < |SplitLines(block)| ==> |SplitLines(block)[k]| <= MaxMessage
    ensures GreedyRuns(SplitTextBlock(block), SplitLines(block), MaxMessage)
  {
    var lines := SplitLines(block);
    assert Concat<char>([]) == [];
    PackKeepsLinesWhole(lines, MaxMessage, []);
    assert [] + lines == lines;
  }

  /** A single line longer than 4096 characters is cut into 4096-character pieces and a shorter remainder. */
  lemma LongTextLineSlicedAtBudget(line: string)
    requires |line| > MaxMessage
    requires forall j :: 0 <= j < |line| - 1 ==> line[j] !in LineBreaks
    ensures SplitTextBlock(line) == FixedSlices(line, MaxMessage)
  {
    SingleLine(line);
    LongLineIsSlicedAtBudget(line, MaxMessage);
  }

  // ---------------------------------------------------------------------------
  // The whole reply

  /** Messages all within a bound. */
  predicate AllWithin(messages: seq<string>, bound: nat) {
    forall k :: 0 <= k < |messages| ==> |messages[k]| <= bound
  }

  /** Every chunk of the reply is within the transport's 4096-character limit. */
  lemma OutgoingWithinLimit(message: string)
    ensures AllWithin(Outgoing(SplitLongMessage(message)), MaxMessage)
  {
    var reply := SplitLongMessage(message);
    if reply.Sliced? {
      FixedSlicesShape(message, MaxMessage);
    } else if reply.PerSegment? {
      var blocks := SplitIntoBlocks(message);
      forall k | 0 <= k < |reply.parts|
        ensures AllWithin(reply.parts[k], MaxMessage)
      {
        var b := blocks[k];
        if IsFenced(b) {
          if |b| > MaxMessage {
            CodeChunksFencedAndRejoin(b);
          }
        } else {
          TextChunksRejoin(b);
        }
      }
      ConcatKeeps(reply.parts, (m: string) => |m| <= MaxMessage);
    }
  }

  /** Segment-by-segment content: a prose segment's chunks rejoin to it; a code segment that
      fits comes back as it is, and a longer one as chunks whose bodies rejoin to its body
      without leading and trailing backticks. */
  lemma SegmentChunksRejoin(seg: Segment)
    ensures seg.Prose? ==> Concat(SplitSegment(seg)) == seg.text
    ensures seg.Code? && |Fence(seg.body)| <= MaxMessage ==> SplitSegment(seg) == [Fence(seg.body)]
    ensures seg.Code? && |Fence(seg.body)| > MaxMessage ==>
      && (forall k :: 0 <= k < |SplitSegment(seg)| ==> |SplitSegment(seg)[k]| >= 6)
      && Concat(UnfenceAll(SplitSegment(seg))) == RStrip(LStrip(seg.body, Backticks), Backticks)
  {
    match seg
    case Prose(t) => TextChunksRejoin(t);
    case Code(b) =>
      if |Fence(b)| > MaxMessage {
        CodeChunksFencedAndRejoin(Fence(b));
        CodeOfSegment(b);
      }
  }

  /** A chunk keeps its fences balanced: it has no marker at all (prose), or it is one pair
      of markers around a marker-free body (code). */
  predicate Balanced(chunk: string) {
    NoMarker(chunk) || (|chunk| >= 6 && IsFenced(chunk) && NoMarker(Unfence(chunk)))
  }

  /** The chunks of a long code segment: one pair of markers around a marker-free body each. */
  lemma CodeChunksBalanced(body: string)
    requires NoMarker(body)
    requires |Fence(body)| > MaxMessage
    ensures forall k :: 0 <= k < |SplitCodeBlock(Fence(body))| ==> Balanced(SplitCodeBlock(Fence(body))[k])
  {
    var chunks := SplitCodeBlock(Fence(body));
    CodeChunksFencedAndRejoin(Fence(body));
    CodeOfSegment(body);
    StripKeepsNoMarker(body, Backticks);
    assert NoMarker(Concat(UnfenceAll(chunks)));
    PiecesOfMarkerFree(UnfenceAll(chunks));
    forall k | 0 <= k < |chunks|
      ensures Balanced(chunks[k])
    {
      assert NoMarker(UnfenceAll(chunks)[k]);
    }
  }

  /** Every chunk the splitter makes of a scanned segment is balanced. */
  lemma SegmentChunksBalanced(seg: Segment)
    requires WellFormed(seg)
    ensures forall k :: 0 <= k < |SplitSegment(seg)| ==> Balanced(SplitSegment(seg)[k])
  {
    match seg
    case Prose(t) =>
      TextChunksRejoin(t);
      PiecesOfMarkerFree(SplitTextBlock(t));
    case Code(b) =>
      if |Fence(b)| > MaxMessage {
        CodeChunksBalanced(b);
      } else {
        FenceRoundTrip(b);
        assert SplitSegment(seg) == [Fence(b)];
      }
  }

  /** On the segment-aware path every chunk of the reply has balanced fences. */
  lemma SegmentedRepliesBalanced(message: string)
    requires SplitLongMessage(message).PerSegment?
    ensures forall j :: 0 <= j < |Outgoing(SplitLongMessage(message))| ==>
      Balanced(Outgoing(SplitLongMessage(message))[j])
  {
    var parts := SplitLongMessage(message).parts;
    DispatchFollowsScanner(message);
    ScanWellFormed(message);
    forall k | 0 <= k < |parts|
      ensures forall j :: 0 <= j < |parts[k]| ==> Balanced(parts[k][j])
    {
      SegmentChunksBalanced(Scan(message)[k]);
    }
    ConcatKeeps(parts, Balanced);
  }

  // ---------------------------------------------------------------------------
  // Consequences of never flushing the text after the last marker

  /** Scanning over a stretch without markers only grows the accumulator. */
  lemma {:induction false} ScanSkips(text: string, start: nat, i: nat, j: nat, inCode: bool)
    requires start <= i <= j <= |text|
    requires Unmarked(text, i, j)
    ensures ScanFrom(text, start, i, inCode) == ScanFrom(text, start, j, inCode)
    decreases j - i
  {
    if i < j {
      ScanSkips(text, start, i + 1, j, inCode);
    }
  }

  /** A tail without backticks holds no marker, nor completes one begun before it. */
  lemma NoMarkerInTail(head: string, tail: string)
    requires forall j :: 0 <= j < |tail| ==> tail[j] != '`'
    ensures Unmarked(head + tail, |head|, |head + tail|)
  {
    var m := head + tail;
    forall j | |head| <= j < |m|
      ensures !IsMarkerAt(m, j)
    {
      assert m[j] == tail[j - |head|];
      if j + 3 <= |m| {
        assert m[j..j + 3][0] == m[j];
      }
    }
  }

  /** Past the end of any head, a tail without backticks completes no segment. */
  lemma TailScansEmpty(head: string, tail: string, inCode: bool)
    requires forall j :: 0 <= j < |tail| ==> tail[j] != '`'
    ensures ScanFrom(head + tail, |head|, |head|, inCode) == []
  {
    NoMarkerInTail(head, tail);
    TailIsNeverFlushed(head + tail, |head|, |head|, inCode);
  }

  /** The message "A```c```B```" followed by unterminated, backtick-free code: it scans to
      three segments, an odd count, so the segment-aware path is taken, and the code after
      the last marker is in no chunk of the reply. */
  lemma UnterminatedTailIsDropped(tail: string)
    requires |tail| > MaxMessage - 12
    requires forall j :: 0 <= j < |tail| ==> tail[j] != '`'
    ensures Outgoing(SplitLongMessage("A```c```B```" + tail)) == ["A", "```c```", "B"]
  {
    var m := "A```c```B```" + tail;
    OpenTailScan(tail);
    ThreeBlocks(m);
    ShortBlocksGoOutWhole(m);
  }

  /** The strings of the three one-letter segments. */
  lemma ThreeBlocks(m: string)
    requires |m| >= 12 && m[0] == 'A' && m[4] == 'c' && m[8] == 'B'
    requires Scan(m) == [Prose([m[0]]), Code([m[4]]), Prose([m[8]])]
    ensures SplitIntoBlocks(m) == ["A", "```c```", "B"]
  {
    assert Scan(m) == [Prose("A"), Code("c"), Prose("B")];
    assert Render(Code("c")) == "```c```";
  }

  /** The scan of "A```c```B```" followed by text without backticks. */
  lemma OpenTailScan(tail: string)
    requires forall j :: 0 <= j < |tail| ==> tail[j] != '`'
    ensures var m := "A```c```B```" + tail;
      |m| >= 12 && m[0] == 'A' && m[4] == 'c' && m[8] == 'B' &&
      Scan(m) == [Prose([m[0]]), Code([m[4]]), Prose([m[8]])]
  {
    var head := "A```c```B```";
    var m := head + tail;
    MarkersOfOpenHead();
    MarkerInHead(head, tail, 1);
    MarkerInHead(head, tail, 5);
    MarkerInHead(head, tail, 9);
    TailScansEmpty(head, tail, true);
    assert m[0] == head[0] && m[4] == head[4] && m[8] == head[8];
    ScanProseCodeProse(m);
  }

  lemma MarkersOfClosedHead()
    ensures IsMarkerAt("A```c```", 1) && IsMarkerAt("A```c```", 5)
  {
  }

  lemma MarkersOfOpenHead()
    ensures IsMarkerAt("A```c```B```", 1) && IsMarkerAt("A```c```B```", 5) && IsMarkerAt("A```c```B```", 9)
  {
  }

  /** The scan of "A```c```" followed by text without backticks. */
  lemma ClosedTailScan(tail: string)
    requires forall j :: 0 <= j < |tail| ==> tail[j] != '`'
    ensures var m := "A```c```" + tail;
      |m| >= 8 && m[0] == 'A' && m[4] == 'c' && Scan(m) == [Prose([m[0]]), Code([m[4]])]
  {
    var head := "A```c```";
    var m := head + tail;
    MarkersOfClosedHead();
    MarkerInHead(head, tail, 1);
    MarkerInHead(head, tail, 5);
    TailScansEmpty(head, tail, false);
    assert m[0] == head[0] && m[4] == head[4];
    ScanProseCode(m);
  }

  /** Each element wrapped in its own one-element list, then flattened, gives the list back. */
  lemma {:induction false} ConcatSingletons(xs: seq<string>)
    ensures Concat(seq(|xs|, k requires 0 <= k < |xs| => [xs[k]])) == xs
    decreases |xs|
  {
    var ws := seq(|xs|, k requires 0 <= k < |xs| => [xs[k]]);
    if |xs| > 0 {
      ConcatSingletons(xs[1..]);
      assert ws[1..] == seq(|xs[1..]|, k requires 0 <= k < |xs[1..]| => [xs[1..][k]]);
      assert xs == [xs[0]] + xs[1..];
    }
  }

  /** On the segment-aware path, when no segment exceeds the limit, the chunks
      of the reply are exactly the scanner's segments. */
  lemma ShortBlocksGoOutWhole(message: string)
    requires |message| > MaxMessage
    requires |SplitIntoBlocks(message)| % 2 == 1
    requires forall k :: 0 <= k < |SplitIntoBlocks(message)| ==> |SplitIntoBlocks(message)[k]| <= MaxMessage
    ensures Outgoing(SplitLongMessage(message)) == SplitIntoBlocks(message)
  {
    var blocks := SplitIntoBlocks(message);
    assert SplitLongMessage(message).parts == seq(|blocks|, k requires 0 <= k < |blocks| => [blocks[k]]);
    ConcatSingletons(blocks);
  }

  /** A character that is not a backtick starts no marker. */
  lemma NotMarkerAt(text: string, i: nat)
    requires i < |text| && text[i] != '`'
    ensures !IsMarkerAt(text, i)
  {
    if i + 3 <= |text| {
      assert text[i..i + 3][0] == text[i];
    }
  }

  /** A one-letter stretch followed by a marker reaches the marker unflushed. */
  lemma LetterThenMarker(text: string, i: nat, inCode: bool)
    requires i + 4 <= |text| && text[i] != '`' && IsMarkerAt(text, i + 1)
    ensures ScanFrom(text, i, i, inCode) ==
      Flush(inCode, [text[i]]) + ScanFrom(text, i + 4, i + 4, !inCode)
  {
    NotMarkerAt(text, i);
    PlainStep(text, i, i, inCode);
    ScanAtMarker(text, i, i + 1, inCode);
    assert text[i..i + 1] == [text[i]];
    assert i + 1 + 3 == i + 4;
  }

  /** A one-letter prose stretch closed by a marker is one prose segment. */
  lemma ProseLetterThenMarker(text: string, i: nat)
    requires i + 4 <= |text| && text[i] != '`' && text[i] !in Whitespace && IsMarkerAt(text, i + 1)
    ensures ScanFrom(text, i, i, false) == [Prose([text[i]])] + ScanFrom(text, i + 4, i + 4, true)
  {
    LetterThenMarker(text, i, false);
    StripLetter(text[i]);
  }

  /** A one-letter code stretch closed by a marker is one code segment. */
  lemma CodeLetterThenMarker(text: string, i: nat)
    requires i + 4 <= |text| && text[i] != '`' && IsMarkerAt(text, i + 1)
    ensures ScanFrom(text, i, i, true) == [Code([text[i]])] + ScanFrom(text, i + 4, i + 4, false)
  {
    LetterThenMarker(text, i, true);
  }

  /** A one-letter prose segment and a one-letter code block, scanned from offset `i`. */
  lemma ProseThenCodeAt(m: string, i: nat)
    requires i + 8 <= |m| && IsMarkerAt(m, i + 1) && IsMarkerAt(m, i + 5)
    requires m[i] != '`' && m[i] !in Whitespace && m[i + 4] != '`' && m[i + 4] !in Whitespace
    ensures ScanFrom(m, i, i, false) == [Prose([m[i]]), Code([m[i + 4]])] + ScanFrom(m, i + 8, i + 8, false)
  {
    var j := i + 4;
    var rest := ScanFrom(m, j + 4, j + 4, false);
    CodeLetterThenMarker(m, j);
    ProseLetterThenMarker(m, i);
    assert ScanFrom(m, i, i, false) == [Prose([m[i]])] + ([Code([m[j]])] + rest);
    ConsTwo(Prose([m[i]]), Code([m[j]]), rest);
  }

  /** A one-letter prose segment and a one-letter code block at the front of a message. */
  lemma ProseThenCode(m: string)
    requires |m| >= 8 && IsMarkerAt(m, 1) && IsMarkerAt(m, 5)
    requires m[0] != '`' && m[0] !in Whitespace && m[4] != '`' && m[4] !in Whitespace
    ensures Scan(m) == [Prose([m[0]]), Code([m[4]])] + ScanFrom(m, 8, 8, false)
  {
    ProseThenCodeAt(m, 0);
    // the lemma speaks of the offsets `0 + 4` and `0 + 8`; name them as `4` and `8`
    assert m[0 + 4] == m[4];
    assert ScanFrom(m, 0 + 8, 0 + 8, false) == ScanFrom(m, 8, 8, false);
  }

  lemma ConsTwo<T>(a: T, b: T, rest: seq<T>)
    ensures [a] + ([b] + rest) == [a, b] + rest
  {
  }

  /** The scan of a prose letter, a code letter and a prose letter, each closed by a
      marker, and then text in which no segment is completed. */
  lemma ScanProseCodeProse(m: string)
    requires |m| >= 12 && IsMarkerAt(m, 1) && IsMarkerAt(m, 5) && IsMarkerAt(m, 9)
    requires m[0] != '`' && m[0] !in Whitespace && m[4] != '`' && m[4] !in Whitespace
    requires m[8] != '`' && m[8] !in Whitespace
    requires ScanFrom(m, 12, 12, true) == []
    ensures Scan(m) == [Prose([m[0]]), Code([m[4]]), Prose([m[8]])]
  {
    ProseLetterThenMarker(m, 8);
    assert ScanFrom(m, 8 + 4, 8 + 4, true) == [];
    var last := ScanFrom(m, 8, 8, false);
    assert last == [Prose([m[8]])];
    ProseThenCode(m);
  }

  /** The scan of a prose letter and a code letter, each closed by a marker, and then
      text in which no segment is completed. */
  lemma ScanProseCode(m: string)
    requires |m| >= 8 && IsMarkerAt(m, 1) && IsMarkerAt(m, 5)
    requires m[0] != '`' && m[0] !in Whitespace && m[4] != '`' && m[4] !in Whitespace
    requires ScanFrom(m, 8, 8, false) == []
    ensures Scan(m) == [Prose([m[0]]), Code([m[4]])]
  {
    ProseThenCode(m);
  }

  /** A marker of the head is a marker of any message that starts with it. */
  lemma MarkerInHead(head: string, tail: string, k: nat)
    requires IsMarkerAt(head, k)
    ensures IsMarkerAt(head + tail, k)
  {
    assert (head + tail)[k..k + 3] == head[k..k + 3];
  }

  /** A letter other than whitespace survives `strip()`. */
  lemma StripLetter(c: char)
    requires c !in Whitespace
    ensures Strip([c], Whitespace) == [c]
  {
  }

  /** The message "A```c```" followed by backtick-free prose: one prose letter, a
      non-empty closed code block and trailing prose. The trailing prose is not a segment,
      the count is even, and the whole message takes the fallback. */
  lemma ClosedBlockThenProseFallsBack(tail: string)
    requires |tail| > MaxMessage - 8
    requires forall j :: 0 <= j < |tail| ==> tail[j] != '`'
    ensures var message := "A```c```" + tail;
      SplitLongMessage(message) == Sliced(FixedSlices(message, MaxMessage))
  {
    var m := "A```c```" + tail;
    ClosedTailScan(tail);
    assert Scan(m) == [Prose("A"), Code("c")];
  }
}
