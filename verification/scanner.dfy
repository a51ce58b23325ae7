/** The fence scanner, `split_into_blocks` (gpt_telegram_bot.py:75-96): a left-to-right
    pass in which every "```" toggles an in-code flag and flushes the text gathered
    since the previous marker, as a code segment (re-wrapped in markers) or as a
    whitespace-stripped prose segment. Text after the last marker is never flushed. */
module Scanner {
  import opened Text

  /** A classified run of the input: prose as emitted (already stripped), or the body of a code block. */
  datatype Segment = Prose(text: string) | Code(body: string)

  /** The string the scanner appends for a segment: code is re-wrapped in markers. */
  function Render(seg: Segment): string {
    match seg
    case Prose(t) => t
    case Code(b) => Fence(b)
  }

  function RenderAll(segs: seq<Segment>): seq<string> {
    seq(|segs|, k requires 0 <= k < |segs| => Render(segs[k]))
  }

  /** What a toggle emits: nothing for an empty accumulator, the accumulator verbatim
      as code when leaving a block, and stripped of whitespace as prose when entering one. */
  function Flush(inCode: bool, acc: string): seq<Segment> {
    if acc == [] then []
    else if inCode then [Code(acc)]
    else [Prose(Strip(acc, Whitespace))]
  }

  /** The scan loop from index `i`; the accumulator `current_sentence` is always the
      slice `text[start..i]`, so it is carried as its start index. A marker advances
      the index by 3 (`i += 2` then `i += 1`), any other character by 1. */
  function ScanFrom(text: string, start: nat, i: nat, inCode: bool): seq<Segment>
    requires start <= i <= |text|
    decreases |text| - i
  {
    if i == |text| then []
    else if IsMarkerAt(text, i) then Flush(inCode, text[start..i]) + ScanFrom(text, i + 3, i + 3, !inCode)
    else ScanFrom(text, start, i + 1, inCode)
  }

  /** The classified segments of `text`, in input order. */
  function Scan(text: string): seq<Segment> {
    ScanFrom(text, 0, 0, false)
  }

  /** `split_into_blocks(text)`: the segments as the strings the source returns. */
  function SplitIntoBlocks(text: string): seq<string> {
    RenderAll(Scan(text))
  }

  /** The shape every emitted segment has: a non-empty code body, or trimmed prose,
      and in neither a fence marker. */
  predicate WellFormed(seg: Segment) {
    match seg
    case Code(b) => |b| > 0 && NoMarker(b)
    case Prose(t) => NoMarker(t) && Trimmed(t)
  }

  /** A flushed marker-free accumulator yields well-formed segments. */
  lemma FlushWellFormed(inCode: bool, acc: string)
    requires NoMarker(acc)
    ensures forall k :: 0 <= k < |Flush(inCode, acc)| ==> WellFormed(Flush(inCode, acc)[k])
  {
    if acc != [] && !inCode {
      var t := Strip(acc, Whitespace);
      StripKeepsNoMarker(acc, Whitespace);
      assert NoMarker(t) && Trimmed(t);
      assert Flush(inCode, acc) == [Prose(t)];
    }
  }

  lemma {:induction false} ScanFromWellFormed(text: string, start: nat, i: nat, inCode: bool)
    requires start <= i <= |text|
    requires Unmarked(text, start, i)
    ensures forall k :: 0 <= k < |ScanFrom(text, start, i, inCode)| ==> WellFormed(ScanFrom(text, start, i, inCode)[k])
    decreases |text| - i
  {
    if i == |text| {
    } else if IsMarkerAt(text, i) {
      UnmarkedSlice(text, start, i);
      FlushWellFormed(inCode, text[start..i]);
      ScanFromWellFormed(text, i + 3, i + 3, !inCode);
    } else {
      ScanFromWellFormed(text, start, i + 1, inCode);
    }
  }

  /** Segment shape: every code segment is a non-empty marker-free body, every prose
      segment is marker-free and trimmed of leading and trailing whitespace. */
  lemma ScanWellFormed(text: string)
    ensures forall k :: 0 <= k < |Scan(text)| ==> WellFormed(Scan(text)[k])
  {
    ScanFromWellFormed(text, 0, 0, false);
  }

  /** Text after the last marker is never emitted: once no marker lies ahead, the scan emits nothing more. */
  lemma {:induction false} TailIsNeverFlushed(text: string, start: nat, i: nat, inCode: bool)
    requires start <= i <= |text|
    requires Unmarked(text, i, |text|)
    ensures ScanFrom(text, start, i, inCode) == []
    decreases |text| - i
  {
    if i < |text| {
      TailIsNeverFlushed(text, start, i + 1, inCode);
    }
  }

  /** A message without any fence marker yields no segment at all. */
  lemma MarkerFreeScansEmpty(text: string)
    requires NoMarker(text)
    ensures Scan(text) == []
    ensures SplitIntoBlocks(text) == []
  {
    TailIsNeverFlushed(text, 0, 0, false);
  }

  /** The dispatcher's string test recovers the segment kind: a rendered segment is
      fenced exactly when it is code. */
  lemma RenderedKind(seg: Segment)
    requires WellFormed(seg)
    ensures IsFenced(Render(seg)) <==> seg.Code?
  {
    match seg
    case Code(b) => FenceRoundTrip(b);
    case Prose(t) => MarkerFreeIsNotFenced(t);
  }

  /** Every string `split_into_blocks` returns is either fenced (a code block) or
      free of markers (prose), so the dispatcher's test cannot confuse the two. */
  lemma BlockStringsAreFencedOrMarkerFree(text: string)
    ensures forall k :: 0 <= k < |SplitIntoBlocks(text)| ==>
      IsFenced(SplitIntoBlocks(text)[k]) || NoMarker(SplitIntoBlocks(text)[k])
  {
    ScanWellFormed(text);
    var blocks := SplitIntoBlocks(text);
    forall k | 0 <= k < |blocks|
      ensures IsFenced(blocks[k]) || NoMarker(blocks[k])
    {
      var seg := Scan(text)[k];
      assert blocks[k] == Render(seg);
      RenderedKind(seg);
    }
  }

  // ---------------------------------------------------------------------------
  // Reference definition: Python's `text.split("```")`, then the alternating
  // classification of every part but the last.

  /** `s.split("```")`: the parts between non-overlapping markers found left to right. */
  function SplitOnMarker(s: string): (parts: seq<string>)
    ensures |parts| >= 1
    decreases |s|
  {
    if |s| == 0 then [[]]
    else if IsMarkerAt(s, 0) then [[]] + SplitOnMarker(s[3..])
    else
      var p := SplitOnMarker(s[1..]);
      [[s[0]] + p[0]] + p[1..]
  }

  /** `"```".join(parts)`. */
  function JoinOnMarker(parts: seq<string>): string
    requires |parts| >= 1
    decreases |parts|
  {
    if |parts| == 1 then parts[0] else parts[0] + Marker + JoinOnMarker(parts[1..])
  }

  /** Splitting on the marker loses nothing: joining the parts back gives the input. */
  lemma {:induction false} SplitOnMarkerJoins(s: string)
    ensures JoinOnMarker(SplitOnMarker(s)) == s
    decreases |s|
  {
    if |s| == 0 {
    } else if IsMarkerAt(s, 0) {
      var r := SplitOnMarker(s[3..]);
      SplitOnMarkerJoins(s[3..]);
      assert ([[]] + r)[1..] == r;
      assert s == Marker + s[3..];
    } else {
      SplitOnMarkerJoins(s[1..]);
      JoinPrepend([s[0]], SplitOnMarker(s[1..]));
      assert s == [s[0]] + s[1..];
    }
  }

  /** Text glued in front of the first part is glued in front of the joined string. */
  lemma {:induction false} JoinPrepend(a: string, p: seq<string>)
    requires |p| >= 1
    ensures JoinOnMarker(Prepend(a, p)) == a + JoinOnMarker(p)
  {
    var q := Prepend(a, p);
    var rest := p[1..];
    assert q == [a + p[0]] + rest;
    assert q[0] == a + p[0] && q[1..] == rest;
    if |p| > 1 {
      var j := JoinOnMarker(rest);
      assert JoinOnMarker(q) == (a + p[0]) + Marker + j;
      assert JoinOnMarker(p) == p[0] + Marker + j;
      assert (a + p[0]) + Marker + j == a + (p[0] + Marker + j);
    } else {
      assert JoinOnMarker(q) == a + p[0];
    }
  }

  /** Parts alternate prose, code, prose, ...; each is flushed like an accumulator. */
  function Classify(parts: seq<string>, inCode: bool): seq<Segment>
    decreases |parts|
  {
    if |parts| == 0 then [] else Flush(inCode, parts[0]) + Classify(parts[1..], !inCode)
  }

  /** The reference scanner: split on the marker, drop the unterminated last part, classify the rest. */
  function BlocksBySplit(text: string): seq<Segment> {
    var parts := SplitOnMarker(text);
    Classify(parts[..|parts| - 1], false)
  }

  /** The first part of `P` with `acc` glued in front: the state of the split when
      `acc` has already been read. */
  function Prepend(acc: string, parts: seq<string>): seq<string>
    requires |parts| >= 1
  {
    [acc + parts[0]] + parts[1..]
  }

  /** One step of `s.split("```")` read at index `i` of `text`. */
  lemma SplitOnMarkerStep(text: string, i: nat)
    requires i < |text|
    ensures IsMarkerAt(text, i) ==> SplitOnMarker(text[i..]) == [[]] + SplitOnMarker(text[i + 3..])
    ensures !IsMarkerAt(text, i) ==> SplitOnMarker(text[i..]) == Prepend([text[i]], SplitOnMarker(text[i + 1..]))
  {
    var s := text[i..];
    if i + 3 <= |text| {
      assert s[0..3] == text[i..i + 3];
      assert s[3..] == text[i + 3..];
    }
    assert s[1..] == text[i + 1..];
  }

  lemma PrependTwice(a: string, b: string, parts: seq<string>)
    requires |parts| >= 1
    ensures Prepend(a, Prepend(b, parts)) == Prepend(a + b, parts)
  {
    assert a + (b + parts[0]) == (a + b) + parts[0];
  }

  lemma PrependNothing(parts: seq<string>)
    requires |parts| >= 1
    ensures Prepend([], parts) == parts
  {
    assert [] + parts[0] == parts[0];
  }

  /** After a marker the read accumulator becomes a part of its own. */
  lemma ClassifyAfterMarker(acc: string, r: seq<string>, inCode: bool)
    requires |r| >= 1
    ensures var q := Prepend(acc, [[]] + r);
            Classify(q[..|q| - 1], inCode) == Flush(inCode, acc) + Classify(r[..|r| - 1], !inCode)
  {
    var q := Prepend(acc, [[]] + r);
    assert acc + [] == acc;
    assert q == [acc] + r;
    var d := q[..|q| - 1];
    assert d == [acc] + r[..|r| - 1];
    assert d[0] == acc;
    assert d[1..] == r[..|r| - 1];
    assert Classify(d, inCode) == Flush(inCode, d[0]) + Classify(d[1..], !inCode);
  }

  /** The split read from `i` with the accumulator `text[start..i]` glued in front. */
  function PendingParts(text: string, start: nat, i: nat): (q: seq<string>)
    requires start <= i <= |text|
    ensures |q| >= 1
  {
    Prepend(text[start..i], SplitOnMarker(text[i..]))
  }

  /** The scan from `i` agrees with classifying the pending parts (all but the last). */
  ghost predicate ScanAgrees(text: string, start: nat, i: nat, inCode: bool)
    requires start <= i <= |text|
  {
    var q := PendingParts(text, start, i);
    ScanFrom(text, start, i, inCode) == Classify(q[..|q| - 1], inCode)
  }

  /** The step of the correspondence at a marker. */
  lemma MarkerAgrees(text: string, start: nat, i: nat, inCode: bool)
    requires start <= i && IsMarkerAt(text, i)
    requires ScanAgrees(text, i + 3, i + 3, !inCode)
    ensures ScanAgrees(text, start, i, inCode)
  {
    SplitOnMarkerStep(text, i);
    var r := SplitOnMarker(text[i + 3..]);
    assert text[i + 3..i + 3] == [];
    PrependNothing(r);
    ClassifyAfterMarker(text[start..i], r, inCode);
  }

  /** Reading a character that starts no marker moves it from the split into the accumulator. */
  lemma PendingPartsPlain(text: string, start: nat, i: nat)
    requires start <= i < |text| && !IsMarkerAt(text, i)
    ensures PendingParts(text, start, i) == PendingParts(text, start, i + 1)
  {
    SliceExtend(text, start, i);
    SplitOnMarkerStep(text, i);
    PrependTwice(text[start..i], [text[i]], SplitOnMarker(text[i + 1..]));
  }

  lemma SliceExtend(text: string, start: nat, i: nat)
    requires start <= i < |text|
    ensures text[start..i + 1] == text[start..i] + [text[i]]
  {
  }

  /** The step of the correspondence at any other character. */
  lemma PlainAgrees(text: string, start: nat, i: nat, inCode: bool)
    requires start <= i < |text| && !IsMarkerAt(text, i)
    requires ScanAgrees(text, start, i + 1, inCode)
    ensures ScanAgrees(text, start, i, inCode)
  {
    PendingPartsPlain(text, start, i);
    assert ScanFrom(text, start, i, inCode) == ScanFrom(text, start, i + 1, inCode);
  }

  lemma {:induction false} ScanFromIsSplit(text: string, start: nat, i: nat, inCode: bool)
    requires start <= i <= |text|
    ensures ScanAgrees(text, start, i, inCode)
    decreases |text| - i
  {
    if i == |text| {
      assert text[i..] == [];
      assert |PendingParts(text, start, i)| == 1;
    } else if IsMarkerAt(text, i) {
      ScanFromIsSplit(text, i + 3, i + 3, !inCode);
      MarkerAgrees(text, start, i, inCode);
    } else {
      ScanFromIsSplit(text, start, i + 1, inCode);
      PlainAgrees(text, start, i, inCode);
    }
  }

  /** The scanner agrees with the reference: it is `text.split("```")` with the last
      part dropped, parts alternately prose and code, empty parts skipped. */
  lemma ScanIsSplitOnMarker(text: string)
    ensures Scan(text) == BlocksBySplit(text)
  {
    ScanFromIsSplit(text, 0, 0, false);
    assert text[0..0] == [] && text[0..] == text;
    PrependNothing(SplitOnMarker(text));
    assert PendingParts(text, 0, 0) == SplitOnMarker(text);
  }

  lemma RenderAllAppend(a: seq<Segment>, b: seq<Segment>)
    ensures RenderAll(a + b) == RenderAll(a) + RenderAll(b)
  {
  }

  /** The strings a flush appends, as the source's two branches build them. */
  lemma FlushRendered(inCode: bool, acc: string)
    ensures RenderAll(Flush(inCode, acc)) ==
      if acc == [] then [] else if inCode then [Fence(acc)] else [Strip(acc, Whitespace)]
  {
  }

  /** The loop state after a marker: what was flushed moved from the pending scan to the result. */
  lemma MarkerStep(text: string, start: nat, i: nat, inCode: bool, before: seq<string>, after: seq<string>, whole: seq<string>)
    requires start <= i && IsMarkerAt(text, i)
    requires before + RenderAll(ScanFrom(text, start, i, inCode)) == whole
    requires after == before + RenderAll(Flush(inCode, text[start..i]))
    ensures after + RenderAll(ScanFrom(text, i + 3, i + 3, !inCode)) == whole
  {
    var acc := text[start..i];
    ScanAtMarker(text, start, i, inCode);
    RenderStep(before, Flush(inCode, acc), ScanFrom(text, i + 3, i + 3, !inCode), after, whole);
  }

  /** The scan at a marker flushes the accumulator and restarts after the marker. */
  lemma ScanAtMarker(text: string, start: nat, i: nat, inCode: bool)
    requires start <= i && IsMarkerAt(text, i)
    ensures ScanFrom(text, start, i, inCode) == Flush(inCode, text[start..i]) + ScanFrom(text, i + 3, i + 3, !inCode)
  {
  }

  /** Moving rendered segments from the pending scan to the result keeps their sum. */
  lemma RenderStep(before: seq<string>, flushed: seq<Segment>, rest: seq<Segment>, after: seq<string>, whole: seq<string>)
    requires before + RenderAll(flushed + rest) == whole
    requires after == before + RenderAll(flushed)
    ensures after + RenderAll(rest) == whole
  {
    RenderAllAppend(flushed, rest);
    assert before + (RenderAll(flushed) + RenderAll(rest)) == (before + RenderAll(flushed)) + RenderAll(rest);
  }

  /** The loop state after any other character. */
  lemma PlainLoopStep(text: string, start: nat, i: nat, inCode: bool, result: seq<string>, whole: seq<string>)
    requires start <= i < |text| && !IsMarkerAt(text, i)
    requires result + RenderAll(ScanFrom(text, start, i, inCode)) == whole
    ensures result + RenderAll(ScanFrom(text, start, i + 1, inCode)) == whole
    ensures text[start..i + 1] == text[start..i] + [text[i]]
  {
    PlainStep(text, start, i, inCode);
    SliceExtend(text, start, i);
  }

  /** One step of the scan over a character that starts no marker. */
  lemma PlainStep(text: string, start: nat, i: nat, inCode: bool)
    requires start <= i < |text| && !IsMarkerAt(text, i)
    ensures ScanFrom(text, start, i, inCode) == ScanFrom(text, start, i + 1, inCode)
  {
  }

  /** The flush at a marker as the source writes it. An empty accumulator appends nothing;
      otherwise exactly one string is appended after the earlier ones: in code, the
      accumulator between a pair of markers; in prose, the accumulator with its whitespace
      cut from both ends and nothing else changed. That string is the rendered flush. */
  method FlushSentence(result: seq<string>, currentSentence: string, inBlockOfCode: bool) returns (flushed: seq<string>)
    ensures |flushed| == |result| + (if currentSentence == [] then 0 else 1)
    ensures flushed[..|result|] == result
    ensures currentSentence != [] && inBlockOfCode ==>
      |flushed[|result|]| >= 6 && IsFenced(flushed[|result|]) && Unfence(flushed[|result|]) == currentSentence
    ensures currentSentence != [] && !inBlockOfCode ==>
      Trimmed(flushed[|result|]) && exists a :: StripsTo(currentSentence, Whitespace, a, flushed[|result|])
    ensures flushed == result + RenderAll(Flush(inBlockOfCode, currentSentence))
  {
    flushed := result;
    if inBlockOfCode {
      if currentSentence != [] {
        flushed := result + [Fence(currentSentence)];
        FenceRoundTrip(currentSentence);
      }
    } else {
      if currentSentence != [] {
        flushed := result + [Strip(currentSentence, Whitespace)];
        StripCutsOnlyChars(currentSentence, Whitespace);
      }
    }
    assert flushed[..|result|] == result;
    FlushRendered(inBlockOfCode, currentSentence);
  }

  /** The loop of `split_into_blocks` as written, with `current_sentence` as a string;
      it terminates and returns the rendered segments of the scan. */
  method SplitIntoBlocksLoop(text: string) returns (result: seq<string>)
    ensures result == SplitIntoBlocks(text)
    ensures forall k :: 0 <= k < |result| ==> IsFenced(result[k]) || NoMarker(result[k])
  {
    result := ScanLoop(text, SplitIntoBlocks(text));
    BlockStringsAreFencedOrMarkerFree(text);
  }

  /** The loop itself, for any `whole` the scan renders to. */
  method ScanLoop(text: string, ghost whole: seq<string>) returns (result: seq<string>)
    requires RenderAll(ScanFrom(text, 0, 0, false)) == whole
    ensures result == whole
  {
    result := [];
    var inBlockOfCode := false;
    var currentSentence: string := [];
    var i: nat := 0;
    ghost var start: nat := 0;
    assert [] + RenderAll(ScanFrom(text, 0, 0, false)) == whole;
    while i < |text|
      invariant LoopState(text, start, i, inBlockOfCode, currentSentence, result, whole)
      decreases |text| - i
    {
      i, inBlockOfCode, currentSentence, result, start :=
        ScanOne(text, i, inBlockOfCode, currentSentence, result, start, whole);
    }
    assert RenderAll(ScanFrom(text, start, i, inBlockOfCode)) == [];
    assert result + [] == result;
  }

  /** What the loop keeps: the accumulator is `text[start..i]`, and the strings emitted
      so far followed by what the scan still emits from `i` make up the whole answer. */
  ghost predicate LoopState(text: string, start: nat, i: nat, inCode: bool, currentSentence: string,
                            result: seq<string>, whole: seq<string>) {
    && start <= i <= |text|
    && currentSentence == text[start..i]
    && result + RenderAll(ScanFrom(text, start, i, inCode)) == whole
  }

  /** One iteration of the loop body: at a marker flush and toggle, skipping the
      marker (`i += 2` then the loop's `i += 1`); otherwise gather the character. */
  method ScanOne(text: string, i: nat, inBlockOfCode: bool, currentSentence: string, result: seq<string>,
                 ghost start: nat, ghost whole: seq<string>)
    returns (i': nat, inBlockOfCode': bool, currentSentence': string, result': seq<string>, ghost start': nat)
    requires i < |text|
    requires LoopState(text, start, i, inBlockOfCode, currentSentence, result, whole)
    ensures i < i' <= |text|
    ensures LoopState(text, start', i', inBlockOfCode', currentSentence', result', whole)
  {
    if IsMarkerAt(text, i) {
      result' := FlushSentence(result, currentSentence, inBlockOfCode);
      MarkerLoopState(text, start, i, inBlockOfCode, currentSentence, result, result', whole);
      currentSentence' := [];
      inBlockOfCode' := !inBlockOfCode;
      i' := i + 2;
      start' := i' + 1;
    } else {
      PlainLoopState(text, start, i, inBlockOfCode, currentSentence, result, whole);
      result' := result;
      start' := start;
      inBlockOfCode' := inBlockOfCode;
      currentSentence' := currentSentence + [text[i]];
      i' := i;
    }
    i' := i' + 1;
  }

  /** The loop state after a marker: the accumulator restarts past the marker. */
  lemma MarkerLoopState(text: string, start: nat, i: nat, inCode: bool, currentSentence: string,
                        result: seq<string>, after: seq<string>, whole: seq<string>)
    requires IsMarkerAt(text, i)
    requires LoopState(text, start, i, inCode, currentSentence, result, whole)
    requires after == result + RenderAll(Flush(inCode, currentSentence))
    ensures LoopState(text, i + 3, i + 3, !inCode, [], after, whole)
  {
    MarkerStep(text, start, i, inCode, result, after, whole);
    assert text[i + 3..i + 3] == [];
  }

  /** The loop state after any other character: it joins the accumulator. */
  lemma PlainLoopState(text: string, start: nat, i: nat, inCode: bool, currentSentence: string,
                       result: seq<string>, whole: seq<string>)
    requires i < |text| && !IsMarkerAt(text, i)
    requires LoopState(text, start, i, inCode, currentSentence, result, whole)
    ensures LoopState(text, start, i + 1, inCode, currentSentence + [text[i]], result, whole)
  {
    PlainLoopStep(text, start, i, inCode, result, whole);
  }
}
