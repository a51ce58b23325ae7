# Message splitting of the chat-relay bot, in Dafny

The bot relays language-model replies to a messaging transport that accepts at most
4096 characters per message and renders triple-backtick fences as code blocks. Before
sending, `split_long_message` cuts a long reply into pieces. It works in three steps:

- **Scanning.** `split_into_blocks` walks the reply left to right. Each "```" toggles an
  in-code flag and flushes the text gathered since the previous marker. A code segment is
  re-wrapped in markers. A prose segment is stripped of whitespace.
- **Counting.** When the number of segments is even, the reply is cut into fixed
  4096-character slices instead.
- **Splitting.** Otherwise each segment goes to `split_code_block` or `split_text_block`.
  Both pack whole lines greedily into chunks of at most 4090 (code) or 4096 (text)
  characters, hard-slicing any single line that is too long. Code chunks are re-wrapped
  in their own pair of markers.

The project models this core as pure functions over `seq<char>`:

- `Text`: the marker, Python's `lstrip`/`rstrip`/`strip` over a character set, fencing,
  and concatenation.
- `Lines`: Python's `splitlines(keepends=True)`, with its full set of line terminators and
  "\r\n" as one terminator.
- `Scanner`: the scanner as a recursive function, the source's loop as a method proved equal
  to it, and an independent reference, `text.split("```")` with the last part dropped and the
  rest classified alternately, proved equal to the scanner.
- `Packing`: greedy line packing and hard slicing, shared by both splitters, and the
  fixed-width slicing of the fallback.
- `Segmenter`: the three splitters, the `Reply` returned by `split_long_message`, and the
  end-to-end properties.

Python returns a bare string on the short paths, a list of slices on the fallback path,
and a list of per-segment lists otherwise. The `Reply` datatype keeps these three shapes
apart. The sub-splitters' bare-string result is modelled as a one-element list, and
`Outgoing` lists the reply's chunks in order.

Three behaviours of the code are kept as written, although they do not match what the
code's own comments and names suggest:

- The scanner never flushes the text after the last marker: `split_into_blocks` returns at
  line 96 without a final flush of `current_sentence`. So a reply of prose, a non-empty
  closed code block and more prose scans to two segments, such as "A```c```" followed by
  backtick-free text. It takes the fallback of lines 173-177, although the comment at
  line 172 reserves that path for ill-formatted messages
  (`Segmenter.ClosedBlockThenProseFallsBack`).
- A reply that ends in an unterminated fence can scan to an odd count. It then takes the
  segment-aware path rather than the fallback of line 172, and its unterminated tail is in
  no chunk of the reply. "A```c```B```" followed by backtick-free code is such a reply
  (`Segmenter.UnterminatedTailIsDropped`).
- Prose segments lose leading and trailing whitespace (line 88), and `lstrip('```')` at
  line 103 removes any number of backticks, not one marker (`Segmenter.CodeOfSegment`).

## Model

| member | source | states |
|---|---|---|
| Text.LStrip | gpt_telegram_bot.py:88 | `lstrip` returns a suffix of its input, every character it removed is in the set, and the result does not start with one |
| Text.RStrip | gpt_telegram_bot.py:88 | `rstrip` returns a prefix of its input, every character it removed is in the set, and the result does not end with one |
| Text.Strip | gpt_telegram_bot.py:88 | the stripped prose is no longer than the accumulator and has no whitespace at either end |
| Text.StripCutsOnlyChars | gpt_telegram_bot.py:88 | stripping only cuts: the result is a contiguous slice of the input, and every character outside it belongs to the set |
| Text.StripKeepsNoMarker | gpt_telegram_bot.py:88 | stripping a marker-free accumulator leaves it marker-free |
| Text.FenceRoundTrip | gpt_telegram_bot.py:85 | re-wrapping a body in markers adds six characters, passes the `startswith`/`endswith` test, and removing the markers gives the body back |
| Text.FenceAllRoundTrip | gpt_telegram_bot.py:117 | removing the markers from every wrapped chunk gives the list of bodies back |
| Text.IsMarkerAt | gpt_telegram_bot.py:82 | the test `text[i:i+3] == "```"`: a marker starts at the index; near the end, where the slice is shorter, none does |
| Text.IsFenced | gpt_telegram_bot.py:181 | the test `startswith('```') and endswith('```')`; a lone marker passes it |
| Text.MarkerFreeIsNotFenced | gpt_telegram_bot.py:181 | a string with no marker in it fails the dispatcher's code test |
| Text.PiecesOfMarkerFree | gpt_telegram_bot.py:117-129 | every piece of a marker-free joined string is marker-free |
| Lines.SplitLines | gpt_telegram_bot.py:109 | the lines join back to the text, each line is non-empty and holds one line, every line but the last ends in a terminator, and a "\r\n" is never cut between two lines |
| Lines.SingleLine | gpt_telegram_bot.py:142 | text with no terminator before its last character is a single line |
| Scanner.ScanFrom | gpt_telegram_bot.py:80-96 | the scan loop from an index, with the accumulator as the slice since its start index: a marker flushes and skips three characters, any other character is gathered, and the end of the text flushes nothing; its properties are the Scanner lemmas below |
| Scanner.Scan | gpt_telegram_bot.py:75-96 | the classified segments of a whole text, the scan from index 0 outside code |
| Scanner.SplitIntoBlocks | gpt_telegram_bot.py:75-96 | `split_into_blocks`: the segments as strings, code re-wrapped in markers |
| Scanner.SplitIntoBlocksLoop | gpt_telegram_bot.py:75-96 | the loop as written terminates and returns exactly the segments of the scan, each string fenced or marker-free |
| Scanner.ScanOne | gpt_telegram_bot.py:82-94 | one pass of the loop body advances the index and keeps the invariant: the accumulator is the text since the last marker, and the strings emitted plus those the scan still emits make up the answer |
| Scanner.Flush | gpt_telegram_bot.py:83-88 | the emit decision at a marker: nothing for an empty accumulator, the accumulator as a code body when leaving a block, and the accumulator stripped of whitespace as prose when entering one; its properties are Scanner.FlushSentence and Scanner.ScanWellFormed |
| Scanner.FlushSentence | gpt_telegram_bot.py:83-88 | the flush at a marker keeps the earlier strings and appends nothing for an empty accumulator; otherwise exactly one string: in code, one that passes the fenced test and whose body is the accumulator; in prose, a trimmed contiguous slice of the accumulator with only whitespace cut away |
| Scanner.ScanIsSplitOnMarker | gpt_telegram_bot.py:75-96 | the scan equals the reference: split on "```", drop the last part, and classify the other parts alternately as prose and code, skipping empty ones |
| Scanner.SplitOnMarkerJoins | gpt_telegram_bot.py:82 | splitting on the marker loses nothing: joining the parts with "```" gives the text back |
| Scanner.ScanWellFormed | gpt_telegram_bot.py:83-88 | every code segment has a non-empty marker-free body, and every prose segment is marker-free and trimmed |
| Scanner.TailIsNeverFlushed | gpt_telegram_bot.py:81-96 | once no marker lies ahead, the scan emits nothing more: the text after the last marker is dropped |
| Scanner.MarkerFreeScansEmpty | gpt_telegram_bot.py:75-96 | a text with no marker yields no segment at all |
| Scanner.RenderedKind | gpt_telegram_bot.py:181 | the dispatcher's string test holds of a scanned segment exactly when it is code |
| Scanner.BlockStringsAreFencedOrMarkerFree | gpt_telegram_bot.py:75-96 | every string `split_into_blocks` returns is fenced or contains no marker |
| Packing.Pack | gpt_telegram_bot.py:105-131 | the accumulation loop shared by both splitters: a fitting line joins the buffer, a line that does not fit flushes a non-empty buffer and is hard-sliced, and a non-empty last buffer is flushed; its properties are the Pack lemmas below |
| Packing.SplitLinesWithin | gpt_telegram_bot.py:105-131 | the shared splitter: the packed chunks, each wrapped in markers for code (lines 117, 124, 129) and bare for text (lines 150, 157, 162) |
| Packing.FixedSlices | gpt_telegram_bot.py:174-177 | the fallback slicing `[s[i:i+4096] for i in range(0, len(s), 4096)]`; its shape is `Packing.FixedSlicesShape` |
| Packing.HardSlice | gpt_telegram_bot.py:122-126 | an over-long line is cut into pieces of exactly the budget plus a non-empty remainder within the budget, and together they rebuild the line |
| Packing.SliceEvery | gpt_telegram_bot.py:174-177 | the fallback loop as written produces the fixed-width slicing |
| Packing.FixedSlicesShape | gpt_telegram_bot.py:174-177 | the fallback slices join back to the text, each is non-empty and at most the width, and all but the last are exactly the width |
| Packing.PackPreservesText | gpt_telegram_bot.py:105-131 | packing loses and duplicates nothing: the chunks join back to the open buffer followed by all the lines |
| Packing.PackWithinBudget | gpt_telegram_bot.py:112-126 | every chunk is non-empty and within the budget |
| Packing.PackFlushesBuffer | gpt_telegram_bot.py:128-129 | a non-empty buffer always reaches the output |
| Packing.PackBreaksAtLineEnds | gpt_telegram_bot.py:112-126 | every chunk but the last ends on a line terminator or is a full hard-sliced piece |
| Packing.PackKeepsLinesWhole | gpt_telegram_bot.py:112-120 | when no line exceeds the budget, the chunks are runs of whole consecutive lines, each within the budget, and each closed only because the next line would not fit |
| Packing.PackedLinesBreakCleanly | gpt_telegram_bot.py:109-126 | for the lines of any text, every chunk but the last ends a line or is a full piece |
| Packing.PackedLinesStayWhole | gpt_telegram_bot.py:109-120 | for the lines of any text with no over-long line, the chunks are greedy runs of whole lines: each fits, and the next line would not have |
| Packing.HardSliceIsFixedWidth | gpt_telegram_bot.py:122-126 | the hard-slice pieces followed by the remainder are the line's fixed-width slicing |
| Packing.LongLineIsSlicedAtBudget | gpt_telegram_bot.py:119-129 | a single over-long line comes out as its fixed-width slicing at the budget |
| Packing.AsWrittenSliceStep | gpt_telegram_bot.py:123-126 | one pass of the hard-slice loop as written: the piece is cut from the buffer, and the new buffer is `line[budget:]`, cut from the original line; its behaviour is Packing.AsWrittenSliceStaysLong |
| Packing.AsWrittenSliceStaysLong | gpt_telegram_bot.py:122-126 | as written, for a line longer than twice the budget, the buffer stays over the budget and every further step leaves it unchanged |
| Packing.AsWrittenSliceLoopsOnLongLine | gpt_telegram_bot.py:122-126 | as written, a line of 8181 characters with budget 4090 leaves a 4091-character buffer that the loop body reproduces forever |
| Segmenter.SplitLongMessage | gpt_telegram_bot.py:167-186 | `split_long_message`: short input unchanged, an even segment count sliced, otherwise one splitter result per segment, not flattened; its properties are the Segmenter lemmas below |
| Segmenter.SplitCodeBlock | gpt_telegram_bot.py:99-131 | `split_code_block`: a block that fits as it is, otherwise the lines of its backtick-stripped code packed within 4090 characters, each chunk wrapped |
| Segmenter.SplitBlock | gpt_telegram_bot.py:181-184 | the dispatch: a string that starts and ends with "```" goes to the code splitter, any other string to the text splitter; its properties are Segmenter.DispatchFollowsScanner and Scanner.RenderedKind |
| Segmenter.SplitTextBlock | gpt_telegram_bot.py:134-164 | `split_text_block`: a block that fits as it is, otherwise its lines packed within 4096 characters |
| Segmenter.CodeOf | gpt_telegram_bot.py:103 | `code_itself` is a contiguous slice of the block with only backticks cut from its two ends, and no backtick is left at either end |
| Segmenter.ShortInputUnchanged | gpt_telegram_bot.py:167-169 | a message of at most 4096 characters comes back unchanged, and both block splitters return a block of that size whole |
| Segmenter.FallbackSlicesLosslessly | gpt_telegram_bot.py:171-177 | the fallback is taken exactly for a long message with an even segment count; its slices join back to the message, there are at least two, and all but the last have 4096 characters |
| Segmenter.FenceFreeMessageFallsBack | gpt_telegram_bot.py:171-177 | a long message with no fence marker always takes the fallback |
| Segmenter.ClosedBlockThenProseFallsBack | gpt_telegram_bot.py:171-177 | the message "A```c```" followed by more than 4088 backtick-free characters (prose, a non-empty closed code block, trailing prose) scans to two segments, and the whole message takes the fixed-slice fallback |
| Segmenter.UnterminatedTailIsDropped | gpt_telegram_bot.py:179-186 | the message "A```c```B```" followed by more than 4084 backtick-free characters of unterminated code scans to three segments, so it takes the segment-aware path, and its chunks are exactly "A", "```c```" and "B": the unterminated code is in none of them |
| Segmenter.DispatchFollowsScanner | gpt_telegram_bot.py:179-186 | segment k reaches the code splitter exactly when the scanner emitted it as code, and the per-segment results follow the scanner's order |
| Segmenter.ShortBlocksGoOutWhole | gpt_telegram_bot.py:179-186 | on the segment-aware path, when every segment fits, the reply's chunks are exactly the scanner's segments |
| Segmenter.CodeChunksFencedAndRejoin | gpt_telegram_bot.py:103-131 | every chunk of a long code block is a wrapped non-empty body of at most 4096 characters in all, and the bodies join back to the block's code |
| Segmenter.CodeChunksFollowLines | gpt_telegram_bot.py:109-126 | every code body but the last ends a line or is a full 4090-character piece; without over-long lines the bodies are greedy runs of whole lines, each closed only when the next line would not fit |
| Segmenter.LongCodeLineSlicedAtBudget | gpt_telegram_bot.py:119-126 | code that is one line longer than 4090 characters comes out as its 4090-character slices, each wrapped |
| Segmenter.CodeOfSegment | gpt_telegram_bot.py:103 | `lstrip('```').rstrip('```')` of a wrapped body removes the markers together with any backticks next to them |
| Segmenter.TextChunksRejoin | gpt_telegram_bot.py:134-164 | the text chunks join back to the block, each is within 4096 characters, and all but the last end a line or are a full piece |
| Segmenter.TextChunksFollowLines | gpt_telegram_bot.py:142-153 | without over-long lines, the text chunks are greedy runs of whole lines: every flush falls on a line boundary, and only when the next line would not fit |
| Segmenter.LongTextLineSlicedAtBudget | gpt_telegram_bot.py:152-159 | a single line longer than 4096 characters comes out as its 4096-character slices |
| Segmenter.OutgoingWithinLimit | gpt_telegram_bot.py:167-186 | every chunk of the reply, on every path, is within 4096 characters |
| Segmenter.SegmentChunksRejoin | gpt_telegram_bot.py:179-186 | a prose segment's chunks join back to it; a code segment that fits comes back whole; the chunk bodies of a longer one join back to its body without outer backticks |
| Segmenter.CodeChunksBalanced | gpt_telegram_bot.py:117-129 | every chunk of a long code segment is one pair of markers around a marker-free body |
| Segmenter.SegmentChunksBalanced | gpt_telegram_bot.py:179-186 | every chunk made of a scanned segment has balanced fences |
| Segmenter.SegmentedRepliesBalanced | gpt_telegram_bot.py:179-186 | on the segment-aware path every chunk of the reply has balanced fences |

## Left out

- The SQLite usage ledger (`initialize_database`, `get_statistics`, `update_token_count`, lines 12-72) is left out: it is persistence plumbing.
- The `TelegramBot` class (lines 189-299) is left out. It holds the transport handlers, whitelist checks, calls to the completion and image services, and the mutable chat history, all of which are network I/O.
- The `test` handler (lines 241-243) and the file reading under `__main__` (lines 302-314) are left out: they are I/O and not part of the splitting.
- Sending the chunks over the transport is left out. `Outgoing` only lists them in order. The callers of `split_long_message` are not modelled: the `test` handler at lines 241-243 and the `__main__` block at line 310, which discards the result.
- Python exceptions are not modelled. Line 146 adds the integer `line_length` to the string buffer, which raises a TypeError on the normal path of the text splitter. The model appends the line itself, as line 113 does for code.
- Packing.HardSlice: models the intended loop and not lines 125 and 158 as written. As written, those lines refill the buffer from `line[budget:]` instead of the buffer's remainder, and turn the buffer into a one-element list. The as-written loop is recorded under Findings.
- Line 152 is not modelled as written either: on every overflow of the text splitter it makes the buffer the one-element list `[line]`, where line 119 of the code splitter keeps the line as a string. The model keeps both buffers strings.
- A list buffer has different effects in the two splitters. In the code splitter, lines 117 and 129 raise a TypeError when they add it to the markers. In the text splitter, lines 150 and 162 succeed and append the list itself, so a chunk is a list and not a string. The model has no such chunks.
- The short paths of `split_code_block` and `split_text_block` return a bare string. It is modelled as a one-element list, so `SplitCodeBlock` and `SplitTextBlock` always return lists.
- Text.Strip: its own contract states only the length bound and the trimmed ends. The full characterisation of `strip()`, that the result is a contiguous slice and only characters of the set were cut, is the separate lemma `Text.StripCutsOnlyChars`, which the contract of `Scanner.FlushSentence` uses.
- Python strings count code points; `seq<char>` is used the same way, with no surrogate pairs and no normalisation.

## Findings

| source | as written | input that shows it | evidently intended | confidence | as-written member | corrected member |
|---|---|---|---|---|---|---|
| gpt_telegram_bot.py:122-126 | the hard-slice loop sets the buffer to `line[4090:]` each round, so for a line longer than 8180 characters the buffer never shrinks below 4091 and the loop emits the same piece forever (same at 155-159 with 4096) | a code block holding one line of 8181 characters | slice the buffer's own remainder, so each round emits the next 4090 characters until the rest fits | not executed | Packing.AsWrittenSliceLoopsOnLongLine | Packing.HardSlice |
