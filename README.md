# buffer_reader in Dafny

A model of the two text cursors of the `buffer_reader` Python package.

- `BufferReader` of src/bufferreader.py is the canonical cursor. It splits a buffer into lines that keep their terminators and holds a (line, char) pointer, a `stream` string and two memoised step counts.
  - `seek` moves the pointer by a signed number of characters.
  - `read(start, end)` extracts the inclusive range between two offsets, reversed when start > end.
  - `next` and `before` repeat the last read's extent.
  - `reset` re-reads the current character.
  - `set_pointer` jumps to a (line, char) pair.
- `BufferReader` of src/buffer_reader.py is the legacy cursor. Its pointers and `output` string are public. `move` uses the same walk. `read(length)` collects its result inside the walk.

Two behaviours of the canonical cursor go against what its documentation describes, and the model follows the code:

- The forward walk can stop one past the end of a line (src/bufferreader.py:132). A read whose end lands there drops that character, and its steps forward can drop to 0. This is the first row under Findings.
- A read wholly ahead of the cursor (start > 0) never assigns `__steps_back` (src/bufferreader.py:249-254). A following `before()` goes back by whatever an earlier seek or read left there, not to the character before the cursor. CursorLaws.BeforeAfterRead states this.

The source's `char` pointer is called `col` here, because `char` is a Dafny keyword. Python exceptions are values: every operation that can raise returns an `Outcome` (`Returned(v)` or `Raised(IndexError | ValueError)`).

Layout:

- `lines.dfy` holds two modules.
  - `Outcomes`: the result datatypes.
  - `LineTable`: `splitlines(keepends=True)`, Python indexing, and the flat-index arithmetic.
    - Python accepts `lines[-1]`, and a backward walk can reach line -1. Positions are therefore stated over the extended table `[last line] + lines`.
    - `Flat(lines, l, c)` is the index of (l, c) in `Joined(lines)`, the concatenation of that table.
- `resolver.dfy` (`Resolver`): the pointer walk of `__get_positions` and `move`, as methods with loops. They are proved equal to `Resolved`, which is defined by flat indices and not by the walk.
- `stream.dfy` (`Stream`): `__get_stream`, proved to be a slice of the joined text.
- `cursor.dfy` (`Cursor`): the canonical class.
  - `SeekSpec` and `ReadSpec` say what `seek` and `read` do to the observable state.
  - The methods are proved to do exactly that.
- `cursor_laws.dfy` (`CursorLaws`): what those specifications promise — slices, step counts, the reversal law, round trips, and the boundary behaviours.
- `legacy.dfy` (`Legacy`): the legacy class, with its read loops proved against specification functions, plus the finding below.

## Model

| member | source | states |
|---|---|---|
| LineTable.SplitLines | src/bufferreader.py:87 | the lines join back to the buffer; none is empty; every line but the last ends with '\n', and '\n' occurs nowhere else; no lines exactly for the empty buffer |
| LineTable.Reversed | src/bufferreader.py:266 | `s[::-1]`: same length, element i is element len-1-i of the input |
| Resolver.ForwardFrom | src/bufferreader.py:130-138 | the forward landing spot of flat index t has 1 <= col <= its line's length (one past the line is possible) and lies exactly at t |
| Resolver.BackwardFrom | src/bufferreader.py:139-148 | the backward landing spot of flat index t is a character of its line and lies exactly at t |
| Resolver.ForwardFormUnique | src/bufferreader.py:130-138 | a forward landing spot is determined by its flat index |
| Resolver.BackwardFormUnique | src/bufferreader.py:139-148 | a backward landing spot is determined by its flat index |
| Resolver.Resolve | src/bufferreader.py:122-153 | the walk's result is `Resolved`: offset 0 keeps the position; on an empty buffer forward gives None and backward raises IndexError (`lines[-1]`); otherwise the spot at flat index start+offset, or None when it is out of reach |
| Resolver.WalkForward | src/bufferreader.py:130-138 | the forward loop computes `Resolved` for offsets > 0 |
| Resolver.WalkBackward | src/bufferreader.py:139-148 | the backward loop computes `Resolved` for offsets < 0 |
| Resolver.WalkForwardToChar | src/bufferreader.py:130-138 | the forward loop with `>=` in place of the `>` at :132 (see Findings): it finds a spot iff the target lies before the end of the text, and that spot is the character exactly `offset` ahead |
| Resolver.ForwardLands | src/bufferreader.py:130-138 | any forward landing spot `offset` characters ahead is exactly what the walk returns |
| Resolver.ResolvedMoves | src/bufferreader.py:122-153 | on a non-empty buffer the walk returns; it finds a spot iff forward stays within the text, or backward starts on a line >= 0 and stays at or after the index just before line 0; the spot is exactly `offset` characters away, in forward or backward form |
| Resolver.ResolvedReachable | src/bufferreader.py:150-153 | a spot the walk returns is again a pointer pair the reader can hold |
| Stream.Extract | src/bufferreader.py:155-181 | `__get_stream` itself, defined case by case as the source builds it (one line, or the tail of the first line, the lines between and the head of the last). Its own contract is empty; what it yields is proved by Stream.ExtractIsSlice and Stream.ExtractAcrossLines (a contiguous slice of the joined text) and by CursorLaws.ExtractOrdered and ExtractBetween |
| Stream.ExtractIsSlice | src/bufferreader.py:155-181 | for ordered positions, `__get_stream` is the slice of the joined text from the start up to just after the end, except that an end one past its line adds nothing |
| Stream.ExtractAcrossLines | src/bufferreader.py:177-181 | the multi-line case: tail of the first line, the whole lines between, and the head of the last line form one contiguous slice |
| Cursor.SeekSpec | src/bufferreader.py:183-196 | a seek keeps the state one the reader can hold; a failed seek keeps stream and steps; a False keeps everything; a True lands on a character, caches it, and resets both steps to 1 |
| Cursor.ReadSpec | src/bufferreader.py:210-267 | a read never moves the pointers, keeps a state the reader can hold, and changes nothing when it returns False |
| Cursor.Ranged | src/bufferreader.py:242-264 | the stream and steps of a read once both endpoints are resolved: the pointers stay; a range behind the cursor sets steps forward to 1; a range ahead keeps steps back; a range around the cursor sets steps back to 1-lo and steps forward to 1+hi. The stream and the other two counts are proved by CursorLaws.RangedInLine, RangedBefore, RangedAfter, RangedNearBefore and RangedNearAfter |
| Cursor.BufferReader.constructor | src/bufferreader.py:75-92 | pointers (0, 0), both steps 1, the stream is the first character, or "" for an empty buffer |
| Cursor.BufferReader.SetPointer | src/bufferreader.py:104-120 | succeeds iff the pair names a character of an existing line; moves the pointers only then; never touches stream or steps |
| Cursor.BufferReader.Seek | src/bufferreader.py:183-196 | outcome and new state are those of `SeekSpec` |
| Cursor.BufferReader.Reset | src/bufferreader.py:198-208 | the state after seek(0), with the boolean dropped and any IndexError passed on |
| Cursor.BufferReader.Next | src/bufferreader.py:269-278 | seek by the stored forward steps |
| Cursor.BufferReader.Before | src/bufferreader.py:280-289 | seek back by the stored backward steps |
| Cursor.BufferReader.Read | src/bufferreader.py:210-267 | outcome and new state are those of `ReadSpec` |
| Cursor.BufferReader.Store | src/bufferreader.py:242-264 | the stream and step bookkeeping once both endpoints are resolved |
| CursorLaws.ExtractBetween | src/bufferreader.py:155-181 | between two characters, `__get_stream` is the inclusive slice of the joined text |
| CursorLaws.ReadInLine | src/bufferreader.py:224-267 | when start <= end and all three positions are characters, read succeeds, keeps the pointers, and its stream is the inclusive slice from start to end characters away; the three branches set the steps as stated (end < 0: back 1-start, forward 1; start > 0: forward end+1, back kept; otherwise back 1-start, forward end+1) |
| CursorLaws.RangedInLine | src/bufferreader.py:239-264 | the same with both endpoints already resolved |
| CursorLaws.RangedBefore | src/bufferreader.py:242-248 | a range before the cursor sets the backward steps to 1-start: the stream plus the gap back to the cursor |
| CursorLaws.RangedAfter | src/bufferreader.py:249-254 | a range after the cursor sets the forward steps to end+1: the gap from the cursor plus the stream |
| CursorLaws.ExtractOrdered | src/bufferreader.py:155-181 | between two ordered positions the reader can hold, `__get_stream` is the slice of the joined text from the start through the end, less the end's character when the end is one past its line |
| CursorLaws.ReadNearLineEnd | src/bufferreader.py:224-267 | a read with start <= end from a character, whenever both endpoints resolve (possibly one past a line): it succeeds and keeps the pointers; the stream is the slice from start to end characters away, less the last character when the end lands one past its line; for start > 0, steps forward are end+1 less one for each endpoint landing one past its line; the other branches are as in ReadInLine |
| CursorLaws.RangedNearBefore | src/bufferreader.py:242-248 | a range behind the cursor sets the backward steps to 1-start, whatever its start resolved to |
| CursorLaws.RangedNearAfter | src/bufferreader.py:249-254 | a range ahead of the cursor sets the forward steps to end+1 less one for each endpoint one past its line |
| CursorLaws.ReadOneAtLineEnd | src/bufferreader.py:130-138 | on lines "ab\n", "cd" with the pointer on the '\n', read(1, 1) returns True with the empty stream and steps forward 0 (see Findings) |
| CursorLaws.ReadIdentity | src/bufferreader.py:224-227 | read(0, 0) on a character returns True, keeps the pointers, sets both steps to 1, and the stream is that character of the text |
| CursorLaws.ReadAheadThenNext | src/bufferreader.py:210-278 | on "012345678\nabcdefghij" at (0, 2), read(2, 6) yields "45678" with steps forward 7, and next() then lands on the '\n' at (0, 9) |
| CursorLaws.ReadReversal | src/bufferreader.py:229-232 | for a > b, read(a, b) has the outcome of read(b, a) and the same state, with the stream reversed; a failed one leaves the same state as read(b, a) |
| CursorLaws.SeekMoves | src/bufferreader.py:183-196 | a successful seek moves exactly `steps` characters and caches the character there |
| CursorLaws.SeekRoundTrip | src/bufferreader.py:183-196 | from a character on a line >= 0, a successful seek(d) is undone by seek(-d), except backward from the first column |
| CursorLaws.SeekToLineStartRaises | src/bufferreader.py:131-138 | a forward seek onto the first character of a line (or onto the end of the text) leaves the pointer one past the previous line and raises IndexError, keeping stream and steps |
| CursorLaws.SeekBeforeFirstLineWraps | src/bufferreader.py:141-148 | a backward seek to one character before line 0 lands on line -1 (Python's last line) and caches the buffer's last character |
| CursorLaws.EmptyBuffer | src/bufferreader.py:122-196 | on an empty buffer seek(0) and read(0, 0) raise IndexError, forward seeks return False, backward seeks raise IndexError |
| CursorLaws.NextAfterRead | src/bufferreader.py:269-278 | after such a read, a successful next() lands one past the later of the cursor and the range end |
| CursorLaws.BeforeAfterRead | src/bufferreader.py:280-289 | after a read as in ReadInLine, a successful before() lands one before the earlier of the cursor and the range start when start <= 0; for start > 0 it goes back by the steps back held before the read |
| Legacy.LegacyReader.constructor | src/buffer_reader.py:8-17 | lines are the split buffer; pointers (0, 0); output is the first character |
| Legacy.LegacyReader.Move | src/buffer_reader.py:19-57 | 0 returns True and changes nothing; otherwise the walk of `Resolved`: None returns False, keeps the pointers and clears output; a spot moves the pointers, then output is its character, or IndexError when it is one past its line |
| Legacy.LegacyReader.Read | src/buffer_reader.py:59-98 | length 0 raises ValueError; otherwise it returns True with output set to `ReadResult`, or False with output cleared; the pointers never move |
| Legacy.LegacyReader.ReadForward | src/buffer_reader.py:66-76 | succeeds iff `length` characters remain from the pointer, and then yields exactly that slice of the text |
| Legacy.LegacyReader.ReadForwardStep | src/buffer_reader.py:67-76 | one pass of the forward loop keeps the slice invariant and makes progress |
| Legacy.LegacyReader.ReadBackward | src/buffer_reader.py:77-91 | succeeds iff the pointer is on a line >= 0 and the `m` characters ending there start at or after line 0; then yields `BackwardAsWritten` |
| Legacy.AppendedReversed | src/buffer_reader.py:79-84 | what the backward loop has collected on line l is the current line up to the pointer, followed by the whole lines l+1..line-1 in reverse order |
| Legacy.ReadAgreesShortOfWholeLine | src/buffer_reader.py:59-98 | forward, and backward when the read ends within the current line or the line above, the read as written equals the in-order read |
| Legacy.BackwardInOrder | src/buffer_reader.py:77-91 | a backward read that leaves no whole line behind yields the m characters ending at the pointer in buffer order |
| Legacy.ReadBackTenAcrossLine | src/buffer_reader.py:77-91 | on "123456789\nabcdefghij" at (1, 4), read(-10) yields "6789\nabcde" |
| Legacy.BackwardInOrderWithinLine | src/buffer_reader.py:85-91 | the same, when the read stays on the current line |
| Legacy.BackwardInOrderAcrossOne | src/buffer_reader.py:79-91 | the same, when it ends inside the line above |
| Legacy.BackwardMisorder | src/buffer_reader.py:82 | on lines "a\n", "bc" at (1, 0), read(-3) yields "ba\n", while the three characters ending there are "a\nb" |
| Legacy.LegacyReader.ReadBackwardPrepending | src/buffer_reader.py:77-91 | the corrected backward loop: succeeds exactly when the as-written one does, and yields the m characters ending at the pointer, in buffer order |
| Legacy.LegacyReader.ReadBackwardPrependingStep | src/buffer_reader.py:80-84 | one line left behind by the corrected loop keeps its invariant |
| Legacy.LegacyReader.ReadInOrder | src/buffer_reader.py:59-98 | `read(length)` with the correction: output is `InOrderResult`, the plain slice of the text in either direction |

## Left out

- `skip`, `EMPTY_SPACES` and `QUOTES` (src/buffer_reader.py:3-4, 100-106) are not modelled. `skip`'s loop never changes `output` or the pointers, so it either exits at once or never ends. It has no behaviour worth a contract.
- Only '\n' ends a line. Python's `splitlines` also splits at "\r", "\r\n", "\v", "\f", "\x1c" to "\x1e", "\x85", "\u2028" and "\u2029".
- The `TypeError` for a non-string buffer (src/bufferreader.py:84-85) is ruled out by Dafny's types.
- The `line` and `char` properties (src/bufferreader.py:94-102) are the class fields themselves.
- Legacy.LegacyReader.constructor: requires a non-empty buffer. On an empty one, `self.lines[0][0]` raises IndexError before an object exists.
- Legacy.LegacyReader.Move: promises `Valid()` only when it returns. On the IndexError path the pointers stay one past their line, as in the source.
- Legacy.LegacyReader.Valid: callers may assign the legacy pointers directly. The model accepts any pointer pair that names a character. Pairs out of range are not modelled.
- Exception messages are not modelled; only the exception kind is.
- Default arguments are not modelled: `read(start=0, end=0)` (src/bufferreader.py:210-214) and the legacy `read(length=1)` (src/buffer_reader.py:59). A caller passes both offsets, or the length, explicitly.

## Findings

| source | as written | input that shows it | evidently intended | confidence | as-written member | corrected member |
|---|---|---|---|---|---|---|
| src/buffer_reader.py:82 | the backward loop of `read` appends each line it leaves behind (`result += ...`) after the text already collected. Only the last piece is prepended, so every whole line ends up after the current line's piece, in reverse order | lines "a\n" and "bc", pointer (1, 0), `read(-3)`: output is "ba\n" | prepend each piece: output "a\nb", the three characters ending at the pointer in buffer order | high (not executed) | Legacy.BackwardMisorder | Legacy.LegacyReader.ReadInOrder |
| src/bufferreader.py:132 | the forward walk moves to the next line only when the rest exceeds what is left of the line (`>`), so a target that is the first character of the next line stops one past the end of the current line. `read` then leaves that character out of the stream and out of its steps forward | lines "ab\n" and "cd", pointer (0, 2) on the '\n', `read(1, 1)`: True, stream "", steps forward 0, so `next()` stays put | compare with `>=`: the walk lands on the character `offset` ahead, so read(1, 1) yields "c" with steps forward 2 (RangedInLine then gives the full slice and end + 1 steps) | medium (not executed) | CursorLaws.ReadOneAtLineEnd | Resolver.WalkForwardToChar |
