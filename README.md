# Encrypted video player: a Dafny model of its core

The player streams an AES-CTR-encrypted video in 2 MiB byte ranges, decrypts each range on its own and feeds the plaintext to a Media Source Extensions source buffer, strictly in byte order. This project models that core and proves properties of it:

- **Counter derivation** (`ctr_counter.dfy`, module `CtrCounter`). The IV is read as a big-endian integer and `floor(start / 16)` is added to it, with the carry running right to left. This is the counter-block arithmetic of NIST SP 800-38A, section 6.5 and Appendix B.1. The carry loop is a method over a byte array. It is proved against `CounterBlock`, the big-endian value `(IV + blockIndex) mod 2^(8·|IV|)`.
- **Size probe** (`content_range.dfy`, module `ContentRange`). The total size is read from the `Content-Range` value of a `bytes=0-0` request, using the pattern `/(\d+)$` (RFC 9110, section 14.4).
- **Buffer window** (`buffer_window.dfy`, module `BufferWindow`). This covers the buffered-ahead sum and the removal requests of one maintenance pass. Times are exact reals.
- **Pipeline** (`stream_pipeline.dfy`, module `StreamPipeline`, class `Session`). This covers:
  - the prefetch scheduler with its window of `PREFETCH_CHUNKS` fetches outstanding or queued;
  - the reassembly queue;
  - the pump, which appends only the chunk that starts at the append cursor;
  - the end-of-stream decision;
  - the `sourceopen` handler.

  Fetch completions are explicit calls of `Complete`, in any order. The sink is abstract state: a ready state, an `updating` flag and a ghost log of the byte ranges appended to it.
- **One-time-code form** (`otp_entry.dfy`, module `OtpEntry`, class `VerifyForm`). This covers the six digit cells, typing, Backspace, paste, the submit length check, and the resend countdown guard.
- **Video search** (`video_search.dfy`, module `VideoSearch`). This covers the order-preserving, case-insensitive title/description filter and the fallback to the sample list.

`wrappers.dfy` holds the `Option` type, which stands for the player's `null`. `digits.dfy` holds the decimal-digit predicates shared by the size probe and the code form.

The pipeline invariant `Session.Valid` is stated over plain values (`CursorsOk`, `WindowOk`). It says:
- the fetch cursor sits on a chunk boundary or at the end of the object;
- what was appended is issued chunks laid end to end from 0 up to the append cursor;
- the append cursor does not pass the fetch cursor;
- outstanding fetches and queued chunks are distinct issued chunks between the two cursors, at most `PREFETCH_CHUNKS` together;
- a normal end of stream means everything has been appended.

Every state-changing method of `Session` keeps this invariant, and so does every interleaving of their calls. `Session.AppendedTiles` then gives the main result: what the sink received is chunks 0, 1, 2, … of the object, in order and without gaps. After a normal end it is exactly `[0, totalSize)`. The event contracts say how chunks travel: `Session.Complete` puts a fetched chunk on the queue (or straight into the sink through its pump), and `Session.Pump` appends exactly the queued chunk that starts at the append cursor, takes it off the queue, and does so whenever the buffer is idle and the chunk has arrived.

Three facts about the player's code that the model keeps:
- After teardown, a fetch that completes successfully is still pushed onto the queue. Nothing more is appended only because the pump then returns at once. `Session.Complete` states both.
- The buffer maintenance pass runs on the source buffer's `updateend` event (`Session.UpdateEnd`). That event follows every append, and also every removal the sink accepted.
- A failed append ends the stream with the `decode` reason. There is no separate error state (`ReadyState` is `Closed | Open | Ended(reason)`).

Several functions carry no contract of their own and serve as specifications; the rows of the members that use them state their meaning:
- `ContentRange.ParseTotalSize` (the parse at src/components/DecryptedVideoPlayer.jsx:109-111): `ContentRange.ParseTotalSizeMatchesPattern`, `ContentRange.UnknownLengthHasNoSize`, `ContentRange.ParseFormattedContentRange`, and `StreamPipeline.Session.SourceOpen`, which stores its result.
- `StreamPipeline.Plan` and `StreamPipeline.ChunkAt` (the prefetch loop at lines 175-193): `StreamPipeline.PlanStep`, `PlanChunks`, `PlanTiles`, `PlanCoversObject`, `PlanEnd`, `PlanMembers`, `PlanAtMost`, and `StreamPipeline.IssueFetches`, which is proved to issue exactly `Plan`.
- `VideoSearch.Matches` and `VideoSearch.Filtered` (src/pages/VideoPlayer/VideoPlayer.jsx:61-64): `VideoSearch.FilteredSelects`, `EmptyQueryKeepsAll`, `MissingDescriptionMatchesTitle`, `MatchesIgnoresQueryCase`, and the `Filter` lemmas.
- `OtpEntry.Join` (src/pages/auth/Verify.jsx:67) and `OtpEntry.IsCellText` (src/pages/auth/Verify.jsx:29): `OtpEntry.JoinComplete`, `JoinLeftFilled`, `PasteThenSubmit`, `VerifyForm.Submit` and `VerifyForm.HandleChange`.
- `BufferWindow.AheadOf`, `SumAhead`, `KeepBehindMark`, `EndingBefore` and `RemovalRequests` (lines 152-160 and 240-262): `BufferWindow.BufferedAheadSeconds` and `MaintainBufferedRanges`, which are proved to compute them, and the lemmas about them.
- `CtrCounter.BlockIndex` (line 142): `StreamPipeline.ChunkKeystreamAligned`; `CtrCounter.ChunkCounter` and `CounterBlock` (lines 142-143): `CtrCounter.DeriveCounterFromIv` and the `CounterBlock` lemmas.

## Model

| member | source | states |
|---|---|---|
| `CtrCounter.DeriveCounterFromIv` | src/components/DecryptedVideoPlayer.jsx:23-33 | the result has the IV's length; its big-endian value is (IV + blockIndex) mod 2^(8·len); it is `CounterBlock(iv, blockIndex)`; block index 0 gives the IV back |
| `CtrCounter.CarryStep` | src/components/DecryptedVideoPlayer.jsx:26-30 | one iteration of the carry loop keeps `value(bytes) + carry · 256^position` unchanged |
| `CtrCounter.CarryDone` | src/components/DecryptedVideoPlayer.jsx:26-32 | when the loop stops (no carry left, or every byte visited), the copy holds the sum modulo 2^(8·len) |
| `CtrCounter.BigEndianUpdate` | src/components/DecryptedVideoPlayer.jsx:29 | overwriting one byte changes the big-endian value by the byte difference times that byte's weight |
| `CtrCounter.BigEndianOfEncode` | src/components/DecryptedVideoPlayer.jsx:23-33 | writing a value into `len` bytes keeps it modulo 2^(8·len), which is the wrap-around of the derivation |
| `CtrCounter.EncodeOfBigEndian` | src/components/DecryptedVideoPlayer.jsx:23-33 | a byte sequence written back at its own length is unchanged |
| `CtrCounter.BigEndianInjective` | src/components/DecryptedVideoPlayer.jsx:23-33 | two byte sequences of one length with the same value are equal |
| `CtrCounter.EncodeMod` | src/components/DecryptedVideoPlayer.jsx:23-33 | the written bytes depend on the value only modulo 2^(8·len) |
| `CtrCounter.CounterBlockValue` | src/components/DecryptedVideoPlayer.jsx:23-33 | the counter block's value is (IV + blockIndex) mod 2^(8·len) |
| `CtrCounter.CounterBlockZero` | src/components/DecryptedVideoPlayer.jsx:23-33 | block 0 uses the IV itself |
| `CtrCounter.CounterBlockAdditive` | src/components/DecryptedVideoPlayer.jsx:23-33 | advancing by a blocks and then by b is advancing by a + b |
| `CtrCounter.CounterBlockCarry` | src/components/DecryptedVideoPlayer.jsx:26-30 | adding 1 to an IV ending in 0xFF turns the last byte into 0x00 and increments the byte before it by exactly one |
| `CtrCounter.CounterBlockWraps` | src/components/DecryptedVideoPlayer.jsx:26-31 | all-0xFF plus one wraps to all zeros, so no carry leaves the IV's length |
| `CtrCounter.ChunkCountersContinue` | src/components/DecryptedVideoPlayer.jsx:142-143 | for a block-aligned chunk start, a later offset's counter is the chunk's counter advanced by the blocks in between, so the per-chunk counters form one keystream |
| `CtrCounter.Counter64Block` | src/components/DecryptedVideoPlayer.jsx:145 | with a 64-bit counter the high 8 bytes of the block stay the IV's |
| `CtrCounter.CounterBlockMatches64BitCounter` | src/components/DecryptedVideoPlayer.jsx:142-145 | for a 16-byte IV and a block index below 2^64, the 128-bit derivation agrees with the 64-bit counter given to `decrypt` exactly when adding the index does not carry out of the low 8 bytes |
| `CtrCounter.CounterHalves` | src/components/DecryptedVideoPlayer.jsx:23-33 | the low half of a 2n-byte counter block is the n-byte sum; the high half is the IV's exactly when that sum does not carry |
| `CtrCounter.Counter64Continues` | src/components/DecryptedVideoPlayer.jsx:142-145 | starting from the counter of block n, the 64-bit increment by j equals the full-width increment exactly when the low 8 bytes of the IV plus n + j do not reach 2^64 |
| `ContentRange.TrailingDigits` | src/components/DecryptedVideoPlayer.jsx:110 | the length of the longest run of digits ending the value (the `(\d+)$` part of the pattern) |
| `ContentRange.ParseTotalSizeMatchesPattern` | src/components/DecryptedVideoPlayer.jsx:109-111 | the parse gives a size exactly when the value ends in `/` followed by at least one digit, and the size is the decimal value of those digits; otherwise it gives null |
| `ContentRange.UnknownLengthHasNoSize` | src/components/DecryptedVideoPlayer.jsx:109-111 | the unknown-length form `…/*` leaves the size null |
| `ContentRange.DecimalRoundTrip` | src/components/DecryptedVideoPlayer.jsx:111 | reading a decimal representation back (`parseInt(_, 10)`) gives the number |
| `ContentRange.ParseFormattedContentRange` | src/components/DecryptedVideoPlayer.jsx:109-111 | for a well-formed `bytes first-last/length` value, the parse returns the complete length |
| `BufferWindow.BufferedAheadSeconds` | src/components/DecryptedVideoPlayer.jsx:152-160 | the loop returns `SumAhead`, the sum of `e - max(s, now)` over the ranges with `e > now`, and it is never negative |
| `BufferWindow.AheadOfIsOverlap` | src/components/DecryptedVideoPlayer.jsx:157 | one range contributes between 0 and its length, and 0 exactly when it ends at or before `now` or is empty |
| `BufferWindow.SumAheadNonNegative` | src/components/DecryptedVideoPlayer.jsx:152-160 | buffered-ahead is never negative |
| `BufferWindow.SumAheadOfPlayedRanges` | src/components/DecryptedVideoPlayer.jsx:152-160 | ranges that all end at or before `now` give zero |
| `BufferWindow.SumAheadShrinksAsPlaybackAdvances` | src/components/DecryptedVideoPlayer.jsx:152-160 | over fixed ranges, buffered-ahead never grows as playback advances, so a throttled prefetch stays throttled until playback has consumed enough |
| `BufferWindow.MaintainBufferedRanges` | src/components/DecryptedVideoPlayer.jsx:234-263 | the requests issued are `RemovalRequests`: last index to first, each range ending before `max(0, now - 10)`, then `[0, max(0, now - 10)]` when more than 60 s are buffered ahead |
| `BufferWindow.EndingBeforeSelects` | src/components/DecryptedVideoPlayer.jsx:240-249 | a range is requested in the first step exactly when it is buffered and ends before the keep-behind mark |
| `BufferWindow.EndingBeforeNone` | src/components/DecryptedVideoPlayer.jsx:240-249 | when no range ends before the mark, the first step requests nothing |
| `BufferWindow.RemovalsSparePlayback` | src/components/DecryptedVideoPlayer.jsx:240-262 | every request ends at or before the keep-behind mark and strictly before `now`, except the empty request `[0, 0]`; so no removal reaches the playback position |
| `BufferWindow.RemovalsIdleWhenNothingQualifies` | src/components/DecryptedVideoPlayer.jsx:240-262 | with nothing behind the mark and at most 60 s ahead, a pass requests nothing |
| `StreamPipeline.IndexOfStart` | src/components/DecryptedVideoPlayer.jsx:214 | `findIndex`: -1 exactly when no queued chunk starts at the append cursor, otherwise the first such position |
| `StreamPipeline.PlanStep` | src/components/DecryptedVideoPlayer.jsx:175-193 | one loop step of a prefetch pass issues the chunk at the cursor and continues from its end + 1 |
| `StreamPipeline.ChunkPrefixTiles` | src/components/DecryptedVideoPlayer.jsx:175-193 | chunks 0 … n-1 in order tile `[0, min(n · CHUNK_SIZE, totalSize))` without gap or overlap |
| `StreamPipeline.PlanChunks` | src/components/DecryptedVideoPlayer.jsx:175-193 | a pass from chunk n's boundary issues chunks n, n+1, … (each `[start, min(start + CHUNK_SIZE - 1, totalSize - 1)]`), at most `slots` of them |
| `StreamPipeline.PlanTiles` | src/components/DecryptedVideoPlayer.jsx:175-193 | the ranges of a pass lie end to end from the fetch cursor, and a pass stops short of its slots only when the object is exhausted |
| `StreamPipeline.PlanCoversObject` | src/components/DecryptedVideoPlayer.jsx:175-193 | with enough slots, a pass from 0 requests the whole object in ceil(totalSize / CHUNK_SIZE) ranges |
| `StreamPipeline.PlanCoversFrom` | src/components/DecryptedVideoPlayer.jsx:175-193 | the same from any chunk boundary: the pass ends at totalSize after ceil(remaining / CHUNK_SIZE) ranges |
| `StreamPipeline.CeilingStep` | src/components/DecryptedVideoPlayer.jsx:177 | one more chunk's worth of bytes needs exactly one more range |
| `StreamPipeline.ChunkKeystreamAligned` | src/components/DecryptedVideoPlayer.jsx:142-143 | every issued start is a multiple of 16, so `floor(start / 16)` is exact, and with a full-width increment block j of the chunk gets the object's counter for block `start / 16 + j` (the 64-bit increment `decrypt` uses agrees only without a carry out of the low 8 bytes, `ChunkKeystream64`) |
| `StreamPipeline.ChunkKeystream64` | src/components/DecryptedVideoPlayer.jsx:142-145 | for a 16-byte IV and a chunk whose own counter has not yet carried out of the low 8 bytes (the low half of the IV plus `start / 16` is below 2^64), block j of the chunk, counted by `decrypt`'s 64-bit increment, gets the object's counter for block `start / 16 + j` exactly when the low 8 bytes do not carry by that block |
| `StreamPipeline.IssuedAreChunks` | src/components/DecryptedVideoPlayer.jsx:175-193 | issued ranges laid end to end from 0 are chunks 0, 1, … in order |
| `StreamPipeline.ChunksApart` | src/components/DecryptedVideoPlayer.jsx:177 | two different issued chunks do not overlap |
| `StreamPipeline.PlanEnd` | src/components/DecryptedVideoPlayer.jsx:175-193 | a pass never moves the fetch cursor backwards or past totalSize, and leaves it on a chunk boundary or at the end |
| `StreamPipeline.ElementsOfChunks` | src/components/DecryptedVideoPlayer.jsx:175-193 | consecutive chunks are distinct, and each starts inside their span |
| `StreamPipeline.ChunksFromTail` | src/components/DecryptedVideoPlayer.jsx:175-193 | the chunks after the first are the chunks from the next index |
| `StreamPipeline.PlanMembers` | src/components/DecryptedVideoPlayer.jsx:175-193 | the ranges of a pass are distinct issued chunks starting between the old and the new fetch cursor |
| `StreamPipeline.PlanKeepsWindow` | src/components/DecryptedVideoPlayer.jsx:175-193 | after a pass, outstanding plus queued is still at most PREFETCH_CHUNKS, and the new fetches are disjoint from the others |
| `StreamPipeline.PlanAtMost` | src/components/DecryptedVideoPlayer.jsx:175 | a pass issues at most its free slots |
| `StreamPipeline.PlanKeepsInvariant` | src/components/DecryptedVideoPlayer.jsx:162-195 | a whole prefetch pass keeps the cursor and window invariant |
| `StreamPipeline.IssueFetches` | src/components/DecryptedVideoPlayer.jsx:175-194 | the issuing loop ends with the fetch cursor and outstanding count that `Plan` describes for `PREFETCH_CHUNKS - inFlight - queue.length` slots |
| `StreamPipeline.CompletionKeepsWindow` | src/components/DecryptedVideoPlayer.jsx:180-191 | a completed fetch leaves the outstanding set, and it keeps the window whether its chunk joins the queue or is dropped |
| `StreamPipeline.SpliceKeepsWindow` | src/components/DecryptedVideoPlayer.jsx:214-217 | taking a chunk out of the queue keeps the window; the chunk is then neither queued nor outstanding |
| `StreamPipeline.AppendKeepsInvariant` | src/components/DecryptedVideoPlayer.jsx:217-222 | appending the chunk at the append cursor keeps the appended ranges contiguous from 0, and the cursor does not pass the fetch cursor |
| `StreamPipeline.AppendKeepsCursors` | src/components/DecryptedVideoPlayer.jsx:221-222 | the cursor half of that step |
| `StreamPipeline.AlignedGap` | src/components/DecryptedVideoPlayer.jsx:177 | two chunk boundaries are at least a chunk apart |
| `StreamPipeline.AppendKeepsWindow` | src/components/DecryptedVideoPlayer.jsx:217-222 | the window half: every other outstanding or queued chunk lies after the appended one |
| `StreamPipeline.SpliceMembers` | src/components/DecryptedVideoPlayer.jsx:217 | `splice(k, 1)` loses no entry other than the one it takes |
| `StreamPipeline.Session.AppendedTiles` | src/components/DecryptedVideoPlayer.jsx:209-222 | under the invariant the sink has received chunks 0, 1, … in order, laid end to end up to the append cursor, and after a normal end exactly `[0, totalSize)` |
| `StreamPipeline.Session.constructor` | src/components/DecryptedVideoPlayer.jsx:44-53 | a new session: not aborted, size unknown, both cursors 0, nothing in flight or queued, source closed |
| `StreamPipeline.Session.Abort` | src/components/DecryptedVideoPlayer.jsx:274-275 | teardown sets the aborted flag, and nothing else |
| `StreamPipeline.Session.TryEndOfStream` | src/components/DecryptedVideoPlayer.jsx:209-212 | a normal end may only be requested when everything is appended and nothing is queued or in flight; the media source ends only if it is open and the buffer is not updating, otherwise the refusal is swallowed |
| `StreamPipeline.Session.SourceOpen` | src/components/DecryptedVideoPlayer.jsx:84-121 | an aborted session does nothing; an unsupported type or a failed probe ends the media source with `decode`; otherwise the size is `ParseTotalSize` of the Content-Range value, the append cursor is 0 with nothing queued or appended, and the first pump issues exactly `Plan(0, totalSize, PREFETCH_CHUNKS)` when the prefetch gates pass (nothing otherwise); an empty object ends the stream at once |
| `StreamPipeline.Session.FirstPump` | src/components/DecryptedVideoPlayer.jsx:113-117 | the pump that ends `sourceopen`: with nothing queued it appends nothing; it issues exactly the first `Plan` from byte 0 when the prefetch gates pass, and ends the stream of an empty object |
| `StreamPipeline.Session.Prefetch` | src/components/DecryptedVideoPlayer.jsx:162-195 | when a gate fails nothing is issued; otherwise exactly the ranges of `Plan` become outstanding, and the counter and fetch cursor move by them |
| `StreamPipeline.Session.WindowBound` | src/components/DecryptedVideoPlayer.jsx:175 | under the invariant, in-flight plus queued is at most PREFETCH_CHUNKS |
| `StreamPipeline.Session.IssuePass` | src/components/DecryptedVideoPlayer.jsx:175-194 | the issuing part of a pass moves the state by `Plan` and keeps the invariant |
| `StreamPipeline.Session.OpenValid` | src/components/DecryptedVideoPlayer.jsx:44-53 | the invariant follows from its cursor and window parts while the media source is open |
| `StreamPipeline.Session.Complete` | src/components/DecryptedVideoPlayer.jsx:180-191 | the fetch is no longer outstanding and every other outstanding fetch still is; a chunk that arrives ends up on the queue or in the sink, unless an append failure ended the stream; after an abort the chunk is still pushed on the queue and nothing is appended; a failure ends an open, idle media source with `network`; every chunk queued before stays queued or reaches the sink unless an append failure ended the stream; the fetch cursor never moves back; playback starts exactly when this completion's pump makes the first append |
| `StreamPipeline.Session.Settled` | src/components/DecryptedVideoPlayer.jsx:181-189 | the fetch leaves the in-flight set and count; on success exactly this chunk is pushed at the end of the queue; on failure the media source ends with `network` when it is open and idle |
| `StreamPipeline.Session.HandlerPump` | src/components/DecryptedVideoPlayer.jsx:197-232 | the pump as the two event handlers use it: `Pump`'s contract without the prefetch plan (aborted or not open changes nothing, a busy buffer receives nothing, the chunk at the append cursor is appended or ends the stream with `decode`, the normal end of stream, no queued chunk or outstanding fetch lost, the fetch cursor monotone, playback on the first append) |
| `StreamPipeline.Session.UpdateEnd` | src/components/DecryptedVideoPlayer.jsx:92-95 | on `updateend` the maintenance pass issues `RemovalRequests` (nothing after teardown); if the sink accepts a removal, the pump appends nothing; otherwise, with the media source open, it appends the queued chunk at the append cursor when there is one and the sink accepts it, ends the stream with `decode` when the sink refuses it, and with no such chunk ends the stream normally exactly when everything is appended and nothing is queued or in flight; with no queued chunk at the append cursor the queue and the sink log are unchanged; after an abort nothing is appended; every queued chunk stays queued or reaches the sink unless an append failure ended the stream; no outstanding fetch is dropped and the fetch cursor never moves back; playback starts exactly on the first append |
| `StreamPipeline.Session.TrimBuffer` | src/components/DecryptedVideoPlayer.jsx:234-263 | the finished operation leaves the buffer idle; the pass issues `RemovalRequests`, or nothing once teardown has dropped the source buffer, and a removal the sink accepts makes the buffer busy again |
| `StreamPipeline.Session.Pump` | src/components/DecryptedVideoPlayer.jsx:197-232 | aborted or not open changes nothing; otherwise the prefetch issues exactly the ranges of `Plan` from the old fetch cursor when its gates pass and nothing when one fails, and with the buffer idle the queued chunk at the append cursor (the first, as `findIndex` finds it) is taken off the queue and, when the sink accepts it, appended with the cursor moved to its end + 1; with no such chunk the stream ends exactly when everything is appended and nothing is queued or in flight; no queued chunk is lost except by a failed append; no outstanding fetch is dropped and the fetch cursor never moves back; playback starts exactly when this call makes the first append (the append cursor was 0) |
| `StreamPipeline.Session.AppendNext` | src/components/DecryptedVideoPlayer.jsx:207-231 | with the buffer busy nothing happens; with nothing to append the stream ends exactly when everything is appended and nothing is queued or in flight; otherwise the chunk at the append cursor is taken off the queue and appended, or the stream ends with `decode`; playback starts exactly when this call makes the first append (the append cursor was 0) |
| `StreamPipeline.Session.AppendQueued` | src/components/DecryptedVideoPlayer.jsx:217-231 | the entry at `idx` leaves the queue; an accepted append logs it and moves the cursor past it; a refused one ends the stream with `decode`; playback starts exactly when this call makes the first append (the append cursor was 0) |
| `StreamPipeline.Session.SpliceOut` | src/components/DecryptedVideoPlayer.jsx:217 | `splice(idx, 1)` removes exactly that entry and keeps the rest in order |
| `StreamPipeline.Session.StartAppend` | src/components/DecryptedVideoPlayer.jsx:218-228 | appending makes the buffer busy, logs the chunk, moves the append cursor to end + 1, and starts playback on the first append |
| `OtpEntry.LastChar` | src/pages/auth/Verify.jsx:28 | `slice(-1)`: empty for empty input, else the last character |
| `OtpEntry.DigitsOf` | src/pages/auth/Verify.jsx:56 | `replace(/\D/g, "")` returns only digits and is no longer than the text |
| `OtpEntry.DigitsOfAppend` | src/pages/auth/Verify.jsx:56 | removing non-digits distributes over concatenation, so the digits keep their order |
| `OtpEntry.DigitsOfDigits` | src/pages/auth/Verify.jsx:56 | digits are kept |
| `OtpEntry.DigitsOfNoDigits` | src/pages/auth/Verify.jsx:56-57 | a text without digits gives nothing, and the paste is ignored |
| `OtpEntry.PasteDigits` | src/pages/auth/Verify.jsx:55-56 | the paste keeps a prefix of the pasted digits, at most 6 of them, and all of them when there are fewer than 6 |
| `OtpEntry.PasteFocus` | src/pages/auth/Verify.jsx:61 | the focus index is always a cell index (below 6) and never past the number of pasted digits |
| `OtpEntry.PasteFocusTarget` | src/pages/auth/Verify.jsx:58-62 | after a paste the focus lands on the first empty cell, or on the last cell when all six are filled |
| `OtpEntry.JoinComplete` | src/pages/auth/Verify.jsx:67-71 | for cells that each hold at most one digit, the joined code is digits, and it is six long exactly when no cell is empty |
| `OtpEntry.JoinLeftFilled` | src/pages/auth/Verify.jsx:58-67 | joining one-character cells gives back their characters |
| `OtpEntry.PasteThenSubmit` | src/pages/auth/Verify.jsx:53-71 | a pasted six-digit code is submitted as exactly those digits; a shorter paste fails the length check |
| `OtpEntry.VerifyForm.constructor` | src/pages/auth/Verify.jsx:10-14 | six empty cells, no error, not sending, countdown 30 |
| `OtpEntry.VerifyForm.HandleChange` | src/pages/auth/Verify.jsx:27-35 | the last character is kept; if it is a digit or nothing, only cell i changes and the error clears, and a digit moves the focus on; anything else changes nothing |
| `OtpEntry.VerifyForm.KeyDown` | src/pages/auth/Verify.jsx:37-51 | Backspace clears a non-empty cell and only that cell; on an empty cell it only moves the focus back; the arrows only move the focus |
| `OtpEntry.VerifyForm.HandlePaste` | src/pages/auth/Verify.jsx:53-63 | with no digits nothing changes; otherwise the first up to six digits fill the cells from 0, the rest are emptied, and the focus is `PasteFocus` |
| `OtpEntry.VerifyForm.Submit` | src/pages/auth/Verify.jsx:65-73 | a joined code shorter than six sets the error and sends nothing; otherwise the code is sent; a code is sent exactly when every cell holds a digit |
| `OtpEntry.VerifyForm.Resend` | src/pages/auth/Verify.jsx:99-101 | a resend starts exactly when the countdown is 0 and none is under way |
| `OtpEntry.VerifyForm.ResendSettled` | src/pages/auth/Verify.jsx:111-116 | the end of a resend restarts the countdown at 30 and clears `sending` |
| `OtpEntry.VerifyForm.Tick` | src/pages/auth/Verify.jsx:21-25 | the countdown goes down by one per tick and stops at 0 |
| `VideoSearch.LowerChar` | src/pages/VideoPlayer/VideoPlayer.jsx:62-63 | `toLowerCase` maps A–Z to a–z and leaves other characters alone |
| `VideoSearch.Lower` | src/pages/VideoPlayer/VideoPlayer.jsx:62-63 | lower-casing keeps the length and works character by character |
| `VideoSearch.LowerIdempotent` | src/pages/VideoPlayer/VideoPlayer.jsx:62-63 | lower-casing twice is lower-casing once |
| `VideoSearch.ContainsEmpty` | src/pages/VideoPlayer/VideoPlayer.jsx:62-63 | `includes("")` holds of every string, and only the empty string is contained in the empty string |
| `VideoSearch.MissingDescriptionMatchesTitle` | src/pages/VideoPlayer/VideoPlayer.jsx:63 | a video without a description matches exactly when its title does |
| `VideoSearch.MatchesIgnoresQueryCase` | src/pages/VideoPlayer/VideoPlayer.jsx:62-63 | a query matches the same videos as its lower-cased form |
| `VideoSearch.FilterAppend` | src/pages/VideoPlayer/VideoPlayer.jsx:61 | `filter` distributes over concatenation, so it keeps the order of the list |
| `VideoSearch.FilterSingle` | src/pages/VideoPlayer/VideoPlayer.jsx:61 | a single video is kept exactly when the predicate holds of it |
| `VideoSearch.FilterSelects` | src/pages/VideoPlayer/VideoPlayer.jsx:61 | a video is kept exactly when it is in the list and the predicate holds of it |
| `VideoSearch.FilterKeepsAll` | src/pages/VideoPlayer/VideoPlayer.jsx:61 | when the predicate holds of every video, the list is kept as it is |
| `VideoSearch.FilterIdempotent` | src/pages/VideoPlayer/VideoPlayer.jsx:61 | filtering again with the same predicate changes nothing |
| `VideoSearch.FilteredSelects` | src/pages/VideoPlayer/VideoPlayer.jsx:61-64 | a video is listed exactly when it is among the videos and the lower-cased query occurs in its lower-cased title or description |
| `VideoSearch.EmptyQueryKeepsAll` | src/pages/VideoPlayer/VideoPlayer.jsx:61-64 | an empty query lists every video |
| `VideoSearch.Settle` | src/pages/VideoPlayer/VideoPlayer.jsx:36-54 | a cancelled page changes nothing; otherwise loading ends, a JSON array becomes the list, any other body or a failure falls back to the samples, and only a failure sets the message |
| `VideoSearch.LoadOnce` | src/pages/VideoPlayer/VideoPlayer.jsx:36-54 | from the initial page, the message appears exactly when the request failed, and the list is the array or the two samples |

## Left out

- Network and key provisioning. The `fetch` and axios calls, `publicIpv4`, the key/IV request and the base64 decoding are I/O. A range fetch appears only as the ok/fail argument of `Session.Complete`, and the probe only as its status and `Content-Range` value.
- AES itself. `importKey`/`decrypt` are foreign calls. Chunk payload bytes are not modelled: the queue and the sink log hold byte ranges.
- The browser objects: MediaSource, SourceBuffer and the video element. They are abstract state. The sink's buffered time ranges and the playback position are parameters. Removal requests are returned, not applied to the buffered ranges. Whether the sink accepts an append is the `appendAccepted` parameter, and whether it accepts some removal request of a pass is `removalAccepted`: the first one it accepts makes the buffer busy, so the later ones are refused. The model does not say which request is accepted, and `removalAccepted` is free: a real sink refuses the forced-trim request `[0, 0]` (issued when playback is before 10 s) as an empty range, so a pass made of that request alone never leaves the buffer busy there. `sb.updating` is a field that `StartAppend` and an accepted removal set and `UpdateEnd` clears.
- Async interleaving inside one handler. A prefetch pass, a pump and a completion each run to completion; completions arrive in any order, as separate calls.
- Floating point. Times are exact reals; `currentTime` NaN handling is left out (`now` is a parameter).
- JavaScript number limits. Every integer is unbounded, and `carry & 0xff` is taken as `carry % 256`. `&` reduces its operand modulo 2^32 first, so this is exact for every non-negative integer below 2^53, which covers every byte offset a JavaScript number holds exactly.
- `StreamPipeline.Session.Complete`: the refill of the window that the completion's pump performs (exactly the ranges of `Plan` from the fetch cursor, with the freed slot) is stated only on `Session.Pump` and `Session.Prefetch`; the completion states only that the fetch cursor never moves back and no outstanding fetch is dropped, which keeps its proof small.
- Teardown. Object-URL revocation and source-buffer detach are resource plumbing. Only the `aborted` flag is modelled (`Session.Abort`); the dropped source buffer appears only in that an `updateend` pass after teardown issues no removal requests (`Session.TrimBuffer`).
- The first-append side effects: unmuting and `play()`. They are one `playbackStarted` flag.
- The `console.log` lines, the `alert` and `onClose` on setup failure, and the `setLoading` spinner states of the player and of the verify page.
- Verify page: the focus calls are returned as the index to focus. Toasts, localStorage, the 800 ms and 900 ms waits, the navigation after success, and the server's answer to the code (the 202 branch) are out of scope.
- `OtpEntry.VerifyForm.Submit`: the outer `catch` ("Invalid code") is reachable only when the IP lookup throws, an I/O outcome. It is left out.
- `OtpEntry.VerifyForm.Resend`: the `catch` branch ("Failed to resend") is reachable only if the request setup throws synchronously. It is left out, and so is the result of the resend request, which only shows a toast.
- `OtpEntry.LastChar`: JavaScript strings are UTF-16, and `slice(-1)` takes the last code unit. The model takes the last character; both reject anything that is not a digit.
- `VideoSearch.LowerChar`: only ASCII letters are lower-cased. `toLowerCase` also folds other scripts.
- `VideoSearch.Settle`: the elements of a JSON array are taken to be video records. A record whose title is not a string, which would make the filter throw, is not modelled.
- The rest of the repository: the login page, the app routing, the video card and the video modal. These are UI wiring.
