# Point-cloud streaming client: a verified model of its core

The client streams a volumetric video frame by frame. It reads a DASH-like
manifest (MPD) for the frame URLs. A downloader thread fetches frames into a
bounded ring queue and counts them into a playout buffer. A player thread
consumes the buffer at the frame rate, logging waiting, playback and stall
events. Each frame is a PLY point cloud whose x, y and/or z coordinates were
stripped out and encrypted. The reduced PLY carries a trailer: a marker, an
AES payload and a CP-ABE capsule. After decryption, the client puts the
coordinates back into every vertex row.

This project models that core in Dafny and proves what each part promises.
Each module follows one source file:

| module | source file | form |
|---|---|---|
| `PlyText` | `cpabe/common.c`: header-line parsing, `parse_pattern`, `type_size` | functions and lemmas |
| `PlyLayout` | `cpabe/common.c`: the row layout and the coalesced copy segments of `restore_ply_with_coords` | functions and lemmas, one method |
| `PlyRestore`, `PlyRestoreFacts` | `cpabe/common.c`: `restore_ply_with_coords` and `restore_stripped_rebuild` | methods proved against the function `Restore`, plus lemmas about it |
| `CpabeTrailer` | `cpabe/common.c`: `parse_cpabe_buffer` | methods proved against the function `Trailer`, plus lemmas |
| `AesFraming` | `cpabe/common.c`: the length framing and padding in `aes_128_cbc_encrypt` and `aes_128_cbc_decrypt` | a `ByteArray` class for the glib byte array, and methods |
| `DownloadQueue` | `download_queue.c` | a class over an `array` ring |
| `PlayoutBuffer` | `buffer.c` | a class with a count field |
| `EventLogger` | `logger.c` | a class with arrays for the bounded logs and a `seq` for the growing event list |
| `Player` | `player.c` | a state-machine function `Step` with its invariant, and methods driving the buffer and logger objects |
| `MpdParser` | `mpd_parser.c`: `get_base_url` and `parse_mpd` after the XML is parsed | functions over an abstract XML tree, with methods for the loops |
| `Prelude` | — | shared byte, option, arithmetic and slice helpers |

Throughout, "byte" is an 8-bit value and a "row" is one vertex's bytes in
the PLY binary body.

## Model

| member | source | states |
|---|---|---|
| PlyText.TypeSizeTable | Streaming-Client/build/src/cpabe/common.c:34-43 | char/uchar are 1 byte wide, short/ushort 2, int/uint/float 4, long/ulong/double 8. Every other type name has no width, which the caller treats as fatal. |
| PlyText.LookupFirst | Streaming-Client/build/src/cpabe/common.c:34-43 | The first table entry with the given name decides the width. |
| PlyText.LookupFinds | Streaming-Client/build/src/cpabe/common.c:34-43 | A width is found exactly when some entry carries the name. |
| PlyText.ParsePattern | Streaming-Client/build/src/cpabe/common.c:23-31 | The scan over the mask string sets the flag for x, y or z exactly when that letter occurs in the mask. |
| PlyText.CLineIsCString | Streaming-Client/build/src/cpabe/common.c:80-87 | The copied header line is a NUL-free prefix of the raw line, at most 255 bytes long. A short NUL-free line is copied whole. |
| PlyText.StartsWithIsPrefix | Streaming-Client/build/src/cpabe/common.c:92-116 | The `strncmp(..., len) == 0` tests are exactly the prefix relation. |
| PlyText.SkipSpaceDropsSpace | Streaming-Client/build/src/cpabe/common.c:96-97 | Skipping white space drops exactly the leading `isspace` bytes and no others. |
| PlyText.RunLengthStops | Streaming-Client/build/src/cpabe/common.c:96-97 | A token run holds only non-space bytes. It stops at white space or at its length limit. |
| PlyText.ScanTokenFacts | Streaming-Client/build/src/cpabe/common.c:96-97 | A `%31s` token is 1 to 31 non-space bytes, starting where white space ends. There is a token exactly when something other than white space is left. |
| PlyText.ClassifyByPrefix | Streaming-Client/build/src/cpabe/common.c:92-116 | A header line's kind depends on its prefix alone, tried in the source's order. |
| PlyText.IndexFromFinds | Streaming-Client/build/src/cpabe/common.c:80-82 | The `memchr` search returns the first newline at or after the start, or the end of the buffer when there is none. |
| PlyLayout.StridesAdd | Streaming-Client/build/src/cpabe/common.c:106-110 | The full stride is the reduced stride plus the stripped stride. |
| PlyLayout.SplitThenInterleave | Streaming-Client/build/src/cpabe/common.c:212-227 | Splitting a full row into its retained and stripped parts, then interleaving the parts, gives the row back. |
| PlyLayout.InterleaveThenSplit | Streaming-Client/build/src/cpabe/common.c:212-227 | Interleaving a reduced row with a sidecar row, then splitting, gives both parts back. |
| PlyLayout.InterleaveFrame | Streaming-Client/build/src/cpabe/common.c:212-227 | A rebuilt row depends only on the first reduced-stride bytes of the reduced row and the first stripped-stride bytes of the sidecar row. |
| PlyLayout.CoalescePartitions | Streaming-Client/build/src/cpabe/common.c:137-188 | The coalesced segments cover the full stride, and their bytes per source add up to the reduced and stripped strides. Neighbouring segments copy from different sources. Each segment starts where the earlier segments of its source end. |
| PlyLayout.CoalesceRebuildsRow | Streaming-Client/build/src/cpabe/common.c:137-227 | Copying the coalesced segments builds the same row as copying property by property. |
| PlyLayout.BuildSegments | Streaming-Client/build/src/cpabe/common.c:137-188 | The single pass with the open run in `curr_*` builds the coalesced segment list. |
| PlyRestore.ReadLineEffects | Streaming-Client/build/src/cpabe/common.c:92-111 | Only an `element vertex` line changes the count. Only a `property` line adds a property: exactly one, at the end. A line fails exactly when it is a property of an unknown type. |
| PlyRestore.RecordLine | Streaming-Client/build/src/cpabe/common.c:92-111 | The branch on one header line matches `ReadLine`, and the two stride accumulators track the property list. |
| PlyRestore.ReadHeaderLine | Streaming-Client/build/src/cpabe/common.c:80-111 | One turn of the header loop matches `Advance`: find the line end, copy the cut line, record it. |
| PlyRestore.ScanHeaderLoop | Streaming-Client/build/src/cpabe/common.c:78-118 | The header loop computes `ScanHeader`, with the strides of the properties it read. |
| PlyRestore.RowsSplit | Streaming-Client/build/src/cpabe/common.c:190-234 | The rebuilt rows of a range are those of two adjacent sub-ranges, concatenated. |
| PlyRestore.RebuiltAtEof | Streaming-Client/build/src/cpabe/common.c:201-208 | When a batch needs reduced bytes past the buffer's end, the vertex loop fails, reporting that batch's first row. |
| PlyRestore.RebuiltInFull | Streaming-Client/build/src/cpabe/common.c:190-234 | When all n reduced rows are present, the vertex loop yields rows 0 to n-1, each rebuilt from its reduced row and its sidecar row. |
| PlyRestore.CopySegments | Streaming-Client/build/src/cpabe/common.c:218-226 | The inner copy loop builds exactly the bytes of all the segments, in order. |
| PlyRestore.CopySegment | Streaming-Client/build/src/cpabe/common.c:220-224 | One `memcpy` copies the segment's bytes from the reduced row or the sidecar row. |
| PlyRestore.ReadReducedRows | Streaming-Client/build/src/cpabe/common.c:200-210 | A batch's reduced rows are copied out when they fit in the buffer. The copy fails exactly when the stride is nonzero and they run past the end. |
| PlyRestore.RebuildVertices | Streaming-Client/build/src/cpabe/common.c:190-234 | The batched vertex loop computes `Rebuilt`: the rows, or the end-of-file failure. |
| PlyRestore.VertexPass | Streaming-Client/build/src/cpabe/common.c:192-233 | One pass of the batch loop either stops at end of file or extends the output by the next batch's rows, keeping the offsets in step. |
| PlyRestore.RestorePlyWithCoords | Streaming-Client/build/src/cpabe/common.c:49-242 | restore_ply_with_coords returns the result of `Restore` (the copied header and every rebuilt row, or the failure). It also reports whether the sidecar's length field disagrees with the expected count. |
| PlyRestore.RestoreStrippedRebuild | Streaming-Client/build/src/cpabe/common.c:243-250 | The alias behaves exactly like restore_ply_with_coords. |
| PlyRestoreFacts.RowsReachedAtMost | Streaming-Client/build/src/cpabe/common.c:190-208 | The vertex loop never goes past row n. |
| PlyRestoreFacts.RebuiltIgnoresBatch | Streaming-Client/build/src/cpabe/common.c:190-234 | The batch size decides neither whether the rows are rebuilt nor what they are. It only decides which row a failure is reported at. |
| PlyRestoreFacts.RestoreOk | Streaming-Client/build/src/cpabe/common.c:49-242 | A success read n reduced rows and n sidecar rows, where n is the last vertex count declared. It is the copied header followed by those rows. |
| PlyRestoreFacts.RestoreShape | Streaming-Client/build/src/cpabe/common.c:49-242 | A success is the header followed by n rows of full-stride bytes each. |
| PlyRestoreFacts.ScanCopiesCleanLines | Streaming-Client/build/src/cpabe/common.c:78-118 | Clean header lines are copied byte for byte. |
| PlyRestoreFacts.HeaderCopied | Streaming-Client/build/src/cpabe/common.c:78-118 | With clean header lines, the written header is the reduced file's header, byte for byte. |
| PlyRestoreFacts.ScanLinesErr | Streaming-Client/build/src/cpabe/common.c:100-103 | The header scan fails only on a property whose type has no width. |
| PlyRestoreFacts.EofRow | Streaming-Client/build/src/cpabe/common.c:190-208 | The loop stops at a multiple of the batch size, below n, after every row whose reduced bytes are all present, and at a batch whose bytes are not. |
| PlyRestoreFacts.RestoreFailures | Streaming-Client/build/src/cpabe/common.c:49-242 | The three failures (unknown type, sidecar shorter than 4 bytes, end of file at row d) each occur exactly when their condition holds. |
| PlyRestoreFacts.LengthFieldIgnored | Streaming-Client/build/src/cpabe/common.c:120-131 | The sidecar's length field decides nothing: two sidecars that differ only in it restore identically. |
| PlyRestoreFacts.SlotOfStrip | Streaming-Client/build/src/cpabe/common.c:212-227 | Slot k of a stripped block is what full row k gave up. |
| PlyRestoreFacts.RowOfStrip | Streaming-Client/build/src/cpabe/common.c:212-227 | Row k rebuilt from stripped bytes is full row k. |
| PlyRestoreFacts.RestoreUndoesStrip | Streaming-Client/build/src/cpabe/common.c:49-242 | Restoring a stripped file succeeds whatever the sidecar's length field holds. The file is a header that scans to the stripped layout, then the reduced rows; the sidecar holds the stripped coordinates. The result is the scanned header followed by the n original rows. When the header's lines are clean, the result is the original header followed by the n original rows: the original file, byte for byte. |
| CpabeTrailer.ReadVertexLineEffects | Streaming-Client/build/src/cpabe/common.c:435-465 | Only vertex properties change the stride, and only upward. Only element lines switch the current element. A line fails exactly when it is a vertex property of unknown type. The recorded x, y and z widths stay within the stride. |
| CpabeTrailer.ScanKeepsWidthsFit | Streaming-Client/build/src/cpabe/common.c:435-465 | Every state of the header loop keeps the stripped widths within the stride. The loop fails only on an unknown vertex property type. |
| CpabeTrailer.ReadVertexHeaderLine | Streaming-Client/build/src/cpabe/common.c:436-464 | One turn of the header loop matches `AdvanceLine`. |
| CpabeTrailer.ScanVertexHeaderLoop | Streaming-Client/build/src/cpabe/common.c:435-465 | The header loop computes `ScanVertexHeader`. |
| CpabeTrailer.NeverNegativeStride | Streaming-Client/build/src/cpabe/common.c:469-476 | The negative-reduced-stride check never fires. |
| CpabeTrailer.TrailerOffsetFailures | Streaming-Client/build/src/cpabe/common.c:466-481 | Each header or offset failure occurs exactly when its condition holds. The offset is computed in size_t arithmetic and must land inside the buffer. |
| CpabeTrailer.TrailerAfterRows | Streaming-Client/build/src/cpabe/common.c:479-481 | Below 2^64, the trailer starts right after vcount reduced rows. |
| CpabeTrailer.LocateTrailer | Streaming-Client/build/src/cpabe/common.c:419-481 | The header checks and the offset computation give `TrailerOffset`. |
| CpabeTrailer.ReadBlobFits | Streaming-Client/build/src/cpabe/common.c:495-508 | The corrected read fails exactly when the length field or the bytes it declares run past the end. A blob it returns has its length in the field, followed by its bytes. |
| CpabeTrailer.ReadBlobRoundTrip | Streaming-Client/build/src/cpabe/common.c:495-508 | Writing a blob and reading it back gives the blob and the offset just past it. |
| CpabeTrailer.ReadTrailerRoundTrip | Streaming-Client/build/src/cpabe/common.c:484-508 | A trailer written at an offset reads back, whatever surrounds it and whatever the skipped field holds. |
| CpabeTrailer.TrailerSuccess | Streaming-Client/build/src/cpabe/common.c:479-508 | On success, the marker sits at the computed offset, the payload is the blob after marker and skipped field, and the capsule is the next blob. |
| CpabeTrailer.ReadLength | Streaming-Client/build/src/cpabe/common.c:495-496 | The four-byte loop assembles the big-endian length. |
| CpabeTrailer.ReadBlobAt | Streaming-Client/build/src/cpabe/common.c:495-508 | A blob read, with the length check before the copy, computes `ReadBlob`. |
| CpabeTrailer.ReadTrailerAt | Streaming-Client/build/src/cpabe/common.c:484-508 | The marker check, the skip and the two blob reads give `ReadTrailer`. |
| CpabeTrailer.ParseCpabeBuffer | Streaming-Client/build/src/cpabe/common.c:417-509 | parse_cpabe_buffer, with the two blob reads corrected as under "## Findings", returns `Trailer` of the buffer, using the pattern parsed from the global mask. An absent mask reads as empty. TrailerAsWrittenAgrees ties it to the reads as written. |
| CpabeTrailer.AsWrittenAcceptsNegativeLength | Streaming-Client/build/src/cpabe/common.c:495-500 | As written, the length FF FF FF FF is -1 in a signed int and passes the bound check. The corrected read refuses it. |
| CpabeTrailer.AsWrittenReadsPastEnd | Streaming-Client/build/src/cpabe/common.c:495-496 | As written, a buffer that ends inside the length field is read past its end. The corrected read refuses it. |
| CpabeTrailer.ReadBlobAgrees | Streaming-Client/build/src/cpabe/common.c:495-508 | Where the length field is present and below 2^31, the as-written and corrected reads agree. |
| CpabeTrailer.BlobAsWrittenAgrees | Streaming-Client/build/src/cpabe/common.c:495-508 | On a length field present and below 2^31, the source's read and copy end as the corrected read does: the same blob, or the same overrun failure. |
| CpabeTrailer.TrailerAsWrittenAgrees | Streaming-Client/build/src/cpabe/common.c:417-509 | When both length fields the source reads lie in the buffer and are below 2^31, parse_cpabe_buffer as written ends exactly as `Trailer` does: the same two blobs or the same failure. |
| CpabeTrailer.AsWrittenTrailerOverreads | Streaming-Client/build/src/cpabe/common.c:484-500 | After a correct marker and skipped field, a payload length of FF FF FF FF makes the source read past the buffer, where the corrected parse fails with AesOverrun. |
| AesFraming.ByteArray.Prepend | Streaming-Client/build/src/cpabe/common.c:283-287 | `g_byte_array_prepend` puts the bytes before the old contents. |
| AesFraming.ByteArray.Append | Streaming-Client/build/src/cpabe/common.c:290-292 | `g_byte_array_append` puts the bytes after the old contents. |
| AesFraming.ByteArray.RemoveIndex | Streaming-Client/build/src/cpabe/common.c:317-326 | `g_byte_array_remove_index` removes one byte and shifts the rest down. |
| AesFraming.ByteArray.SetSize | Streaming-Client/build/src/cpabe/common.c:317-326 | `g_byte_array_set_size` cuts to n bytes, or grows to n bytes and keeps the old ones. |
| AesFraming.PadLength | Streaming-Client/build/src/cpabe/common.c:290-292 | The padding is the fewest zero bytes, fewer than 16, that bring the length to a multiple of 16. |
| AesFraming.Pad | Streaming-Client/build/src/cpabe/common.c:290-292 | The padding loop appends exactly `PadLength` zeros. |
| AesFraming.FramedShape | Streaming-Client/build/src/cpabe/common.c:283-292 | The framed plaintext is whole 16-byte blocks. It is the 32-bit big-endian length, then the plaintext, then fewer than 16 zero bytes. |
| AesFraming.FramingRoundTrip | Streaming-Client/build/src/cpabe/common.c:283-326 | Decryption-side unframing undoes framing for every plaintext shorter than 2^32 bytes. |
| AesFraming.FrameInPlace | Streaming-Client/build/src/cpabe/common.c:283-292 | The caller's buffer is changed into the framed plaintext. |
| AesFraming.Aes128CbcEncrypt | Streaming-Client/build/src/cpabe/common.c:272-300 | Encryption frames the buffer in place and returns the cipher applied to the framed bytes. |
| AesFraming.Aes128CbcDecrypt | Streaming-Client/build/src/cpabe/common.c:302-329 | A decrypted buffer shorter than 4 bytes is flagged: its length is read past the end. Otherwise the result holds the declared number of bytes, which are the decrypted bytes after the length field whenever there are that many. |
| DownloadQueue.WindowAfterStore | Streaming-Client/build/src/download_queue.c:44-46 | Storing at the slot after the window appends to the window. |
| DownloadQueue.WindowAfterTake | Streaming-Client/build/src/download_queue.c:64-66 | Advancing head by one drops the oldest frame. |
| DownloadQueue.Queue.constructor | Streaming-Client/build/src/download_queue.c:8-21 | The queue starts as a well-formed empty ring of the given capacity. |
| DownloadQueue.Queue.Push | Streaming-Client/build/src/download_queue.c:32-50 | With room, the frame is stored at tail, tail moves one slot on and count grows by one. The frame joins the back of the queue, and no other slot changes. |
| DownloadQueue.Queue.Pop | Streaming-Client/build/src/download_queue.c:52-70 | On a non-empty queue, the oldest frame is returned, head moves one slot on and count drops by one. The rest of the queue is unchanged. |
| DownloadQueue.RunIsFifo | Streaming-Client/build/src/download_queue.c:32-70 | Over any run of pushes and pops, the old contents plus the pushed frames equal the popped frames plus what remains. |
| DownloadQueue.PopsArePrefixOfPushes | Streaming-Client/build/src/download_queue.c:32-70 | From an empty queue, frames come out in the order they went in. |
| PlayoutBuffer.AddStep | Streaming-Client/build/src/buffer.c:12-20 | An add succeeds exactly when there is room and then adds one frame. A refused add returns -1 and changes nothing. |
| PlayoutBuffer.ConsumeStep | Streaming-Client/build/src/buffer.c:22-30 | A consume succeeds exactly when a frame is there and then removes it. A refused consume returns -1 and changes nothing. |
| PlayoutBuffer.StepsKeepBounds | Streaming-Client/build/src/buffer.c:12-30 | Both operations keep the count between 0 and the maximum. |
| PlayoutBuffer.AddThenConsumeRestores | Streaming-Client/build/src/buffer.c:12-30 | A successful add and a consume, in either order, cancel out. |
| PlayoutBuffer.Buffer.constructor | Streaming-Client/build/src/buffer.c:5-10 | A new buffer is empty and holds up to seconds * fps frames. |
| PlayoutBuffer.Add | Streaming-Client/build/src/buffer.c:12-20 | buffer_add returns the code and count of `AddStep`, or -2 for a null buffer. |
| PlayoutBuffer.Consume | Streaming-Client/build/src/buffer.c:22-30 | buffer_consume returns the code and count of `ConsumeStep`, or -2 for a null buffer. |
| EventLogger.BoundedLogKeepsFirst | Streaming-Client/build/src/logger.c:20-35 | A bounded log holds the first `capacity` records ever added and drops the rest. |
| EventLogger.CapacityTracksCount | Streaming-Client/build/src/logger.c:37-48 | Capacity doubling always leaves room. The capacity is either the initial one or less than twice the count. |
| EventLogger.Logger.constructor | Streaming-Client/build/src/logger.c:9-18 | A new logger has empty logs of the given capacities and an empty event list of capacity 128. |
| EventLogger.Logger.AddFrame | Streaming-Client/build/src/logger.c:20-28 | The frame record joins the log unless the log is full. Nothing else changes. |
| EventLogger.Logger.AddStall | Streaming-Client/build/src/logger.c:30-35 | The stall record joins the log unless the log is full. Nothing else changes. |
| EventLogger.AddPlayerEvent | Streaming-Client/build/src/logger.c:37-48 | The event joins the end of the list, after the capacity doubles if the list is full. A null logger is left alone. |
| EventLogger.Logger.FlushPlayer | Streaming-Client/build/src/logger.c:73-87 | If the file opens, the events are handed out oldest first and the list is emptied down to capacity 0. Otherwise nothing changes. |
| Player.ArriveBounds | Streaming-Client/build/src/buffer.c:12-20 | Frame arrivals never lower the count or take it past the maximum. |
| Player.StartInv | Streaming-Client/build/src/player.c:9-31 | The player starts inside its invariant. |
| Player.FillingStepKeepsInv | Streaming-Client/build/src/player.c:32-41 | A turn of the initial-fill loop keeps the invariant. The test reads the count before the sleep and the log reads it after. |
| Player.StallStepKeepsInv | Streaming-Client/build/src/player.c:45-55 | A turn on an empty buffer opens a stall or keeps it open, and keeps the invariant. Frames that arrive during its sleep are counted. |
| Player.CloseStallKeepsInv | Streaming-Client/build/src/player.c:58-63 | Leaving a stall logs one stall record and a stall_end event, and keeps the invariant. |
| Player.ConsumedKeepsInv | Streaming-Client/build/src/player.c:66-76 | Consuming a frame keeps the invariant. |
| Player.PlayStepKeepsInv | Streaming-Client/build/src/player.c:57-84 | A playback turn on a non-empty buffer keeps the invariant. |
| Player.EndStepKeepsInv | Streaming-Client/build/src/player.c:85-87 | Ending playback keeps the invariant. |
| Player.StepKeepsInv | Streaming-Client/build/src/player.c:32-87 | Every turn keeps the invariant. |
| Player.RunKeepsInv | Streaming-Client/build/src/player.c:9-89 | Every run from a count of 0 or more keeps the invariant. |
| Player.StartIsFixed | Streaming-Client/build/src/player.c:40-44 | Once playback starts, the player never returns to filling and start_ms stays fixed. After playback_end, nothing changes. |
| Player.FillLogsOnePerTurn | Streaming-Client/build/src/player.c:32-38 | While filling, each turn logs exactly one waiting event and nothing else. |
| Player.WaitingSeesArrivals | Streaming-Client/build/src/player.c:34-37 | A waiting event carries the count read after the 1 ms sleep, with that sleep's arrivals, and that count becomes the new count. |
| Player.FillToOne | Streaming-Client/build/src/player.c:32-41 | With a threshold of 1 and one frame arriving during the first sleep, the log is waiting with count 1, then playback_start with count 1. |
| Player.FailedConsumeGoesOn | Streaming-Client/build/src/player.c:77-84 | A refused consume is logged as consume_failed with the count read after its 1 ms sleep. played_frames is kept and playback goes on. |
| Player.RunOutcome | Streaming-Client/build/src/player.c:9-89 | Playback ends only with all frames played, no stall open and one playback_end. The k-th consume_frame carries frame k and asks the deadline for index k-1. stall_start and stall_end alternate. One stall record is kept per closed stall, up to capacity. No consume ever fails. |
| Player.RunAfterFinish | Streaming-Client/build/src/player.c:44-87 | Turns after playback_end change nothing. |
| Player.Arrivals | Streaming-Client/build/src/buffer.c:12-20 | The downloader's buffer_add calls during a turn's sleep bring the count to `Arrive`. |
| Player.PlayerTurn | Streaming-Client/build/src/player.c:32-87 | One turn on the real buffer and logger moves the whole state exactly as `Step` does, with the frames arriving during the turn's sleep. So waiting and consume_failed events carry the count read after the sleep. The buffer's bound, the frame log and the stall log's capacity are left as they were. |
| Player.SimulatePlayer | Streaming-Client/build/src/player.c:9-89 | simulate_player over a tick schedule leaves the buffer count, event list and stall log at those of `Run`. The buffer's bound and the frame log are left as they were. With a null argument, it changes nothing. |
| MpdParser.LastSlash | Streaming-Client/build/src/mpd_parser.c:57 | `strrchr` finds the last '/', or reports that there is none. |
| MpdParser.BaseUrlShape | Streaming-Client/build/src/mpd_parser.c:55-66 | The base URL ends in '/'. It is "./" when the URL has no slash, and otherwise the URL up to and including its last slash. |
| MpdParser.BaseUrlIdempotent | Streaming-Client/build/src/mpd_parser.c:55-66 | Taking the base of a base changes nothing. |
| MpdParser.FirstRepresentation | Streaming-Client/build/src/mpd_parser.c:108-113 | The pick is a Representation element among the AdaptationSet's children. |
| MpdParser.ChosenIsFromLastSet | Streaming-Client/build/src/mpd_parser.c:104-115 | The chosen Representation is the first one of the last AdaptationSet that has any, because the break leaves only the inner loop. There is none exactly when no set has one. |
| MpdParser.SelectRepresentation | Streaming-Client/build/src/mpd_parser.c:104-115 | The nested walk computes `Chosen`. |
| MpdParser.ScanDigits | Streaming-Client/build/src/mpd_parser.c:96-102 | `%d` reads a run of digits as its value and leaves the rest. |
| MpdParser.ScanNegativeDigits | Streaming-Client/build/src/mpd_parser.c:96-102 | `%d` reads a run of digits behind a minus sign as its negated value. |
| MpdParser.AtoiOfDecimal | Streaming-Client/build/src/mpd_parser.c:118-121 | `atoi` reads back every number written in decimal, with or without a minus sign. |
| MpdParser.DurationFromScans | Streaming-Client/build/src/mpd_parser.c:96-102 | Once both numbers of "PT%*dM%dS" are read, the duration is the second one. |
| MpdParser.MinutesDiscarded | Streaming-Client/build/src/mpd_parser.c:96-102 | "PT<m>M<s>S" gives s seconds: the minutes are discarded. |
| MpdParser.SecondsAloneGiveZero | Streaming-Client/build/src/mpd_parser.c:96-102 | "PT<s>S" gives 0 seconds. |
| MpdParser.TotalFrames | Streaming-Client/build/src/mpd_parser.c:124-126 | The declared frame count is never negative. It is positive exactly when both frame rate and seconds are, and then it is their product. |
| MpdParser.FrameUrl | Streaming-Client/build/src/mpd_parser.c:146-148 | A URL is exactly the first 1023 characters of base + media, or all of it when shorter. |
| MpdParser.CappedSnoc | Streaming-Client/build/src/mpd_parser.c:136-155 | Taking one more item while under the cap appends it. At the cap, nothing changes. |
| MpdParser.MediaStep | Streaming-Client/build/src/mpd_parser.c:136-155 | One more FrameList contributes the media of its FrameURLs. |
| MpdParser.ListStep | Streaming-Client/build/src/mpd_parser.c:140-153 | One turn of the inner loop at a node: a FrameURL with a media attribute adds its URL while under the cap. |
| MpdParser.CollectFromList | Streaming-Client/build/src/mpd_parser.c:140-153 | The inner loop over one FrameList's children extends the capped URL list. |
| MpdParser.CollectUrls | Streaming-Client/build/src/mpd_parser.c:136-155 | Each FrameURL with a media attribute, in document order, gives a URL while fewer than the declared total have been taken. |
| MpdParser.ParseMpd | Streaming-Client/build/src/mpd_parser.c:69-167 | parse_mpd, given the parsed document, computes `Mpd`. |
| MpdParser.MpdUrls | Streaming-Client/build/src/mpd_parser.c:124-164 | total_frames equals the number of URLs, which is the smaller of the media count and the declared count. The k-th URL is `FrameUrl` of the base and the k-th media: the two joined and cut to 1023 characters. |

## Left out

- Memory-allocation failure (`malloc`, `calloc`, `realloc`, `g_byte_array_new`, `xmlGetProp`) is not modelled. Every allocation is taken to succeed. This includes `malloc(0)` in parse_mpd when the declared count is 0, which may return NULL and make parse_mpd fail.
- Fixed-width integer overflow is not modelled in `seconds * fps` (buffer_init), in `cap * 2` (logger_add_player_event), in `frame_rate * seconds` (parse_mpd) or in `atoi`/`%d` on out-of-range numbers. These are unbounded integers here. The size_t offset arithmetic of parse_cpabe_buffer and the 32-bit length field of the AES framing are modelled modulo 2^64 and 2^32.
- Threads, the queue's and the buffer's mutexes, condition variables, `usleep` and the clock are not modelled. A run of the player is a schedule of ticks, each carrying the time read and the number of frames the downloader added since the last turn.
- The frame deadline (`frame_deadline_ms`) is recorded as the frame index it is asked for; its floating-point value is not modelled.
- The `snprintf` formatting of player events, and `logger_flush` with its CSV text, are left out. FlushPlayer hands back the events it would write, in order.
- download_queue_free, buffer_free, logger_free and free_mpd only release memory and are not modelled.
- DownloadQueue.Queue.constructor: requires a capacity of at least 1. With 0, the source's modulus is undefined; with a negative capacity, `malloc` fails.
- DownloadQueue.Queue.Push: requires room in the queue. The source waits on `not_full` until a pop in another thread makes room; that wait is a precondition here.
- DownloadQueue.Queue.Pop: requires a non-empty queue. The source waits on `not_empty` until a push arrives; that wait is a precondition here.
- EventLogger.AddPlayerEvent: requires a positive capacity. After logger_flush_player the capacity is 0, and doubling 0 gives 0, so a later event would be written past the end. The client flushes only after the player thread has finished.
- Player.SimulatePlayer: requires the logger's event capacity to be positive, for the reason given above.
- Player: the player reads the buffer count without the buffer's lock, while the download thread adds frames at any moment. The model puts each turn's arrivals where the player sleeps: the 1 ms sleeps of the fill, stall and consume_failed paths, and `sleep_until_deadline_ms` after a consume. After playback_start they arrive before the next test, and playback_end takes none. A frame that arrives between two reads with no sleep between them is not modelled, so a stall_start event always carries 0.
- fetch_mpd (HTTP via libcurl) and the libxml2 parsing are not modelled. The document is an abstract tree of elements, attributes and children, or None when fetching or parsing failed.
- MpdParser: a `mediaPresentationDuration` given in seconds alone ("PT30S") gives 0 seconds and so no frame URLs. This is proved as written (SecondsAloneGiveZero), not corrected.
- restore_ply_with_coords takes the reduced file and the sidecar as byte sequences. Reading them and writing the output file are not modelled; a failure to open the output file only prints a message in the source. Only `die` is modelled, as an `Err` result carrying the reason.
- init_aes and the AES-128-CBC block cipher are a function parameter. Only the length framing and padding around the cipher are modelled.
- PlyRestore.RestorePlyWithCoords: requires the sidecar to hold the coordinates of every row the vertex loop reaches. The source never checks this and would read past the sidecar's end.
- PlyRestore.LengthMismatch: reads the sidecar's length field as little-endian. The source copies it with `memcpy` into a `guint32`, so this assumes a little-endian host. The field only decides the warning it prints: `Restore` reads the sidecar from its fifth byte on.
- AesFraming.Aes128CbcDecrypt: when fewer than 4 bytes were decrypted, the length comes from memory past the buffer. The model flags the case and leaves the resulting length unspecified below 2^32.
- AesFraming: a GByteArray's length is a `guint`, so no plaintext reaches 2^32 bytes. The model's byte arrays are unbounded; FramingRoundTrip takes that bound as its precondition, and the modulus in `Framed` is never reached.
- MpdParser.FrameUrl: cuts at 1023 characters, where `snprintf` cuts at 1023 bytes. The two differ for URLs with non-ASCII characters in UTF-8.
- PlyRestore.RebuildVertices: the source's temporary per-batch buffers are `seq` values, not heap arrays.
- The source's global `pattern` string is passed to ParseCpabeBuffer as a parameter.

## Findings

| source | as written | input that shows it | evidently intended | confidence | as-written member | corrected member |
|---|---|---|---|---|---|---|
| Streaming-Client/build/src/cpabe/common.c:495-496 | The four bytes of each blob's length field are read before any check that they lie inside the buffer. | A trailer ending 3 bytes after the skipped field: buffer `[0, 0, 0]` at position 0. | The read should fail when fewer than 4 bytes remain. | not executed | CpabeTrailer.AsWrittenReadsPastEnd | CpabeTrailer.ReadBlobFits |
| Streaming-Client/build/src/cpabe/common.c:497-500 | The length is kept in a signed `int`. A field of 2^31 or more becomes negative, so `pos + len > buflen` passes and the copy is given a huge size_t length. | Length field `FF FF FF FF` (len = -1) at position 0 of a 4-byte buffer. | The length should be unsigned and checked against the bytes left. | not executed | CpabeTrailer.AsWrittenAcceptsNegativeLength | CpabeTrailer.ReadBlobFits |
