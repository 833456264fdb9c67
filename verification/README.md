# SendToFinder upload protocol in Dafny

A model of the upload path of the SendToFinder printer plugin
(`FinderTools.py`). It covers five pieces:

- The upload request. A request is refused without a file name or while a
  transfer is running.
- The G-code clean-up that builds the payload. It keeps every line that is
  neither empty nor a `;` comment and ends each kept line with a newline.
- The 4112-byte binary frame sent for each 4096-byte chunk.
- The chunk loop, modelled as written: `while bytesRead == 4096 and not
  abort`.
- The session with the printer on port 8899.
  - It sends `~M601 S1`, `~M650` and `~M28 <length> 0:/user/<name>.g`.
  - Then it sends one frame per chunk.
  - It reads the abort flag once more, then sends `~M29` and
    `~M23 0:/user/<name>.g`.
  - Each request waits for one reply. The reply decides whether the
    session goes on or ends with a message.

The socket is replaced by its observable results:

- The connection attempt ends in `Connected`, a resolution error, a timeout
  or any other error.
- The replies are a script: reply `k` answers request `k`.
  - A missing reply, and a transport exception in `_sendAndRecv`, read as
    the empty reply.
- The presses of the abort button are a sequence of booleans. The flag at
  its `k`-th read is set once any press at or before `k` happened.
  - The routine only ever sets the flag during a session, so it stays set.

A session is recorded as the list of steps whose requests were sent, plus
its outcome: `Done`, `Failed(message)` or `Aborted`.
`Protocol.Request` gives the bytes of each step.
`Protocol.Wire` gives the bytes of a complete upload.

## Layout

- `wrappers.dfy`: `Option`.
- `binary.dfy`: bytes and big-endian fields.
- `text.dfy`: UTF-8 encoding, `str()` of a number, substring search,
  `split` and `join`.
- `crc32.dfy`: the CRC-32 of zlib, written bit by bit after section 8 of
  RFC 1952.
- `frame_codec.dfy`: the part frame and its decoder.
- `line_filter.dfy`: the G-code filter.
- `upload_request.dfy`: the upload request.
- `protocol.dfy`: the steps of an upload, the reply rules and the bytes on
  the wire.
- `session.dfy`: the session as functions (`Run`) and as methods that follow
  the routine (`SendFile`).
- `session_proofs.dfy`: what a session does, stated against the plan of a
  complete upload.

The session proofs have two layers.

- The first layer walks the recursive definitions `Exchange` and `Upload`.
- The second combines their facts through `Session.Conclude`, which
  decides how a session ends once its three stages are known.
  - The `Conclude…` and `Dialogue…` lemmas there are proof steps toward
    the session theorems. They have no rows of their own.

## Model

| member | source | states |
|---|---|---|
| UploadRequest.RequestWrite | FinderTools.py:93-113 | The request is refused exactly when the file name is missing or empty or a transfer is running. Otherwise the transfer gets the file name and the filtered G-code as UTF-8. |
| LineFilter.Filtered | FinderTools.py:104-110 | The payload is empty exactly when no line is kept. Otherwise it ends with a newline. |
| LineFilter.Filter | FinderTools.py:104-110 | The nested loop over the G-code list yields the kept lines of all strings, in order, each followed by a newline. |
| LineFilter.AppendKept | FinderTools.py:107-110 | The inner loop appends exactly the lines that are neither empty nor start with `;`, each with a newline, in order. |
| LineFilter.ResplitFiltered | FinderTools.py:104-110 | Splitting the payload at newlines gives back exactly the kept lines plus one final empty piece. No kept line is merged with another or cut. |
| LineFilter.FilterIdempotent | FinderTools.py:104-110 | Filtering an already filtered text changes nothing. |
| LineFilter.NothingKept | FinderTools.py:108-109 | No line survives exactly when every line is empty or a comment. |
| LineFilter.FilteredEmpty | FinderTools.py:104-110 | The payload is empty exactly when the G-code holds only empty lines and comments. An empty list gives an empty payload. |
| LineFilter.FilterExample | FinderTools.py:104-110 | `;comment`, `G1 X1`, a blank line and `G1 Y2` filter to `G1 X1\nG1 Y2\n`. |
| UploadRequest.ExamplePayload | FinderTools.py:104-112 | The example's payload is 12 bytes and forms a single chunk. |
| Text.Utf8Append | FinderTools.py:112 | The UTF-8 encoding of a concatenation is the concatenation of the encodings. |
| Text.JoinSplit | FinderTools.py:107 | Joining the pieces of `split('\n')` gives the text back. |
| Text.SplitJoin | FinderTools.py:107 | Splitting joined pieces that hold no newline gives the pieces back. |
| Text.ContainsIff | FinderTools.py:229 | The `in` test finds `error` exactly when some window of the reply equals it. |
| Text.DecimalRoundTrip | FinderTools.py:196 | The decimal text of the byte length reads back as that length. |
| Binary.ToFromBigEndian | FinderTools.py:218-220 | A big-endian field written from the value it reads as is the field itself. |
| FrameCodec.Field | FinderTools.py:218-220 | `to_bytes(4, 'big')` gives four bytes that read back as the value. |
| FrameCodec.Pad | FinderTools.py:222-223 | The body is the data followed by zeros up to 4096 bytes. |
| FrameCodec.Header | FinderTools.py:217-220 | The header is 16 bytes: the magic `5A 5A A5 A5`, then the index, the unpadded length and the checksum fields. |
| FrameCodec.Encode | FinderTools.py:217-225 | A frame is 4112 bytes whatever the length of its chunk. |
| FrameCodec.EncodeLayout | FinderTools.py:217-225 | Every frame is 4112 bytes. It holds the magic, the index, the unpadded length and the CRC-32 of the unpadded data, then the data, then zeros. |
| FrameCodec.Decode | FinderTools.py:217-225 | A block decodes exactly when it is 4112 bytes long and starts with the magic. |
| FrameCodec.EncodeDecode | FinderTools.py:217-225 | Decoding a frame gives back its index, unpadded length, checksum and padded data. Cutting the body to the length gives the data. |
| FrameCodec.DecodeEncode | FinderTools.py:217-225 | A decoded frame with a length within 4096, zero padding and a matching checksum re-encodes to the same bytes. |
| Crc32.Checksum | FinderTools.py:220 | The checksum fits the unsigned 32-bit field. |
| Crc32.ChecksumOfA | FinderTools.py:220 | The checksum of the single byte `a` is 0xE8B7BE43, the value `zlib.crc32` gives. |
| Protocol.DevicePath | FinderTools.py:196 | The device path is `0:/user/`, then the first 32 characters of the name, then `.g`. |
| Protocol.Chunks | FinderTools.py:209-216 | There are ceil(n/4096) chunks, each of 1 to 4096 bytes. |
| Protocol.ChunkLayout | FinderTools.py:209-216 | There are ceil(n/4096) chunks. Chunk `i` is `payload[4096*i : 4096*i + 4096]`. |
| Protocol.ChunksConcat | FinderTools.py:214 | The chunks put back together are the payload. |
| Protocol.ChunkCounts | FinderTools.py:213-216 | 0 bytes give no chunk, 4096 bytes one, 4097 bytes two. |
| Protocol.Verdict | FinderTools.py:169-237 | An empty reply is never accepted. A part's reply is accepted exactly when it is non-empty and no window of it equals `error`. |
| Protocol.VerdictRules | FinderTools.py:169-237 | A command is accepted by a non-empty reply with its prefix. Otherwise it fails with its error message (empty reply) or its failure message. A part is accepted by a non-empty reply without `error`. Otherwise it fails with `Part k error.` or `Part k failed.`. |
| Protocol.PlanSendable | FinderTools.py:218 | With at most 4096·2^32 bytes, every part index fits the 4-byte index field. |
| Protocol.WireOpening | FinderTools.py:167-196 | A complete upload starts with `~M601 S1`, `~M650` and `~M28 <length> 0:/user/<name>.g`, each ended by CR LF. |
| Protocol.FrameOnWire | FinderTools.py:213-226 | Request `3 + i` of a complete upload is the frame of chunk `i` with index `i`. |
| Protocol.WireClosing | FinderTools.py:245-257 | A complete upload ends with `~M29` and `~M23 0:/user/<name>.g`. |
| Session.Exchange | FinderTools.py:167-206 | Exchanges send the first step and at most all the steps. Without a failure they send all of them. |
| Session.Upload | FinderTools.py:209-241 | From loop head `count` on, the loop reads the abort flag at least once more. It fails only after sending a part. |
| Session.Run | FinderTools.py:138-273 | A session sends something exactly when it connects. A completed session sent at least the three opening and the two closing commands. |
| Session.SendCommands | FinderTools.py:167-206 | The command exchanges send each command in turn and stop at the first reply that is empty or lacks the prefix. They end with that command's message. |
| Session.ExchangeStopsAt | FinderTools.py:167-206 | A run of exchanges ends at the first rejected step. That step is the last one sent, and its verdict is the failure. |
| Session.ExchangeCompletes | FinderTools.py:167-206 | A run of exchanges whose replies all accept sends every step and does not fail. |
| Session.CheckPart | FinderTools.py:228-237 | The routine's check of a part's reply fails exactly when the reply is empty or some window of it equals `error`. The message is `Part k error.` for an empty reply and `Part k failed.` otherwise. |
| Session.ChunkTurn | FinderTools.py:213-240 | One turn of the chunk loop either ends the loop (empty chunk, rejected part, short chunk) or leaves the rest of the loop to run after one more part. |
| Session.SendParts | FinderTools.py:208-241 | The loop with its counters and its reads of the abort flag sends the parts, failure and flag count of `Upload`. |
| Session.Converse | FinderTools.py:164-271 | The routine once connected sends what `Dialogue` describes. |
| Session.SendFile | FinderTools.py:138-273 | The whole routine sends what `Run` describes. A failed connection sends nothing and reports `Check IP address.`, `Timeout.` or the plain message. |
| SessionProofs.UploadSends | FinderTools.py:209-240 | From loop head `c` on, the loop sends parts `c`, `c+1`, … of the plan, in order. |
| SessionProofs.UploadStops | FinderTools.py:213-216 | Each part is sent only after a read that finds the flag clear. The loop ends at the first set read, a rejected part or the end of the payload. It reads the flag at most once per chunk plus once. |
| SessionProofs.UploadAccepts | FinderTools.py:226-237 | Every part the loop sends, except a rejected last one, was accepted by its reply. |
| SessionProofs.UploadRejects | FinderTools.py:226-237 | A failing loop fails with the verdict on the part read at its last loop head. |
| SessionProofs.ExchangePrefix | FinderTools.py:167-206 | Command exchanges send a prefix of their commands, all of them when none is rejected. |
| SessionProofs.ExchangeAccepts | FinderTools.py:169-178 | Every command sent, except a rejected last one, was accepted by its reply. |
| SessionProofs.ExchangeRejects | FinderTools.py:169-178 | Failing command exchanges fail with the verdict on the last command sent. |
| SessionProofs.SentFollowsPlan | FinderTools.py:138-273 | A session sends a prefix of the plan: nothing out of order, nothing twice, nothing outside the plan. |
| SessionProofs.StopsAtFirstRejection | FinderTools.py:169-267 | Every request sent is accepted by its reply except the last one of a failed session. A connected session that fails, fails with the verdict on its last request's reply, and nothing is sent after it. |
| SessionProofs.DoneIff | FinderTools.py:243-269 | A session completes exactly when it connects, every reply in the plan accepts and the flag is clear at the read after the last chunk. A completed session sent the whole plan. |
| SessionProofs.AbortedBeforeSaving | FinderTools.py:243-271 | An aborted session sent the opening commands and a prefix of the parts, neither M29 nor M23, and the flag was set by the last read. |
| SessionProofs.AbortHonoured | FinderTools.py:213-243 | Pressed first before read `c` with the replies so far accepting, a session sends the opening commands and the parts before `c`, then ends aborted. The opening is never interrupted. |
| SessionProofs.AbortBeforeSecondPart | FinderTools.py:213-243 | With the opening and the first part accepted and the button pressed before the second loop head, a payload over 4096 bytes ends aborted. The session sent the opening commands and the first 4096 bytes. |

## Left out

- The settings dialog, the preference storage and the plugin registration are not part of this model. They are host-framework plumbing.
- The progress window, labels, progress bar and log calls are left out. They are UI. The model keeps the message each path sets, as the outcome.
- The percentage `100*startByte/fileLength` is not modelled. It is a float UI value.
- Getting the G-code list from the scene is left out, because it is a host API. The model starts from the list of strings. A missing list behaves like an empty one.
- The transfer thread and the `transfering` flag are reduced to an input. Their races and the one-second settle delay before `~M29` are not modelled. They are concurrency and timing.
- The socket, its ten-second timeout and `recv(128)` are replaced by the connection result and the reply script.
  - A reply longer than 128 bytes is not cut.
  - Decoding a reply from UTF-8 is not modelled: the replies are given as text.
  - A decode error, which the routine does not catch, is not modelled.
- Crc32.Checksum: agreement with `zlib.crc32` is proved for one input only (`Crc32.ChecksumOfA`). For other inputs it rests on following section 8 of RFC 1952. zlib is a foreign C library, so a general equality cannot be stated here.
- Protocol.PlanSendable: a payload over 4096·2^32 bytes is excluded. For such a payload `to_bytes` would raise for an index of 2^32 or more. `Session.Run` itself has no such bound because it records steps, not bytes.
