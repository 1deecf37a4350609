# NFC AIO disk client

A verified model of the part of OpenVixDiskLib that reads and writes sectors of a VMDK over
VMware's NFC protocol: the byte-exact frames, the fragment reassembly of `readinto` in both its
modes, the fragmentation of `write`, the handshake and open sequence, the authd line protocol
before it, and the lifetimes of the sockets and sessions around it. To verify it:
`dafny verify dfyconfig.toml` (Dafny 4.11).

## How it is put together

Code that changes things step by step is modelled by classes and methods: `Sockets.Socket`,
`NfcDisks.NfcDisk`, the opening steps in `OpenDisks`, the authd steps in `Authd`, the contexts in
`Lifecycle`, `_rebuild_skip` in `SkipMode`. A socket holds every byte its peer will ever deliver
(`inbox`), a position in it, and the bytes sent, and is open while the process's descriptor table
lists it. `recv_into` returns any number of bytes from 1 to
what fits and is left, 0 only at the end; `sendall` may fail after any prefix. Both choices are
left open, so a method contract holds for every way the stream is cut up.

Each method is proved to have an effect given by a function of the arguments and the peer's byte
stream (`Client`, `Opening`, `Reading`, `Requests`, `Authd`), and the properties are lemmas about
those functions. The state of a read is only its position and the pieces accepted so far;
`filled`, the wire count, the seen offsets, the fragment table and the buffer contents are
functions of that list (`Pieces`), and the loop in `NfcDisk.ReceiveReplies` is proved to keep its
variables equal to them.

| module | content |
|---|---|
| `Wire`, `Utf8` | bytes, little-endian numbers, `struct` packing with range failure; text and its encoding |
| `Sockets` | the socket, `_recvn_into`, `_recvn` |
| `FastLz` | the adapter around the FastLZ library, the library's contract, a codec that meets it |
| `Frames` | AIO headers, IO payload layouts, the peer's reader of a frame stream |
| `Pieces` | accepted fragments: sums, coverage, the buffers and the table they build |
| `Reading` | `readinto` as a function of the stream |
| `SkipMode` | the two read modes compared, `_rebuild_skip` |
| `Requests` | the read request and the fragments of a write |
| `Conforming` | replies that carry a given content, and the loopback of write fragments |
| `Client` | effects of read, write, round trips and close |
| `Results` | what the `ReadResult` of a read says |
| `NfcDisks` | the class `NfcDisk` |
| `Opening`, `OpenDisks` | handshake, AIO set-up, OPEN_FILE |
| `Serving`, `Runs` | a conforming server, and any list of calls against it: answers, disk, op ids on the wire |
| `Connections` | open, calls and close on one stream |
| `Sessions` | the same for the object, call after call |
| `Limits` | a conforming server always exists; where the checks of `readinto` stop |
| `Authd` | authd lines and conversation |
| `Lifecycle` | the `connect` and `open` contexts |

FastLZ enters as two function values. `FastLz.Contract` is assumed only where a lemma says so, and
`FastLz.ContractIsSatisfiable` gives a codec that meets it and really shrinks data. The hypotheses
of the refinement are met: `Limits.SomeSession` gives a session, `Limits.SomeServer` a server for
every list of in-bounds calls, and `Limits.SomeConnection` one for the whole connection around them.
No public standard describes the protocol; the server specification follows docs/nfc_read.md,
docs/nfc_write.md and docs/nfc_open.md.

A `sendall` that fails, a broken pipe included, is `OsError` here. What the code itself raises from
the ConnectionError family (NfcProtocolError, the ConnectionError of authd, the end of the stream in
`_recvn_into`) is `ProtocolError`. UnicodeEncodeError is the `ValueError` it is a subclass of.

Where the code and its documents disagree, the model follows the code: docs/nfc_read.md (lines
128-129) says writes use opcode 2, the code and docs/nfc_write.md use 0; docs/nfc_read.md speaks of
`filled == length`, the loop runs while `filled < length`.

Laws one would expect of the code, some of them stated in its documents, that it does not keep in
general are given with their exact condition and an input that breaks them:

- A completed read has written every byte of the request exactly when the edges of its fragments leave
  no gap (`Reading.CompletionIsCoverage`, broken by `Limits.OverlapIsAccepted`). It has written each
  byte once and counted exactly the request exactly when no two fragments overlap
  (`Reading.CompletionIsExact`); overlap alone need not leave a gap (`Limits.OverlapCanCover`). The code
  checks only that no two fragments start at the same byte.
- A read whose request is out raises a protocol error, except that `struct.error` gets out exactly when
  the fragment it stops at announces FastLZ in a payload that ends before the compressed size
  (`Reading.StructErrorIff`, reached by `Limits.StructErrorWitness`; `Client.ReadIntoRaises` adds the
  argument checks before it).
- The packed buffer is large enough exactly when the extras add up to no more than the request
  (`SkipMode.SkipAfterDecompress`, broken by `Limits.PackedCanOverflow`; docs/nfc_read.md, line 170, says
  it always is). A server that compresses a fragment only where that shrinks it, as lines 65-73 of that
  document have it, stays below (`Conforming.ShrunkRepliesPack`).
- An error frame leaves the stream at a frame boundary after `readinto` exactly when it has no body
  (`Client.ErrorFrameAlignment`, broken by `Limits.ErrorBodyIsLeft`).
- The op ids on the wire have no gap exactly when no write is refused for arguments that do not pack
  (`Runs.NoIdIsSkipped`, broken by `Limits.SkippedId`): a write takes its id before it packs, a read
  after.
- Stripping and rebuilding the FastLZ prefix is lossless exactly when something is left to strip
  (`FastLz.RoundTrip`, broken by `FastLz.EmptyIsRefused`).
- Leaving an `open` context closes every socket it made, unless a call raises between duplicating the NFC
  descriptor and the first handler: setting the duplicate up, or making the TLS context of NBDSSL
  (`Lifecycle.TakeOver` says exactly when, `Lifecycle.OpenContext` that nothing else stays open). Such a
  descriptor stays open until the interpreter collects it.

## Model

| member | source | states |
|---|---|---|
| Wire.UnLeOfLe | openvixdisklib/nfc_open.py:226 | unpacking a packed number that fits its width gives the number |
| Wire.LeOfUnLe | openvixdisklib/nfc_open.py:232 | packing an unpacked number gives the bytes, and it fits its width |
| Wire.Pack | openvixdisklib/nfc_open.py:237 | packing succeeds exactly when every field is in range, and has the format's size |
| Wire.UnpackOfPack | openvixdisklib/nfc_open.py:241 | `unpack_from` at a field's offset returns that field of any packed structure, whatever follows it |
| Wire.U64IsTwoU32 | openvixdisklib/nfc_open.py:412-420 | a `Q` is its low `I` plus 2^32 times its high `I`, so shifting by 32 and masking recover the halves |
| Sockets.Socket.RecvInto | openvixdisklib/nfc_open.py:190-195 | `recv_into` delivers some next bytes of the stream, none only for an empty view or at the end |
| Sockets.Socket.RecvnInto | openvixdisklib/nfc_open.py:184-195 | fills the view with exactly the next bytes or fails having taken all that is left, however the stream is cut |
| Sockets.Socket.Recvn | openvixdisklib/nfc_open.py:178-181 | the next n bytes, or an error when fewer are left |
| FastLz.RoundTrip | openvixdisklib/fastlz.py:21-53 | with a lossless library, stripping and rebuilding the prefix is lossless exactly when the stripped payload is not empty |
| FastLz.CompressIsOneCall | openvixdisklib/fastlz.py:21-33 | level 1 is asked for below 65536 bytes and level 2 from there on; the call succeeds exactly when the library returns at least the 4-byte prefix, and gives what follows it |
| FastLz.EmptyIsRefused | openvixdisklib/fastlz.py:44-45 | with a codec that meets the contract, nothing compresses to nothing, and that is refused |
| FastLz.Decompress | openvixdisklib/fastlz.py:37-53 | a successful output is at most `maxout` long and its input was not empty; the failures are ValueError, or struct.error for an oversized `maxout` |
| FastLz.ContractIsSatisfiable | openvixdisklib/fastlz.py:21-53 | the library contract is met by a codec that compresses |
| Frames.PackAioHdr | openvixdisklib/nfc_open.py:236-237 | a header packs exactly when type, size and op id are 32-bit numbers |
| Frames.HdrRoundTrip | openvixdisklib/nfc_open.py:236-248 | a packed header is read back field by field |
| Frames.HdrLayout | openvixdisklib/nfc_open.py:236-237 | magic, type, size and op id stand at bytes 0, 4, 8 and 12 of a packed header |
| Frames.HdrIsPacked | openvixdisklib/nfc_open.py:240-248 | any 16 bytes accepted as a header are the packing of the fields read |
| Frames.FragmentLayout | openvixdisklib/nfc_open.py:497-507 | every field of a packed write fragment is found at its documented offset |
| Frames.ReadRequestLayout | openvixdisklib/nfc_open.py:386-388 | every field of a packed read request is found at its documented offset |
| Frames.SingleFragmentLooksLikeLength | openvixdisklib/nfc_open.py:497-507 | bytes 24..31 of a fragment read as one 64-bit total length exactly when the fragment offset is 0 |
| Frames.ParseOfEncode | openvixdisklib/nfc_open.py:294-300 | any list of frames, concatenated, is read back exactly although no header counts its extra |
| Frames.EncodeOfParse | openvixdisklib/nfc_open.py:294-300 | a byte stream is read as a frame list only if it is that list's encoding, so the reading is unique |
| Pieces.DisjointSnoc | openvixdisklib/nfc_open.py:414-419 | a new fragment keeps the list free of overlaps exactly when it covers no byte covered before |
| Pieces.SumIsCoverage | openvixdisklib/nfc_open.py:414-457 | the summed lengths equal the number of covered bytes exactly when no two fragments overlap |
| Pieces.CoverageIsNoGap | openvixdisklib/nfc_open.py:414-457 | fragments, overlapping or not, cover every byte of the request exactly when one reaches byte 0 and wherever one ends inside the request another goes on |
| Pieces.CountingIsCoverage | openvixdisklib/nfc_open.py:391-457 | without overlaps the count never passes the request and reaches it exactly when every byte is covered; a full count covers exactly without overlaps |
| Pieces.AssembleFrame | openvixdisklib/nfc_open.py:439-453 | bytes no fragment covers, and all bytes past the request, keep their value |
| Pieces.AssembleDisjoint | openvixdisklib/nfc_open.py:439-453 | fragments that do not overlap are each in the buffer in full at the end |
| Pieces.AssembleCovered | openvixdisklib/nfc_open.py:439-453 | fragments of one content rebuild every byte they cover, in any order |
| Pieces.TableCutsExtras | openvixdisklib/nfc_open.py:422-438 | each table entry has its fragment's fields and names exactly that fragment's wire bytes in the packed buffer |
| Pieces.TableIsDense | openvixdisklib/nfc_open.py:423-438 | table offsets are the prefix sums of the lengths, from 0 |
| Reading.CheckBody | openvixdisklib/nfc_open.py:404-421 | an accepted payload has a new offset, a positive length inside the request, and a positive extra that for raw data is that length |
| Reading.NextPiece | openvixdisklib/nfc_open.py:397-455 | an accepted fragment meets every check and decodes; a refusal has written no further than the request |
| Reading.Replies | openvixdisklib/nfc_open.py:391-462 | the loop ends on every stream, with the count reached or an error, and keeps every check on all accepted fragments |
| Reading.AcceptedFacts | openvixdisklib/nfc_open.py:414-425 | accepted fragments lie in the request, decode, and when packed fit the request |
| Reading.WritesStayInside | openvixdisklib/nfc_open.py:380-457 | whatever the peer sends and however the call ends, only the first `length` bytes of the buffer can change |
| Reading.AcceptsAtMostLength | openvixdisklib/nfc_open.py:395-457 | whatever the peer sends, at most `length` fragments are accepted, and without overlaps the count stays within the request |
| Reading.CompletionIsCoverage | openvixdisklib/nfc_open.py:396-462 | when a read returns, every byte of the request was written if and only if the fragments' edges leave no gap, which no overlap implies |
| Reading.CompletionIsExact | openvixdisklib/nfc_open.py:396-462 | when a read returns, each byte was written once and the count is the request if and only if no two fragments overlap |
| Reading.CompletionDelivers | openvixdisklib/nfc_open.py:439-462 | when a read returns without overlaps, each fragment's decoded bytes are in the caller's buffer |
| Reading.TookIsFrame | openvixdisklib/nfc_open.py:397-455 | each accepted fragment is one whole well-formed frame of the stream |
| Reading.RepliesOfFrames | openvixdisklib/nfc_open.py:396-462 | a stream that starts with acceptable frames is read to their last byte |
| Reading.FramesOfReplies | openvixdisklib/nfc_open.py:396-462 | a completed read has consumed exactly a list of acceptable frames |
| Reading.DoneIsFrameStream | openvixdisklib/nfc_open.py:396-462 | a read returns if and only if the stream begins with an acceptable reply, and consumes exactly it |
| Reading.FailedIsPartThenRefusal | openvixdisklib/nfc_open.py:396-462 | a read raises if and only if the stream begins with an acceptable part of a reply and then a fragment that is refused, with that refusal's error, position and partial bytes |
| Reading.RefusalError | openvixdisklib/nfc_open.py:404-450 | a fragment is refused with `struct.error` exactly when its payload announces FastLZ and ends before the size field, and otherwise with a protocol error |
| Reading.StructErrorIff | openvixdisklib/nfc_open.py:396-462 | once its request is out, a read raises something other than a protocol error if and only if such a payload follows an acceptable part of a reply, and then it is `struct.error` |
| SkipMode.DecompressAfterSkip | openvixdisklib/nfc_open.py:422-457 | after a skipping read, the decompressing read of the same stream returns exactly when every extra decodes, with the same fragments and position; otherwise it raises a protocol error |
| SkipMode.SkipAfterDecompress | openvixdisklib/nfc_open.py:422-457 | after a decompressing read, the skipping read returns exactly when the extras fit the request, with the same fragments and position; otherwise it raises a protocol error |
| SkipMode.RebuildSkip | tests/integration/test_openvixdisklib.py:38-55 | the rebuild loop computes the fold over the table that the lemmas speak of, errors included |
| SkipMode.RebuildSucceedsIff | tests/integration/test_openvixdisklib.py:38-55 | over any table and bytes, the rebuild succeeds if and only if every entry decodes, by its type, to its announced length and the entries add up to the compressed length |
| SkipMode.RebuiltIsAssembled | tests/integration/test_openvixdisklib.py:41-53 | rebuilding k entries of the packed buffer succeeds exactly when those fragments decode, and is what decompressing them in order builds |
| SkipMode.SkipThenRebuildIsRead | tests/integration/test_openvixdisklib.py:38-55 | after a skipping read, the rebuild succeeds exactly when the plain read of the same stream returns, with the same bytes, wire count and position |
| Requests.WriteSucceedsIff | openvixdisklib/nfc_open.py:482-511 | all fragments get out exactly when the arguments fit their fields and no chunk makes the codec raise |
| Requests.WriteFrameShape | openvixdisklib/nfc_open.py:486-510 | a write fragment is a well-formed frame for its own offset and chunk, with an extra of 1 to chunk-length bytes |
| Requests.WriteChoice | openvixdisklib/nfc_open.py:486-504 | a fragment is of type 2 and carries the compressed chunk exactly when the session asks for FastLZ, the chunk has at least 16 bytes and the result is shorter and not empty; otherwise it is of type 0 and carries the chunk |
| Requests.RawWriteSize | openvixdisklib/nfc_open.py:486-511 | a session without compression sends exactly the data and 60 bytes a fragment |
| Requests.WritePieceOf | openvixdisklib/nfc_open.py:486-510 | a write fragment decodes to its own part of the data |
| Requests.WriteCount | openvixdisklib/nfc_open.py:485-511 | the number of fragments is the length over the buffer size, rounded up |
| Requests.WriteFrameAt | openvixdisklib/nfc_open.py:485-511 | fragment k is the one for byte k times the buffer size |
| Requests.WriteSums | openvixdisklib/nfc_open.py:485-511 | chunk lengths add up to the data, extras to no more, and the wire cost is the extras plus 60 bytes a fragment |
| Requests.OpcodeSplits | openvixdisklib/nfc_open.py:385 | direction and compression type come back out of the opcode's eight bytes |
| Requests.ReadIsSent | openvixdisklib/nfc_open.py:384-390 | past its argument checks a read sends its request exactly when handle, offset, length and op id fit their fields, and raises `struct.error` otherwise, having taken an op id only if that is what does not fit |
| Conforming.ReplyIsRead | openvixdisklib/nfc_open.py:396-462 | a reply that tiles the request in any order, raw or compressed per fragment, is read completely and exactly |
| Conforming.ReplyIsContent | openvixdisklib/nfc_open.py:439-453 | the buffer then holds the content, and what followed it before |
| Conforming.SkippedReplyRebuilds | tests/integration/test_openvixdisklib.py:38-55 | a skipping read of such a reply and the rebuild return the content |
| Conforming.ReplyInAnyOrder | docs/nfc_read.md:104-109 | a reply stays a reply under any permutation of its fragments, with the same wire count |
| Conforming.ShrunkRepliesPack | docs/nfc_read.md:65-73 | when each fragment is compressed only where that shrinks it, the extras of a reply fit the request |
| Conforming.WriteIsReply | docs/nfc_write.md:66-69 | the fragments of any write form a reply carrying the written data |
| Conforming.Loopback | openvixdisklib/nfc_open.py:395-511 | the fragments of any write, permuted and re-labelled, pass every check of a read in either mode; the buffer, or after a skipping read the rebuild of it, is exactly the data |
| Client.RecvReply | openvixdisklib/nfc_open.py:302-313 | the only failure of reading a reply is a protocol error, and the position stays in the stream |
| Client.RecvReplyOfFrame | openvixdisklib/nfc_open.py:302-313 | a frame without extra is received whole, with its type, op id and payload |
| Client.RoundtripSucceedsIff | openvixdisklib/nfc_open.py:315-328 | a packed request succeeds if and only if the stream begins with a frame of its type, not the error type, under its op id and without an extra, and goes on with the announced extra; it returns exactly that and stands behind it, and raises a protocol error otherwise |
| Client.WriteIsAcknowledged | openvixdisklib/nfc_open.py:512-517 | a write whose fragments are out succeeds if and only if the stream begins with such a frame of the IO type under its op id |
| Client.ErrorFrameAlignment | openvixdisklib/nfc_open.py:246-247 | an error frame is consumed whole by `_aio_recv_reply`; `readinto` raises 16 bytes into it, which is its end exactly when it has no body |
| Client.ReadIntoRaises | openvixdisklib/nfc_open.py:377-462 | which exception `readinto` raises, and when, over all arguments and streams: ValueError, TypeError and RuntimeError for the argument checks in that order, `struct.error` for a request that does not fit or a short FastLZ payload, a protocol error for all else |
| Client.CloseSendsInOrder | openvixdisklib/nfc_open.py:523-527 | whatever the peer answers and whatever handle and op id there are, close sends a prefix of CLOSE_FILE, CLOSE_SESSION, SESSION_COMPLETE, all of it exactly when it succeeds and nothing exactly when the handle or the id does not pack |
| Client.CloseIsAnswered | openvixdisklib/nfc_open.py:523-527 | a server that answers both round trips is understood: close succeeds at the last byte of the second reply, having sent both requests under the next two op ids and the farewell |
| Client.CloseSucceedsIff | openvixdisklib/nfc_open.py:523-525 | close succeeds, at a position, if and only if the stream up to there is an answer of type 5 under the next op id and one of type 3 under the one after |
| NfcDisks.NfcDisk.constructor | openvixdisklib/nfc_open.py:254-287 | a new disk starts at op id 0, not closed, with the given fields |
| NfcDisks.NfcDisk.RecvPacked | openvixdisklib/nfc_open.py:422-438 | a packed extra goes right after the ones before it, or the call raises with what was received |
| NfcDisks.NfcDisk.RecvDecoded | openvixdisklib/nfc_open.py:439-455 | a decoded extra goes to its place in the request, or the call raises with what was received |
| NfcDisks.NfcDisk.ReceiveReplies | openvixdisklib/nfc_open.py:391-462 | the loop over the caller's array returns, raises, consumes and writes exactly as the function of the stream says |
| NfcDisks.NfcDisk.ReadInto | openvixdisklib/nfc_open.py:350-462 | op id, bytes sent, position, buffer and outcome are functions of the arguments and the peer's bytes, or a failed send cut the request short and nothing was read |
| Results.ResultOfRead | openvixdisklib/nfc_open.py:456-462 | whatever the peer is, a returned result has the request's length, as compressed length the bytes consumed less headers and payloads, and as fragments one entry for each frame with that frame's fields when skipping, none otherwise |
| Results.LengthsAgree | openvixdisklib/nfc_open.py:456-462 | where both modes return on a stream they report the same lengths and stand at the same place |
| Results.ResultOfReply | openvixdisklib/nfc_open.py:456-462 | of a conforming reply the lengths are those of the content and of the reply's extras |
| NfcDisks.NfcDisk.Read | openvixdisklib/nfc_open.py:330-348 | the same for a fresh buffer of exactly the requested size |
| NfcDisks.NfcDisk.SendFragments | openvixdisklib/nfc_open.py:484-511 | the fragments go out in order under one op id, up to the first that raises |
| NfcDisks.NfcDisk.Write | openvixdisklib/nfc_open.py:464-517 | op id, bytes sent, position and outcome are functions of the arguments and the peer's bytes, or a failed send cut the fragments short |
| NfcDisks.NfcDisk.Roundtrip | openvixdisklib/nfc_open.py:315-328 | one request, one op id, and the reply to it with the announced extra bytes, or an error |
| NfcDisks.NfcDisk.Close | openvixdisklib/nfc_open.py:519-532 | the first call ends with the socket closed and at most the farewell sent, whatever fails; later calls change nothing |
| Serving.ApplyWrite | docs/nfc_write.md:86-105 | applying a write's fragments one by one stores the data at the write's offset and touches nothing else |
| Serving.WriteReachesDisk | openvixdisklib/nfc_open.py:484-512 | a server reading the client's write off the wire ends with exactly the data stored and owes exactly one acknowledgement under its op id |
| Serving.ReadFrame | openvixdisklib/nfc_open.py:384-390 | a read request is one frame with direction 1 and the session's compression in its opcode, the handle, the byte offset and the length in its three places |
| Serving.ReadReachesServer | openvixdisklib/nfc_open.py:384-390 | a server reading the client's request off the wire owes a reply carrying exactly the requested bytes under its op id |
| Runs.OperationIsArrayStep | openvixdisklib/nfc_open.py:350-517 | one `read`, `readinto` in either mode (skipping, with the caller's rebuild) or `write` against a conforming server is one step of a plain byte array and consumes exactly the server's reply |
| Runs.RunRefinesArray | openvixdisklib/nfc_open.py:350-517 | any list of calls, refused ones included, against any conforming server returns what a plain byte array returns, leaves the server with that array, takes one op id for each call sent or refused in a write's packing, and uses up exactly the server's bytes |
| Runs.ArrayHoldsLatest | openvixdisklib/nfc_open.py:350-517 | after any list of calls each byte of the array is that of the last write covering it, or the initial one |
| Runs.ReadsReturnLatestWrite | openvixdisklib/nfc_open.py:350-517 | against a conforming server, each byte any read of the list returns is that of the last write before it covering the byte, or the initial one |
| Runs.StepSends | openvixdisklib/nfc_open.py:289-300 | whatever the peer does, all a call sends are whole frames under the op id it took, and nothing if it took none |
| Runs.RunSends | openvixdisklib/nfc_open.py:289-300 | whatever the peer does, the bytes of a run parse to frames whose op ids never go down and lie between the first id and the id the disk is left with |
| Runs.RunUsesIds | openvixdisklib/nfc_open.py:289-300 | against a conforming server those ids are exactly the ones given to the calls that are not refused |
| Runs.NoIdIsSkipped | openvixdisklib/nfc_open.py:483-507 | the ids on the wire have no gap if and only if no write is refused because its arguments do not pack |
| Connections.ConnectionRefinesArray | openvixdisklib/nfc_open.py:523-673 | open, any list of calls and close against a conforming server go as on a plain array, use up the server's stream, and send the handshake, frames whose op ids rise from 0 through open, the calls that are sent and close, and the farewell |
| Connections.SessionIsRead | openvixdisklib/nfc_open.py:523-673 | a server reads back, from the bytes of a whole connection, version and names, every frame and the farewell, with nothing left over |
| Sessions.Calls | openvixdisklib/nfc_open.py:330-517 | any list of calls on the object has the answers, op id, bytes sent and stream position of the run the lemmas speak of; when a send failed, those of the calls before it and a prefix of the one it cut |
| Sessions.CallsOnServer | openvixdisklib/nfc_open.py:330-517 | on a conforming server, unless a send fails, the object's answers are those of a plain array, the server's disk ends as that array and the frames sent carry in order the ids of the calls not refused |
| Sessions.Connect | openvixdisklib/nfc_open.py:523-676 | opening, calling and closing on a socket is the connection the lemmas speak of unless a send fails, and the socket ends closed in any case |
| Sessions.CloseCalls | openvixdisklib/nfc_open.py:519-538 | any number of closes together send at most one farewell, in order, and leave the socket closed |
| Limits.SomeSession | openvixdisklib/nfc_open.py:638-673 | the session the refinement assumes exists, with a compressing codec |
| Limits.SomeServer | docs/nfc_read.md:79-109 | every list of in-bounds calls has a conforming server, so the refinement is not vacuous |
| Limits.SomeConnection | docs/nfc_open.md:80-110 | and one for the whole connection around them, which answers the handshake with the bodies the document shows, so neither is the end-to-end result |
| Limits.SkippedId | openvixdisklib/nfc_open.py:483-507 | a sector written at -1 takes an op id, raises `struct.error` and sends nothing |
| Limits.OverlapIsAccepted | openvixdisklib/nfc_open.py:414 | fragments (0, 300) and (1, 212) complete a 512-byte read with bytes 300..511 never written |
| Limits.OverlapCanCover | openvixdisklib/nfc_open.py:414 | fragments (0, 300) and (200, 312) complete the same read with every byte written and a count of 612 |
| Limits.StructErrorWitness | openvixdisklib/nfc_open.py:209-211 | a 52-byte stream, one frame with a 36-byte payload, makes a 512-byte read raise `struct.error` in either mode |
| Limits.ErrorBodyIsLeft | openvixdisklib/nfc_open.py:246-247 | a 17-byte error frame makes a read raise at byte 16 of it, where the other receiver stands at byte 17 |
| Limits.PackedCanOverflow | openvixdisklib/nfc_open.py:422-426 | for any content there is a lossless compressed reply that the plain read returns and the skipping read of the same bytes refuses |
| Opening.ParseOpenReply | openvixdisklib/nfc_open.py:594-603 | an accepted reply gives a 64-bit handle and a sector size that is never 0; the only failure is a protocol error |
| Opening.OpenReplyFields | openvixdisklib/nfc_open.py:594-603 | a reply is accepted if and only if it has 40 bytes and file type 2; the handle is the number at byte 8, and a sector size of 0 at byte 36 becomes 512 |
| Opening.HandshakeIsAnswered | openvixdisklib/nfc_open.py:541-582 | with arguments that fit their fields, the handshake succeeds if and only if the stream begins with messages of types 36, 51 and 52, whatever their bodies but for a version of at least 3, and consumes exactly these |
| Opening.HelloRoundTrip | openvixdisklib/nfc_open.py:541-576 | a server reading the handshake recovers version and both names and stands at the first AIO frame |
| Utf8.DecodeOfEncode | openvixdisklib/nfc_open.py:663 | encoding text that has no surrogates and decoding it gives the text back |
| Opening.OpenSends | openvixdisklib/nfc_open.py:606-673 | a successful open has sent the handshake and then exactly its four requests, of types 2, 9, 22 and 4 under op ids 0 to 3, with every field; the flags are 0x1E for a read-only open and 0x1A otherwise |
| Opening.OpenRoundTrip | openvixdisklib/nfc_open.py:606-673 | a server reading the bytes of a successful open recovers version, names, buffer size and count, whether it is read-only, and the path, all as the caller gave them; the client stands at op id 4 |
| Opening.OpenIsAnswered | openvixdisklib/nfc_open.py:541-673 | with arguments that fit their fields, a server answering in the protocol's order is read to its last byte and the open returns what the last reply says |
| OpenDisks.Handshake | openvixdisklib/nfc_open.py:541-582 | the three exchanges run in order, each after the one before succeeded, or a failed send cuts them short |
| OpenDisks.Prepare | openvixdisklib/nfc_open.py:585-591 | the three set-up round trips take op ids 0 to 2 in order |
| OpenDisks.OpenDisk | openvixdisklib/nfc_open.py:638-676 | a returned disk is valid, has the reply's handle and sector size and stands right after the replies; a failure after the argument checks has closed the socket |
| Authd.ReadsFirstLine | openvixdisklib/nfc_auth.py:305-314 | a line is read exactly when a newline is in the next 4096 bytes, through that newline and not a byte more |
| Authd.ReadLineFrom | openvixdisklib/nfc_auth.py:305-314 | the byte-by-byte loop returns that line or raises at that position |
| Authd.CodeSurvivesDecoding | openvixdisklib/nfc_auth.py:314-320 | a status code starts the decoded, stripped line exactly when its bytes start the raw one |
| Authd.ConversationEndsAtNfc | openvixdisklib/nfc_auth.py:393-406 | a completed conversation consumed exactly three lines with the expected codes, so the next byte is NFC's |
| Authd.ConversationIsAnswered | openvixdisklib/nfc_auth.py:393-406 | a conversation that can be encoded succeeds, at a position, if and only if the stream up to there is three lines that start with 220, 200 and 200 |
| Authd.ConversationSends | openvixdisklib/nfc_auth.py:393-406 | a server reading what a completed conversation sent, line by line, finds exactly SESSION with the session id, `BANNER `, `THUMBPRINT_SHA2 PlainText` and PROXY with the service |
| Authd.ConnectAuthd | openvixdisklib/nfc_auth.py:365-409 | the clear stream is left right after the banner line, the TLS stream right after the conversation, which named the ticket's session id and service (`vpxa-nfc` for an empty one, and with `ssl` at its end for NBDSSL); a failure leaves nothing open |
| Lifecycle.TakeOver | openvixdisklib/nfc_open.py:146-171 | the duplicated descriptor is open afterwards exactly when the call succeeds or is stranded by a raise before the handler |
| Lifecycle.Execute | openvixdisklib/openvixdisklib.py:323-327 | one statement of a body raises, when that is not caught, what its call or close raised |
| Lifecycle.OpenContext | openvixdisklib/openvixdisklib.py:304-327 | whatever raises in ticket, authd, open, body or close, caught or not, in the context or in those its body enters, the descriptor table on leaving is the one on entering plus unused stranded duplicates, at most one for each attempt that strands one; an attempt that must fail, or whose peer does not let an idle disk be closed, raises |
| Lifecycle.CloseHandle | openvixdisklib/openvixdisklib.py:388-401 | exactly the disk's and the authd socket leave the descriptor table, even when closing the disk raises, and what that raised is raised |
| Lifecycle.ConnectContext | openvixdisklib/openvixdisklib.py:242-262 | over any opens, one after the other and nested, and any failures, each caught or not, leaving has logged out and the descriptor table is the one on entering plus what was stranded; an attempt that must fail and is not caught, or a logout that raises, raises |
| Lifecycle.Authenticate | openvixdisklib/nfc_auth.py:472-495 | on success exactly the VIM session and the TLS socket are held in addition, on failure nothing |
| Lifecycle.CloseSession | openvixdisklib/nfc_auth.py:427-432 | the session is logged out and exactly the socket leaves the descriptor table even when a close raises |

## Left out

- Runs.RunRefinesArray: calls the client sends stay on the disk, a session takes no more than 2^32 op ids, the codec does not raise on chunks of 16 bytes or more, and the replies to a read that skips decompression have extras that fit the request; the documents do not say what a server answers to others. Calls the client refuses, with `struct.error` or otherwise, are covered.
- Serving.WriteReachesDisk: the server acts on a whole write at once; it is not modelled between two fragments of one write.
- Sockets.Socket.RecvInto: an OSError or timeout raised by `recv` is not modelled, only an orderly end of the stream.
- Authd.ConnectAuthd: TLS, certificates and thumbprint hashing are inputs that say whether they succeed; the text that `_expect_code` returns is not modelled, as no caller uses it.
- Lifecycle.OpenContext: the calls of a body are on the disk of the innermost `open` around them; KeyboardInterrupt and other non-`Exception` interrupts are not modelled; when the interpreter collects a stranded descriptor is not modelled.
- The texts of error messages.
- The FastLZ algorithm, which the repository does not contain.
- SOAP calls, ticket selection, `_virtual_disk_key`, transport and flag parsing, version checks: foreign calls or single case splits.
- `VixDiskLibHandle.read` and `write` beyond the disk calls they forward to: wrapping the caller's buffer in a memory view.
- Memory views of element formats other than bytes.
