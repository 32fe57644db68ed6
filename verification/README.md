# AnyPlug: a verified model of the USB/IP data path

AnyPlug exports USB devices over TCP with the USB/IP protocol. This project models the part of it
that moves URBs between a client and a server, and the stateful components around that path, and
proves what they guarantee. `dafny verify dfyconfig.toml` checks everything.

| file | what it models |
|---|---|
| `Bytes.dfy`, `Arith.dfy` | bytes, big- and little-endian integers, a few arithmetic facts |
| `Urb.dfy`, `Wire.dfy` | packed URB structs and the framing without length prefix |
| `Usb.dfy` | error mapping, the device manager, replies and their serialisation |
| `Batcher.dfy` | the reply batcher, the server loop's use of it, and the flush-then-push-again discipline |
| `UrbLoops.dfy`, `EndToEnd.dfy` | the server's and the client's URB loop, and what crosses from one to the other |
| `Sessions.dfy`, `ImportSession.dfy` | concurrent import sessions over the shared `exports` map, and one session as code |
| `Descriptor.dfy`, `DescriptorTree.dfy` | USB descriptors and the descriptor tree parser and printer |
| `TokenBucket.dfy` | the bandwidth limiter |
| `Pool.dfy` | the URB buffer pool |
| `Tunnel.dfy`, `SecureLoop.dfy`, `KeyExchange.dfy` | the encrypted tunnel, the server loop over it, and the key exchange |
| `Reconnect.dfy` | backoff, the reconnect machine and the import retry loop |
| `Txt.dfy`, `TxtKotlin.dfy`, `TxtWeb.dfy` | the mDNS `devices` value, its printer and its two parsers |

Each stateful object of the source is a class whose methods are proved equal to a function on an
abstract value (`View()`); the theorems about whole runs are lemmas about those functions.
Sockets are byte sequences. Clock readings, hardware answers, VHCI answers, ctrl-C, jitter, nonces
and whatever a buffer holder writes are universally quantified inputs. The AEAD and the key
agreement are records of functions with their algebraic laws as preconditions.

## Results that differ from what the source says about itself

- `push` returns true both for "inserted, now full" and for "refused". The server loop flushes in both
  cases and never offers a refused reply again, so replies are lost, although
  shared/usbip-core/src/wire.rs:79-83 says that batching never changes the bytes a reader sees.
  `Batcher.LosslessIff` gives the exact condition under which nothing is lost, and
  `Batcher.RetryLosesNothing` shows that pushing again after a flush repairs it.
- A reply carries whatever data the backend returned, but the reader decides from `direction`, `status`
  and `actual_length` how much to read. `Usb.WellFormedForEveryAnswer` says for which commands the two
  agree whatever the device does.
- The client's loop reports a dropped connection as a clean end, so the import loop does not
  reconnect (client/usbip-client/src/client.rs:15-21 says it does). `Reconnect.DroppedConnectionIsNotRetried`
  says exactly when a second task runs, and `EndToEnd.OnlyVhciErrorsAreReported` when a task fails at all.
- `ReconnectState::Stopped` is not final: `Reconnect.RetriesThenStops` gives the state after any errors, and
  `Reconnect.StoppedIsFinalIff` the exact condition under which it stays stopped.
- batcher.rs:3-5 promises replies within 200 microseconds, but the timer is looked at only inside `push`. A reply
  waits until its group is complete or the stream ends: `Batcher.WrittenSoFar`, `Batcher.WrittenInGroups`. A client
  that waits for each reply before its next command never gets one: `Batcher.FirstReplyWaits`.
  `EndToEnd.EverySubmissionCompletesIff` counts the flush after the end of the stream.
- The limiter admits every call and credits slept time a second time. The configured rate holds over every stretch
  of calls exactly when no call overdraws (`TokenBucket.WithinRateIff`); callers that sleep as told get up to twice
  the rate, and that bound is reached: `TokenBucket.TwiceTheRateBound`, `TokenBucket.TwiceTheRateReached`.
- A session that returns early after reserving a busid blocks it until the process ends:
  `Sessions.LostBusidIsNeverFreed`. `Sessions.BlockedForeverIff` says exactly after which runs that is so.
- `parse_descriptor_tree` ends exactly on the inputs where it reaches no configuration with wTotalLength 0:
  `DescriptorTree.EndsIff`, with `DescriptorTree.PrintedZeroTotalDiverges` for printed trees on which it does not.
  `DescriptorTree.OutOfRangeIff` says exactly on which inputs it indexes outside its buffer.
- A holder of a pooled buffer can resize it through `DerefMut`, and it then returns with the wrong size:
  `Pool.DropPreservesUniformIff`.
- PROTOCOL.md section 5.1 puts URB_DIR_IN at bit 6 and OUT data at offset 0x2C; the code uses bit 9 (0x0200)
  and a 48-byte body, and the model follows the code.
- crypto.rs:17-18 and crypto_stream.rs:22-23 describe two other envelope layouts; the code, and the model,
  put the 4-byte nonce length and the 12-byte nonce in front of the ciphertext.

## Model

| member | source | states |
|---|---|---|
| EndToEnd.EverySubmissionCompletesIff | server/usbip-server/src/server.rs:397-455 | for every input stream, backend and clock whose answers announce the data they carry, and once the server has flushed after the end of the stream, the client has completed every submitted command with the answer of the backend, exactly once and in order, if and only if, with the commands cut into groups of eight, the replies of each group have at most 65536 bytes (52 and the data each), and every command but the first of a group has the next sequence number modulo 2^32 and its reply ready less than 200 microseconds after that first one; neither the batcher nor the serialiser occurs in the condition |
| EndToEnd.CompletedWhileOpen | server/usbip-server/src/server.rs:397-449 | while the stream stays open and no further command arrives, and the same condition holds, the client has completed exactly the commands of the complete groups of eight; the others are held back |
| EndToEnd.BrokenRunsComplete | server/usbip-server/src/server.rs:440-455 | whatever the outcome of every write of the server, of ctrl-C and of every VHCI call, the completions are a prefix of the accepted replies |
| EndToEnd.EndToEndIff | client/usbip-client/src/client.rs:447-515 | running the client loop on the bytes the server loop writes gives exactly the accepted replies as completions, in order, with equal seqnum, devid, signed status, length and data and nothing left over, if and only if every accepted reply is well formed |
| EndToEnd.EndToEndLibusb | server/usbip-server/src/usb_backend.rs:197-240 | with libusb behind it, the same holds for every run whose commands have a direction field that agrees with the URB_DIR_IN flag |
| EndToEnd.ClientCompletesIff | client/usbip-client/src/client.rs:475-496 | a stream of replies is turned into exactly their completions if and only if every reply announces the data it carries |
| EndToEnd.ClientCompletesPrefix | client/usbip-client/src/client.rs:449-459 | on a stream of replies cut off at any byte, under ctrl-C and VHCI failures at any point, the calls made are a prefix of the completions |
| EndToEnd.OnlyVhciErrorsAreReported | client/usbip-client/src/client.rs:448-515 | on any input, however truncated, the loop returns an error if and only if the backend refuses the call of some frame, that turn is not interrupted, and every earlier frame's turn is uninterrupted with its call, if any, accepted |
| EndToEnd.CallsUpToRefusal | client/usbip-client/src/client.rs:475-506 | a run that fails at a frame has made exactly the calls of the frames up to that one, in order |
| EndToEnd.FlushDecodesConsecutively | server/usbip-server/src/batcher.rs:131-143 | from every reachable batcher state a flush of well-formed replies reads back as exactly the pending replies, with consecutive sequence numbers modulo 2^32 |
| EndToEnd.UrbForwardingLoop | client/usbip-client/src/client.rs:447-515 | the loop's VHCI calls and its result are those of the run over its input, for every interrupt and backend behaviour |
| EndToEnd.Dispatch | client/usbip-client/src/client.rs:470-511 | one frame causes exactly the completion, the cancellation or nothing that its decoded message calls for |
| EndToEnd.ClientOfMessages | client/usbip-client/src/client.rs:470-511 | on the encoding of any well-formed messages the loop completes each reply and cancels each unlink, in order, with the sequence number, device and signed status that stand in the message, and does nothing for any other |
| Batcher.LosslessIff | server/usbip-server/src/server.rs:437-443 | the loop delivers every reply if and only if the replies of each group have at most 65536 bytes and each but the first of its group has a sequence number one above its predecessor's, modulo 2^32, and is checked less than the timeout after the first; the condition does not mention the batcher |
| Batcher.SteadyIsLossless | server/usbip-server/src/batcher.rs:72-121 | replies with the sequence numbers n, n + 1 and so on modulo 2^32, each small and each within the timeout of its group, are all accepted and written in order, however many there are |
| Batcher.LoopSendsAccepted | server/usbip-server/src/server.rs:437-455 | the bytes written by the loop and the final flush are the accepted replies, in order, and nothing else |
| Batcher.LoopRefusals | server/usbip-server/src/batcher.rs:72-107 | in every state the loop reaches: a reply is refused for its sequence number exactly when it does not follow the last waiting reply, for the timer exactly when it does and the timer of the first waiting reply has run out, for capacity exactly when neither holds and it does not fit into 64 KiB with the waiting ones; the full-batch refusal cannot happen |
| Batcher.WrittenSoFar | server/usbip-server/src/batcher.rs:3-5 | before the final flush the bytes written are the accepted replies without those accepted since the last flush, for any sequence numbers, sizes and clock, and all of them exactly when none waits |
| Batcher.WrittenInGroups | server/usbip-server/src/server.rs:437-449 | when nothing is lost exactly the complete groups are on the wire, so all replies are if and only if the number of commands is a multiple of the batch size |
| Batcher.FirstReplyWaits | server/usbip-server/src/batcher.rs:3-5 | after one command, whatever the clock, nothing has been written |
| Batcher.LoopCanLoseReplies | server/usbip-server/src/server.rs:440-443 | with sequence numbers 1 and 5 the second reply never reaches the wire |
| Batcher.RetryLosesNothing | server/usbip-server/src/batcher.rs:68-82 | with flush-then-push-again the bytes flushed are all replies of at most 64 KiB in submission order, whatever the sequence numbers and the clock |
| Batcher.OneRetryIsEnough | server/usbip-server/src/batcher.rs:105-107 | after a flush a push is refused exactly for a reply that exceeds 64 KiB by itself |
| Batcher.ReachableBatches | server/usbip-server/src/batcher.rs:72-143 | in every state reachable by pushes and flushes the buffer is exactly the pending replies in order, with consecutive sequence numbers, at most 64 KiB and max(1, max_batch) of them, and it is empty exactly when no timer runs |
| Batcher.NoneRefusedMeansAll | server/usbip-server/src/batcher.rs:76-107 | a reply is missing from the wire exactly when push refused it |
| Batcher.UrbBatcher.WithConfig | server/usbip-server/src/batcher.rs:57-66 | a new batcher holds nothing and has no timer |
| Batcher.UrbBatcher.Push | server/usbip-server/src/batcher.rs:72-121 | a refused reply leaves the batcher as it was, an accepted one is appended, counted and remembered; the result is true for a refusal and for a full batch |
| Batcher.UrbBatcher.Flush | server/usbip-server/src/batcher.rs:135-143 | the whole buffer is handed out and the batch emptied, while the last sequence number is kept |
| Batcher.UrbBatcher.ShouldTimeout | server/usbip-server/src/batcher.rs:126-129 | true means that every push at that clock reading is refused, and a continuing one for the timer; false means that no push at that reading is refused for the timer |
| UrbLoops.HandleUrbLoop | server/usbip-server/src/server.rs:383-461 | for every outcome of every write: the bytes put on the wire, all accepted replies when none fails; a failed batch write leaves handle and export in place, otherwise the handle is gone, and the export too unless the release failed |
| UrbLoops.ServerWritesPrefix | server/usbip-server/src/server.rs:440-455 | whatever writes fail and after however many bytes, the wire holds a prefix of the accepted replies, and all of them when none fails |
| UrbLoops.BrokenIff | server/usbip-server/src/server.rs:440-443 | the loop ends with a failed write if and only if some turn that flushes has its write fail |
| UrbLoops.ServeCommands | server/usbip-server/src/server.rs:395-449 | the loop offers one reply per command of the stream, in order, skips other frames, and stops at the first incomplete frame or failed write |
| UrbLoops.Execute | server/usbip-server/src/server.rs:414-437 | the command and the OUT data handed to the backend are those the frame decodes to, and an unclaimed device answers ENODEV |
| UrbLoops.CommandsOfMessages | server/usbip-server/src/server.rs:413-448 | on the encoding of any list of messages the server executes exactly the submitted commands with their data, in order |
| UrbLoops.LibusbDeliversWellFormed | server/usbip-server/src/usb.rs:115-132 | commands whose two direction markers agree get only well-formed replies, whatever the device answers |
| UrbLoops.ExportTable.TryReserve | server/usbip-server/src/server.rs:340-349 | a busid is taken exactly when it was free, and a taken one is left alone |
| ImportSession.HandleImport | server/usbip-server/src/server.rs:307-461 | for every combination of failures: how a whole import ends, what it leaves in both tables, and every byte it writes: the NODEV or BUSY header, or header, device entry and descriptor tree followed by the batches of the loop |
| ImportSession.ImportAnswers | server/usbip-server/src/server.rs:329-366 | the bytes of the two refusals and of a granted import, header included |
| ImportSession.SessionFollowsSteps | server/usbip-server/src/server.rs:329-380 | among any other sessions, the outcome of that code, a failed batch write included, is the outcome of the session's steps in the state machine |
| Sessions.SessionSafety | server/usbip-server/src/server.rs:339-379 | in every interleaving at most one session owns a busid, the export keys are exactly the busids of owners, the handles are exactly those of holders, and a looping session has its handle |
| Sessions.StepKeepsExclusive | server/usbip-server/src/usb.rs:87-141 | every lock region and every early return keeps the correspondence between sessions, exports and handles |
| Sessions.LostBusidIsNeverFreed | server/usbip-server/src/server.rs:352-376 | after an early return past the reservation, no continuation frees the busid and every later import of it is answered busy |
| Sessions.LostIff | server/usbip-server/src/server.rs:351-458 | in every interleaving from the start, a session is lost if and only if its claim, its announcement, one of its batch writes or its release has failed at a point where it was due |
| Sessions.BlockedForeverIff | server/usbip-server/src/server.rs:339-458 | in every interleaving, no continuation can free a busid if and only if one of those four failures has happened to a session that asked for it |
| Sessions.FailedClaimLoses | server/usbip-server/src/server.rs:351-352 | the shortest such run: one client whose claim of the device fails leaves its busid exported |
| Sessions.OwnerStep | server/usbip-server/src/server.rs:457-458 | one step takes a busid from its owner exactly when it is the owner's own removal, and makes the owner lost exactly when it is one of the four failures |
| Sessions.OwnerCanFinish | server/usbip-server/src/server.rs:351-460 | from any reachable state an owner that has not returned early can still complete, and completion frees busid and handle |
| DescriptorTree.RoundTripIff | shared/usbip-core/src/descriptor.rs:317-411 | for trees whose wTotalLength fields match, parsing the printed tree returns the same tree if and only if the type bytes are standard and each interface has at most bNumEndpoints + 1 endpoints and HID descriptors, none when bNumEndpoints is 255 |
| DescriptorTree.OrdinaryTreesIff | shared/usbip-core/src/descriptor.rs:341-367 | a tree of standard type bytes in which every interface carries exactly the endpoints it announces, with or without a HID descriptor, comes back unless an interface has 255 endpoints |
| DescriptorTree.ItemsInAnyOrder | shared/usbip-core/src/descriptor.rs:341-367 | endpoint and HID descriptors mixed in any order, as many as there is room for: all endpoints are found in order, the last HID descriptor wins, and the loop stops when the room is used up whatever follows |
| DescriptorTree.UnknownBlocksAreSkipped | shared/usbip-core/src/descriptor.rs:322-387 | unknown blocks anywhere between the sections do not change the parse |
| DescriptorTree.TrailingBytesAreIgnored | shared/usbip-core/src/descriptor.rs:379-385 | a block of length zero or one that goes on behind the buffer ends the parse with the configurations in front of it, whatever follows |
| DescriptorTree.ParserOutputsTyped | shared/usbip-core/src/descriptor.rs:326-377 | every tree the parser returns, on any input, has standard type bytes, and no interface has more items than bNumEndpoints leaves room for |
| DescriptorTree.PrinterIsInjective | shared/usbip-core/src/descriptor.rs:394-411 | two well-formed trees with the same printed form are equal |
| DescriptorTree.PrintedLength | shared/usbip-core/src/descriptor.rs:394-411 | the printed length is 18 plus the sum of the wTotalLength fields |
| DescriptorTree.EndsIff | shared/usbip-core/src/descriptor.rs:317-390 | for every input the outer loop ends if and only if it reaches no configuration with wTotalLength 0; a loop that ends does so within one iteration per byte, with the result of the recursive parse, and NoProgress stands for exactly the other inputs |
| DescriptorTree.StuckForever | shared/usbip-core/src/descriptor.rs:330-377 | on such a configuration the loop is still running at the same offset after any number of iterations, holding one more configuration each time |
| DescriptorTree.ZeroTotalDiverges | shared/usbip-core/src/descriptor.rs:322-387 | on well-formed blocks followed by a configuration with wTotalLength 0 and anything else, the loop is still running after any number of iterations |
| DescriptorTree.PrintedZeroTotalDiverges | shared/usbip-core/src/descriptor.rs:394-411 | so it is on the printed form of a tree with such a configuration at any place behind well-formed ones |
| DescriptorTree.OutOfRangeIff | shared/usbip-core/src/descriptor.rs:322-377 | for every input, the parser indexes outside the buffer if and only if the outer loop reaches its last byte, or reaches a configuration that goes on behind the buffer and among whose items a cursor, with a slot left, comes within a byte of its end |
| DescriptorTree.OneByteTooMany | shared/usbip-core/src/descriptor.rs:322-324 | one byte behind the device descriptor is enough for that |
| DescriptorTree.StaysInRange | shared/usbip-core/src/descriptor.rs:322-345 | in particular no such access occurs when every reached configuration ends inside the buffer and no reached offset is its last byte |
| DescriptorTree.RejectedIff | shared/usbip-core/src/descriptor.rs:317-345 | for every input, the parser returns `None` if and only if the input is shorter than 18 bytes, or the outer loop reaches a configuration that is cut short or in which something other than an interface stands where one is due |
| DescriptorTree.ParseDescriptorTree | shared/usbip-core/src/descriptor.rs:317-390 | the three nested loops compute the recursive parse, including rejection, out-of-range access and lack of progress |
| DescriptorTree.ScanInterfaces | shared/usbip-core/src/descriptor.rs:331-374 | the interface loop computes the recursive parse of a configuration's interfaces |
| DescriptorTree.ScanItems | shared/usbip-core/src/descriptor.rs:341-367 | the item loop computes the recursive parse of an interface's endpoints and HID descriptor |
| DescriptorTree.SerializeDescriptorTree | shared/usbip-core/src/descriptor.rs:394-411 | the printing loops produce device, then each configuration with its interfaces, each followed by HID and endpoints |
| Descriptor.DeviceLayout | shared/usbip-core/src/descriptor.rs:48-73 | the device descriptor has the field offsets of section 9.6.1 of USB 2.0 |
| Descriptor.ConfigLayout | shared/usbip-core/src/descriptor.rs:109-122 | the configuration descriptor has the field offsets of section 9.6.3 of USB 2.0 |
| Descriptor.SectionLayouts | shared/usbip-core/src/descriptor.rs:142-292 | interface, endpoint and HID descriptors have the standard offset for every field |
| Descriptor.DeviceReadBack | shared/usbip-core/src/descriptor.rs:25-45 | reading inverts printing for the device descriptor |
| Descriptor.ConfigReadBack | shared/usbip-core/src/descriptor.rs:92-122 | reading inverts printing for a configuration descriptor anywhere in a buffer |
| Descriptor.InterfaceReadBack | shared/usbip-core/src/descriptor.rs:142-172 | the same for an interface descriptor |
| Descriptor.EndpointReadBack | shared/usbip-core/src/descriptor.rs:189-215 | the same for an endpoint descriptor |
| Descriptor.HidReadBack | shared/usbip-core/src/descriptor.rs:262-292 | the same for a HID descriptor |
| Wire.MessagesReadBack | shared/usbip-core/src/wire.rs:27-75 | repeated reads on the concatenation of any well-formed messages return those messages and stop exactly at the end |
| Wire.ReadsExactlyMessages | shared/usbip-core/src/wire.rs:30-75 | a read succeeds exactly when the stream starts with a well-formed message, and returns that message's bytes |
| Wire.PrefixFree | shared/usbip-core/src/wire.rs:3-8 | two messages that can start the same stream are equal |
| Wire.NoProperPrefixReads | shared/usbip-core/src/wire.rs:30-75 | no proper prefix of a message reads successfully |
| Wire.ReadAllPartitions | shared/usbip-core/src/wire.rs:30-75 | the frames read and the bytes left over are the stream, for any stream |
| Wire.EncodeIsFrame | shared/usbip-core/src/wire.rs:36-72 | the encoding of a well-formed message is one frame and decodes to that message |
| Wire.FrameIsMessage | shared/usbip-core/src/wire.rs:36-72 | every frame the reader accepts is the encoding of the message it decodes to |
| Wire.ReadMessage | shared/usbip-core/src/wire.rs:30-75 | header, body and data read step by step give the next frame and leave the stream right behind it |
| Wire.FrameLengths | shared/usbip-core/src/wire.rs:36-72 | the length of a message from its bytes: 56 for a command 1, and the word at 28 more unless bit 1 of byte 26 is set; 52 for a command 3, and the word at 28 more when the status word is zero and the direction word is not; 20 for a command 2; 8 for any other |
| Urb.HeaderRoundTrip | shared/usbip-core/src/protocol.rs:56-83 | eight bytes encode a header exactly when they read as that header |
| Urb.CmdRoundTrip | shared/usbip-core/src/urb.rs:11-25 | 44 bytes encode a CMD_SUBMIT exactly when they read as it |
| Urb.RetRoundTrip | shared/usbip-core/src/urb.rs:74-88 | 44 bytes encode a RET_SUBMIT exactly when they read as it |
| Urb.UnlinkRoundTrip | shared/usbip-core/src/urb.rs:130-136 | 12 bytes encode a RET_UNLINK exactly when they read as it |
| Urb.HeaderLayout | PROTOCOL.md:26-38 | the header has the documented field offsets |
| Urb.CmdLayout | PROTOCOL.md:156-173 | CMD_SUBMIT has the documented field offsets |
| Urb.RetLayout | PROTOCOL.md:207-224 | RET_SUBMIT has the documented field offsets |
| Urb.UnlinkLayout | shared/usbip-core/src/urb.rs:130-136 | RET_UNLINK holds seqnum, devid and status at offsets 0, 4 and 8 |
| Urb.DirectionBit | shared/usbip-core/src/urb.rs:53-55 | the direction flag is bit 1 of the byte at offset 18 of the command |
| Usb.WellFormedForEveryAnswer | server/usbip-server/src/usb_backend.rs:197-240 | a command gets well-formed replies whatever the device does if and only if its direction markers agree or no byte can move |
| Usb.LibusbReplyIff | shared/usbip-core/src/urb.rs:114-116 | one outcome makes a well-formed reply unless the markers differ and bytes moved |
| Usb.ReplyFrameIff | shared/usbip-core/src/reply.rs:35-63 | a serialised reply is one frame exactly when its payload has the announced length, and then every field reads back |
| Usb.ReplyLayout | shared/usbip-core/src/reply.rs:35-63 | every byte of a reply, from the command and the result it answers: fixed header, ten fields at their offsets, the setup bytes and the data |
| Usb.FailuresAreWellFormed | server/usbip-server/src/usb.rs:122-131 | every error maps to a negative status without data, hence to a well-formed reply |
| Usb.StatusTable | shared/usbip-core/src/error.rs:284-301 | the errno of every USB error and of every other error kind |
| Usb.Categories | shared/usbip-core/src/error.rs:124-160 | exactly which errors are transient and which are fatal |
| Usb.TransferLimits | server/usbip-server/src/usb_backend.rs:197-240 | an IN transfer returns the bytes that fit into wLength, or into the larger of 512 and the buffer length; an OUT transfer reports how many bytes went out and returns none |
| Usb.SerializeReplyInto | shared/usbip-core/src/reply.rs:35-63 | the reply is appended to the caller's buffer and its length returned |
| Usb.SerializeReply | shared/usbip-core/src/reply.rs:19-29 | the allocating variant yields the same bytes |
| Usb.UsbDeviceManager.ClaimDevice | server/usbip-server/src/usb.rs:87-92 | the handle is recorded exactly when the backend's claim succeeded |
| Usb.UsbDeviceManager.ReleaseDevice | server/usbip-server/src/usb.rs:135-141 | the handle is gone even when the backend's release fails |
| Usb.UsbDeviceManager.SubmitUrb | server/usbip-server/src/usb.rs:100-132 | an unclaimed device yields -19 without data, a claimed one the mapped backend result |
| TokenBucket.Conservation | server/usbip-server/src/bandwidth.rs:98-131 | over every run of calls and clock readings, admitted plus remaining plus spilled equals the initial tokens plus rate times elapsed time plus overdrafts, and tokens stay within capacity |
| TokenBucket.AdmittedBound | server/usbip-server/src/bandwidth.rs:107-131 | for every run, admitted bytes are at most capacity plus rate times elapsed time plus rate times requested delay and what its 64-bit saturation drops, plus less than a nanosecond of tokens per delayed call |
| TokenBucket.WithinRateIff | server/usbip-server/src/bandwidth.rs:120-130 | for a bucket that starts full, every stretch of calls is admitted at most one full bucket plus the rate times the time between its first and last refill, if and only if no call finds fewer tokens than it asks for |
| TokenBucket.OverdraftExceeds | server/usbip-server/src/bandwidth.rs:120-130 | a call that overdraws breaks the rate over the calls since the bucket was last found full |
| TokenBucket.TwiceTheRateBound | server/usbip-server/src/bandwidth.rs:136-142 | callers that sleep as told are held to twice the configured rate, apart from what saturated delays drop |
| TokenBucket.TwiceTheRateReached | server/usbip-server/src/bandwidth.rs:120-130 | for every rate and duration some caller is admitted twice the configured rate |
| TokenBucket.PairsAreObedient | server/usbip-server/src/bandwidth.rs:136-142 | that caller does sleep as told |
| TokenBucket.Limiter.Consume | server/usbip-server/src/bandwidth.rs:115-131 | refill, then deduct or empty; the delay is the overdraft over the rate, truncated and saturated, and absent for an unlimited bucket |
| TokenBucket.Limiter.Refill | server/usbip-server/src/bandwidth.rs:98-105 | tokens grow with the clock up to capacity and a clock that did not advance changes nothing |
| TokenBucket.FirstCall | server/usbip-server/src/bandwidth.rs:78-131 | a new bucket lets `rate` bytes through at once, and a larger call owes 10^9 nanoseconds for every further `rate` bytes, rounded down |
| TokenBucket.AfterPause | server/usbip-server/src/bandwidth.rs:98-121 | an empty bucket left alone for t nanoseconds lets through the bytes of that time, but never more than those of a second |
| Pool.EveryRunIsSound | shared/usbip-core/src/pool.rs:76-161 | in every interleaving, with drops between any two pushes of a growing pool, buffers created are queued, outstanding, taken or discarded, the queue stays within max_size, queued plus outstanding plus taken is at least min_size, and the average lies between the extremes observed |
| Pool.HandedOutZeroed | shared/usbip-core/src/pool.rs:112-118 | a buffer is all zero when handed out, whatever earlier holders did to it |
| Pool.HandedOutFresh | shared/usbip-core/src/pool.rs:204-217 | with writes through slices only, a buffer handed out is indistinguishable from a new one |
| Pool.AcquiredInOrder | shared/usbip-core/src/pool.rs:112-118 | buffers are handed out in the order of the queue, each under a handle of its own |
| Pool.DroppedComesBack | shared/usbip-core/src/pool.rs:236-248 | a buffer dropped behind n others is what the n+1st acquire gets, zeroed and in the layout it was left in |
| Pool.HeldBufferIsPrivate | shared/usbip-core/src/pool.rs:204-248 | over any run in which its holder does nothing with it, a buffer handed out keeps its contents |
| Pool.DropPreservesUniformIff | shared/usbip-core/src/pool.rs:236-262 | dropping keeps all queued buffers at the pool's size exactly when the holder left the layout alone |
| Pool.WindowCloseGrows | shared/usbip-core/src/pool.rs:128-157 | a second or more after the last window, the rate of the window enters the average with weight 1/8, or starts it; the queue is never shrunk or changed, and whatever is dropped meanwhile, also when a push finds the queue full, the growth ends with at least min_size buffers, and with twice the average or max_size |
| Pool.UndisturbedClose | shared/usbip-core/src/pool.rs:139-151 | without drops in between, nothing is added to a queue that is large enough, and otherwise it ends with the least number that is |
| Pool.GrowthEnds | shared/usbip-core/src/pool.rs:146-150 | every push brings the growth nearer to its end, whatever happens between them |
| Pool.RecordOnlyCounts | shared/usbip-core/src/pool.rs:124-161 | before the first window and within a second of the last one, a call is only counted |
| Pool.FirstAverage | shared/usbip-core/src/pool.rs:124-137 | the first average of a pool is the number of all calls so far over the time since the first |
| Pool.UndisturbedGrowth | shared/usbip-core/src/pool.rs:143-151 | without drops in between, the growth adds exactly the missing buffers, all fresh |
| Pool.BlendBetween | shared/usbip-core/src/pool.rs:132-137 | the new average lies between the old extremes widened by the new observation |
| Pool.UrbBufferPool.constructor | shared/usbip-core/src/pool.rs:76-96 | a new pool holds min_size fresh buffers |
| Pool.UrbBufferPool.AcquireBuffer | shared/usbip-core/src/pool.rs:112-118 | the oldest queued buffer is handed out, or a fresh one when there is none |
| Pool.UrbBufferPool.DropBuffer | shared/usbip-core/src/pool.rs:236-248 | a dropped buffer is cleared and queued, or discarded when the queue is full |
| Pool.UrbBufferPool.TakeBuffer | shared/usbip-core/src/pool.rs:219-226 | a taken buffer leaves the pool with its contents |
| Pool.UrbBufferPool.RecordUrb | shared/usbip-core/src/pool.rs:124-161 | counting, averaging and growing are a run of the pool's steps, with the buffers other threads drop before each push; the queue never shrinks, and when a window closes it ends with at least min_size buffers, and with twice the average or max_size |
| Tunnel.TunnelRoundTrip | server/usbip-server/src/crypto_stream.rs:131-163 | any sequence of messages of at most 1,048,568 bytes is read back exactly and in order, whatever the nonces |
| Tunnel.FrameReadsBackIff | server/usbip-server/src/crypto_stream.rs:43-44 | one message is read back exactly when it is at most 1,048,568 bytes, eight less than MAX_MESSAGE_SIZE; a longer one is refused for its length, and one whose 32-bit length wraps is never read back |
| Tunnel.FrameLayout | server/usbip-server/src/crypto_stream.rs:152-163 | a frame is the length in four bytes, the nonce length 12 in four bytes, the nonce and the sealed message |
| Tunnel.ReceiveFromBytes | server/usbip-server/src/crypto_stream.rs:132-149 | what a read makes of any bytes: end of stream, a length that is zero or over 1,048,600, an envelope that is too short, has another nonce length or does not open, or the message and the rest |
| Tunnel.DecryptInvertsEncrypt | shared/usbip-core/src/crypto.rs:154-265 | decryption returns the plaintext, and the envelope adds 32 bytes |
| Tunnel.DecryptInPlace | shared/usbip-core/src/crypto.rs:188-222 | the in-place variant gives the answer of `decrypt` on every input and leaves exactly the plaintext after the envelope |
| Tunnel.CryptoStream.ReadMessage | server/usbip-server/src/crypto_stream.rs:132-149 | length check, exact read and decryption give the received message or the matching error |
| Tunnel.CryptoStream.WriteMessage | server/usbip-server/src/crypto_stream.rs:152-163 | one frame is written per message |
| SecureLoop.TunnelCarriesTheLoop | server/usbip-server/src/server.rs:440-455 | over the tunnel the peer reads exactly the flushes of the server loop, and their concatenation is the accepted replies |
| SecureLoop.EmptyMessageIff | server/usbip-server/src/batcher.rs:105-107 | the loop writes an empty message exactly for a reply over 64 KiB that finds nothing waiting |
| SecureLoop.TakeMessage | server/usbip-server/src/server.rs:404-431 | the length checks of the loop accept a command exactly when the message starts with its whole frame, and then run it with that frame's data; a shorter one ends the loop and another command is skipped |
| SecureLoop.SameAsPlain | server/usbip-server/src/server.rs:401-437 | with one frame per tunnel message the loop runs the same commands as on the plain wire |
| SecureLoop.ShortMessageStops | server/usbip-server/src/server.rs:404-431 | a message that holds a proper prefix of a command ends the loop, wherever it is cut |
| SecureLoop.CutCommandEndsRun | server/usbip-server/src/server.rs:404-431 | after any whole frames, a command that is cut short and anything else, exactly the commands of the whole frames have run |
| SecureLoop.SecondFrameLost | server/usbip-server/src/server.rs:413-437 | of two command frames in one tunnel message only the first runs, while the plain wire runs both |
| SecureLoop.TunnelRunsSubmitted | server/usbip-server/src/crypto_stream.rs:131-163 | a client that sends each message by itself through the tunnel gets exactly its submitted commands run, in order, whatever the nonces |
| KeyExchange.ExchangeCompletes | server/usbip-server/src/crypto_stream.rs:55-129 | in every interleaving and fragmentation a run has at most 76 steps, is blocked exactly when both sides have ended, and then both have consumed exactly 36 bytes and hold the same key or both failed |
| KeyExchange.StepKeeps | server/usbip-server/src/crypto_stream.rs:63-84 | at every step a side's unread bytes are the delivered, unconsumed part of its peer's greeting |
| KeyExchange.ReadsWhenDelivered | server/usbip-server/src/crypto_stream.rs:74-84 | in every run a side can read the length as soon as 4 of its peer's 36 bytes are delivered, and the key when all are |
| KeyExchange.Establish | server/usbip-server/src/crypto_stream.rs:55-129 | against any peer, one side writes its greeting and ends with a key, a lost connection, a wrong length or a rejected key |
| KeyExchange.HandshakeFromBytes | server/usbip-server/src/crypto_stream.rs:63-84 | a side sends 0, 0, 0, 32 and its public key, expects the same four bytes, and takes the 32 bytes behind them as the key of its peer |
| KeyExchange.HonestPeer | server/usbip-server/src/crypto_stream.rs:86-128 | against an honest peer both sides reach the same result and take exactly the greeting from the stream |
| Reconnect.IncreasingIff | client/usbip-client/src/reconnect.rs:67-85 | between uncapped attempts delays increase for every choice of jitter if and only if the multiplier is at least 5/3 |
| Reconnect.DelayBounds | client/usbip-client/src/reconnect.rs:74-85 | every delay is the larger of 0.1 s and the capped delay plus the jitter; so it is at least three quarters of the capped delay, and below 1.25 times the cap |
| Reconnect.RawDelayGrows | client/usbip-client/src/reconnect.rs:75-77 | the uncapped delay starts at the configured one and grows by the multiplier with every attempt, and the capped delay is the smaller of it and the cap |
| Reconnect.DefaultSchedule | client/usbip-client/src/reconnect.rs:69-73 | the default schedule before jitter is 1, 2, 4, 8, 16 and then 30 seconds for every later attempt |
| Reconnect.RetriesThenStops | client/usbip-client/src/reconnect.rs:111-139 | after any list of errors of any category with fresh jitter each, the machine is stopped exactly when the last error is not transient or the transient errors at the end number a multiple of max_retries + 1; otherwise it backs off with the attempt and delay given by that number |
| Reconnect.DefaultKeepsRetrying | client/usbip-client/src/reconnect.rs:45-54 | with the default settings any number of transient errors in a row is retried, the n-th after the delay of its attempt |
| Reconnect.StoppedIsFinalIff | client/usbip-client/src/reconnect.rs:111-139 | a stopped machine stays stopped over a list of errors if and only if none is transient or max_retries is 0 |
| Reconnect.RetryBudget | client/usbip-client/src/reconnect.rs:88-93 | with a limit of m the import loop runs at most m + 1 tasks, and exactly that many, or all there are, when it may reconnect and all errors are transient |
| Reconnect.ImportLoop | client/usbip-client/src/client.rs:192-242 | the loop reaches task k exactly when auto-reconnect is on and every earlier task ended with a transient error below the limit, sleeping the delay of that attempt each time |
| Reconnect.DroppedConnectionIsNotRetried | client/usbip-client/src/client.rs:192-242 | after a forwarding task, with its stream cut anywhere, a second task runs if and only if auto-reconnect is on, one retry is allowed, and the VHCI backend refused a call the loop got to with a transient error |
| Reconnect.ReconnectsIff | client/usbip-client/src/client.rs:370-385 | task k runs if and only if auto-reconnect is on, k retries are allowed, and every earlier task could not connect or had a VHCI call refused, with a transient error |
| Reconnect.ReconnectMachine.Decide | client/usbip-client/src/reconnect.rs:183-204 | retry exactly for a transient error below the limit, with the state moved to that attempt |
| Reconnect.ReconnectMachine.ClassifyAndBackoff | client/usbip-client/src/reconnect.rs:146-171 | the same verdict, except that a clean end also stops the machine |
| TxtKotlin.RoundTripIff | android/core/src/main/java/com/anyplug/discovery/ServerDiscovery.kt:242-272 | the Android parser returns vid, pid, bus id and name of every advertised device in order if and only if no bus id holds a comma or ends in a blank |
| TxtKotlin.ParseSound | android/core/src/main/java/com/anyplug/discovery/ServerDiscovery.kt:251-272 | on any text, no returned bus id holds a comma or ends in a blank |
| TxtKotlin.SignedNumbers | android/core/src/main/java/com/anyplug/discovery/ServerDiscovery.kt:261-263 | a run of digits with or without a sign is its value exactly when that fits an Int, and a sign alone is no number |
| TxtKotlin.HexBeforeDecimal | android/core/src/main/java/com/anyplug/discovery/ServerDiscovery.kt:261-263 | an id of decimal digits is read as hexadecimal, and as decimal only when its hexadecimal value does not fit an Int |
| TxtKotlin.DefaultsFilledIn | android/core/src/main/java/com/anyplug/discovery/ServerDiscovery.kt:247-272 | a device that names neither bus nor name is returned as "USB Device" on "1-1", and a vid or pid alone is no device |
| TxtKotlin.ParseDevices | android/core/src/main/java/com/anyplug/discovery/ServerDiscovery.kt:245-272 | the token loop computes the fold over the tokens |
| TxtWeb.RoundTripIff | web/src/lib/api.ts:59-87 | the web parser returns every advertised device in order if and only if no vid or pid is zero and every bus id is non-empty, trimmed and free of ',' and '=' |
| TxtWeb.ParseSound | web/src/lib/api.ts:66-87 | on any text, the devices pushed have non-zero ids and such a bus id |
| TxtWeb.ParseHexForm | web/src/lib/api.ts:75-77 | after blanks, an optional sign and a prefix, the digits up to the first character that is none are read, and what follows is ignored |
| TxtWeb.MissingId | web/src/lib/api.ts:75-77 | an id that is missing or empty reads as 0 |
| TxtWeb.DefaultsFilledIn | web/src/lib/api.ts:62-87 | the same for the web parser and non-zero ids |
| TxtWeb.ScanDevices | web/src/lib/api.ts:61-87 | the token loop computes the fold over the tokens |
| Txt.DevicesAreTokens | server/usbip-server/src/discovery.rs:103-118 | the printed device list is one flat list of four tokens per device joined by commas |
| Txt.HexDigits | server/usbip-server/src/discovery.rs:103-118 | ids are printed in lower-case hexadecimal, and both cases are read |

## Left out

- Sockets, tokio, signals, sleeping and tracing: replaced by byte sequences, choices and clock readings.
- UrbLoops.HandleUrbLoop: the plain wire only. Over the tunnel, what the loop writes is `SecureLoop.TunnelCarriesTheLoop` and which commands it runs is `SecureLoop.TakeMessage`; the two are not joined into one method.
- ImportSession.HandleImport: the key exchange of an encrypted session is not among its steps, and the device entry and descriptor tree are opaque bytes. It runs without interference; interleavings are those of `Sessions`.
- ImportSession.SessionFollowsSteps: the steps of the session follow each other directly, among sessions that stand still meanwhile.
- UrbLoops.ServeCommands: the length checks the loop repeats on each frame (server.rs:404-431) are absent, because on the plain wire every frame already satisfies them; they are in `SecureLoop.TakeMessage`.
- The import handshake in front of the URB phase: the server sends a descriptor tree that the forwarding path of the client does not read.
- REST edits of the export map (`post_connect`, `post_disconnect`): they change the map without stopping a running session, so session safety is stated without them.
- Device identity beyond the busid string: several strings can name one device, so exclusivity is per string.
- DescriptorTree.RoundTripIff: requires wTotalLength fields that match; with other totals the outcome depends on how sections overlap, and only the zero case is characterised. `b_num_endpoints + 1` wraps as in a release build; a debug build panics at 255.
- Floating-point rounding in the limiter, the pool's average and the backoff: exact integers and reals instead.
- Reconnect.ReconnectMachine.Decide: attempt numbers are unbounded, so the wrap of `attempt as i32` and of `attempt + 1` at 32 bits is not modelled; delays of zero, on which sampling the jitter panics, are excluded.
- TxtKotlin.ParseDevices: digits are ASCII; the other branches of `parseDevices` and `scanServers`, and the placeholder device, are not modelled.
- Cipher, key derivation, key generation and nonce generation internals.
- libusb, IOKit, WinUSB and VHCI calls, the Android copies of the wire format, the client daemon, user interfaces, metrics, command-line parsing, mDNS browsing and subnet scanning: foreign calls, a second format, or only easy members.
