# VISCA-over-IP to RS-232 bridge: a Dafny model of the byte logic

The bridge listens for VISCA-over-IP datagrams on UDP and relays them to a
pan-tilt-zoom camera on a serial line. Each datagram has an 8-byte header:
a 2-byte kind, a big-endian 16-bit length and a big-endian 32-bit sequence
number. The payload after the header is queued for a writer thread, which
puts it on the serial line. The camera's answers come back as bytes on the
serial line, each message terminated by `0xFF`. The bridge cuts one serial
read into frames and wraps each frame in a reply datagram. A reply has kind
`01 11`, the frame length plus one, a sequence number, the frame, and a
trailing `0xFF`. The sequence number is that of the last datagram of at
least 8 bytes, whatever its kind: the loop never reads the kind, so an
inquiry (`01 10`) or a control message (`02 00`) replaces the sequence
number of a pending command (`01 00`). The reply goes to the sender of the
current iteration's datagram.

This project models that byte logic as pure functions over byte sequences
and proves properties of it:

- `bytes.dfy` (module `Bytes`): bytes, 16/32-bit fields, and big-endian
  read/write with truncation to the field width. It proves both round trips.
- `framer.dfy` (module `Framer`): Rust's slice `split` on `0xFF`, the
  non-empty filter, and the frames of a read. `SplitFrames` is the same
  framing as one scanning loop. `Serialize` is the serial wire form. The
  lemmas connect the two.
- `envelope.dfy` (module `Envelope`): header decode and the reply encoder,
  with the decode/encode round trip.
- `bridge.dfy` (module `Bridge`): one loop iteration as a pure transition.
  It also defines a run of iterations, with reference definitions of the
  stored sequence number and of the serial write queue.
- `serial_writer.dfy` (module `SerialWriter`): the writer thread draining
  the queue in FIFO order, one `write` per payload.

Three details of the program shape the model:

- A non-empty datagram shorter than 8 bytes makes `split_at(8)` panic
  (src/main.rs:80), which ends the loop. `Bridge.Step` returns `Panicked`
  for such a datagram, and a run stops there.
- Replies go to the address that `recv_from` returned in the same iteration
  (src/main.rs:76, 119). That address exists in every iteration, including
  one whose datagram is empty.
- The reply length field is `(payload.len() as u16) + 1` (src/main.rs:114).
  It wraps around when too large instead of being rejected. Frames come
  from the 1024-byte read buffer, so the bridge never reaches the
  wrap-around.

## Model

| member | source | states |
|---|---|---|
| Bytes.BEValue | src/main.rs:88-89 | a big-endian field read from w bytes is below 256^w, so the 4-byte sequence field always fits a u32 |
| Bytes.EncodeBE | src/main.rs:114-115 | a big-endian write of width w produces exactly w bytes (`write_u16` gives 2 bytes, `write_u32` gives 4) |
| Bytes.DecodeEncode | src/main.rs:114-115 | reading back a big-endian field written with width w gives the written value modulo 256^w (the `as u16` truncation included) |
| Bytes.EncodeDecode | src/main.rs:88-89 | writing back the value read from a field reproduces the field's bytes exactly |
| Framer.Split | src/main.rs:103-104 | `split` on `0xFF` gives one more piece than there are `0xFF` bytes in the input |
| Framer.JoinSplit | src/main.rs:103-104 | the cuts fall exactly at the `0xFF` bytes: the pieces, rejoined with one `0xFF` between neighbours, give back the read |
| Framer.SplitUnique | src/main.rs:103-104 | conversely, any sequence of `0xFF`-free pieces that rejoins to the read is the split of the read, so the split is unique |
| Framer.SplitPieces | src/main.rs:103-104 | no piece of the split contains `0xFF` or is longer than the input |
| Framer.NonEmpty | src/main.rs:105 | the filter keeps no more pieces than it is given, and none of those it keeps is empty |
| Framer.NonEmptyKeeps | src/main.rs:105 | every kept piece is one of the input pieces, and dropping the empty pieces loses no bytes |
| Framer.NonEmptyComplete | src/main.rs:105 | every non-empty input piece is kept |
| Framer.NonEmptyConcat | src/main.rs:105 | the filter works piece by piece and keeps order and multiplicity: filtering a concatenation concatenates the filtered parts |
| Framer.NonEmptySingle | src/main.rs:105 | a single piece is kept exactly when it is non-empty |
| Framer.FramesWellFormed | src/main.rs:103-106 | every frame is non-empty, free of `0xFF` and at most as long as the read, and the frames concatenate to the read with every `0xFF` removed |
| Framer.FlattenSplit | src/main.rs:103-104 | the split pieces concatenate to the input with its `0xFF` bytes removed |
| Framer.NoFrames | src/main.rs:103-106 | a read gives zero frames if and only if it is empty or consists only of `0xFF` bytes |
| Framer.UnterminatedRead | src/main.rs:103-106 | a read gives exactly one frame equal to itself if and only if it is non-empty and has no `0xFF` |
| Framer.FramesSerialize | src/main.rs:103-106 | framing a read of whole messages, each followed by `0xFF`, returns exactly those messages in order, one per terminator |
| Framer.TerminatorsSerialize | src/main.rs:103-106 | a read of n whole messages, each followed by `0xFF`, holds exactly n terminators, one per message, which is the count half of `Framer.FramesSerialize` |
| Framer.FramesTrailingPartial | src/main.rs:103-106 | a read that ends inside a message yields the unfinished message as a frame of its own, because nothing carries over to the next read |
| Framer.SplitFrames | src/main.rs:103-106 | the single-pass scanning loop returns exactly the frames of the read |
| Envelope.Decode | src/main.rs:79-89 | decoding fails exactly when the datagram is shorter than 8 bytes; otherwise the sequence number is the value whose big-endian encoding is bytes 4..7, and the payload is everything after byte 8 |
| Envelope.DecodeIgnoresKindAndLength | src/main.rs:84-89 | two datagrams that agree from byte 4 on decode identically: the kind and the length field never matter |
| Envelope.EncodeReply | src/main.rs:111-117 | a reply is 9+n bytes: kind `01 11`, then a length field reading (n+1) mod 65536, then a field reading the sequence number, then the payload and `0xFF` |
| Envelope.ReplyLengthField | src/main.rs:114 | for a frame shorter than 65535 bytes, the length field counts exactly the bytes after the header, n+1 |
| Envelope.ReplyLengthFieldWraps | src/main.rs:114 | a 65535-byte frame wraps the length field to 0 |
| Envelope.DecodeReply | src/main.rs:111-117 | decoding an encoded reply gives back its sequence number, and as payload the frame followed by `0xFF` |
| Envelope.DecodeCommandExample | src/main.rs:79-89 | `01 00 00 03 00 00 00 09 81 01 04` decodes to sequence 9 and payload `81 01 04` |
| Envelope.EncodeReplyExample | src/main.rs:111-117 | the reply to frame `90 50 02` under sequence 9 is `01 11 00 04 00 00 00 09 90 50 02 FF` |
| Bridge.Receive | src/main.rs:76-94 | an empty datagram changes nothing; a malformed one (1 to 7 bytes) panics; a longer one sets the sequence number from bytes 4..7 and appends bytes 8.. to the write queue unmodified |
| Bridge.Replies | src/main.rs:101-108 | a failed or empty serial read sends nothing; otherwise there is exactly one reply per frame |
| Bridge.ReplyAnswers | src/main.rs:111-119 | a reply for a frame from the buffer goes to the given address, has kind `01 11` and an exact length field, and decodes to the sequence number and the frame plus `0xFF` |
| Bridge.RepliesAnswerFrames | src/main.rs:108-119 | the i-th reply answers the i-th frame of the read, in frame order |
| Bridge.Step | src/main.rs:73-123 | an iteration panics exactly when its datagram is malformed |
| Bridge.StepReplies | src/main.rs:115-119 | every reply of an iteration goes to that iteration's sender and carries the sequence number stored after that iteration's receive |
| Bridge.StepState | src/main.rs:78-94 | one iteration's new state agrees with the reference definitions of the last sequence number and of the queued payloads |
| Bridge.RunPanics | src/main.rs:73-94 | a run of iterations panics if and only if one of its datagrams is malformed |
| Bridge.RunState | src/main.rs:73-94 | after a run, the stored sequence number is that of the last datagram with a header (last write wins), and the write queue is the old queue plus every payload in arrival order |
| Bridge.RunFromStartup | src/main.rs:38 | from start-up, as long as only empty datagrams arrive, the sequence number stays 0 and nothing is queued |
| Bridge.SingleFrameReply | src/main.rs:101-121 | a read holding one terminated frame produces exactly one reply, the encoded frame |
| Bridge.LastWriteWins | src/main.rs:78-93 | after two datagrams of at least 8 bytes, of any kinds and possibly from different senders, the sequence number is the second one's and both payloads are queued in order |
| Bridge.InquiryReplacesSequence | src/main.rs:78-89 | the kind is never read: an inquiry (`01 10`) with sequence number 5 replaces a stored command sequence number 4 and queues its payload |
| Bridge.EndToEndExample | src/main.rs:73-121 | datagram `01 00 00 03 00 00 00 09 81 01 04` with serial answer `90 50 02 FF` queues `81 01 04`, stores sequence 9, and sends `01 11 00 04 00 00 00 09 90 50 02 FF` to the sender |
| SerialWriter.Written | src/main.rs:66 | one `write` puts a prefix of the payload on the line, as long as the device accepts |
| SerialWriter.Sent | src/main.rs:63-66 | the writer issues exactly one `write` per queued payload |
| SerialWriter.SentInOrder | src/main.rs:63-66 | the i-th write on the line carries the accepted prefix of the i-th queued payload |
| SerialWriter.SentInFull | src/main.rs:63-66 | when the device takes every payload in full, the writes carry exactly the queued payloads |
| SerialWriter.Drain | src/main.rs:63-69 | the writer puts the writes' bytes on the line in queue order, and the whole queue concatenated when every write is accepted in full |
| SerialWriter.FifoOrder | src/main.rs:91-93 | when the queue is served in full, a payload queued before another appears on the line contiguously and before it |

## Left out

- Network I/O: socket readiness, `recv_from` and `send_to`. A datagram and its sender address are inputs of an iteration, and the replies are its outputs. The `?` error exits of these calls, which end the loop, are not modelled.
- Datagrams longer than the 1024-byte buffer: the model takes the bytes `recv_from` delivers and requires at most 1024 of them (`Bridge.Admissible`). It does not model how the operating system truncates larger datagrams.
- Serial I/O: opening the device at 9600 baud, `set_exclusive` and the actual `read` and `write` calls. A read is an input, either `ReadFailed` or the bytes read. How many bytes each write accepts is an input of `SerialWriter.Drain`.
- Concurrency and timing: the `Arc<Mutex<...>>` around the serial handle, the mpsc channel, the writer thread's blocking `recv` and its 250 ms sleep. What remains is the append-only FIFO of queued payloads and its in-order drain.
- Panics outside the header split: the writer's `write(...).unwrap()` (src/main.rs:66), the `lock().unwrap()` calls (src/main.rs:65, 97) and the `expect` on the channel send (src/main.rs:93). A failed write panics the writer thread while it holds the serial lock, which poisons the mutex. The loop's next `lock().unwrap()` at line 97 then panics on any datagram, and once the writer thread is gone so does the `expect` at line 93 on the next payload. `Bridge.RunPanics` therefore covers only the header-split panic: its "only if" direction holds while every serial write succeeds.
- Logging (`info!`) and command-line parsing.
- SerialWriter.Drain: models a finite queue served to the end, not the thread that waits forever for more payloads.
- Envelope.EncodeReply: writes the length field with release-build wrap-around. A debug build would panic on the `+ 1` overflow instead, when the frame length is 65535 modulo 65536. The bridge cannot reach this case, because frames come from a 1024-byte read.
