# StreamBuffer: incremental frame decoder of a radio stream

This project models `StreamBuffer` from the meshtastic Rust client. It takes the bytes of a
serial or socket stream from a radio, in arbitrary chunks, and finds the frames in them.
Each frame is laid out as:

| field | offset | size | value |
|---|---|---|---|
| sync byte 1 | 0 | 1 | `0x94` |
| sync byte 2 | 1 | 1 | `0xC3` |
| payload length `L` | 2 | 2 | big-endian, `L <= 512` |
| payload | 4 | `L` | a serialized `FromRadio` packet |

The decoder keeps one growable byte buffer. Each incoming byte is pushed onto it and judged by
the position it lands on, which is the buffer's length before the push:

- at position 0 it must be `0x94`, and at position 1 it must be `0xC3`;
- position 2 is not checked;
- at position 3 the length is complete, and a length over 512 is rejected;
- at any position from 3 on, once the buffer holds `L + 4` bytes the bytes after the header
  go to the decoder, and the buffer is cleared.

Every rejection clears the buffer, including the byte that caused it.

Files:

- `wrappers.dfy`: module `Wrappers`, the `Option` the payload decoder returns.
- `frame.dfy`: module `Frame`, the wire format: the `byte` type, the sync constants, the
  big-endian length and its encoding, `Header` and `EncodeFrame` (a reference encoder, the
  partner of the decoder), and `PartialFrame`, the invariant on what the buffer may hold
  between bytes.
- `stream_buffer.dfy`: module `Stream`.
  - `State` is the buffer together with everything sent so far.
  - `Step` is one iteration of the framing loop, branch for branch as the source writes it.
  - `Feed` runs `Step` over a byte sequence.
  - Class `StreamBuffer<M>` has a `seq<byte>` buffer, a `sent` sequence standing for the output
    channel, and the payload decoder `decode`. Its method `ProcessIncomingBytes` is the
    imperative loop, proved equal to `Feed`.
- `stream_properties.dfy`: module `StreamProperties`, lemmas about whole streams:
  - the rule at each position;
  - resynchronisation;
  - frame completion, including the empty payload;
  - the oversized-length rejection;
  - frames split across calls;
  - runs of frames, including ones whose payload does not decode.

The frame decoder itself is a parameter. The constructor takes a total function
`seq<byte> -> Option<M>`, which stands for `FromRadio::decode`. For that reason every property
is proved for every decoder.

The model follows the code, which differs from what a reader of the doc comment at
src/connections/stream_buffer.rs:28-29 might expect:

- There is no separate scan cursor. The position is always the buffer length.
- There is no separate pending-discard state. Every rejection clears the buffer on the spot.
  A three-byte buffer may still start no valid frame, because position 2 is not checked:
  `[0x94, 0xC3, 3]` is kept although no frame with `L <= 512` starts that way. It is rejected
  by the next byte.
- A byte that causes a clear is never looked at again. So a stray `0x94` just before a frame
  destroys that frame (`StraySyncLosesFrame`). A frame is decoded after any bytes that bring
  the decoder back to an empty buffer (`ResetThenFrame`). Garbage with no `0x94` in it is one
  such prefix (`GarbageThenFrame`).

## Model

| member | source | states |
|---|---|---|
| `Stream.StreamBuffer.constructor` | src/connections/stream_buffer.rs:21-26 | a new decoder has an empty buffer, has sent nothing, and keeps the given decoder |
| `Stream.StreamBuffer.ProcessIncomingBytes` | src/connections/stream_buffer.rs:45-72 | the buffer and the sent packets afterwards are those of running the framing loop over the message from the old state. The buffer stays a partial frame. Packets are only ever appended |
| `Frame.DeclaredLength` | src/connections/stream_buffer.rs:60 | no contract of its own: the `plen` read from buffer bytes 2 and 3. `BigEndian16` and `EncodeLength` carry its properties, and `Header` and `EncodeFrame` state that it reads back the length they write |
| `Stream.Step` | src/connections/stream_buffer.rs:48-69 | no contract of its own: one iteration of the loop, branch for branch. Its properties are stated by `StepPreserves`, `LengthAndPayloadStep`, `CompletionSendsDecoded`, `FirstSyncByte`, `SecondSyncByte` and `HighLengthByteUnchecked` |
| `Stream.Feed` | src/connections/stream_buffer.rs:47-71 | no contract of its own: the loop over every byte of a message. Its properties are stated by `FeedConcat`, `FeedSnoc`, `FeedPreserves` and the lemmas of `StreamProperties` |
| `StreamProperties.FeedChunks` | src/connections/stream_buffer.rs:41-43 | no contract of its own: repeated processing calls, one per chunk. `ChunkingIrrelevant` and `SplitFrameDecoded` carry its properties |
| `Frame.BigEndian16` | src/connections/stream_buffer.rs:60 | the length is below 65536, its high byte is the first length byte and its low byte the second |
| `Frame.EncodeLength` | src/connections/stream_buffer.rs:60 | writing a length as two big-endian bytes and reading it back gives the length |
| `Frame.Header` | src/connections/stream_buffer.rs:50-63 | a header starts with the two sync bytes and declares the given length |
| `Frame.EncodeFrame` | src/connections/stream_buffer.rs:50-65 | a frame is `L + 4` bytes, has the sync bytes, declares `L`, and carries the payload after the header |
| `Frame.PartialFrameBound` | src/connections/stream_buffer.rs:48-69 | a buffer satisfying the invariant holds at most 515 bytes |
| `Frame.PartialFrameCompletes` | src/connections/stream_buffer.rs:59-65 | a partial frame with a complete header, plus any bytes that reach its declared length, is exactly the frame of the received payload |
| `Stream.FeedConcat` | src/connections/stream_buffer.rs:46-49 | chunk independence: one call on `a + b` ends in the same buffer and output as a call on `a` followed by a call on `b` |
| `Stream.FeedSnoc` | src/connections/stream_buffer.rs:47-49 | feeding one more byte is one more loop iteration |
| `Stream.StepPreserves` | src/connections/stream_buffer.rs:48-69 | after every byte the buffer is still a partial frame. If non-empty it starts with `0x94`. From 2 bytes on its second byte is `0xC3`. From 4 bytes on `L <= 512` and the buffer is shorter than `L + 4`. The output only grows, by at most one packet |
| `Stream.FeedPreserves` | src/connections/stream_buffer.rs:47-71 | the partial-frame invariant holds after any byte sequence, and the output is only appended to |
| `StreamProperties.FirstSyncByte` | src/connections/stream_buffer.rs:50-54 | a byte at position 0 is kept exactly when it is `0x94`. Otherwise the buffer stays empty and nothing is sent |
| `StreamProperties.NoSyncLeavesEmpty` | src/connections/stream_buffer.rs:50-54 | any run of bytes other than `0x94` fed to an empty buffer leaves it empty and sends nothing |
| `StreamProperties.SecondSyncByte` | src/connections/stream_buffer.rs:55-58 | a byte at position 1 other than `0xC3` clears the whole buffer, the preceding `0x94` included. It is not reconsidered as a first sync byte |
| `StreamProperties.HighLengthByteUnchecked` | src/connections/stream_buffer.rs:55-59 | any byte at position 2 is buffered without a check |
| `StreamProperties.LengthAndPayloadStep` | src/connections/stream_buffer.rs:59-69 | at position 3 a length over 512 clears the buffer and sends nothing. Otherwise the frame completes exactly when the buffer reaches `L + 4` bytes. Then the decoder gets exactly the `L` payload bytes, the buffer is cleared whatever the decoder returns, and only a decoded packet is sent. Before that the byte is simply buffered |
| `StreamProperties.CompletionSendsDecoded` | src/connections/stream_buffer.rs:64-68 | feeding the last byte of a frame to a buffer holding the rest of it clears the buffer. It sends the packet the decoder returns for the payload when decoding succeeds, and nothing when it fails |
| `StreamProperties.OversizedHeaderDropped` | src/connections/stream_buffer.rs:59-64 | a header declaring more than 512 bytes, fed to an empty buffer, leaves it empty and sends nothing |
| `StreamProperties.FramePrefixBuffered` | src/connections/stream_buffer.rs:48-64 | every proper prefix of a well-formed frame is buffered byte for byte and sends nothing |
| `StreamProperties.FrameDecoded` | src/connections/stream_buffer.rs:64-68 | a well-formed frame fed to an empty buffer completes on its last byte (the fourth when `L == 0`), leaves the buffer empty, and sends exactly the decoded payload if there is one |
| `StreamProperties.EmptyFramePendingAfterThreeBytes` | src/connections/stream_buffer.rs:59-64 | an empty-payload frame has not completed after three bytes |
| `StreamProperties.ResetThenFrame` | src/connections/stream_buffer.rs:50-68 | after any prefix that returns a fresh decoder to an empty buffer without sending anything, a frame sends exactly what the frame alone sends |
| `StreamProperties.GarbageThenFrame` | src/connections/stream_buffer.rs:50-68 | garbage free of `0x94` followed by a frame sends exactly what the frame alone sends |
| `StreamProperties.OversizedThenFrame` | src/connections/stream_buffer.rs:59-68 | an oversized header followed immediately by a frame sends exactly what the frame alone sends |
| `StreamProperties.StraySyncLosesHeader` | src/connections/stream_buffer.rs:50-58 | a stray `0x94` before a header destroys the header. Nothing is sent, and the buffer ends empty unless the low length byte is `0x94` |
| `StreamProperties.StraySyncLosesFrame` | src/connections/stream_buffer.rs:50-58 | a frame behind a stray `0x94` behaves as if only its payload bytes had arrived on an empty buffer (when its low length byte is not `0x94`) |
| `StreamProperties.ChunkingIrrelevant` | src/connections/stream_buffer.rs:45-49 | processing a stream as any sequence of chunks, one call each, equals processing the whole stream in one call |
| `StreamProperties.SplitFrameDecoded` | src/connections/stream_buffer.rs:45-68 | a frame split into any chunks, fed to an empty buffer, sends exactly the decoded payload if there is one, and leaves the buffer empty |
| `StreamProperties.FramesDecoded` | src/connections/stream_buffer.rs:47-71 | back-to-back frames fed to an empty buffer send their decoded payloads frame by frame, in order. One that fails to decode sends nothing. The buffer ends empty |
| `StreamProperties.AllDecodedInOrder` | src/connections/stream_buffer.rs:65-66 | when every payload decodes, exactly one packet per frame is sent, the `i`-th being the `i`-th payload's packet |
| `StreamProperties.UndecodableThenFrame` | src/connections/stream_buffer.rs:65-68 | a frame whose payload fails to decode does not disturb the frame after it |

## Left out

- The tokio `UnboundedSender` (src/connections/stream_buffer.rs:14, 66) is modelled as the `sent` sequence that each decoded packet is appended to. Its `send` result is ignored in the source. For the same reason a closed receiver is not modelled.
- `prost` decoding of `FromRadio` (src/connections/stream_buffer.rs:65) is a foreign library. It is the `decode` function given to the constructor, so the packet type is the type parameter `M`.
- The `IncomingStreamData` wrapper and its `.data()` accessor (src/connections/stream_buffer.rs:5, 47): the input is a plain byte sequence.
- The `Clone` and `Debug` derives and the asynchronous usage in the doc comment (src/connections/stream_buffer.rs:11, 37-44) have no behaviour to model.
- `usize` overflow of `ptr + 1` and `plen + 4` is not modelled. Integers are unbounded here, and the invariant keeps the buffer at most 515 bytes long, so neither value can come near the limit.
- `Vec` allocation, reuse of backing storage on `clear`, and memory exhaustion are not modelled. The buffer is a value sequence the method reassigns.
