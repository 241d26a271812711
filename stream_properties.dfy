/**
 * What the framing loop guarantees about whole streams: the per-position
 * rules, resynchronisation, frame completion, frames split across calls,
 * and batches of frames.
 */
module StreamProperties {
  import opened Wrappers
  import opened Frame
  import opened Stream

  /** A byte at position 0 starts a frame exactly when it is the first sync byte. */
  lemma FirstSyncByte<M>(decode: seq<byte> -> Option<M>, out: seq<M>, b: byte)
    ensures Step(decode, State([], out), b) == State(if b == Sync1 then [Sync1] else [], out)
  {
  }

  /** Bytes other than the first sync byte, fed to an empty buffer, leave it empty and send nothing. */
  lemma {:induction false} NoSyncLeavesEmpty<M>(decode: seq<byte> -> Option<M>, out: seq<M>, garbage: seq<byte>)
    requires forall i :: 0 <= i < |garbage| ==> garbage[i] != Sync1
    ensures Feed(decode, State([], out), garbage) == State([], out)
    decreases |garbage|
  {
    if garbage != [] {
      NoSyncLeavesEmpty(decode, out, garbage[1..]);
    }
  }

  /**
   * A byte at position 1 that is not the second sync byte clears the
   * whole buffer; it is not looked at again as a first sync byte, so even
   * a repeated first sync byte leaves the buffer empty.
   */
  lemma SecondSyncByte<M>(decode: seq<byte> -> Option<M>, out: seq<M>, b: byte)
    ensures Step(decode, State([Sync1], out), b) == State(if b == Sync2 then [Sync1, Sync2] else [], out)
  {
  }

  /** Position 2, the high length byte, is buffered without any check. */
  lemma HighLengthByteUnchecked<M>(decode: seq<byte> -> Option<M>, out: seq<M>, b: byte)
    ensures Step(decode, State([Sync1, Sync2], out), b) == State([Sync1, Sync2, b], out)
  {
  }

  /**
   * The step on a byte at position 3 or later, when the buffer is a
   * partial frame. If the length just completed is over the maximum, the
   * buffer is cleared and nothing is sent. Otherwise the frame is complete
   * exactly when the buffer reaches its declared length plus the header;
   * then the decoder sees exactly the declared number of payload bytes,
   * the buffer is cleared whatever it returns, and only a decoded packet
   * is sent.
   */
  lemma LengthAndPayloadStep<M>(decode: seq<byte> -> Option<M>, s: State<M>, b: byte)
    requires PartialFrame(s.buffer) && |s.buffer| >= 3
    ensures var buf := s.buffer + [b];
      |s.buffer| == 3 && DeclaredLength(buf) > MaxPayload ==>
        Step(decode, s, b) == State([], s.sent)
    ensures var buf := s.buffer + [b];
      !(|s.buffer| == 3 && DeclaredLength(buf) > MaxPayload) ==>
        DeclaredLength(buf) <= MaxPayload && |buf| <= DeclaredLength(buf) + HeaderSize &&
        (|buf| == DeclaredLength(buf) + HeaderSize ==>
           |buf[HeaderSize..]| == DeclaredLength(buf) &&
           Step(decode, s, b) == State([], s.sent + Emitted(decode, buf[HeaderSize..]))) &&
        (|buf| < DeclaredLength(buf) + HeaderSize ==>
           Step(decode, s, b) == State(buf, s.sent))
  {
  }

  /**
   * The byte that completes a frame clears the buffer and, in terms of the
   * decoder itself, sends the packet decoded from the payload when decoding
   * succeeds and nothing when it fails. By PartialFrameCompletes every
   * partial frame about to complete is such a frame less its last byte.
   */
  lemma CompletionSendsDecoded<M>(decode: seq<byte> -> Option<M>, out: seq<M>, payload: seq<byte>)
    requires |payload| <= MaxPayload
    ensures var f := EncodeFrame(payload);
      var r := Step(decode, State(f[..|f| - 1], out), f[|f| - 1]);
      r.buffer == [] &&
      (decode(payload).Some? ==> r.sent == out + [decode(payload).value]) &&
      (decode(payload).None? ==> r.sent == out)
  {
    var f := EncodeFrame(payload);
    var n := |f| - 1;
    var s := State(f[..n], out);
    FramePrefixBuffered(decode, out, payload, n);
    FeedPreserves(decode, State([], out), f[..n]);
    LengthAndPayloadStep(decode, s, f[n]);
    assert f[..n] + [f[n]] == f;
  }

  /** A header declaring more than the maximum is dropped whole and sends nothing. */
  lemma OversizedHeaderDropped<M>(decode: seq<byte> -> Option<M>, out: seq<M>, n: nat)
    requires MaxPayload < n < 0x1_0000
    ensures Feed(decode, State([], out), Header(n)) == State([], out)
  {
    var h := Header(n);
    var s0 := State([], out);
    assert h[..1] == [] + [h[0]];
    FeedSnoc(decode, s0, [], h[0]);
    assert h[..2] == h[..1] + [h[1]];
    FeedSnoc(decode, s0, h[..1], h[1]);
    assert h[..3] == h[..2] + [h[2]];
    FeedSnoc(decode, s0, h[..2], h[2]);
    assert h == h[..3] + [h[3]];
    FeedSnoc(decode, s0, h[..3], h[3]);
  }

  /** Every proper prefix of a frame fed to an empty buffer is buffered unchanged. */
  lemma {:induction false} FramePrefixBuffered<M>(decode: seq<byte> -> Option<M>, out: seq<M>, payload: seq<byte>, n: nat)
    requires |payload| <= MaxPayload
    requires n < HeaderSize + |payload|
    ensures Feed(decode, State([], out), EncodeFrame(payload)[..n]) == State(EncodeFrame(payload)[..n], out)
  {
    var f := EncodeFrame(payload);
    if n > 0 {
      FramePrefixBuffered(decode, out, payload, n - 1);
      assert f[..n] == f[..n - 1] + [f[n - 1]];
      FeedSnoc(decode, State([], out), f[..n - 1], f[n - 1]);
      if n - 1 >= 3 {
        assert DeclaredLength(f[..n]) == DeclaredLength(f) by {
          assert f[..n][2] == f[2] && f[..n][3] == f[3];
        }
      }
    }
  }

  /**
   * A well-formed frame fed to an empty buffer completes on its last byte:
   * the buffer ends empty and exactly the packet decoded from its payload,
   * if any, is sent.
   */
  lemma FrameDecoded<M>(decode: seq<byte> -> Option<M>, out: seq<M>, payload: seq<byte>)
    requires |payload| <= MaxPayload
    ensures Feed(decode, State([], out), EncodeFrame(payload)) == State([], out + Emitted(decode, payload))
  {
    var f := EncodeFrame(payload);
    var n := |f| - 1;
    FramePrefixBuffered(decode, out, payload, n);
    assert f == f[..n] + [f[n]];
    FeedSnoc(decode, State([], out), f[..n], f[n]);
    assert DeclaredLength(f[..n] + [f[n]]) == |payload|;
  }

  /**
   * A frame with an empty payload is still pending after three bytes; by
   * FrameDecoded it completes on its fourth.
   */
  lemma EmptyFramePendingAfterThreeBytes<M>(decode: seq<byte> -> Option<M>, out: seq<M>)
    ensures Feed(decode, State([], out), EncodeFrame([])[..3]) == State(EncodeFrame([])[..3], out)
  {
    FramePrefixBuffered(decode, out, [], 3);
  }

  /**
   * Resynchronisation: whatever bytes bring a fresh decoder back to an
   * empty buffer without sending anything, a frame right after them sends
   * exactly what the frame alone sends.
   */
  lemma ResetThenFrame<M>(decode: seq<byte> -> Option<M>, out: seq<M>, prefix: seq<byte>, payload: seq<byte>)
    requires Feed(decode, State([], out), prefix) == State([], out)
    requires |payload| <= MaxPayload
    ensures Feed(decode, State([], out), prefix + EncodeFrame(payload)) == State([], out + Emitted(decode, payload))
  {
    FeedThroughReset(decode, State([], out), prefix, EncodeFrame(payload));
    FrameDecoded(decode, out, payload);
  }

  /** Garbage free of the first sync byte, then a frame: only the frame's packet is sent. */
  lemma GarbageThenFrame<M>(decode: seq<byte> -> Option<M>, out: seq<M>, garbage: seq<byte>, payload: seq<byte>)
    requires forall i :: 0 <= i < |garbage| ==> garbage[i] != Sync1
    requires |payload| <= MaxPayload
    ensures Feed(decode, State([], out), garbage + EncodeFrame(payload)) == State([], out + Emitted(decode, payload))
  {
    NoSyncLeavesEmpty(decode, out, garbage);
    ResetThenFrame(decode, out, garbage, payload);
  }

  /** An oversized header is rejected and the frame right after it is decoded. */
  lemma OversizedThenFrame<M>(decode: seq<byte> -> Option<M>, out: seq<M>, n: nat, payload: seq<byte>)
    requires MaxPayload < n < 0x1_0000
    requires |payload| <= MaxPayload
    ensures Feed(decode, State([], out), Header(n) + EncodeFrame(payload)) == State([], out + Emitted(decode, payload))
  {
    FeedConcat(decode, State([], out), Header(n), EncodeFrame(payload));
    OversizedHeaderDropped(decode, out, n);
    FrameDecoded(decode, out, payload);
  }

  /**
   * A stray first sync byte right before a frame destroys that frame's
   * header: after it nothing has been sent and the buffer is empty unless
   * the low length byte happens to be the first sync byte, because the byte that clears the buffer is never rescanned.
   */
  lemma StraySyncLosesHeader<M>(decode: seq<byte> -> Option<M>, out: seq<M>, n: nat)
    requires n <= MaxPayload
    ensures Feed(decode, State([], out), [Sync1] + Header(n)) ==
      State(if n % 256 == Sync1 as int then [Sync1] else [], out)
  {
    var h := [Sync1] + Header(n);
    var s0 := State([], out);
    assert h[0] == Sync1 && h[1] == Sync1 && h[2] == Sync2 && h[3] as int == n / 256;
    assert h[..1] == [] + [h[0]];
    FeedSnoc(decode, s0, [], h[0]);
    assert h[..2] == h[..1] + [h[1]];
    FeedSnoc(decode, s0, h[..1], h[1]);
    assert h[..3] == h[..2] + [h[2]];
    FeedSnoc(decode, s0, h[..2], h[2]);
    assert h[..4] == h[..3] + [h[3]];
    FeedSnoc(decode, s0, h[..3], h[3]);
    assert h == h[..4] + [h[4]];
    FeedSnoc(decode, s0, h[..4], h[4]);
  }

  /**
   * So a frame preceded by a stray first sync byte is lost: unless its low
   * length byte is itself the first sync byte, its payload is then scanned
   * from an empty buffer as if it were ordinary stream bytes.
   */
  lemma StraySyncLosesFrame<M>(decode: seq<byte> -> Option<M>, out: seq<M>, payload: seq<byte>)
    requires |payload| <= MaxPayload
    requires |payload| % 256 != Sync1 as int
    ensures Feed(decode, State([], out), [Sync1] + EncodeFrame(payload)) == Feed(decode, State([], out), payload)
  {
    StrayFrameSplit(payload);
    StrayHeaderThen(decode, out, payload);
  }

  /** The bytes of a frame behind a stray sync byte, as header and payload. */
  lemma StrayFrameSplit(payload: seq<byte>)
    requires |payload| <= MaxPayload
    ensures [Sync1] + EncodeFrame(payload) == ([Sync1] + Header(|payload|)) + payload
  {
  }

  /** After a stray sync byte and a header it destroys, the payload is scanned from an empty buffer. */
  lemma StrayHeaderThen<M>(decode: seq<byte> -> Option<M>, out: seq<M>, payload: seq<byte>)
    requires |payload| <= MaxPayload
    requires |payload| % 256 != Sync1 as int
    ensures Feed(decode, State([], out), ([Sync1] + Header(|payload|)) + payload) == Feed(decode, State([], out), payload)
  {
    StrayHeaderCleared(decode, out, |payload|);
    FeedThroughReset(decode, State([], out), [Sync1] + Header(|payload|), payload);
  }

  /** A stray sync byte and a header whose low byte is not a sync byte leave the buffer empty. */
  lemma StrayHeaderCleared<M>(decode: seq<byte> -> Option<M>, out: seq<M>, n: nat)
    requires n <= MaxPayload
    requires n % 256 != Sync1 as int
    ensures Feed(decode, State([], out), [Sync1] + Header(n)) == State([], out)
  {
    StraySyncLosesHeader(decode, out, n);
  }

  /** Bytes that bring the decoder back to where it was leave no trace on what follows. */
  lemma FeedThroughReset<M>(decode: seq<byte> -> Option<M>, s: State<M>, a: seq<byte>, b: seq<byte>)
    requires Feed(decode, s, a) == s
    ensures Feed(decode, s, a + b) == Feed(decode, s, b)
  {
    FeedConcat(decode, s, a, b);
  }

  /** A stream delivered as a sequence of chunks, one processing call each. */
  function FeedChunks<M>(decode: seq<byte> -> Option<M>, s: State<M>, chunks: seq<seq<byte>>): State<M>
    decreases |chunks|
  {
    if chunks == [] then s else FeedChunks(decode, Feed(decode, s, chunks[0]), chunks[1..])
  }

  /** The bytes of all chunks, in order. */
  function Flatten(chunks: seq<seq<byte>>): seq<byte>
    decreases |chunks|
  {
    if chunks == [] then [] else chunks[0] + Flatten(chunks[1..])
  }

  /** However a stream is split into calls, the outcome is that of one call on the whole stream. */
  lemma {:induction false} ChunkingIrrelevant<M>(decode: seq<byte> -> Option<M>, s: State<M>, chunks: seq<seq<byte>>)
    ensures FeedChunks(decode, s, chunks) == Feed(decode, s, Flatten(chunks))
    decreases |chunks|
  {
    if chunks != [] {
      ChunkingIrrelevant(decode, Feed(decode, s, chunks[0]), chunks[1..]);
      FeedConcat(decode, s, chunks[0], Flatten(chunks[1..]));
    }
  }

  /** A frame split into any number of chunks is decoded once and leaves the buffer empty. */
  lemma SplitFrameDecoded<M>(decode: seq<byte> -> Option<M>, out: seq<M>, payload: seq<byte>, chunks: seq<seq<byte>>)
    requires |payload| <= MaxPayload
    requires Flatten(chunks) == EncodeFrame(payload)
    ensures FeedChunks(decode, State([], out), chunks) == State([], out + Emitted(decode, payload))
  {
    ChunkingIrrelevant(decode, State([], out), chunks);
    FrameDecoded(decode, out, payload);
  }

  /** Every payload fits in a frame. */
  ghost predicate AllFit(payloads: seq<seq<byte>>) {
    forall i :: 0 <= i < |payloads| ==> |payloads[i]| <= MaxPayload
  }

  /** The frames of `payloads`, back to back. */
  function Frames(payloads: seq<seq<byte>>): seq<byte>
    requires AllFit(payloads)
    decreases |payloads|
  {
    if payloads == [] then [] else EncodeFrame(payloads[0]) + Frames(payloads[1..])
  }

  /** What a run of frames contributes to the output, frame by frame. */
  function EmittedAll<M>(decode: seq<byte> -> Option<M>, payloads: seq<seq<byte>>): seq<M>
    decreases |payloads|
  {
    if payloads == [] then [] else Emitted(decode, payloads[0]) + EmittedAll(decode, payloads[1..])
  }

  /**
   * Back-to-back frames fed to an empty buffer are decoded one by one, in
   * order; a frame whose payload fails to decode sends nothing and does
   * not disturb the frames after it.
   */
  lemma {:induction false} FramesDecoded<M>(decode: seq<byte> -> Option<M>, out: seq<M>, payloads: seq<seq<byte>>)
    requires AllFit(payloads)
    ensures Feed(decode, State([], out), Frames(payloads)) == State([], out + EmittedAll(decode, payloads))
    decreases |payloads|
  {
    if payloads != [] {
      var rest := payloads[1..];
      var out1 := out + Emitted(decode, payloads[0]);
      calc {
        Feed(decode, State([], out), Frames(payloads));
        { FirstFrameDecoded(decode, out, payloads); }
        Feed(decode, State([], out1), Frames(rest));
        { FramesDecoded(decode, out1, rest); }
        State([], out1 + EmittedAll(decode, rest));
        { assert out1 + EmittedAll(decode, rest) == out + EmittedAll(decode, payloads); }
        State([], out + EmittedAll(decode, payloads));
      }
    }
  }

  /** A non-empty run of frames is its first frame followed by the rest. */
  lemma FramesCons(payloads: seq<seq<byte>>)
    requires AllFit(payloads) && payloads != []
    ensures AllFit(payloads[1..])
    ensures Frames(payloads) == EncodeFrame(payloads[0]) + Frames(payloads[1..])
  {
  }

  /** The first of a run of frames is decoded and hands the rest an empty buffer. */
  lemma FirstFrameDecoded<M>(decode: seq<byte> -> Option<M>, out: seq<M>, payloads: seq<seq<byte>>)
    requires AllFit(payloads) && payloads != []
    ensures AllFit(payloads[1..]) &&
      Feed(decode, State([], out), Frames(payloads)) ==
      Feed(decode, State([], out + Emitted(decode, payloads[0])), Frames(payloads[1..]))
  {
    FramesCons(payloads);
    FrameThenRest(decode, out, payloads[0], Frames(payloads[1..]));
  }

  /** A frame fed to an empty buffer hands what follows it an empty buffer. */
  lemma FrameThenRest<M>(decode: seq<byte> -> Option<M>, out: seq<M>, payload: seq<byte>, rest: seq<byte>)
    requires |payload| <= MaxPayload
    ensures Feed(decode, State([], out), EncodeFrame(payload) + rest) ==
      Feed(decode, State([], out + Emitted(decode, payload)), rest)
  {
    FeedConcat(decode, State([], out), EncodeFrame(payload), rest);
    FrameDecoded(decode, out, payload);
  }

  /** When every payload decodes, exactly one packet per frame is sent, in frame order. */
  lemma {:induction false} AllDecodedInOrder<M>(decode: seq<byte> -> Option<M>, payloads: seq<seq<byte>>)
    requires forall i :: 0 <= i < |payloads| ==> decode(payloads[i]).Some?
    ensures |EmittedAll(decode, payloads)| == |payloads|
    ensures forall i :: 0 <= i < |payloads| ==> EmittedAll(decode, payloads)[i] == decode(payloads[i]).value
    decreases |payloads|
  {
    if payloads != [] {
      var rest := payloads[1..];
      assert forall i :: 0 <= i < |rest| ==> decode(rest[i]).Some? by {
        forall i | 0 <= i < |rest| ensures decode(rest[i]).Some? {
          assert rest[i] == payloads[i + 1];
        }
      }
      AllDecodedInOrder(decode, rest);
      forall i | 0 <= i < |payloads|
        ensures EmittedAll(decode, payloads)[i] == decode(payloads[i]).value
      {
        if i > 0 {
          assert payloads[i] == rest[i - 1];
        }
      }
    }
  }

  /** A frame whose payload fails to decode, then a good frame: only the second is sent. */
  lemma UndecodableThenFrame<M>(decode: seq<byte> -> Option<M>, out: seq<M>, bad: seq<byte>, payload: seq<byte>)
    requires |bad| <= MaxPayload && |payload| <= MaxPayload
    requires decode(bad).None?
    ensures Feed(decode, State([], out), EncodeFrame(bad) + EncodeFrame(payload)) == State([], out + Emitted(decode, payload))
  {
    FeedConcat(decode, State([], out), EncodeFrame(bad), EncodeFrame(payload));
    FrameDecoded(decode, out, bad);
    assert out + Emitted(decode, bad) == out;
    FrameDecoded(decode, out, payload);
  }
}
