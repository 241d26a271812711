/**
 * The incremental frame decoder of the radio connection. Bytes arrive in
 * arbitrary chunks; each byte is judged by the position it takes in the
 * buffer, malformed input clears the buffer, and every completed frame's
 * payload goes to the decoder, whose successful results are sent on.
 */
module Stream {
  import opened Wrappers
  import opened Frame

  /** Everything the decoder's behaviour depends on, and everything it has sent. */
  datatype State<M> = State(buffer: seq<byte>, sent: seq<M>)

  /** What a completed frame contributes to the output channel. */
  function Emitted<M>(decode: seq<byte> -> Option<M>, payload: seq<byte>): seq<M>
  {
    match decode(payload)
    case Some(packet) => [packet]
    case None => []
  }

  /** One iteration of the framing loop: push `b`, then judge it by its position. */
  function Step<M>(decode: seq<byte> -> Option<M>, s: State<M>, b: byte): State<M>
  {
    var ptr := |s.buffer|;
    var buf := s.buffer + [b];
    if ptr == 0 then
      if b != Sync1 then State([], s.sent) else State(buf, s.sent)
    else if ptr == 1 then
      if b != Sync2 then State([], s.sent) else State(buf, s.sent)
    else if ptr >= 3 then
      var plen := DeclaredLength(buf);
      var kept := if ptr == 3 && plen > MaxPayload then [] else buf;
      if |kept| != 0 && ptr + 1 >= plen + HeaderSize then
        State([], s.sent + Emitted(decode, kept[HeaderSize..]))
      else
        State(kept, s.sent)
    else
      State(buf, s.sent)
  }

  /** The framing loop run over `bytes`, in order. */
  function Feed<M>(decode: seq<byte> -> Option<M>, s: State<M>, bytes: seq<byte>): State<M>
    decreases |bytes|
  {
    if bytes == [] then s else Feed(decode, Step(decode, s, bytes[0]), bytes[1..])
  }

  /**
   * Chunk independence: the decoder carries nothing between bytes but its
   * buffer, so one call on `a + b` is the same as a call on `a` and then
   * a call on `b`.
   */
  lemma {:induction false} FeedConcat<M>(decode: seq<byte> -> Option<M>, s: State<M>, a: seq<byte>, b: seq<byte>)
    ensures Feed(decode, s, a + b) == Feed(decode, Feed(decode, s, a), b)
    decreases |a|
  {
    if a == [] {
      assert a + b == b;
    } else {
      assert (a + b)[0] == a[0];
      assert (a + b)[1..] == a[1..] + b;
      FeedConcat(decode, Step(decode, s, a[0]), a[1..], b);
    }
  }

  /** Feeding one more byte is one more step. */
  lemma FeedSnoc<M>(decode: seq<byte> -> Option<M>, s: State<M>, a: seq<byte>, b: byte)
    ensures Feed(decode, s, a + [b]) == Step(decode, Feed(decode, s, a), b)
  {
    FeedConcat(decode, s, a, [b]);
  }

  /**
   * One step keeps the buffer a partial frame and only ever appends to
   * the output.
   */
  lemma StepPreserves<M>(decode: seq<byte> -> Option<M>, s: State<M>, b: byte)
    requires PartialFrame(s.buffer)
    ensures PartialFrame(Step(decode, s, b).buffer)
    ensures s.sent <= Step(decode, s, b).sent
    ensures |Step(decode, s, b).sent| <= |s.sent| + 1
  {
  }

  /** The partial-frame invariant holds after every byte of every chunk. */
  lemma {:induction false} FeedPreserves<M>(decode: seq<byte> -> Option<M>, s: State<M>, bytes: seq<byte>)
    requires PartialFrame(s.buffer)
    ensures PartialFrame(Feed(decode, s, bytes).buffer)
    ensures s.sent <= Feed(decode, s, bytes).sent
    decreases |bytes|
  {
    if bytes != [] {
      var t := Step(decode, s, bytes[0]);
      StepPreserves(decode, s, bytes[0]);
      FeedPreserves(decode, t, bytes[1..]);
    }
  }

  /**
   * The decoder of one radio stream. `buffer` holds the frame being
   * assembled, `sent` every packet handed to the output channel so far,
   * and `decode` is the payload decoder.
   */
  class StreamBuffer<M> {
    var buffer: seq<byte>
    var sent: seq<M>
    const decode: seq<byte> -> Option<M>

    ghost predicate Valid()
      reads this
    {
      PartialFrame(buffer)
    }

    /** A decoder with an empty buffer that has sent nothing. */
    constructor (decode: seq<byte> -> Option<M>)
      ensures Valid()
      ensures buffer == [] && sent == []
      ensures this.decode == decode
    {
      buffer := [];
      sent := [];
      this.decode := decode;
    }

    /** Runs the framing loop over `message`, sending every packet it decodes. */
    method ProcessIncomingBytes(message: seq<byte>)
      requires Valid()
      modifies this
      ensures Valid()
      ensures State(buffer, sent) == Feed(decode, State(old(buffer), old(sent)), message)
      ensures old(sent) <= sent
    {
      ghost var start := State(buffer, sent);
      for i := 0 to |message|
        invariant State(buffer, sent) == Feed(decode, start, message[..i])
      {
        var b := message[i];
        var ptr := |buffer|;
        buffer := buffer + [b];
        if ptr == 0 {
          if b != Sync1 {
            buffer := [];
          }
        } else if ptr == 1 {
          if b != Sync2 {
            buffer := [];
          }
        } else if ptr >= 3 {
          var plen := BigEndian16(buffer[2], buffer[3]);
          if ptr == 3 && plen > MaxPayload {
            buffer := [];
          }
          if |buffer| != 0 && ptr + 1 >= plen + HeaderSize {
            match decode(buffer[HeaderSize..]) {
              case Some(packet) => sent := sent + [packet];
              case None =>
            }
            buffer := [];
          }
        }
        assert message[..i + 1] == message[..i] + [b];
        FeedSnoc(decode, start, message[..i], b);
      }
      assert message[..|message|] == message;
      FeedPreserves(decode, start, message);
    }
  }
}
