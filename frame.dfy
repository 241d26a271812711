/**
 * The wire format read by the stream buffer: two synchronisation bytes,
 * a 16-bit big-endian payload length of at most 512, then the payload.
 */
module Frame {

  /** A byte of the radio stream (Rust `u8`). */
  newtype byte = x: int | 0 <= x < 256

  const Sync1: byte := 0x94
  const Sync2: byte := 0xC3
  /** Largest payload length a header may declare. */
  const MaxPayload: nat := 512
  /** Two sync bytes and two length bytes. */
  const HeaderSize: nat := 4

  /** `u16::from_be_bytes([hi, lo])`: the high byte comes first on the wire. */
  function BigEndian16(hi: byte, lo: byte): (n: nat)
    ensures n < 0x1_0000
    ensures n / 256 == hi as int && n % 256 == lo as int
  {
    hi as int * 256 + lo as int
  }

  /** The two length bytes that carry `n`, high byte first. */
  function EncodeLength(n: nat): (r: (byte, byte))
    requires n < 0x1_0000
    ensures BigEndian16(r.0, r.1) == n
  {
    ((n / 256) as byte, (n % 256) as byte)
  }

  /** The payload length a buffer of at least four bytes declares. */
  function DeclaredLength(buf: seq<byte>): nat
    requires |buf| >= HeaderSize
  {
    BigEndian16(buf[2], buf[3])
  }

  /** The four header bytes declaring a payload of length `n`. */
  function Header(n: nat): (h: seq<byte>)
    requires n < 0x1_0000
    ensures |h| == HeaderSize && h[0] == Sync1 && h[1] == Sync2
    ensures DeclaredLength(h) == n
  {
    var (hi, lo) := EncodeLength(n);
    [Sync1, Sync2, hi, lo]
  }

  /** The frame that carries `payload`. */
  function EncodeFrame(payload: seq<byte>): (f: seq<byte>)
    requires |payload| <= MaxPayload
    ensures |f| == HeaderSize + |payload|
    ensures f[0] == Sync1 && f[1] == Sync2 && DeclaredLength(f) == |payload|
    ensures f[HeaderSize..] == payload
  {
    Header(|payload|) + payload
  }

  /**
   * What the buffer holds between bytes: a frame that has not yet been
   * completed. The first length byte is never checked, so a three-byte
   * buffer constrains only the sync bytes.
   */
  ghost predicate PartialFrame(buf: seq<byte>) {
    (|buf| >= 1 ==> buf[0] == Sync1) &&
    (|buf| >= 2 ==> buf[1] == Sync2) &&
    (|buf| >= HeaderSize ==>
       DeclaredLength(buf) <= MaxPayload && |buf| < DeclaredLength(buf) + HeaderSize)
  }

  /** A partial frame never grows past the largest frame less one byte. */
  lemma PartialFrameBound(buf: seq<byte>)
    requires PartialFrame(buf)
    ensures |buf| < HeaderSize + MaxPayload
  {
  }

  /**
   * A partial frame that holds its whole header is the start of a
   * well-formed frame: any bytes that complete its declared length make
   * it exactly the frame of the payload received.
   */
  lemma PartialFrameCompletes(buf: seq<byte>, rest: seq<byte>)
    requires PartialFrame(buf) && |buf| >= HeaderSize
    requires |buf| + |rest| == DeclaredLength(buf) + HeaderSize
    ensures |buf[HeaderSize..] + rest| <= MaxPayload
    ensures buf + rest == EncodeFrame(buf[HeaderSize..] + rest)
  {
  }
}
