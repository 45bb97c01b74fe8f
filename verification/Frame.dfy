/**
 The frame format as a relation between octet strings and (sequence number, payload) pairs:
 version, type, 16-bit sequence number, 32-bit payload length, payload, CRC-32, all little-endian.
 */
module Frame {
  import opened Bytes
  import opened Crc32
  import Residue

  const HEADER_SIZE: nat := 8
  const CRC_SIZE: nat := 4
  const MAX_FRAME_SIZE: nat := 4096
  const PROTOCOL_VERSION: byte := 1
  const DATA_FRAME: byte := 0

  function Header(frameType: byte, sequence: uint16, payloadSize: uint32): (h: seq<byte>)
    ensures |h| == HEADER_SIZE
  {
    [PROTOCOL_VERSION, frameType] + Le16(sequence) + Le32(payloadSize)
  }

  function Body(frameType: byte, sequence: uint16, payload: seq<byte>): (s: seq<byte>)
    requires |payload| < 0x1_0000_0000
    ensures |s| == HEADER_SIZE + |payload|
  {
    Header(frameType, sequence, |payload|) + payload
  }

  /** A frame of the given type: header and payload, followed by their CRC. */
  function FrameOctets(frameType: byte, sequence: uint16, payload: seq<byte>): (s: seq<byte>)
    requires |payload| < 0x1_0000_0000
    ensures |s| == HEADER_SIZE + |payload| + CRC_SIZE
  {
    Body(frameType, sequence, payload) + Le32(Crc(Body(frameType, sequence, payload)))
  }

  /** The data frame that carries `payload`. */
  function Encode(sequence: uint16, payload: seq<byte>): (s: seq<byte>)
    requires |payload| < 0x1_0000_0000
    ensures |s| == HEADER_SIZE + |payload| + CRC_SIZE
  {
    FrameOctets(DATA_FRAME, sequence, payload)
  }

  /** The total size claimed by the length field of a header. */
  function ClaimedSize(s: seq<byte>): (n: nat)
    requires |s| >= HEADER_SIZE
    ensures n >= HEADER_SIZE + CRC_SIZE
  {
    HEADER_SIZE + Num32(s[4..8]) + CRC_SIZE
  }

  /** The checks of the receiver, short of its handler's own verdict. */
  predicate Accepts(s: seq<byte>) {
    && |s| >= HEADER_SIZE + CRC_SIZE
    && s[0] == PROTOCOL_VERSION
    && |s| == ClaimedSize(s)
    && Num32(s[|s| - CRC_SIZE..]) == Crc(s[..|s| - CRC_SIZE])
    && s[1] == DATA_FRAME
  }

  function PayloadOf(s: seq<byte>): seq<byte>
    requires |s| >= HEADER_SIZE + CRC_SIZE
  {
    s[HEADER_SIZE..|s| - CRC_SIZE]
  }

  function SequenceOf(s: seq<byte>): uint16
    requires |s| >= HEADER_SIZE
  {
    Num16(s[2..4])
  }

  // ---------------------------------------------------------------- printing and parsing

  lemma HeaderFields(frameType: byte, sequence: uint16, n: uint32, rest: seq<byte>)
    ensures var s := Header(frameType, sequence, n) + rest;
            && s[0] == PROTOCOL_VERSION && s[1] == frameType
            && Num16(s[2..4]) == sequence && Num32(s[4..8]) == n
  {
    var s := Header(frameType, sequence, n) + rest;
    assert s[2..4] == Le16(sequence) && s[4..8] == Le32(n);
    Le16RoundTrip(sequence, []);
    Num32OfLe32(n);
  }

  /** What is printed is accepted, and both fields are read back. */
  lemma EncodeAccepted(sequence: uint16, payload: seq<byte>)
    requires |payload| < 0x1_0000_0000
    ensures Accepts(Encode(sequence, payload))
    ensures PayloadOf(Encode(sequence, payload)) == payload
    ensures SequenceOf(Encode(sequence, payload)) == sequence
  {
    var body := Body(DATA_FRAME, sequence, payload);
    var crc := Le32(Crc(body));
    var s := body + crc;
    assert s == Header(DATA_FRAME, sequence, |payload|) + (payload + crc);
    HeaderFields(DATA_FRAME, sequence, |payload|, payload + crc);
    assert s[..|s| - CRC_SIZE] == body && s[|s| - CRC_SIZE..] == crc;
    Num32OfLe32(Crc(body));
  }

  /** What is accepted can only have been printed from what is read back. */
  lemma AcceptedEncodes(s: seq<byte>)
    requires Accepts(s)
    ensures |PayloadOf(s)| < 0x1_0000_0000
    ensures s == Encode(SequenceOf(s), PayloadOf(s))
  {
    var payload := PayloadOf(s);
    Le16RoundTrip(0, s[2..4]);
    Le32OfNum32(s[4..8]);
    var body := s[..|s| - CRC_SIZE];
    assert body == Header(DATA_FRAME, SequenceOf(s), |payload|) + payload;
    Le32OfNum32(s[|s| - CRC_SIZE..]);
    assert s == body + s[|s| - CRC_SIZE..];
  }

  /** The receiver accepts exactly the printed frames. */
  lemma AcceptsExactlyEncoded(s: seq<byte>)
    ensures Accepts(s) <==>
            exists sequence: uint16, payload: seq<byte> ::
              |payload| < 0x1_0000_0000 && s == Encode(sequence, payload)
  {
    if Accepts(s) {
      AcceptedEncodes(s);
    }
    if sequence: uint16, payload: seq<byte> :| |payload| < 0x1_0000_0000 && s == Encode(sequence, payload) {
      EncodeAccepted(sequence, payload);
    }
  }

  // ---------------------------------------------------------------- octets on the wire

  lemma HeaderOctets(frameType: byte, sequence: uint16, n: uint32)
    ensures Header(frameType, sequence, n)
         == [1, frameType, sequence % 256, sequence / 256, n % 256, n / 256 % 256, n / 65536 % 256, n / 16777216]
  {
    Le32Octets(n);
  }

  /** A frame octet by octet: every field least significant octet first, and the CRC over all octets before it. */
  lemma FrameOnWire(frameType: byte, sequence: uint16, payload: seq<byte>)
    requires |payload| < 0x1_0000_0000
    ensures var s, n := FrameOctets(frameType, sequence, payload), |payload|;
            var crc := Crc(s[..8 + n]);
            && |s| == n + 12
            && s[..8] == [1, frameType, sequence % 256, sequence / 256,
                          n % 256, n / 256 % 256, n / 65536 % 256, n / 16777216]
            && s[8..8 + n] == payload
            && s[8 + n..] == [crc % 256, crc / 256 % 256, crc / 65536 % 256, crc / 16777216]
  {
    var n := |payload|;
    var header, body := Header(frameType, sequence, n), Body(frameType, sequence, payload);
    var s := body + Le32(Crc(body));
    HeaderOctets(frameType, sequence, n);
    Le32Octets(Crc(body));
    assert s[..8 + n] == body && s[..8] == header && s[8..8 + n] == payload && s[8 + n..] == Le32(Crc(body));
  }

  /** In particular the first octets of a data frame. */
  lemma DataFrameOnWire(sequence: uint16, payload: seq<byte>)
    requires |payload| < 0x1_0000_0000
    ensures var n := |payload|;
            Encode(sequence, payload)[..8]
            == [1, 0, sequence % 256, sequence / 256, n % 256, n / 256 % 256, n / 65536 % 256, n / 16777216]
  {
    FrameOnWire(DATA_FRAME, sequence, payload);
  }

  // ---------------------------------------------------------------- error detection

  /** With version, type and length in order, acceptance is a CRC over everything of 0x2144DF1C. */
  lemma AcceptsByResidue(s: seq<byte>)
    requires |s| >= HEADER_SIZE + CRC_SIZE
    requires s[0] == PROTOCOL_VERSION && s[1] == DATA_FRAME && |s| == ClaimedSize(s)
    ensures Accepts(s) <==> Crc(s) == Residue.RESIDUE
  {
    var body, crc := s[..|s| - CRC_SIZE], s[|s| - CRC_SIZE..];
    assert s == body + crc;
    Residue.ResidueCharacterises(body, crc);
  }

  /** An error burst of up to 32 bits anywhere in a frame is rejected. */
  lemma BurstRejected(s: seq<byte>, t: seq<byte>, lo: nat)
    requires Accepts(s) && s != t
    requires BurstOf32(BitsOf(s), BitsOf(t), lo)
    ensures !Accepts(t)
  {
    if Accepts(t) {
      AcceptsByResidue(s);
      AcceptsByResidue(t);
      BurstDetected(s, t, lo);
    }
  }

  /** In particular, so is any change confined to four consecutive octets. */
  lemma FourOctetsRejected(s: seq<byte>, t: seq<byte>, i: nat)
    requires Accepts(s) && s != t
    requires |s| == |t| && i + 4 <= |s|
    requires s[..i] == t[..i] && s[i + 4..] == t[i + 4..]
    ensures !Accepts(t)
  {
    OctetWindow(s, t, i);
    BurstRejected(s, t, 8 * i);
  }

  lemma BitsOfThree(a: seq<byte>, m: seq<byte>, z: seq<byte>)
    ensures BitsOf(a + (m + z))[..8 * |a|] == BitsOf(a)
    ensures BitsOf(a + (m + z))[8 * |a| + 8 * |m|..] == BitsOf(z)
  {
    BitsOfConcat(a, m + z);
    BitsOfConcat(m, z);
  }

  lemma OctetWindow(s: seq<byte>, t: seq<byte>, i: nat)
    requires |s| == |t| && i + 4 <= |s|
    requires s[..i] == t[..i] && s[i + 4..] == t[i + 4..]
    ensures BurstOf32(BitsOf(s), BitsOf(t), 8 * i)
  {
    assert s == s[..i] + (s[i..i + 4] + s[i + 4..]);
    assert t == t[..i] + (t[i..i + 4] + t[i + 4..]);
    BitsOfThree(s[..i], s[i..i + 4], s[i + 4..]);
    BitsOfThree(t[..i], t[i..i + 4], t[i + 4..]);
  }
}
