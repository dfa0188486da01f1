/**
 The network envelope of the VISCA-over-IP datagrams the bridge exchanges:
 an 8-byte header (2-byte kind, big-endian 16-bit length, big-endian 32-bit
 sequence number) followed by the payload.
 */
module Envelope {
  import opened Bytes
  import Framer

  /** Size of the header in front of every payload. */
  const HeaderSize: nat := 8

  /** The kind the bridge stamps on every datagram it sends back. */
  const ReplyKind: seq<Byte> := [0x01, 0x11]

  /** What the bridge takes from an inbound datagram. */
  datatype Inbound = Inbound(sequence: U32, payload: seq<Byte>)

  /** Decoding either yields the fields or fails because the datagram cannot
      hold a header (`split_at(8)` panics on a shorter slice). */
  datatype Decoded = Ok(inbound: Inbound) | TruncatedHeader

  /** Reads the sequence number at bytes 4..7; the kind and the length field
      are read and discarded, and the payload is everything after the header
      whatever the length field says. */
  function Decode(datagram: seq<Byte>): (r: Decoded)
    ensures r.TruncatedHeader? <==> |datagram| < HeaderSize
    ensures r.Ok? ==> EncodeBE(r.inbound.sequence, 4) == datagram[4..HeaderSize]
    ensures r.Ok? ==> r.inbound.payload == datagram[HeaderSize..]
  {
    if |datagram| < HeaderSize then TruncatedHeader
    else
      var field := datagram[4..HeaderSize];
      EncodeDecode(field);
      Ok(Inbound(BEValue(field), datagram[HeaderSize..]))
  }

  /** The reply datagram for one serial frame: the reply kind, the frame
      length plus one as a 16-bit field (`(len as u16) + 1`, wrapping), the
      sequence number, the frame, and the terminator the framer removed. */
  function EncodeReply(sequence: U32, payload: seq<Byte>): (r: seq<Byte>)
    ensures |r| == HeaderSize + |payload| + 1
    ensures r[..2] == ReplyKind
    ensures BEValue(r[2..4]) == (|payload| + 1) % 0x1_0000
    ensures BEValue(r[4..HeaderSize]) == sequence
    ensures r[HeaderSize..] == payload + [Framer.Terminator]
  {
    var length := EncodeBE(|payload| + 1, 2);
    var sequenceField := EncodeBE(sequence, 4);
    DecodeEncode(|payload| + 1, 2);
    DecodeEncode(sequence, 4);
    FieldRanges();
    var r := ReplyKind + length + sequenceField + payload + [Framer.Terminator];
    assert r[..2] == ReplyKind;
    assert r[2..4] == length;
    assert r[4..HeaderSize] == sequenceField;
    assert r[HeaderSize..] == payload + [Framer.Terminator];
    r
  }

  /** Decoding depends on bytes 4 onwards only: the kind and the length field
      never influence the sequence number or the payload. */
  lemma DecodeIgnoresKindAndLength(d: seq<Byte>, e: seq<Byte>)
    requires |d| >= HeaderSize && |e| >= HeaderSize
    requires d[4..] == e[4..]
    ensures Decode(d) == Decode(e)
  {
    assert d[4..HeaderSize] == d[4..][..4] && e[4..HeaderSize] == e[4..][..4];
    assert d[HeaderSize..] == d[4..][4..] && e[HeaderSize..] == e[4..][4..];
  }

  /** A reply's length field counts exactly the bytes after the header, as
      long as the frame is shorter than 65535 bytes. */
  lemma ReplyLengthField(sequence: U32, payload: seq<Byte>)
    requires |payload| < 0xFFFF
    ensures var r := EncodeReply(sequence, payload);
            BEValue(r[2..4]) == |r| - HeaderSize == |payload| + 1
  {
  }

  /** A payload of exactly 65535 bytes wraps the length field around to 0. */
  lemma ReplyLengthFieldWraps(sequence: U32, payload: seq<Byte>)
    requires |payload| == 0xFFFF
    ensures BEValue(EncodeReply(sequence, payload)[2..4]) == 0
  {
  }

  /** Decoding a reply recovers its sequence number, and as payload the frame
      followed by its terminator. */
  lemma DecodeReply(sequence: U32, payload: seq<Byte>)
    ensures Decode(EncodeReply(sequence, payload)) == Ok(Inbound(sequence, payload + [Framer.Terminator]))
  {
    var r := EncodeReply(sequence, payload);
    DecodeEncode(sequence, 4);
    FieldRanges();
    BEValueInjective(EncodeBE(sequence, 4), r[4..HeaderSize]);
  }

  /** The inbound datagram `01 00 00 03 00 00 00 09 81 01 04` carries sequence
      number 9 and the payload `81 01 04`. */
  lemma DecodeCommandExample()
    ensures Decode([0x01, 0x00, 0x00, 0x03, 0x00, 0x00, 0x00, 0x09, 0x81, 0x01, 0x04])
         == Ok(Inbound(9, [0x81, 0x01, 0x04]))
  {
    var d: seq<Byte> := [0x01, 0x00, 0x00, 0x03, 0x00, 0x00, 0x00, 0x09, 0x81, 0x01, 0x04];
    assert d[4..HeaderSize] == [0, 0, 0, 9];
    BEValueQuad(d[4..HeaderSize]);
  }

  /** The reply to the 3-byte frame `90 50 02` under sequence number 9 is
      `01 11 00 04 00 00 00 09 90 50 02 FF`. */
  lemma EncodeReplyExample()
    ensures EncodeReply(9, [0x90, 0x50, 0x02])
         == [0x01, 0x11, 0x00, 0x04, 0x00, 0x00, 0x00, 0x09, 0x90, 0x50, 0x02, 0xFF]
  {
    assert EncodeBE(4, 2) == [0x00, 0x04];
    assert EncodeBE(9, 4) == [0x00, 0x00, 0x00, 0x09];
  }
}
