/** The 32-byte packet header of the transport: nine fields, each in network byte order. */
module HeaderCodec {
  import opened Words

  const MAGIC: U32 := 0x524F_424F
  const VERSION: U16 := 1

  datatype Header = Header(
    magic: U32, version: U16, kind: U16, seq_: U32, ack: U32,
    timestamp: U64, payloadLen: U16, flags: U16, connId: U32)

  /** The `n` low-order bytes of `x`, most significant first. */
  function BigEndian(x: nat, n: nat): (s: seq<Byte>)
    ensures |s| == n
  {
    if n == 0 then [] else BigEndian(x / 256, n - 1) + [(x % 256) as Byte]
  }

  function FromBigEndian(s: seq<Byte>): nat {
    if s == [] then 0 else FromBigEndian(s[..|s| - 1]) * 256 + s[|s| - 1] as int
  }

  function Pow256(n: nat): nat { if n == 0 then 1 else 256 * Pow256(n - 1) }

  lemma {:induction false} BigEndianRoundTrip(x: nat, n: nat)
    requires x < Pow256(n)
    ensures FromBigEndian(BigEndian(x, n)) == x
  {
    if n > 0 {
      BigEndianRoundTrip(x / 256, n - 1);
      var s := BigEndian(x, n);
      assert s[..n - 1] == BigEndian(x / 256, n - 1);
      IntBack(x % 256);
    }
  }

  lemma {:induction false} FromBigEndianRange(s: seq<Byte>)
    ensures FromBigEndian(s) < Pow256(|s|)
  {
    if s != [] { FromBigEndianRange(s[..|s| - 1]); }
  }

  lemma SplitLow(hi: nat, b: nat)
    requires b < 256
    ensures (hi * 256 + b) / 256 == hi && (hi * 256 + b) % 256 == b
  {
  }

  lemma BigEndianSnoc(hi: nat, b: Byte, n: nat)
    ensures BigEndian(hi * 256 + b as int, n + 1) == BigEndian(hi, n) + [b]
  {
    ByteBack(b);
    SplitLow(hi, b as int);
  }

  lemma {:induction false} FromBigEndianRoundTrip(s: seq<Byte>)
    ensures BigEndian(FromBigEndian(s), |s|) == s
  {
    if s != [] {
      var n := |s| - 1;
      FromBigEndianRoundTrip(s[..n]);
      BigEndianSnoc(FromBigEndian(s[..n]), s[n], n);
      assert s == s[..n] + [s[n]];
    }
  }

  lemma Widths()
    ensures Pow256(2) == 0x1_0000 && Pow256(4) == TWO32 && Pow256(8) == TWO64
  {
    assert Pow256(3) == 0x100_0000 && Pow256(5) == 0x100_0000_0000;
    assert Pow256(6) == 0x1_0000_0000_0000 && Pow256(7) == 0x100_0000_0000_0000;
  }

  /** The header as it lies on the wire. */
  function Pack(h: Header): (s: seq<Byte>)
    ensures |s| == 32
  {
    BigEndian(h.magic, 4) + BigEndian(h.version, 2) + BigEndian(h.kind, 2) + BigEndian(h.seq_, 4) +
    BigEndian(h.ack, 4) + BigEndian(h.timestamp, 8) + BigEndian(h.payloadLen, 2) +
    BigEndian(h.flags, 2) + BigEndian(h.connId, 4)
  }

  function Field(s: seq<Byte>, at: nat, n: nat): (x: nat)
    requires at + n <= |s|
    ensures x < Pow256(n)
  {
    FromBigEndianRange(s[at..at + n]);
    FromBigEndian(s[at..at + n])
  }

  /** Every field is filled in even when the result is rejected. */
  function Fields32(s: seq<Byte>): Header
    requires 32 <= |s|
  {
    Widths();
    Header(Field(s, 0, 4), Field(s, 4, 2), Field(s, 6, 2), Field(s, 8, 4), Field(s, 12, 4),
           Field(s, 16, 8), Field(s, 24, 2), Field(s, 26, 2), Field(s, 28, 4))
  }

  predicate Accepted(h: Header) { h.magic == MAGIC && h.version == VERSION }

  lemma SliceOfPack(h: Header)
    ensures var s := Pack(h);
      && s[0..4] == BigEndian(h.magic, 4) && s[4..6] == BigEndian(h.version, 2)
      && s[6..8] == BigEndian(h.kind, 2) && s[8..12] == BigEndian(h.seq_, 4)
      && s[12..16] == BigEndian(h.ack, 4) && s[16..24] == BigEndian(h.timestamp, 8)
      && s[24..26] == BigEndian(h.payloadLen, 2) && s[26..28] == BigEndian(h.flags, 2)
      && s[28..32] == BigEndian(h.connId, 4)
  {
  }

  lemma PairValue(b: seq<Byte>)
    requires |b| == 2
    ensures FromBigEndian(b) == 256 * b[0] as int + b[1] as int
    ensures 0 <= b[0] as int < 256 && 0 <= b[1] as int < 256
  {
    ByteBack(b[0]);
    ByteBack(b[1]);
    assert b[..1][..0] == [] && FromBigEndian(b[..1]) == b[0] as int;
  }

  lemma MagicValue()
    ensures FromBigEndian([0x52, 0x4F, 0x42, 0x4F]) == 0x524F_424F && FromBigEndian([0x00, 0x01]) == 1
  {
    var b: seq<Byte> := [0x52, 0x4F, 0x42, 0x4F];
    assert b[..3][..2] == b[..2] && b[..2][..1] == b[..1] && b[..1][..0] == [];
    assert FromBigEndian(b[..1]) == 0x52;
    assert FromBigEndian(b[..2]) == 0x524F;
    assert FromBigEndian(b[..3]) == 0x524F42;
    PairValue([0x00, 0x01]);
  }

  /** Bytes are determined by their number and value. */
  lemma ValueIs(s: seq<Byte>, b: seq<Byte>)
    requires |s| == |b|
    ensures FromBigEndian(s) == FromBigEndian(b) <==> s == b
  {
    FromBigEndianRoundTrip(s);
    FromBigEndianRoundTrip(b);
  }

  lemma FirstFields(s: seq<Byte>)
    requires 32 <= |s|
    ensures Fields32(s).magic == FromBigEndian(s[0..4]) && Fields32(s).version == FromBigEndian(s[4..6])
  {
  }

  /** A header is accepted exactly when it starts with the letters ROBO and version 1. */
  lemma AcceptedBytes(s: seq<Byte>)
    requires 32 <= |s|
    ensures Accepted(Fields32(s)) <==> s[0..4] == [0x52, 0x4F, 0x42, 0x4F] && s[4..6] == [0x00, 0x01]
  {
    MagicValue();
    FirstFields(s);
    ValueIs(s[0..4], [0x52, 0x4F, 0x42, 0x4F]);
    ValueIs(s[4..6], [0x00, 0x01]);
  }

  /** Unpacking undoes packing, whatever follows the header in the buffer. */
  lemma UnpackPack(h: Header, rest: seq<Byte>)
    ensures Fields32(Pack(h) + rest) == h
  {
    SliceOfPack(h);
    Widths();
    var s := Pack(h) + rest;
    assert forall i, j :: 0 <= i <= j <= 32 ==> s[i..j] == Pack(h)[i..j];
    BigEndianRoundTrip(h.magic, 4);
    BigEndianRoundTrip(h.version, 2);
    BigEndianRoundTrip(h.kind, 2);
    BigEndianRoundTrip(h.seq_, 4);
    BigEndianRoundTrip(h.ack, 4);
    BigEndianRoundTrip(h.timestamp, 8);
    BigEndianRoundTrip(h.payloadLen, 2);
    BigEndianRoundTrip(h.flags, 2);
    BigEndianRoundTrip(h.connId, 4);
  }

  /** Packing undoes unpacking: the first 32 bytes carry nothing but the nine fields. */
  lemma PackUnpack(s: seq<Byte>)
    requires 32 <= |s|
    ensures Pack(Fields32(s)) == s[..32]
  {
    forall at: nat, n: nat | at + n <= 32
      ensures BigEndian(Field(s, at, n), n) == s[at..at + n]
    {
      FromBigEndianRoundTrip(s[at..at + n]);
    }
    assert s[..32] == s[0..4] + s[4..6] + s[6..8] + s[8..12] + s[12..16] + s[16..24] + s[24..26] +
                      s[26..28] + s[28..32];
  }
}
