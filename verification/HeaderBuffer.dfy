/** Packing the 32-byte header into a buffer field by field, and reading it back. */
module HeaderBuffer {
  import opened Words
  import opened HeaderCodec

  /** Stores `bytes` at offset `at`. */
  method Put(dst: array<Byte>, at: nat, bytes: seq<Byte>)
    requires at + |bytes| <= dst.Length
    modifies dst
    ensures dst[..at + |bytes|] == old(dst[..at]) + bytes
    ensures forall i :: at + |bytes| <= i < dst.Length ==> dst[i] == old(dst[i])
  {
    for i := 0 to |bytes|
      invariant dst[..at + i] == old(dst[..at]) + bytes[..i]
      invariant forall j :: at + i <= j < dst.Length ==> dst[j] == old(dst[j])
    {
      dst[at + i] := bytes[i];
    }
  }

  method PackFirst(dst: array<Byte>, h: Header)
    requires 32 <= dst.Length
    modifies dst
    ensures dst[..16] == BigEndian(h.magic, 4) + BigEndian(h.version, 2) + BigEndian(h.kind, 2) +
                         BigEndian(h.seq_, 4) + BigEndian(h.ack, 4)
    ensures forall i :: 16 <= i < dst.Length ==> dst[i] == old(dst[i])
  {
    Put(dst, 0, BigEndian(h.magic, 4));
    Put(dst, 4, BigEndian(h.version, 2));
    Put(dst, 6, BigEndian(h.kind, 2));
    Put(dst, 8, BigEndian(h.seq_, 4));
    Put(dst, 12, BigEndian(h.ack, 4));
  }

  /** The first 32 bytes become the packed header, and nothing else changes. */
  method PackInto(dst: array<Byte>, h: Header)
    requires 32 <= dst.Length
    modifies dst
    ensures dst[..32] == Pack(h)
    ensures forall i :: 32 <= i < dst.Length ==> dst[i] == old(dst[i])
  {
    PackFirst(dst, h);
    Put(dst, 16, BigEndian(h.timestamp, 8));
    Put(dst, 24, BigEndian(h.payloadLen, 2));
    Put(dst, 26, BigEndian(h.flags, 2));
    Put(dst, 28, BigEndian(h.connId, 4));
  }

  method Get(src: array<Byte>, at: nat, n: nat) returns (x: nat)
    requires at + n <= src.Length
    ensures x == Field(src[..], at, n)
  {
    x := 0;
    for i := 0 to n
      invariant x == FromBigEndian(src[at..at + i])
    {
      assert src[at..at + i + 1][..i] == src[at..at + i];
      x := x * 256 + src[at + i] as int;
    }
    assert src[..][at..at + n] == src[at..at + n];
  }

  /** Reads the nine fields; the header is rejected unless magic and version match. */
  method UnpackFrom(src: array<Byte>) returns (h: Header, ok: bool)
    requires 32 <= src.Length
    ensures h == Fields32(src[..]) && ok == Accepted(h)
  {
    Widths();
    var magic := Get(src, 0, 4);
    var version := Get(src, 4, 2);
    var kind := Get(src, 6, 2);
    var sequence := Get(src, 8, 4);
    var ack := Get(src, 12, 4);
    var timestamp := Get(src, 16, 8);
    var payloadLen := Get(src, 24, 2);
    var flags := Get(src, 26, 2);
    var connId := Get(src, 28, 4);
    h := Header(magic, version, kind, sequence, ack, timestamp, payloadLen, flags, connId);
    ok := h.magic == MAGIC && h.version == VERSION;
  }
}
