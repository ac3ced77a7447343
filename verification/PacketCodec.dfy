/**
 Packet framing: a 16-byte header, the payload, and a CRC-32 trailer. The header struct is two bytes
 longer than the header and the payload is laid over its last field. Multi-byte fields are stored in
 host order, taken to be little-endian.
 */
module PacketCodec {
  import opened Words
  import opened Crc32
  import CrcTable
  import HeaderCodec

  datatype Packet = Packet(kind: Byte, flags: Byte, session: U32, seq_: U32, payload: seq<Byte>)

  type Frameable = p: Packet | |p.payload| < 0x1_0000 witness Packet(0, 0, 0, 0, [])

  datatype Decoded = Frame(p: Frameable, used: nat) | Rejected

  // ----- fields

  function LittleEndian(x: nat, n: nat): (s: seq<Byte>)
    ensures |s| == n
    decreases n
  {
    if n == 0 then [] else [(x % 256) as Byte] + LittleEndian(x / 256, n - 1)
  }

  function FromLittleEndian(s: seq<Byte>): nat {
    if s == [] then 0 else s[0] as int + 256 * FromLittleEndian(s[1..])
  }

  lemma {:induction false} LittleEndianRoundTrip(x: nat, n: nat)
    requires x < HeaderCodec.Pow256(n)
    ensures FromLittleEndian(LittleEndian(x, n)) == x
    decreases n
  {
    if n > 0 {
      LittleEndianRoundTrip(x / 256, n - 1);
      IntBack(x % 256);
      assert LittleEndian(x, n)[1..] == LittleEndian(x / 256, n - 1);
    }
  }

  lemma LittleEndianCons(b: Byte, hi: nat, n: nat)
    ensures LittleEndian(b as int + 256 * hi, n + 1) == [b] + LittleEndian(hi, n)
  {
    ByteBack(b);
    HeaderCodec.SplitLow(hi, b as int);
  }

  lemma {:induction false} FromLittleEndianRoundTrip(s: seq<Byte>)
    ensures LittleEndian(FromLittleEndian(s), |s|) == s
  {
    if s != [] {
      FromLittleEndianRoundTrip(s[1..]);
      LittleEndianCons(s[0], FromLittleEndian(s[1..]), |s| - 1);
    }
  }

  lemma {:induction false} FromLittleEndianRange(s: seq<Byte>)
    ensures FromLittleEndian(s) < HeaderCodec.Pow256(|s|)
  {
    if s != [] {
      FromLittleEndianRange(s[1..]);
      ByteBack(s[0]);
    }
  }

  lemma Widths()
    ensures HeaderCodec.Pow256(2) == 0x1_0000 && HeaderCodec.Pow256(4) == 0x1_0000_0000
  {
    assert HeaderCodec.Pow256(3) == 0x100_0000;
  }

  // ----- encoding

  /** The fixed part: magic "RC", version 1, type, flags, a reserved byte, session, sequence, length. */
  function Fixed(kind: Byte, flags: Byte, session: U32, seq_: U32, len: U16, reserved: Byte): (h: seq<Byte>)
    ensures |h| == 16
  {
    [0x52, 0x43, 1, kind, flags, reserved] + LittleEndian(session, 4) + LittleEndian(seq_, 4) + LittleEndian(len, 2)
  }

  function Header(p: Frameable, reserved: Byte): (h: seq<Byte>)
    ensures |h| == 16
  {
    Fixed(p.kind, p.flags, p.session, p.seq_, |p.payload|, reserved)
  }

  function Body(p: Frameable, reserved: Byte): (b: seq<Byte>)
    ensures |b| == 16 + |p.payload|
  {
    Header(p, reserved) + p.payload
  }

  function Sealed(body: seq<Byte>): (s: seq<Byte>)
    ensures |s| == |body| + 4
  {
    body + FieldBytes(Crc(body))
  }

  function Encode(p: Frameable): (s: seq<Byte>)
    ensures |s| == 20 + |p.payload|
  {
    Sealed(Body(p, 0))
  }

  // ----- decoding

  function Session(d: seq<Byte>): U32
    requires 16 <= |d|
  {
    FromLittleEndianRange(d[6..10]);
    Widths();
    FromLittleEndian(d[6..10])
  }

  function SeqNum(d: seq<Byte>): U32
    requires 16 <= |d|
  {
    FromLittleEndianRange(d[10..14]);
    Widths();
    FromLittleEndian(d[10..14])
  }

  function PayloadLen(d: seq<Byte>): U16
    requires 16 <= |d|
  {
    FromLittleEndianRange(d[14..16]);
    Widths();
    FromLittleEndian(d[14..16])
  }

  /** Magic, version and enough bytes for the stated length. */
  predicate Complete(d: seq<Byte>) {
    16 <= |d| && d[0] == 0x52 && d[1] == 0x43 && d[2] == 1 && 16 + PayloadLen(d) + 4 <= |d|
  }

  predicate ChecksumOk(d: seq<Byte>, n: nat)
    requires n + 4 <= |d|
  {
    FieldWord(d[n..n + 4]) == Crc(d[..n])
  }

  function Decode(d: seq<Byte>): Decoded {
    if !Complete(d) then Rejected
    else
      var n := 16 + PayloadLen(d);
      if !ChecksumOk(d, n) then Rejected
      else Parsed(d)
  }

  /** What a packet says, taking its length field at its word. */
  function Parsed(d: seq<Byte>): Decoded
    requires Complete(d)
  {
    var n := 16 + PayloadLen(d);
    Frame(Packet(d[3], d[4], Session(d), SeqNum(d), d[16..n]), n + 4)
  }

  // ----- round trips

  lemma HeaderFields(p: Frameable, reserved: Byte, rest: seq<Byte>)
    ensures var d := Header(p, reserved) + rest;
      && d[0] == 0x52 && d[1] == 0x43 && d[2] == 1 && d[3] == p.kind && d[4] == p.flags && d[5] == reserved
      && d[6..10] == LittleEndian(p.session, 4) && d[10..14] == LittleEndian(p.seq_, 4)
      && d[14..16] == LittleEndian(|p.payload|, 2)
  {
    FieldSlices([0x52, 0x43, 1, p.kind, p.flags, reserved], LittleEndian(p.session, 4),
                LittleEndian(p.seq_, 4), LittleEndian(|p.payload|, 2), rest);
  }

  lemma FieldSlices(h: seq<Byte>, a: seq<Byte>, b: seq<Byte>, c: seq<Byte>, rest: seq<Byte>)
    requires |h| == 6 && |a| == 4 && |b| == 4 && |c| == 2
    ensures var d := h + a + b + c + rest;
      && d[6..10] == a && d[10..14] == b && d[14..16] == c && forall i :: 0 <= i < 6 ==> d[i] == h[i]
  {
  }

  lemma Pieces(d: seq<Byte>, n: nat)
    requires 16 <= n && n + 4 <= |d|
    ensures d[..n] == d[..16] + d[16..n] && d[..n + 4] == d[..n] + d[n..n + 4]
  {
  }

  lemma DropPrefix(a: seq<Byte>, b: seq<Byte>)
    ensures (a + b)[|a|..] == b
  {
  }

  lemma HeaderReads(p: Frameable, reserved: Byte, rest: seq<Byte>)
    ensures var d := Header(p, reserved) + rest;
      Session(d) == p.session && SeqNum(d) == p.seq_ && PayloadLen(d) == |p.payload|
  {
    HeaderFields(p, reserved, rest);
    Widths();
    LittleEndianRoundTrip(p.session, 4);
    LittleEndianRoundTrip(p.seq_, 4);
    LittleEndianRoundTrip(|p.payload|, 2);
  }

  lemma BodySlices(h: seq<Byte>, payload: seq<Byte>, f: seq<Byte>, rest: seq<Byte>)
    requires |h| == 16 && |f| == 4
    ensures var d, n := h + payload + f + rest, 16 + |payload|;
      && d == h + (payload + f + rest) && d[..n] == h + payload && d[n..n + 4] == f && d[16..n] == payload
  {
  }

  /** Where everything lies in a sealed packet followed by other bytes. */
  lemma Layout(p: Frameable, reserved: Byte, f: seq<Byte>, rest: seq<Byte>)
    requires |f| == 4
    ensures var d, n := Body(p, reserved) + f + rest, 16 + |p.payload|;
      && Complete(d) && PayloadLen(d) == |p.payload| && Session(d) == p.session && SeqNum(d) == p.seq_
      && d[3] == p.kind && d[4] == p.flags
      && d[..n] == Body(p, reserved) && d[n..n + 4] == f && d[16..n] == p.payload
  {
    BodySlices(Header(p, reserved), p.payload, f, rest);
    HeaderFields(p, reserved, p.payload + f + rest);
    HeaderReads(p, reserved, p.payload + f + rest);
  }

  /** Decoding undoes encoding, whatever follows, and says where the next packet starts. */
  lemma DecodeEncode(p: Frameable, rest: seq<Byte>)
    ensures Decode(Encode(p) + rest) == Frame(p, |Encode(p)|)
  {
    var body := Body(p, 0);
    Layout(p, 0, FieldBytes(Crc(body)), rest);
    FieldRoundTrip(Crc(body));
  }

  lemma HeaderRebuilt(d: seq<Byte>, p: Frameable)
    requires Complete(d) && p.kind == d[3] && p.flags == d[4] && p.session == Session(d) && p.seq_ == SeqNum(d)
    requires |p.payload| == PayloadLen(d)
    ensures Header(p, d[5]) == d[..16]
  {
    FromLittleEndianRoundTrip(d[6..10]);
    FromLittleEndianRoundTrip(d[10..14]);
    FromLittleEndianRoundTrip(d[14..16]);
    HeaderPieces(d);
  }

  lemma HeaderPieces(d: seq<Byte>)
    requires 16 <= |d|
    ensures d[..16] == [d[0], d[1], d[2], d[3], d[4], d[5]] + d[6..10] + d[10..14] + d[14..16]
  {
  }

  /** Encoding undoes decoding: what is accepted is the encoding of the result, up to the reserved byte. */
  lemma EncodeDecode(d: seq<Byte>)
    requires Decode(d).Frame?
    ensures var r := Decode(d);
      && r.used <= |d| && d[..r.used] == Sealed(Body(r.p, d[5]))
      && (d[5] == 0 ==> d[..r.used] == Encode(r.p))
  {
    var p, n := Decode(d).p, 16 + PayloadLen(d);
    HeaderRebuilt(d, p);
    Pieces(d, n);
    SealedAgain(d[..n], d[n..n + 4]);
  }

  lemma SealedAgain(body: seq<Byte>, f: seq<Byte>)
    requires |f| == 4 && FieldWord(f) == Crc(body)
    ensures Sealed(body) == body + f
  {
    FieldRoundTrip(Crc(body));
    FieldInjective(f, FieldBytes(Crc(body)));
  }

  lemma FieldInjective(f: seq<Byte>, g: seq<Byte>)
    requires |f| == 4 && |g| == 4 && FieldWord(f) == FieldWord(g)
    ensures f == g
  {
    MessageBitsInjective(f, g);
  }

  // ----- streams of packets

  function EncodeAll(ps: seq<Frameable>): seq<Byte> {
    if ps == [] then [] else Encode(ps[0]) + EncodeAll(ps[1..])
  }

  /** The packets a reader takes off a stream one by one, and the bytes left over. */
  function ReadAll(read: seq<Byte> -> Decoded, d: seq<Byte>): (seq<Frameable>, seq<Byte>)
    decreases |d|
  {
    match read(d)
    case Rejected => ([], d)
    case Frame(p, used) =>
      if 0 < used <= |d| then
        var (ps, rest) := ReadAll(read, d[used..]);
        ([p] + ps, rest)
      else ([], d)
  }

  function DecodeAll(d: seq<Byte>): (seq<Frameable>, seq<Byte>) { ReadAll(Decode, d) }

  /** Framing round trip: reading a stream packet by packet gives back the packets and consumes every byte. */
  lemma {:induction false} FramingRoundTrip(ps: seq<Frameable>)
    ensures DecodeAll(EncodeAll(ps)) == (ps, [])
  {
    if ps == [] {
      assert DecodeAll([]) == ([], []);
    } else {
      FramingRoundTrip(ps[1..]);
      DecodeAllCons(ps[0], EncodeAll(ps[1..]), ps, EncodeAll(ps));
    }
  }

  lemma DecodeAllCons(p: Frameable, rest: seq<Byte>, ps: seq<Frameable>, d: seq<Byte>)
    requires d == Encode(p) + rest && ps != [] && ps[0] == p && DecodeAll(rest) == (ps[1..], [])
    ensures DecodeAll(d) == (ps, [])
  {
    DecodeEncode(p, rest);
    DropPrefix(Encode(p), rest);
    ReadAllFrame(Decode, d, p, |Encode(p)|, ps);
  }

  lemma ReadAllFrame(read: seq<Byte> -> Decoded, d: seq<Byte>, p: Frameable, used: nat, ps: seq<Frameable>)
    requires read(d) == Frame(p, used) && 0 < used <= |d|
    requires ps != [] && ps[0] == p && ReadAll(read, d[used..]) == (ps[1..], [])
    ensures ReadAll(read, d) == (ps, [])
  {
    assert [p] + ps[1..] == ps;
  }

  // ----- corruption

  /**
   A packet corrupted within four consecutive bytes is rejected, wherever they lie, as long as the
   length field is intact, and whatever follows the packet.
   */
  lemma BurstRejected(p: Frameable, c: seq<Byte>, at: nat, rest: seq<Byte>)
    requires Burst(Encode(p), c, at) && c != Encode(p) && c[14..16] == Encode(p)[14..16]
    ensures Decode(c + rest) == Rejected
  {
    var body := Body(p, 0);
    var f := FieldBytes(Crc(body));
    FieldRoundTrip(Crc(body));
    Layout(p, 0, f, []);
    assert body + f + [] == body + f;
    CorruptedLength(body + f, c, rest);
    CorruptedChecksum(body, f, c, at, rest);
  }

  lemma CorruptedLength(e: seq<Byte>, c: seq<Byte>, rest: seq<Byte>)
    requires 16 <= |e| == |c| && c[14..16] == e[14..16]
    ensures PayloadLen(c + rest) == PayloadLen(e)
  {
    assert (c + rest)[14..16] == c[14..16];
  }

  lemma CorruptedChecksum(body: seq<Byte>, f: seq<Byte>, c: seq<Byte>, at: nat, rest: seq<Byte>)
    requires |f| == 4 && FieldWord(f) == Crc(body) && Burst(body + f, c, at) && c != body + f
    ensures !ChecksumOk(c + rest, |body|)
  {
    var n := |body|;
    FrontSlices(c, rest, n);
    if ChecksumOk(c + rest, n) { ChecksumDetectsBurst(body, f, c[..n], c[n..], at); }
  }

  lemma FrontSlices(c: seq<Byte>, rest: seq<Byte>, n: nat)
    requires |c| == n + 4
    ensures (c + rest)[..n] == c[..n] && (c + rest)[n..n + 4] == c[n..] && c == c[..n] + c[n..]
  {
  }

  // ----- buffers

  /** The payload that ends up in the buffer: with no payload given, what was there, behind two zeroed bytes. */
  function LaidPayload(payload: Option<seq<Byte>>, len: U16, before: seq<Byte>): (s: seq<Byte>)
    requires 20 + len <= |before| && (payload.Some? ==> |payload.value| == len)
    ensures |s| == len
  {
    if payload.Some? then payload.value
    else seq(len, i requires 0 <= i < len => if i < 2 then 0 else before[16 + i])
  }

  method Copy(out: array<Byte>, at: nat, data: seq<Byte>)
    requires at + |data| <= out.Length
    modifies out
    ensures out[..] == old(out[..at]) + data + old(out[at + |data|..])
  {
    for i := 0 to |data|
      invariant out[..] == old(out[..at]) + data[..i] + old(out[at + i..])
    {
      out[at + i] := data[i];
    }
  }

  lemma LaidOut(h: seq<Byte>, payload: Option<seq<Byte>>, len: U16, before: seq<Byte>, after: seq<Byte>)
    requires |h| == 16 && 20 + len <= |before| && (payload.Some? ==> |payload.value| == len)
    requires var one := h + [0, 0] + before[18..];
      after == if len > 0 && payload.Some? then one[..16] + payload.value + one[16 + len..] else one
    ensures |after| == |before| && after[..16 + len] == h + LaidPayload(payload, len, before)
    ensures after[20 + len..] == before[20 + len..]
  {
    var laid := LaidPayload(payload, len, before);
    forall i | 0 <= i < 16 + len ensures after[i] == (h + laid)[i] {}
  }

  /** Writes the header struct, two bytes longer than the header, and lays the payload over its end. */
  method LayOut(out: array<Byte>, h: seq<Byte>, payload: Option<seq<Byte>>, len: U16)
    requires |h| == 16 && 20 + len <= out.Length && (payload.Some? ==> |payload.value| == len)
    modifies out
    ensures out[..16 + len] == h + LaidPayload(payload, len, old(out[..]))
    ensures out[20 + len..] == old(out[20 + len..])
  {
    ghost var before := out[..];
    Copy(out, 0, h + [0, 0]);
    ghost var one := out[..];
    assert one == h + [0, 0] + before[18..];
    if len > 0 && payload.Some? { Copy(out, 16, payload.value); }
    LaidOut(h, payload, len, before, out[..]);
  }

  /** Appends the checksum of the first `n` bytes. */
  method Seal(out: array<Byte>, n: nat, crcs: CrcTable.Table)
    requires n + 4 <= out.Length && crcs.Valid() && crcs.table as object != out as object
    modifies out, crcs, crcs.table
    ensures crcs.Valid() && out[..n + 4] == Sealed(old(out[..n])) && out[n + 4..] == old(out[n + 4..])
  {
    ghost var before := out[..];
    var crc := crcs.Compute(out[..n]);
    assert out[..] == before;
    Copy(out, n, FieldBytes(crc));
  }

  /** Writes one packet to the front of a buffer that has room for it. */
  method Write(out: array<Byte>, h: seq<Byte>, payload: Option<seq<Byte>>, len: U16, crcs: CrcTable.Table,
               ghost p: Frameable)
    requires 20 + len <= out.Length && (payload.Some? ==> |payload.value| == len)
    requires p.payload == LaidPayload(payload, len, out[..]) && h == Header(p, 0)
    requires crcs.Valid() && crcs.table as object != out as object
    modifies out, crcs, crcs.table
    ensures crcs.Valid() && out[..20 + len] == Encode(p) && out[20 + len..] == old(out[20 + len..])
  {
    LayOut(out, h, payload, len);
    Seal(out, 16 + len, crcs);
  }

  /** Writes one packet, or refuses without touching the buffer; -3 is the invalid-argument error. */
  method EncodeInto(out: array<Byte>, kind: Byte, flags: Byte, session: U32, seq_: U32,
                    payload: Option<seq<Byte>>, len: U16, crcs: CrcTable.Table) returns (r: int)
    requires payload.Some? ==> |payload.value| == len
    requires crcs.Valid() && crcs.table as object != out as object
    modifies out, crcs, crcs.table
    ensures crcs.Valid()
    ensures out.Length < 20 + len ==> r == -3 && out[..] == old(out[..])
    ensures out.Length >= 20 + len ==>
      && r == 20 + len && out[r..] == old(out[r..])
      && out[..r] == Encode(Packet(kind, flags, session, seq_, LaidPayload(payload, len, old(out[..]))))
  {
    r := 16 + len as int + 4;
    if out.Length < r { return -3; }
    ghost var p: Frameable := Packet(kind, flags, session, seq_, LaidPayload(payload, len, out[..]));
    Write(out, Fixed(kind, flags, session, seq_, len, 0), payload, len, crcs, p);
  }

  method DecodeFrom(data: seq<Byte>, crcs: CrcTable.Table) returns (r: Decoded)
    requires crcs.Valid()
    modifies crcs, crcs.table
    ensures crcs.Valid() && r == Decode(data)
  {
    var complete := CheckHeader(data);
    if !complete { return Rejected; }
    var n: int := 16 + PayloadLen(data) as int;
    var ok := Verify(data, n, crcs);
    if !ok { return Rejected; }
    r := Parsed(data);
  }

  method CheckHeader(data: seq<Byte>) returns (complete: bool)
    ensures complete <==> Complete(data)
  {
    if |data| < 16 { return false; }
    if data[0] != 0x52 || data[1] != 0x43 { return false; }
    if data[2] != 1 { return false; }
    complete := 16 + PayloadLen(data) as int + 4 <= |data|;
  }

  method Verify(data: seq<Byte>, n: nat, crcs: CrcTable.Table) returns (ok: bool)
    requires crcs.Valid() && n + 4 <= |data|
    modifies crcs, crcs.table
    ensures crcs.Valid() && ok == ChecksumOk(data, n)
  {
    var actual := crcs.Compute(data[..n]);
    ok := FieldWord(data[n..n + 4]) == actual;
  }
}
