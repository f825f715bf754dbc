/** The fixed-capacity packet of src/packet.rs: construction with silent
    truncation, the checksum over the logical payload, and the bincode wire
    layout written into a caller's buffer and read back. */
module Packets {
  import Crc16
  import LittleEndian

  const MAX_PAYLOAD_SIZE: nat := 4096

  /** Wire offsets of the fields, in declaration order, and the total size. */
  const UID_AT: nat := 0
  const PAYLOAD_AT: nat := 4
  const LEN_AT: nat := PAYLOAD_AT + MAX_PAYLOAD_SIZE
  const TYPE_AT: nat := LEN_AT + 8
  const VERSION_AT: nat := TYPE_AT + 1
  const CHECKSUM_AT: nat := VERSION_AT + 1
  const SERIALIZED_SIZE: nat := CHECKSUM_AT + 2

  /** The fixed array `[u8; MAX_PAYLOAD_SIZE]`. */
  type Payload = s: seq<bv8> | |s| == MAX_PAYLOAD_SIZE
    witness seq(MAX_PAYLOAD_SIZE, _ => 0)

  type uint32 = LittleEndian.uint32

  /** `usize` is pinned to 64 bits, the width bincode writes. */
  type usize = LittleEndian.uint64

  datatype Packet = Packet(
    uid: uint32,
    payload: Payload,
    payloadLen: usize,
    payloadType: bv8,
    version: bv8,
    checksum: bv16)

  datatype Error = BufferTooSmall | DecodeError

  datatype Result<T> = Ok(value: T) | Err(error: Error)

  /** `copy_from_slice`: overwrites `dst[at..at + |src|]` with `src` and nothing else. */
  method CopyFromSlice(dst: array<bv8>, at: nat, src: seq<bv8>)
    requires at + |src| <= dst.Length
    modifies dst
    ensures dst[at..at + |src|] == src
    ensures forall i :: 0 <= i < dst.Length && !(at <= i < at + |src|) ==> dst[i] == old(dst[i])
  {
    var k := 0;
    while k < |src|
      invariant 0 <= k <= |src|
      invariant forall i :: at <= i < at + k ==> dst[i] == src[i - at]
      invariant forall i :: 0 <= i < dst.Length && !(at <= i < at + k) ==> dst[i] == old(dst[i])
    {
      dst[at + k] := src[k];
      k := k + 1;
    }
  }

  /** `Packet::new`: keeps at most MAX_PAYLOAD_SIZE bytes of `data`, zero-pads the
      rest of the buffer, sets version 0 and stamps the checksum of the kept bytes. */
  method New(uid: uint32, payloadType: bv8, data: seq<bv8>) returns (p: Packet)
    ensures p.payloadLen as int == if |data| < MAX_PAYLOAD_SIZE then |data| else MAX_PAYLOAD_SIZE
    ensures p.payload[..p.payloadLen as int] == data[..p.payloadLen as int]
    ensures forall i :: p.payloadLen as int <= i < MAX_PAYLOAD_SIZE ==> p.payload[i] == 0
    ensures p.uid == uid && p.payloadType == payloadType && p.version == 0
    ensures p.checksum == Crc16.Checksum(data[..p.payloadLen as int])
    ensures IsValid(p)
  {
    var buffer := new bv8[MAX_PAYLOAD_SIZE](_ => 0);
    var len := if |data| < MAX_PAYLOAD_SIZE then |data| else MAX_PAYLOAD_SIZE;
    CopyFromSlice(buffer, 0, data[..len]);
    p := Packet(uid, buffer[..], len as usize, payloadType, 0, Crc16.Checksum(data[..len]));
    assert buffer[..][..len] == buffer[0..len];
  }

  /** `is_valid`: the checksum of exactly `payload[..payloadLen]` matches the stored
      one. The slice panics in the source when `payloadLen` exceeds the buffer. */
  predicate IsValid(p: Packet)
    requires p.payloadLen as int <= MAX_PAYLOAD_SIZE
  {
    Crc16.Checksum(p.payload[..p.payloadLen as int]) == p.checksum
  }

  /** The bincode layout: every field in declaration order, fixed-width
      little-endian integers, the whole payload array with no length prefix. */
  function Encode(p: Packet): (bytes: seq<bv8>)
    ensures |bytes| == SERIALIZED_SIZE
  {
    LittleEndian.Le32(p.uid) + p.payload + LittleEndian.Le64(p.payloadLen)
      + [p.payloadType] + [p.version] + LittleEndian.Le16(p.checksum)
  }

  /** `bincode::serialized_size`: the sum of the field widths. */
  function SerializedSize(p: Packet): (n: nat)
    ensures n == |Encode(p)| == SERIALIZED_SIZE
  {
    4 + |p.payload| + 8 + 1 + 1 + 2
  }

  /** `deserialize`: reads the fields back from the first SERIALIZED_SIZE bytes;
      any shorter input fails. Nothing is validated, `payloadLen` included. */
  function Decode(bytes: seq<bv8>): (r: Result<Packet>)
    ensures r.Ok? <==> |bytes| >= SERIALIZED_SIZE
    ensures r.Err? ==> r.error == DecodeError
  {
    if |bytes| < SERIALIZED_SIZE then Err(DecodeError)
    else
      Ok(Packet(
        LittleEndian.FromLe32(bytes[UID_AT..PAYLOAD_AT]),
        bytes[PAYLOAD_AT..LEN_AT],
        LittleEndian.FromLe64(bytes[LEN_AT..TYPE_AT]),
        bytes[TYPE_AT],
        bytes[VERSION_AT],
        LittleEndian.FromLe16(bytes[CHECKSUM_AT..SERIALIZED_SIZE])))
  }

  /** Where each field sits in `Encode(p)`. */
  lemma EncodeFields(p: Packet)
    ensures |Encode(p)| == SERIALIZED_SIZE
    ensures Encode(p)[UID_AT..PAYLOAD_AT] == LittleEndian.Le32(p.uid)
    ensures Encode(p)[PAYLOAD_AT..LEN_AT] == p.payload
    ensures Encode(p)[LEN_AT..TYPE_AT] == LittleEndian.Le64(p.payloadLen)
    ensures Encode(p)[TYPE_AT] == p.payloadType && Encode(p)[TYPE_AT..VERSION_AT] == [p.payloadType]
    ensures Encode(p)[VERSION_AT] == p.version && Encode(p)[VERSION_AT..CHECKSUM_AT] == [p.version]
    ensures Encode(p)[CHECKSUM_AT..SERIALIZED_SIZE] == LittleEndian.Le16(p.checksum)
  {
    var head, tail := LittleEndian.Le32(p.uid) + p.payload + LittleEndian.Le64(p.payloadLen),
      [p.payloadType, p.version] + LittleEndian.Le16(p.checksum);
    assert Encode(p) == head + tail;
    HeadFields(p, head);
    TailFields(p, tail);
    Split(Encode(p), head, tail);
    SliceOfPrefix(Encode(p), TYPE_AT, UID_AT, PAYLOAD_AT);
    SliceOfPrefix(Encode(p), TYPE_AT, PAYLOAD_AT, LEN_AT);
    SliceOfPrefix(Encode(p), TYPE_AT, LEN_AT, TYPE_AT);
    SliceOfSuffix(Encode(p), TYPE_AT, 0, 1);
    SliceOfSuffix(Encode(p), TYPE_AT, 1, 2);
    SliceOfSuffix(Encode(p), TYPE_AT, 2, 4);
  }

  lemma HeadFields(p: Packet, head: seq<bv8>)
    requires head == LittleEndian.Le32(p.uid) + p.payload + LittleEndian.Le64(p.payloadLen)
    ensures |head| == TYPE_AT
    ensures head[UID_AT..PAYLOAD_AT] == LittleEndian.Le32(p.uid)
    ensures head[PAYLOAD_AT..LEN_AT] == p.payload
    ensures head[LEN_AT..TYPE_AT] == LittleEndian.Le64(p.payloadLen)
  {
    var e1 := LittleEndian.Le32(p.uid) + p.payload;
    Split(e1, LittleEndian.Le32(p.uid), p.payload);
    Split(head, e1, LittleEndian.Le64(p.payloadLen));
    SliceOfPrefix(head, LEN_AT, UID_AT, PAYLOAD_AT);
    SliceOfPrefix(head, LEN_AT, PAYLOAD_AT, LEN_AT);
  }

  lemma TailFields(p: Packet, tail: seq<bv8>)
    requires tail == [p.payloadType, p.version] + LittleEndian.Le16(p.checksum)
    ensures |tail| == 4 && tail[0] == p.payloadType && tail[1] == p.version
    ensures tail[0..1] == [p.payloadType] && tail[1..2] == [p.version]
    ensures tail[2..4] == LittleEndian.Le16(p.checksum)
  {
  }

  /** The two halves of a concatenation, read back by slicing. */
  lemma Split(c: seq<bv8>, a: seq<bv8>, b: seq<bv8>)
    requires c == a + b
    ensures c[..|a|] == a && c[|a|..] == b
  {
  }

  lemma SliceOfPrefix(s: seq<bv8>, n: nat, i: nat, j: nat)
    requires i <= j <= n <= |s|
    ensures s[i..j] == s[..n][i..j]
  {
  }

  lemma SliceOfSuffix(s: seq<bv8>, n: nat, i: nat, j: nat)
    requires n + i <= n + j <= |s|
    ensures s[n + i..n + j] == s[n..][i..j]
  {
  }

  lemma SingletonSlice(s: seq<bv8>, i: nat)
    requires i < |s|
    ensures s[i..i + 1] == [s[i]]
  {
  }

  /** Two sequences that agree on `[..at]` and on `[at..end]` agree on `[..end]`. */
  lemma AgreeUpTo(a: seq<bv8>, b: seq<bv8>, at: nat, end: nat)
    requires at <= end <= |a| && end <= |b|
    requires a[..at] == b[..at] && a[at..end] == b[at..end]
    ensures a[..end] == b[..end]
  {
    assert a[..end] == a[..at] + a[at..end];
    assert b[..end] == b[..at] + b[at..end];
  }

  /** The writer step of `serialize_into`: appends one field of the encoding `e`
      to the part of `buffer` already written, touching nothing past `e`. */
  method WriteField(buffer: array<bv8>, ghost e: seq<bv8>, at: nat, field: seq<bv8>)
    requires at + |field| <= |e| <= buffer.Length
    requires buffer[..at] == e[..at] && e[at..at + |field|] == field
    modifies buffer
    ensures buffer[..at + |field|] == e[..at + |field|]
    ensures buffer[|e|..] == old(buffer[|e|..])
  {
    ghost var before := buffer[..];
    CopyFromSlice(buffer, at, field);
    assert buffer[..at] == before[..at];
    assert buffer[|e|..] == before[|e|..];
    AgreeUpTo(buffer[..], e, at, at + |field|);
  }

  /** `serialize`: fails without touching `buffer` when it is shorter than the
      serialized size; otherwise writes the layout of `Encode` into its first
      SERIALIZED_SIZE bytes, field by field, leaves the rest alone and
      returns the size. */
  method Serialize(p: Packet, buffer: array<bv8>) returns (r: Result<nat>)
    modifies buffer
    ensures buffer.Length < SERIALIZED_SIZE ==> r == Err(BufferTooSmall) && buffer[..] == old(buffer[..])
    ensures buffer.Length >= SERIALIZED_SIZE ==>
      && r == Ok(SERIALIZED_SIZE)
      && buffer[..SERIALIZED_SIZE] == Encode(p)
      && buffer[SERIALIZED_SIZE..] == old(buffer[SERIALIZED_SIZE..])
  {
    var size := SerializedSize(p);
    if buffer.Length < size {
      return Err(BufferTooSmall);
    }
    ghost var e := Encode(p);
    EncodeFields(p);
    WriteField(buffer, e, UID_AT, LittleEndian.Le32(p.uid));
    WriteField(buffer, e, PAYLOAD_AT, p.payload);
    WriteField(buffer, e, LEN_AT, LittleEndian.Le64(p.payloadLen));
    WriteField(buffer, e, TYPE_AT, [p.payloadType]);
    WriteField(buffer, e, VERSION_AT, [p.version]);
    WriteField(buffer, e, CHECKSUM_AT, LittleEndian.Le16(p.checksum));
    r := Ok(size);
  }

  /** Decoding what `Encode` wrote gives back every field, the padding tail of
      the payload included. */
  lemma DecodeEncode(p: Packet)
    ensures Decode(Encode(p)) == Ok(p)
  {
    EncodeFields(p);
    LittleEndian.Le32RoundTrip(p.uid);
    LittleEndian.Le64RoundTrip(p.payloadLen);
    LittleEndian.Le16RoundTrip(p.checksum);
  }

  /** Every input that decodes is, in its first SERIALIZED_SIZE bytes, the
      encoding of what it decodes to: no two wire images decode alike. */
  lemma EncodeDecode(bytes: seq<bv8>)
    requires |bytes| >= SERIALIZED_SIZE
    ensures Decode(bytes).Ok? && Encode(Decode(bytes).value) == bytes[..SERIALIZED_SIZE]
  {
    var p := Decode(bytes).value;
    EncodeFields(p);
    var e := Encode(p);
    AgreeUpTo(e, bytes, UID_AT, PAYLOAD_AT);
    AgreeUpTo(e, bytes, PAYLOAD_AT, LEN_AT);
    AgreeUpTo(e, bytes, LEN_AT, TYPE_AT);
    SingletonSlice(bytes, TYPE_AT);
    SingletonSlice(bytes, VERSION_AT);
    AgreeUpTo(e, bytes, TYPE_AT, VERSION_AT);
    AgreeUpTo(e, bytes, VERSION_AT, CHECKSUM_AT);
    AgreeUpTo(e, bytes, CHECKSUM_AT, SERIALIZED_SIZE);
  }

  /** A packet built by `new`, serialized into a fresh buffer of exactly the
      serialized size and deserialized from it, arrives intact and valid. */
  method RoundTrip(uid: uint32, payloadType: bv8, data: seq<bv8>) returns (sent: Packet, received: Result<Packet>)
    ensures received == Ok(sent) && received.value.payloadLen as int <= MAX_PAYLOAD_SIZE
    ensures IsValid(received.value)
    ensures received.value.payloadLen as int == if |data| < MAX_PAYLOAD_SIZE then |data| else MAX_PAYLOAD_SIZE
    ensures received.value.payload[..received.value.payloadLen as int] == data[..received.value.payloadLen as int]
  {
    sent := New(uid, payloadType, data);
    var buffer := new bv8[SERIALIZED_SIZE];
    var written := Serialize(sent, buffer);
    assert written == Ok(SERIALIZED_SIZE);
    assert buffer[..] == buffer[..SERIALIZED_SIZE] == Encode(sent);
    DecodeEncode(sent);
    received := Decode(buffer[..]);
  }

  /** Building a packet around ASCII "123456789" stamps the standard
      CRC-16/X.25 check value. */
  method CheckValuePacket() returns (p: Packet)
    ensures p.uid == 42 && p.payloadType == 7 && p.version == 0
    ensures p.payloadLen == 9 && p.checksum == 0x906E && IsValid(p)
  {
    var data: seq<bv8> := [0x31, 0x32, 0x33, 0x34, 0x35, 0x36, 0x37, 0x38, 0x39];
    p := New(42, 7, data);
    assert data[..9] == data;
    Crc16.CheckValue();
  }

  /** Decoding does not bound `payloadLen`: a wire image may carry any length,
      and `IsValid` is then not applicable (the source's slice would panic). */
  lemma DecodeAdmitsOversizedLength(p: Packet)
    requires p.payloadLen as int > MAX_PAYLOAD_SIZE
    ensures Decode(Encode(p)).Ok? && Decode(Encode(p)).value.payloadLen as int > MAX_PAYLOAD_SIZE
  {
    DecodeEncode(p);
  }

  /** Validity depends on nothing but `payload[..payloadLen]`, `payloadLen` and
      `checksum`: two packets that agree on those are valid alike. */
  lemma ChecksumScope(p: Packet, q: Packet)
    requires p.payloadLen as int <= MAX_PAYLOAD_SIZE
    requires q.payloadLen == p.payloadLen && q.checksum == p.checksum
    requires q.payload[..p.payloadLen as int] == p.payload[..p.payloadLen as int]
    ensures IsValid(q) == IsValid(p)
  {
  }

  /** The padding after `payloadLen` and the fields `uid`, `payloadType` and
      `version` are not covered by the checksum: replacing the whole padding by
      any `padding` of the same length, and the three fields by any values,
      leaves validity as it was. */
  lemma UnprotectedFieldsIgnored(p: Packet, padding: seq<bv8>, uid: uint32, payloadType: bv8, version: bv8)
    requires p.payloadLen as int <= MAX_PAYLOAD_SIZE
    requires |padding| == MAX_PAYLOAD_SIZE - p.payloadLen as int
    ensures var q := p.(payload := p.payload[..p.payloadLen as int] + padding,
                        uid := uid, payloadType := payloadType, version := version);
      IsValid(q) == IsValid(p)
  {
    var len := p.payloadLen as int;
    var q := p.(payload := p.payload[..len] + padding, uid := uid, payloadType := payloadType, version := version);
    assert q.payload[..len] == p.payload[..len];
    ChecksumScope(p, q);
  }

  /** Changing any one byte of the logical payload of a valid packet makes it invalid. */
  lemma CorruptedPayloadDetected(p: Packet, i: nat, x: bv8)
    requires p.payloadLen as int <= MAX_PAYLOAD_SIZE && IsValid(p)
    requires i < p.payloadLen as int && x != p.payload[i]
    ensures !IsValid(p.(payload := p.payload[i := x]))
  {
    var len := p.payloadLen as int;
    assert p.payload[i := x][..len] == p.payload[..len][i := x];
    Crc16.SingleByteErrorDetected(p.payload[..len], i, x);
  }

  /** Changing the stored checksum of a valid packet makes it invalid. */
  lemma CorruptedChecksumDetected(p: Packet, c: bv16)
    requires p.payloadLen as int <= MAX_PAYLOAD_SIZE && IsValid(p)
    requires c != p.checksum
    ensures !IsValid(p.(checksum := c))
  {
  }

  /** A change of `payloadLen` can go unnoticed: the checksum of the one byte
      0x87 equals that of 0x87 0x48, so a valid one-byte packet whose next
      byte is 0x48 stays valid when its length becomes 2. */
  lemma LengthCorruptionCanGoUndetected()
    ensures var p := Packet(0, seq(MAX_PAYLOAD_SIZE, i => if i == 0 then 0x87 else if i == 1 then 0x48 else 0), 1, 0, 0, 0x00CF);
      IsValid(p) && IsValid(p.(payloadLen := 2))
  {
    var payload: seq<bv8> := seq(MAX_PAYLOAD_SIZE, i => if i == 0 then 0x87 else if i == 1 then 0x48 else 0);
    assert payload[..1] == [0x87];
    assert payload[..2] == [0x87, 0x48];
    assert Crc16.UpdateByte(0xFFFF, 0x87) == 0xFF30;
    assert Crc16.UpdateByte(0xFF30, 0x48) == 0xFF30;
    assert Crc16.Register(0xFF30, [0x48]) == 0xFF30;
    assert Crc16.Register(0xFFFF, [0x87]) == 0xFF30;
    assert Crc16.Register(0xFFFF, [0x87, 0x48]) == 0xFF30 by {
      assert [0x87, 0x48][1..] == [0x48];
    }
  }
}
