/** The record framing read by `main`: a 4-byte big-endian length prefix in
    the record stream, and inside each record body a magic byte that must be
    0, a 4-byte big-endian schema id, the message-index section and the
    payload, which is everything after that section. */
module Framing {
  import opened Common
  import opened IndexSection

  const TwoTo32 := 0x1_0000_0000

  /** `struct.unpack('>I', ...)`: four bytes as an unsigned big-endian number. */
  function Uint32BE(bs: seq<byte>): (n: nat)
    requires |bs| == 4
    ensures n < TwoTo32
  {
    var hi := bs[0] as int * 256 + bs[1] as int;
    assert hi <= 0xFFFF;
    var mid := hi * 256 + bs[2] as int;
    assert mid <= 0xFF_FFFF;
    mid * 256 + bs[3] as int
  }

  /** `struct.pack('>I', n)`, the producer side of the prefix and the schema id. */
  function EncodeUint32BE(n: nat): (bs: seq<byte>)
    requires n < TwoTo32
    ensures |bs| == 4
  {
    [(n / 0x100_0000) as byte, (n / 0x1_0000 % 256) as byte,
     (n / 0x100 % 256) as byte, (n % 256) as byte]
  }

  lemma {:induction false} Uint32RoundTrip(n: nat)
    requires n < TwoTo32
    ensures Uint32BE(EncodeUint32BE(n)) == n
  {
    var bs := EncodeUint32BE(n);
    assert bs[0] as int * 256 + bs[1] as int == n / 0x1_0000;
    assert (n / 0x1_0000) * 256 + bs[2] as int == n / 0x100;
  }

  /** Four bytes are determined by the number they spell. */
  lemma {:induction false} Uint32Injective(bs: seq<byte>)
    requires |bs| == 4
    ensures EncodeUint32BE(Uint32BE(bs)) == bs
  {
    var n := Uint32BE(bs);
    var hi := bs[0] as int * 256 + bs[1] as int;
    var mid := hi * 256 + bs[2] as int;
    assert n / 0x100 == mid && n % 256 == bs[3] as int;
    assert mid / 0x100 == hi && mid % 256 == bs[2] as int;
    assert hi / 0x100 == bs[0] as int && hi % 256 == bs[1] as int;
    assert n / 0x1_0000 == hi by {
      assert n / 0x1_0000 == (n / 0x100) / 0x100;
    }
    assert n / 0x100_0000 == bs[0] as int by {
      assert n / 0x100_0000 == (n / 0x1_0000) / 0x100;
    }
  }

  /** `struct.unpack('b', ...)`: a byte read as a signed two's-complement value. */
  function SignedByte(b: byte): (v: int)
    ensures -128 <= v < 128
    ensures (v - b as int) % 256 == 0
    ensures v == 0 <==> b == 0
  {
    if b < 128 then b as int else b as int - 256
  }

  /** One length-prefixed frame of the record stream. */
  datatype Frame = EndOfStream | Body(bytes: seq<byte>)

  /** `file.read(4)` and `file.read(raw_length)` from `pos`: no bytes left ends
      the stream, one to three bytes left is a truncated prefix (all of them
      are consumed), and otherwise the body is the next `raw_length` bytes, or
      as many as remain, since that second read is not checked. */
  function FrameAt(stream: seq<byte>, pos: nat): (s: Step<Frame>)
    requires pos <= |stream|
    ensures pos <= s.next <= |stream|
    ensures s.result.Err? <==> 0 < |stream| - pos < 4
    ensures s.result.Err? ==> s.result.error == TruncatedLengthPrefix
    ensures s.result.Ok? && s.result.value.EndOfStream? <==> pos == |stream|
    ensures s.result.Ok? && s.result.value.Body? ==>
      pos + 4 <= s.next && |s.result.value.bytes| <= Uint32BE(stream[pos..pos + 4]) &&
      s.result.value.bytes == stream[pos + 4..s.next]
  {
    var avail := |stream| - pos;
    if avail == 0 then Step(Ok(EndOfStream), pos)
    else if avail < 4 then Step(Err(TruncatedLengthPrefix), |stream|)
    else
      var length := Uint32BE(stream[pos..pos + 4]);
      var end := Min(pos + 4 + length, |stream|);
      Step(Ok(Body(stream[pos + 4..end])), end)
  }

  /** A body written behind its own length reads back whole, and the cursor
      lands on the next frame. */
  lemma {:induction false} FrameRoundTrip(stream: seq<byte>, pos: nat, body: seq<byte>)
    requires |body| < TwoTo32
    requires pos + 4 + |body| <= |stream|
    requires stream[pos..pos + 4 + |body|] == EncodeUint32BE(|body|) + body
    ensures FrameAt(stream, pos) == Step(Ok(Body(body)), pos + 4 + |body|)
  {
    var prefix := EncodeUint32BE(|body|);
    assert stream[pos..pos + 4] == (prefix + body)[..4] == prefix;
    assert stream[pos + 4..pos + 4 + |body|] == (prefix + body)[4..] == body;
    Uint32RoundTrip(|body|);
  }

  /** A decoded record: the schema id, the message-index path and the payload. */
  datatype Record = Record(schemaId: nat, messageIndex: seq<int>, payload: seq<byte>)

  /** The header parse of one record body: `struct.unpack('>bI', read(5))`,
      the magic check, `_read_index_array` and the final `read()`. */
  function ParseBody(body: seq<byte>): (r: Result<Record>)
    ensures r.Ok? ==>
      |body| >= 5 && body[0] == 0 &&
      r.value.schemaId == Uint32BE(body[1..5]) &&
      |r.value.messageIndex| >= 1 &&
      |r.value.payload| <= |body| - 6 &&
      r.value.payload == body[|body| - |r.value.payload|..]
    ensures |body| < 5 ==> r == Err(TruncatedHeader)
    ensures |body| >= 5 && body[0] != 0 ==> r == Err(IncorrectMagicByte(SignedByte(body[0])))
    ensures |body| >= 5 && body[0] == 0 ==>
      var s := IndexArrayAt(body, 5);
      r == if s.result.Err? then Err(s.result.error)
           else Ok(Record(Uint32BE(body[1..5]), s.result.value, body[s.next..]))
  {
    if |body| < 5 then Err(TruncatedHeader)
    else
      var magic := SignedByte(body[0]);
      if magic != 0 then Err(IncorrectMagicByte(magic))
      else
        var index := IndexArrayAt(body, 5);
        if index.result.Err? then Err(index.result.error)
        else Ok(Record(Uint32BE(body[1..5]), index.result.value, body[index.next..]))
  }

  /** What a producer writes for one record body: magic byte 0, the schema
      id, the message-index section and the payload. */
  function EncodeBody(schemaId: nat, indices: seq<int>, payload: seq<byte>): seq<byte>
    requires schemaId < TwoTo32
  {
    [0 as byte] + EncodeUint32BE(schemaId) + EncodeIndexArray(indices) + payload
  }

  /** Parsing a produced body gives back its schema id, its index path (with
      `[]` read as `[0]`) and exactly its payload. */
  lemma {:induction false} ParseEncodeBody(schemaId: nat, indices: seq<int>, payload: seq<byte>)
    requires schemaId < TwoTo32
    requires |indices| <= MaxIndexCount
    ensures ParseBody(EncodeBody(schemaId, indices, payload)) ==
      Ok(Record(schemaId, if indices == [] then [0] else indices, payload))
  {
    var id, section := EncodeUint32BE(schemaId), EncodeIndexArray(indices);
    var body := EncodeBody(schemaId, indices, payload);
    assert body == [0 as byte] + id + section + payload;
    assert body[1..5] == id;
    Uint32RoundTrip(schemaId);
    assert body[5..5 + |section|] == section;
    HoldsAtSlice(body, 5, section);
    IndexArrayRoundTrip(body, 5, indices);
    assert body[5 + |section|..] == payload;
  }
}
