/** The decoder as `cli.py` runs it: a byte buffer with a cursor (the
    `BytesIO` of the record body, or the record stream) and the reads that
    advance that cursor. Each method is proved against the function of
    `IndexSection` or `Framing` that says what it computes. */
module Reader {
  import opened Common
  import opened Base128
  import opened IndexSection
  import opened Framing

  class ByteReader {
    /** The bytes behind the buffer; never written. */
    const data: seq<byte>
    /** The read position. */
    var pos: nat

    ghost predicate Valid()
      reads this
    {
      pos <= |data|
    }

    constructor (bytes: seq<byte>)
      ensures Valid() && data == bytes && pos == 0
    {
      data := bytes;
      pos := 0;
    }

    /** `read(n)`: up to `n` bytes, fewer only at the end of the buffer. */
    method Read(n: nat) returns (bs: seq<byte>)
      requires Valid()
      modifies this
      ensures Valid()
      ensures pos == Min(old(pos) + n, |data|)
      ensures bs == data[old(pos)..pos]
    {
      var end := Min(pos + n, |data|);
      bs := data[pos..end];
      pos := end;
    }

    /** `read()`: everything from the cursor on. */
    method ReadRest() returns (bs: seq<byte>)
      requires Valid()
      modifies this
      ensures Valid() && pos == |data|
      ensures bs == data[old(pos)..]
    {
      bs := data[pos..];
      pos := |data|;
    }

    /** `_read_byte`: the next byte, or EOFError at the end of the buffer. */
    method ReadByte() returns (r: Result<byte>)
      requires Valid()
      modifies this
      ensures Valid()
      ensures old(pos) < |data| ==> r == Ok(data[old(pos)]) && pos == old(pos) + 1
      ensures old(pos) == |data| ==> r == Err(EofEncountered) && pos == old(pos)
    {
      if pos == |data| {
        return Err(EofEncountered);
      }
      r := Ok(data[pos]);
      pos := pos + 1;
    }

    /** `_read_varint`. The bytes of one varint are disjoint groups of seven
        bits (the invariant `value < ShiftLeft(1, shift)`), so
        `value |= (i & 0x7f) << shift` is written as an addition. */
    method ReadVarint() returns (r: Result<int>)
      requires Valid()
      modifies this
      ensures Valid()
      ensures Step(r, pos) == VarintAt(data, old(pos))
    {
      var start := pos;
      var value: nat := 0;
      var shift: nat := 0;
      while true
        invariant Valid() && start == old(pos) <= pos
        invariant pos <= TerminatorFrom(data, start)
        invariant value == Value(data[start..pos])
        invariant shift == 7 * (pos - start)
        invariant value < ShiftLeft(1, shift)
        decreases |data| - pos
      {
        ghost var mid := pos;
        var b := ReadByte();
        if b.Err? {
          VarintAtMissing(data, old(pos));
          return Err(EofWhileReadingIndex);
        }
        var i := b.value;
        assert i == data[mid] && pos == mid + 1;
        ValueStep(data, start, mid, value, shift);
        value := value + ShiftLeft(Low7(i), shift);
        shift := shift + 7;
        if !HasMore(i) {
          TerminatorAt(data, start, mid);
          VarintAtEndsAt(data, old(pos), mid + 1);
          break;
        }
        TerminatorNotYet(data, start, mid);
      }
      r := Ok(ZigZag.Decode(value));
    }

    /** `_read_index_array`: the count, its range check, the `[0]` shorthand
        and then `size` varints appended in order. */
    method ReadIndexArray() returns (r: Result<seq<int>>)
      requires Valid()
      modifies this
      ensures Valid()
      ensures Step(r, pos) == IndexArrayAt(data, old(pos))
    {
      var size := ReadVarint();
      if size.Err? {
        return Err(size.error);
      }
      if size.value < 0 || size.value > MaxIndexCount {
        return Err(InvalidIndexArrayLength);
      }
      if size.value == 0 {
        return Ok([0]);
      }
      assert IndexArrayAt(data, old(pos)) == VarintsAt(data, pos, size.value);
      r := ReadElements(size.value);
    }

    /** The `for` loop of `_read_index_array`: `n` varints appended to
        `msgIndex` in the order they are read. */
    method ReadElements(n: nat) returns (r: Result<seq<int>>)
      requires Valid()
      modifies this
      ensures Valid()
      ensures Step(r, pos) == VarintsAt(data, old(pos), n)
    {
      var first := pos;
      var msgIndex: seq<int> := [];
      for k := 0 to n
        invariant Valid() && first <= pos
        invariant VarintsAt(data, first, k) == Step(Ok(msgIndex), pos)
      {
        var element := ReadVarint();
        VarintsAtNext(data, first, k);
        if element.Err? {
          VarintsAtErrorIsFinal(data, first, k + 1, n);
          return Err(element.error);
        }
        msgIndex := msgIndex + [element.value];
      }
      r := Ok(msgIndex);
    }

    /** The length-prefix read at the top of `main`'s loop. */
    method ReadFrame() returns (r: Result<Frame>)
      requires Valid()
      modifies this
      ensures Valid()
      ensures Step(r, pos) == FrameAt(data, old(pos))
    {
      var rawLength := Read(4);
      if |rawLength| != 4 {
        if |rawLength| != 0 {
          return Err(TruncatedLengthPrefix);
        }
        return Ok(EndOfStream);
      }
      var length := Uint32BE(rawLength);
      var body := Read(length);
      r := Ok(Body(body));
    }
  }

  /** The header parse of `main` on one record body, over a fresh buffer. */
  method ParseRecord(body: seq<byte>) returns (r: Result<Record>)
    ensures r == ParseBody(body)
  {
    var buffer := new ByteReader(body);
    var header := buffer.Read(5);
    if |header| != 5 {
      return Err(TruncatedHeader);
    }
    var magic := SignedByte(header[0]);
    if magic != 0 {
      return Err(IncorrectMagicByte(magic));
    }
    var schemaId := Uint32BE(header[1..5]);
    var messageIndex := buffer.ReadIndexArray();
    if messageIndex.Err? {
      return Err(messageIndex.error);
    }
    var payload := buffer.ReadRest();
    r := Ok(Record(schemaId, messageIndex.value, payload));
  }

  /** One iteration of `main`'s loop from the length prefix on: the frame,
      then the header parse of its body. `None` is the clean end of the stream. */
  method ReadRecord(file: ByteReader) returns (r: Result<Option<Record>>)
    requires file.Valid()
    modifies file
    ensures file.Valid()
    ensures var frame := FrameAt(file.data, old(file.pos));
      && file.pos == frame.next
      && r == match frame.result
        case Err(e) => Err(e)
        case Ok(EndOfStream) => Ok(None)
        case Ok(Body(bytes)) =>
          match ParseBody(bytes)
          case Err(e) => Err(e)
          case Ok(record) => Ok(Some(record))
  {
    var frame := file.ReadFrame();
    if frame.Err? {
      return Err(frame.error);
    }
    if frame.value.EndOfStream? {
      return Ok(None);
    }
    var record := ParseRecord(frame.value.bytes);
    if record.Err? {
      return Err(record.error);
    }
    r := Ok(Some(record.value));
  }
}
