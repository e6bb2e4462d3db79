/** Values shared by the record-framing decoder: bytes, the errors it raises,
    and the result type that carries either a value or one of those errors. */
module Common {

  /** One octet, as `ord(buffer.read(1))` yields it. */
  newtype byte = x: int | 0 <= x < 256

  /** The exceptions the decoder raises, one constructor per raise site. */
  datatype Error =
    | EofEncountered            // `_read_byte`: EOFError 'Unexpected EOF encountered'
    | EofWhileReadingIndex      // `_read_varint`: EOFError 'Unexpected EOF while reading index'
    | InvalidIndexArrayLength   // `_read_index_array`: RuntimeError on a bad count
    | TruncatedLengthPrefix     // `main`: Exception 'Unexpected EOF' on 1 to 3 prefix bytes
    | TruncatedHeader           // `main`: struct.unpack('>bI') given fewer than 5 bytes
    | IncorrectMagicByte(magic: int)  // `main`: RuntimeError with the signed magic value

  datatype Result<+T> = Ok(value: T) | Err(error: Error)

  /** A decoding outcome together with the cursor position it leaves behind. */
  datatype Step<+T> = Step(result: Result<T>, next: nat)

  datatype Option<+T> = None | Some(value: T)

  function Min(a: int, b: int): int { if a <= b then a else b }
}
