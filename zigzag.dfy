/** The zig-zag step of `_read_varint`: the raw base-128 value is mapped onto
    the integers 0, -1, 1, -2, 2, ... (Protocol Buffers encoding documentation,
    "Signed Integers (ZigZag)"). */
module ZigZag {

  /** `(v >> 1) ^ -(v & 1)` for a natural `v`: `v >> 1` is `v / 2`; XOR with
      `-0` leaves it alone and XOR with `-1` is bitwise complement, `-x - 1`. */
  function Decode(v: nat): int
  {
    var half := v / 2;
    if v % 2 == 0 then half else -half - 1
  }

  /** An even raw value `r` decodes to `r / 2` and an odd one to
      `-(r + 1) / 2`; the sign of the result is the low bit of `r`. */
  lemma {:induction false} DecodeCases(v: nat)
    ensures v % 2 == 0 ==> Decode(v) == v / 2
    ensures v % 2 == 1 ==> Decode(v) == -((v + 1) / 2)
    ensures Decode(v) >= 0 <==> v % 2 == 0
  {
  }

  /** The encoding side: non-negative integers to even numbers, negative
      integers to odd numbers. */
  function Encode(z: int): (v: nat)
    ensures Decode(v) == z
    ensures v % 2 == 0 <==> z >= 0
  {
    if z >= 0 then 2 * z else -2 * z - 1
  }

  /** Decoding then encoding gives the raw value back, so `Decode` loses nothing. */
  lemma {:induction false} EncodeDecode(v: nat)
    ensures Encode(Decode(v)) == v
  {
  }

  /** `Decode` is one-to-one; together with `Encode`'s contract, which reaches
      every integer, it is a bijection from the naturals onto the integers. */
  lemma {:induction false} DecodeInjective(a: nat, b: nat)
    requires Decode(a) == Decode(b)
    ensures a == b
  {
    EncodeDecode(a);
    EncodeDecode(b);
  }
}
