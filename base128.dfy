/** Base-128 varints as `_read_varint` reads them (Protocol Buffers encoding
    documentation, "Base 128 Varints"): each byte carries seven value bits,
    least significant group first, and its 0x80 bit says whether another byte
    follows. No byte count limit and no 64-bit bound apply. */
module Base128 {
  import opened Common

  /** `i & 0x80` is non-zero: another byte of the same varint follows. */
  predicate HasMore(b: byte) { b >= 128 }

  /** `i & 0x7f`: the seven value bits of a byte. */
  function Low7(b: byte): nat { b as int % 128 }

  /** `x << n`: `x` doubled `n` times. */
  function ShiftLeft(x: nat, n: nat): nat
  {
    if n == 0 then x else 2 * ShiftLeft(x, n - 1)
  }

  /** Shifting by seven more bits multiplies by 128. */
  lemma {:induction false} ShiftLeftPlus7(x: nat, n: nat)
    ensures ShiftLeft(x, n + 7) == 128 * ShiftLeft(x, n)
  {
    calc {
      ShiftLeft(x, n + 7);
      2 * ShiftLeft(x, n + 6);
      4 * ShiftLeft(x, n + 5);
      8 * ShiftLeft(x, n + 4);
      16 * ShiftLeft(x, n + 3);
      32 * ShiftLeft(x, n + 2);
      64 * ShiftLeft(x, n + 1);
      128 * ShiftLeft(x, n);
    }
  }

  /** The little-endian base-128 number spelled by `groups`: the first byte's
      low seven bits are the least significant. */
  function Value(groups: seq<byte>): nat
  {
    if groups == [] then 0 else Low7(groups[0]) + 128 * Value(groups[1..])
  }

  /** Appending a byte adds its seven bits shifted past the bytes before it:
      the step `value |= (i & 0x7f) << shift; shift += 7` of `_read_varint`. */
  lemma {:induction false} ValueSnoc(groups: seq<byte>, b: byte)
    ensures Value(groups + [b]) == Value(groups) + ShiftLeft(Low7(b), 7 * |groups|)
  {
    if groups == [] {
      assert [b][1..] == [];
    } else {
      var rest := groups[1..];
      assert (groups + [b])[1..] == rest + [b];
      ValueSnoc(rest, b);
      ShiftLeftPlus7(Low7(b), 7 * |rest|);
      assert 7 * |groups| == 7 * |rest| + 7;
    }
  }

  /** A value read from `k` bytes stays below `1 << 7k`, so the next group,
      shifted by `7k`, never overlaps it: the bitwise OR of `_read_varint`
      is an addition. */
  lemma {:induction false} ValueBound(groups: seq<byte>)
    ensures Value(groups) < ShiftLeft(1, 7 * |groups|)
  {
    if groups != [] {
      var rest := groups[1..];
      ValueBound(rest);
      ShiftLeftPlus7(1, 7 * |rest|);
      assert 7 * |groups| == 7 * |rest| + 7;
    }
  }

  /** A byte with its 0x80 bit set, reached before the terminator, is not
      the terminator: the search goes on past it. */
  lemma {:induction false} TerminatorNotYet(data: seq<byte>, start: nat, pos: nat)
    requires start <= pos < |data|
    requires pos <= TerminatorFrom(data, start)
    requires HasMore(data[pos])
    ensures pos + 1 <= TerminatorFrom(data, start)
  {
    TerminatorFromSpec(data, start);
  }

  /** The first byte reached with a clear 0x80 bit is where the search stops. */
  lemma {:induction false} TerminatorAt(data: seq<byte>, start: nat, end: nat)
    requires start <= end < |data|
    requires end <= TerminatorFrom(data, start)
    requires !HasMore(data[end])
    ensures TerminatorFrom(data, start) == end
  {
    TerminatorFromSpec(data, start);
  }

  /** One step of `_read_varint`'s loop: with `value` read from the bytes
      between `start` and `mid` and `shift` at seven bits per byte, adding
      the next byte's group shifted by `shift` gives the value of one byte
      more, which stays below `1 << (shift + 7)`. */
  lemma {:induction false} ValueStep(data: seq<byte>, start: nat, mid: nat, value: nat, shift: nat)
    requires start <= mid < |data|
    requires value == Value(data[start..mid])
    requires shift == 7 * (mid - start)
    ensures value + ShiftLeft(Low7(data[mid]), shift) == Value(data[start..mid + 1])
    ensures value + ShiftLeft(Low7(data[mid]), shift) < ShiftLeft(1, shift + 7)
  {
    assert data[start..mid + 1] == data[start..mid] + [data[mid]];
    ValueSnoc(data[start..mid], data[mid]);
    ValueBound(data[start..mid + 1]);
  }

  /** Index of the first byte at or after `start` whose 0x80 bit is clear, or
      `|data|` when there is none: `_read_varint` consumes up to and including it. */
  function TerminatorFrom(data: seq<byte>, start: nat): (end: nat)
    requires start <= |data|
    ensures start <= end <= |data|
    decreases |data| - start
  {
    if start == |data| then |data|
    else if !HasMore(data[start]) then start
    else TerminatorFrom(data, start + 1)
  }

  /** Every byte the search passes over has its 0x80 bit set, and the byte
      it stops on, if any, has it clear. */
  lemma {:induction false} TerminatorFromSpec(data: seq<byte>, start: nat)
    requires start <= |data|
    ensures forall k :: start <= k < TerminatorFrom(data, start) ==> HasMore(data[k])
    ensures TerminatorFrom(data, start) < |data| ==> !HasMore(data[TerminatorFrom(data, start)])
    decreases |data| - start
  {
    if start < |data| && HasMore(data[start]) {
      TerminatorFromSpec(data, start + 1);
    }
  }

  /** The canonical encoding: seven bits per byte, least significant first,
      the 0x80 bit set on every byte but the last. */
  function Encode(n: nat): (groups: seq<byte>)
    ensures |groups| >= 1
  {
    if n < 128 then [n as byte]
    else [(n % 128 + 128) as byte] + Encode(n / 128)
  }

  /** Only the last byte of an encoding has its 0x80 bit clear. */
  lemma {:induction false} EncodeShape(n: nat)
    ensures !HasMore(Encode(n)[|Encode(n)| - 1])
    ensures forall k :: 0 <= k < |Encode(n)| - 1 ==> HasMore(Encode(n)[k])
  {
    if n >= 128 {
      EncodeShape(n / 128);
      assert Encode(n) == [(n % 128 + 128) as byte] + Encode(n / 128);
    }
  }

  lemma {:induction false} ValueEncode(n: nat)
    ensures Value(Encode(n)) == n
  {
    if n >= 128 {
      var groups := Encode(n);
      assert groups[1..] == Encode(n / 128);
      ValueEncode(n / 128);
      assert Low7(groups[0]) == n % 128;
    }
  }

  /** Wherever an encoding sits in a buffer, the terminator search stops on
      its last byte. */
  lemma {:induction false} TerminatorOfEncoding(data: seq<byte>, p: nat, n: nat)
    requires p + |Encode(n)| <= |data|
    requires data[p..p + |Encode(n)|] == Encode(n)
    ensures TerminatorFrom(data, p) == p + |Encode(n)| - 1
  {
    var e := Encode(n);
    EncodeShape(n);
    TerminatorFromSpec(data, p);
    assert forall k :: p <= k < p + |e| - 1 ==> data[k] == e[k - p] && HasMore(data[k]);
    assert data[p + |e| - 1] == e[|e| - 1];
  }
}
