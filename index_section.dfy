/** What `_read_varint` and `_read_index_array` compute, as functions of the
    buffer contents and the cursor position they start from. The message-index
    section of the schema-registry wire format is a zig-zag varint count
    followed by that many zig-zag varints; a count of 0 stands for `[0]`. */
module IndexSection {
  import opened Common
  import ZigZag
  import opened Base128

  /** Largest count `_read_index_array` accepts. */
  const MaxIndexCount := 100000

  /** The raw (pre-zig-zag) value of a varint and the position after it. */
  datatype Raw = Raw(value: nat, next: nat)

  /** The base-128 varint starting at `pos`, read byte by byte: a byte with a
      clear 0x80 bit ends it, otherwise its seven bits sit below those of the
      rest. `None` when the buffer ends first. */
  function RawVarintAt(data: seq<byte>, pos: nat): (r: Option<Raw>)
    requires pos <= |data|
    ensures r.Some? ==> pos < r.value.next <= |data|
    decreases |data| - pos
  {
    if pos == |data| then None
    else if !HasMore(data[pos]) then Some(Raw(Low7(data[pos]), pos + 1))
    else
      match RawVarintAt(data, pos + 1)
      case None => None
      case Some(rest) => Some(Raw(Low7(data[pos]) + 128 * rest.value, rest.next))
  }

  /** The byte-by-byte reading agrees with the terminator search and the
      base-128 value: it stops just after the first byte with a clear 0x80
      bit and its value is the little-endian sum of the bytes it passed. */
  lemma {:induction false} RawVarintAtSpec(data: seq<byte>, pos: nat)
    requires pos <= |data|
    ensures var end := TerminatorFrom(data, pos);
      RawVarintAt(data, pos) ==
        if end == |data| then None else Some(Raw(Value(data[pos..end + 1]), end + 1))
    decreases |data| - pos
  {
    if pos < |data| && HasMore(data[pos]) {
      RawVarintAtSpec(data, pos + 1);
      var end := TerminatorFrom(data, pos);
      if end < |data| {
        assert data[pos..end + 1][1..] == data[pos + 1..end + 1];
      }
    } else if pos < |data| {
      assert data[pos..pos + 1] == [data[pos]];
      assert data[pos..pos + 1][1..] == [];
    }
  }

  /** One zig-zag varint read from `start`. On success the cursor stops just
      after the first byte whose 0x80 bit is clear; when the buffer ends
      before such a byte there is no value and the cursor is at the end. */
  function VarintAt(data: seq<byte>, start: nat): (s: Step<int>)
    requires start <= |data|
    ensures start <= s.next <= |data|
    ensures s.result.Err? ==> s.result.error == EofWhileReadingIndex && s.next == |data|
  {
    match RawVarintAt(data, start)
    case None => Step(Err(EofWhileReadingIndex), |data|)
    case Some(raw) => Step(Ok(ZigZag.Decode(raw.value)), raw.next)
  }

  /** A varint whose terminator is the byte before `next` reads as the
      zig-zag image of the base-128 value of `data[start..next]`. */
  lemma {:induction false} VarintAtEndsAt(data: seq<byte>, start: nat, next: nat)
    requires start < next <= |data|
    requires TerminatorFrom(data, start) == next - 1
    ensures VarintAt(data, start) == Step(Ok(ZigZag.Decode(Value(data[start..next]))), next)
  {
    RawVarintAtSpec(data, start);
  }

  /** A varint with no terminator before the end of the buffer is an EOF. */
  lemma {:induction false} VarintAtMissing(data: seq<byte>, start: nat)
    requires start <= |data|
    requires TerminatorFrom(data, start) == |data|
    ensures VarintAt(data, start) == Step(Err(EofWhileReadingIndex), |data|)
  {
    RawVarintAtSpec(data, start);
  }

  /** What `_read_varint` consumes: on success, exactly the bytes up to and
      including the first one whose 0x80 bit is clear, and the value is the
      zig-zag image of their base-128 sum; it fails exactly when no byte from
      `start` on has that bit clear, and then yields no value. */
  lemma {:induction false} VarintAtConsumes(data: seq<byte>, start: nat)
    requires start <= |data|
    ensures var s := VarintAt(data, start);
      && (s.result.Ok? ==>
            start < s.next && !HasMore(data[s.next - 1]) &&
            (forall k :: start <= k < s.next - 1 ==> HasMore(data[k])) &&
            s.result.value == ZigZag.Decode(Value(data[start..s.next])))
      && (s.result.Err? <==> forall k :: start <= k < |data| ==> HasMore(data[k]))
  {
    TerminatorFromSpec(data, start);
    RawVarintAtSpec(data, start);
  }

  /** `n` zig-zag varints read one after another from `start`, in the order
      they appear; the first failure ends the read. */
  function VarintsAt(data: seq<byte>, start: nat, n: nat): (s: Step<seq<int>>)
    requires start <= |data|
    ensures start <= s.next <= |data|
    ensures s.result.Ok? ==> |s.result.value| == n
    ensures s.result.Err? ==> s.result.error == EofWhileReadingIndex && s.next == |data|
  {
    if n == 0 then Step(Ok([]), start)
    else
      var before := VarintsAt(data, start, n - 1);
      if before.result.Err? then before
      else
        var last := VarintAt(data, before.next);
        if last.result.Err? then Step(Err(last.result.error), last.next)
        else Step(Ok(before.result.value + [last.result.value]), last.next)
  }

  /** The message-index section read from `start`. */
  function IndexArrayAt(data: seq<byte>, start: nat): (s: Step<seq<int>>)
    requires start <= |data|
    ensures start <= s.next <= |data|
    ensures s.result.Ok? ==> |s.result.value| >= 1
  {
    var count := VarintAt(data, start);
    if count.result.Err? then Step(Err(count.result.error), count.next)
    else
      var size := count.result.value;
      if size < 0 || size > MaxIndexCount then Step(Err(InvalidIndexArrayLength), count.next)
      else if size == 0 then Step(Ok([0]), count.next)
      else VarintsAt(data, count.next, size)
  }

  /** How each outcome of the count read decides the section: a bad count is
      rejected with the cursor just after the count, before any element is
      read; a zero count is `[0]` and consumes only the count; a count in
      range yields exactly that many elements, with no range check on them. */
  lemma {:induction false} IndexArrayCases(data: seq<byte>, start: nat)
    requires start <= |data|
    ensures var count := VarintAt(data, start);
      var s := IndexArrayAt(data, start);
      && (count.result.Err? ==> s == Step(Err(EofWhileReadingIndex), |data|))
      && (count.result.Ok? && (count.result.value < 0 || count.result.value > MaxIndexCount) ==>
            s == Step(Err(InvalidIndexArrayLength), count.next))
      && (count.result.Ok? && count.result.value == 0 ==> s == Step(Ok([0]), count.next))
      && (count.result.Ok? && 1 <= count.result.value <= MaxIndexCount ==>
            (s.result.Ok? ==> |s.result.value| == count.result.value) &&
            (s.result.Err? ==> s == Step(Err(EofWhileReadingIndex), |data|)))
  {
  }

  /** Reading one element more, after `k` elements were read. */
  lemma {:induction false} VarintsAtNext(data: seq<byte>, start: nat, k: nat)
    requires start <= |data|
    requires VarintsAt(data, start, k).result.Ok?
    ensures var before := VarintsAt(data, start, k);
      var last := VarintAt(data, before.next);
      VarintsAt(data, start, k + 1) ==
        if last.result.Err? then Step(Err(EofWhileReadingIndex), |data|)
        else Step(Ok(before.result.value + [last.result.value]), last.next)
  {
  }

  /** A read that has failed stays failed when one more element is asked for. */
  lemma {:induction false} VarintsAtAfterError(data: seq<byte>, start: nat, k: nat)
    requires start <= |data|
    requires VarintsAt(data, start, k).result.Err?
    ensures VarintsAt(data, start, k + 1) == VarintsAt(data, start, k)
  {
  }

  /** Element `i` of a successful read of `n` varints is the varint that
      starts where the first `i` elements end: the elements come back in the
      order they sit in the buffer, whatever bytes encode them. */
  lemma {:induction false} VarintsAtElement(data: seq<byte>, start: nat, n: nat, i: nat)
    requires start <= |data| && i < n
    requires VarintsAt(data, start, n).result.Ok?
    ensures VarintsAt(data, start, i).result.Ok?
    ensures VarintAt(data, VarintsAt(data, start, i).next).result ==
      Ok(VarintsAt(data, start, n).result.value[i])
    decreases n
  {
    if i < n - 1 {
      VarintsAtElement(data, start, n - 1, i);
    }
  }

  /** Once reading the elements has failed, reading more elements fails the
      same way: the error raised by the first short varint is final. */
  lemma {:induction false} VarintsAtErrorIsFinal(data: seq<byte>, start: nat, k: nat, m: nat)
    requires start <= |data| && k <= m
    requires VarintsAt(data, start, k).result.Err?
    ensures VarintsAt(data, start, m) == VarintsAt(data, start, k)
    decreases m
  {
    if m > k {
      VarintsAtErrorIsFinal(data, start, k, m - 1);
      VarintsAtAfterError(data, start, m - 1);
    }
  }

  // Encoders: the producer side of the section, used to state round trips.

  function EncodeVarint(z: int): seq<byte>
  {
    Encode(ZigZag.Encode(z))
  }

  function EncodeVarints(xs: seq<int>): seq<byte>
  {
    if xs == [] then [] else EncodeVarints(xs[..|xs| - 1]) + EncodeVarint(xs[|xs| - 1])
  }

  /** The section a producer writes for `indices`; an empty list is written
      as the count 0, which readers take to mean `[0]`. */
  function EncodeIndexArray(indices: seq<int>): seq<byte>
  {
    EncodeVarint(|indices|) + EncodeVarints(indices)
  }

  /** `data` holds the bytes `e` from position `p` on, compared byte by byte.
      This says the same as `data[p..p + |e|] == e` (see `HoldsAtSlice`); the
      round-trip lemmas take this form because a slice equality next to the
      unfolded readers makes their proofs several times more expensive for
      the verifier. */
  predicate HoldsAt(data: seq<byte>, p: nat, e: seq<byte>)
    decreases |e|
  {
    p + |e| <= |data| && (e == [] || (data[p] == e[0] && HoldsAt(data, p + 1, e[1..])))
  }

  /** Holding `e` at `p` is having `e` as the slice of `data` that starts at `p`. */
  lemma {:induction false} HoldsAtSlice(data: seq<byte>, p: nat, e: seq<byte>)
    ensures HoldsAt(data, p, e) <==> p + |e| <= |data| && data[p..p + |e|] == e
    decreases |e|
  {
    if e != [] && p + |e| <= |data| {
      HoldsAtSlice(data, p + 1, e[1..]);
      assert data[p..p + |e|] == [data[p]] + data[p + 1..p + 1 + |e[1..]|];
      assert e == [e[0]] + e[1..];
    }
  }

  /** Holding `a + b` is holding `a` and then `b` right after it. */
  lemma {:induction false} HoldsAtSplit(data: seq<byte>, p: nat, a: seq<byte>, b: seq<byte>)
    requires HoldsAt(data, p, a + b)
    ensures HoldsAt(data, p, a) && HoldsAt(data, p + |a|, b)
    decreases |a|
  {
    if a == [] {
      assert a + b == b;
    } else {
      assert (a + b)[1..] == a[1..] + b;
      HoldsAtSplit(data, p + 1, a[1..], b);
    }
  }

  /** A zig-zag varint placed anywhere in a buffer reads back as the same
      integer and leaves the cursor just after it. */
  lemma {:induction false} VarintRoundTrip(data: seq<byte>, p: nat, z: int)
    requires HoldsAt(data, p, EncodeVarint(z))
    ensures VarintAt(data, p) == Step(Ok(z), p + |EncodeVarint(z)|)
  {
    var e := EncodeVarint(z);
    HoldsAtSlice(data, p, e);
    TerminatorOfEncoding(data, p, ZigZag.Encode(z));
    ValueEncode(ZigZag.Encode(z));
    assert data[p..TerminatorFrom(data, p) + 1] == e;
    RawVarintAtSpec(data, p);
  }

  /** One more varint read after a successful read of `init`. */
  lemma {:induction false} VarintsStep(data: seq<byte>, p: nat, init: seq<int>, x: int, mid: nat, q: nat)
    requires p <= mid <= q <= |data|
    requires VarintsAt(data, p, |init|) == Step(Ok(init), mid)
    requires VarintAt(data, mid) == Step(Ok(x), q)
    ensures VarintsAt(data, p, |init| + 1) == Step(Ok(init + [x]), q)
  {
  }

  /** Varints written one after another read back in the same order. */
  lemma {:induction false} VarintsRoundTrip(data: seq<byte>, p: nat, xs: seq<int>)
    requires HoldsAt(data, p, EncodeVarints(xs))
    ensures VarintsAt(data, p, |xs|) == Step(Ok(xs), p + |EncodeVarints(xs)|)
  {
    if xs != [] {
      var init, x := xs[..|xs| - 1], xs[|xs| - 1];
      var a, b := EncodeVarints(init), EncodeVarint(x);
      assert EncodeVarints(xs) == a + b;
      HoldsAtSplit(data, p, a, b);
      VarintsRoundTrip(data, p, init);
      VarintRoundTrip(data, p + |a|, x);
      VarintsStep(data, p, init, x, p + |a|, p + |a| + |b|);
      assert init + [x] == xs;
    }
  }

  /** The two parts of an encoded section read back on their own: the count
      as `|indices|`, then the elements as `indices`. */
  lemma {:induction false} IndexArrayParts(data: seq<byte>, p: nat, indices: seq<int>)
    requires HoldsAt(data, p, EncodeIndexArray(indices))
    ensures p + |EncodeVarint(|indices|)| <= p + |EncodeIndexArray(indices)| <= |data|
    ensures VarintAt(data, p) == Step(Ok(|indices|), p + |EncodeVarint(|indices|)|)
    ensures VarintsAt(data, p + |EncodeVarint(|indices|)|, |indices|) ==
      Step(Ok(indices), p + |EncodeIndexArray(indices)|)
  {
    var c, e := EncodeVarint(|indices|), EncodeVarints(indices);
    HoldsAtSplit(data, p, c, e);
    VarintRoundTrip(data, p, |indices|);
    VarintsRoundTrip(data, p + |c|, indices);
  }

  /** A section written for 1 to 100000 indices reads back as exactly those
      indices, negative ones included; one written for no indices reads back
      as `[0]`. Either way the cursor ends just after the section. */
  lemma {:induction false} IndexArrayRoundTrip(data: seq<byte>, p: nat, indices: seq<int>)
    requires |indices| <= MaxIndexCount
    requires HoldsAt(data, p, EncodeIndexArray(indices))
    ensures p + |EncodeIndexArray(indices)| <= |data|
    ensures IndexArrayAt(data, p) ==
      Step(Ok(if indices == [] then [0] else indices), p + |EncodeIndexArray(indices)|)
  {
    IndexArrayParts(data, p, indices);
    IndexArrayFromParts(data, p, indices, p + |EncodeVarint(|indices|)|, p + |EncodeIndexArray(indices)|);
  }

  /** The section once its count has been read as `|indices|`, ending at
      `q`, and that many elements as `indices`, ending at `r`. */
  lemma {:induction false} IndexArrayFromParts(data: seq<byte>, p: nat, indices: seq<int>, q: nat, r: nat)
    requires |indices| <= MaxIndexCount
    requires p <= q <= r <= |data|
    requires VarintAt(data, p) == Step(Ok(|indices|), q)
    requires VarintsAt(data, q, |indices|) == Step(Ok(indices), r)
    ensures IndexArrayAt(data, p) == Step(Ok(if indices == [] then [0] else indices), r)
  {
  }
}
