/** Base-128 varints as written by `_encode_varint` and read by `_read_varint`
    (send_voice_pack.py): seven data bits per byte, least significant group
    first, bit 0x80 set on every byte but the last. */
module Varint {

  /** One element of a Python `bytes` object. */
  type Byte = b: int | 0 <= b < 256

  /** The outcome of a read: a value, or the IndexError that Python raises
      when indexing runs off the end of the buffer. */
  datatype Result<T> = Ok(value: T) | Truncated

  /** Bitwise OR of two non-negative integers (Python's `|` on ints). */
  function BitOr(a: nat, b: nat): nat
    decreases a + b
  {
    if a == 0 then b
    else if b == 0 then a
    else 2 * BitOr(a / 2, b / 2) + (if a % 2 == 1 || b % 2 == 1 then 1 else 0)
  }

  /** Python's `g << s` on a non-negative integer. */
  function Shl(g: nat, s: nat): nat
  {
    if s == 0 then g else 2 * Shl(g, s - 1)
  }

  lemma {:induction false} ShlAdd(a: nat, b: nat, s: nat)
    ensures Shl(a + b, s) == Shl(a, s) + Shl(b, s)
  {
    if s > 0 {
      ShlAdd(a, b, s - 1);
    }
  }

  /** Shifting a value made of a low seven-bit group and the bits above it. */
  lemma {:induction false} ShlSplit(g: nat, v: nat, s: nat)
    ensures Shl(g + 128 * v, s) == Shl(g, s) + Shl(v, s + 7)
  {
    if s == 0 {
      assert Shl(v, 1) == 2 * v;
      assert Shl(v, 2) == 4 * v;
      assert Shl(v, 3) == 8 * v;
      assert Shl(v, 4) == 16 * v;
      assert Shl(v, 5) == 32 * v;
      assert Shl(v, 6) == 64 * v;
    } else {
      ShlSplit(g, v, s - 1);
    }
  }

  /** OR-ing in a group shifted above every bit already set is addition:
      this is why `result |= (b & 0x7F) << shift` accumulates the value. */
  lemma {:induction false} BitOrDisjoint(a: nat, c: nat, s: nat)
    requires a < Shl(1, s)
    ensures BitOr(a, Shl(c, s)) == a + Shl(c, s)
  {
    if s > 0 && a != 0 && Shl(c, s) != 0 {
      var x := Shl(c, s - 1);
      assert (2 * x) / 2 == x && (2 * x) % 2 == 0;
      BitOrDisjoint(a / 2, c, s - 1);
    }
  }

  /** The next group, OR-ed in at `shift`, is added, and the accumulator
      stays below 1 << (shift + 7). */
  lemma AccumulateBits(acc: nat, g: nat, s: nat)
    requires acc < Shl(1, s) && g < 128
    ensures BitOr(acc, Shl(g, s)) == acc + Shl(g, s)
    ensures acc + Shl(g, s) < Shl(1, s + 7)
  {
    BitOrDisjoint(acc, g, s);
    ShlAdd(g, 127 - g, s);
    ShlAdd(1, 127, s);
    ShlAdd(0, 0, s);
    ShlSplit(0, 1, s);
  }

  /** The bytes `_encode_varint(v)` returns (send_voice_pack.py:47-55): the
      low seven bits of v, with 0x80 added when bits remain after `v >>= 7`. */
  function Encoding(v: nat): seq<Byte>
    decreases v
  {
    var b := v % 128;
    var rest := v / 128;
    if rest != 0 then [b + 128] + Encoding(rest) else [b]
  }

  /** Shape of every encoding: never empty, the continuation bit on all bytes
      but the last, and no superfluous trailing zero group (minimal length). */
  lemma {:induction false} EncodingShape(v: nat)
    ensures |Encoding(v)| >= 1
    ensures forall i | 0 <= i < |Encoding(v)| - 1 :: Encoding(v)[i] >= 128
    ensures Encoding(v)[|Encoding(v)| - 1] < 128
    ensures |Encoding(v)| == 1 || Encoding(v)[|Encoding(v)| - 1] != 0
    ensures (|Encoding(v)| == 1) == (v < 128)
    decreases v
  {
    if v / 128 != 0 {
      EncodingShape(v / 128);
      var t := Encoding(v / 128);
      assert Encoding(v) == [v % 128 + 128] + t;
      forall i | 0 <= i < |Encoding(v)| - 1 ensures Encoding(v)[i] >= 128 {
        if i > 0 { assert Encoding(v)[i] == t[i - 1]; }
      }
    }
  }

  /** The vectors the wire format is usually illustrated with. */
  lemma EncodingExamples()
    ensures Encoding(0) == [0x00]
    ensures Encoding(127) == [0x7F]
    ensures Encoding(128) == [0x80, 0x01]
    ensures Encoding(300) == [0xAC, 0x02]
  {
  }

  /** What `_read_varint(data, pos)` returns (send_voice_pack.py:96-104): the
      value and the position after the first byte without bit 0x80, or
      Truncated when the data ends first. Every successful read consumes at
      least one byte and stays inside the buffer. */
  function Decoding(data: seq<Byte>, pos: nat): (r: Result<(nat, nat)>)
    ensures r.Ok? ==> pos < r.value.1 <= |data|
    decreases |data| - pos
  {
    if pos >= |data| then Truncated
    else if data[pos] < 128 then Ok((data[pos], pos + 1))
    else match Decoding(data, pos + 1)
      case Truncated => Truncated
      case Ok((v, end)) => Ok((data[pos] % 128 + 128 * v, end))
  }

  /** A read fails exactly when no byte from pos on has bit 0x80 clear:
      pos already at the end, or the data ends after a continuation byte. */
  lemma {:induction false} DecodingTruncatedIff(data: seq<Byte>, pos: nat)
    ensures Decoding(data, pos).Truncated? <==> forall i | pos <= i < |data| :: data[i] >= 128
    decreases |data| - pos
  {
    if pos < |data| && data[pos] >= 128 {
      DecodingTruncatedIff(data, pos + 1);
    }
  }

  /** A successful read stops right after the first byte whose bit 0x80 is
      clear. */
  lemma {:induction false} DecodingStopsAtTerminator(data: seq<Byte>, pos: nat)
    requires Decoding(data, pos).Ok?
    ensures data[Decoding(data, pos).value.1 - 1] < 128
    ensures forall i | pos <= i < Decoding(data, pos).value.1 - 1 :: data[i] >= 128
    decreases |data| - pos
  {
    if data[pos] >= 128 {
      DecodingStopsAtTerminator(data, pos + 1);
    }
  }

  /** Reading at pos the encoding of v gives back v and the position just
      after it, whatever surrounds it. */
  lemma {:induction false} DecodingEncoding(data: seq<Byte>, pos: nat, v: nat)
    requires pos + |Encoding(v)| <= |data|
    requires data[pos..pos + |Encoding(v)|] == Encoding(v)
    ensures Decoding(data, pos) == Ok((v, pos + |Encoding(v)|))
    decreases v
  {
    var e := Encoding(v);
    assert data[pos] == e[0];
    if v / 128 != 0 {
      var t := Encoding(v / 128);
      assert e == [v % 128 + 128] + t;
      assert data[pos + 1..pos + 1 + |t|] == e[1..] == t;
      DecodingEncoding(data, pos + 1, v / 128);
    }
  }

  /** The round trip `_read_varint(_encode_varint(v) + rest, 0) ==
      (v, len(_encode_varint(v)))`. */
  lemma ReadVarintRoundTrip(v: nat, rest: seq<Byte>)
    ensures Decoding(Encoding(v) + rest, 0) == Ok((v, |Encoding(v)|))
  {
    var data := Encoding(v) + rest;
    assert data[0..|Encoding(v)|] == Encoding(v);
    DecodingEncoding(data, 0, v);
  }

  /** One pass of the loop of `_encode_varint` moves the first byte of the
      remaining encoding onto what has been emitted. */
  lemma AppendGroup(out: seq<Byte>, x: nat)
    ensures x / 128 == 0 ==> out + Encoding(x) == out + [x % 128]
    ensures x / 128 != 0 ==> out + Encoding(x) == (out + [x % 128 + 128]) + Encoding(x / 128)
  {
  }

  /** `_encode_varint` (send_voice_pack.py:47-55): the loop that peels off
      seven bits at a time, appending each byte to `out`. */
  method EncodeVarint(v: nat) returns (out: seq<Byte>)
    ensures out == Encoding(v)
  {
    out := [];
    var x := v;
    while true
      invariant out + Encoding(x) == Encoding(v)
      decreases x
    {
      AppendGroup(out, x);
      var b := x % 128;
      x := x / 128;
      out := out + [if x != 0 then b + 128 else b];
      if x == 0 {
        break;
      }
    }
  }

  /** A read started `shift` bits into a value whose low bits are `acc`. */
  function Shifted(r: Result<(nat, nat)>, acc: nat, shift: nat): Result<(nat, nat)>
  {
    match r
    case Truncated => Truncated
    case Ok((v, end)) => Ok((acc + Shl(v, shift), end))
  }

  /** Reading one continuation byte moves seven bits of the value into the
      accumulator. */
  lemma ShiftedStep(data: seq<Byte>, p: nat, acc: nat, shift: nat)
    requires p < |data| && data[p] >= 128
    ensures Shifted(Decoding(data, p), acc, shift)
         == Shifted(Decoding(data, p + 1), acc + Shl(data[p] % 128, shift), shift + 7)
  {
    match Decoding(data, p + 1)
    case Truncated =>
    case Ok((v, end)) =>
      ShlSplit(data[p] % 128, v, shift);
  }

  /** One pass of the loop body of `_read_varint`: the byte at p is OR-ed
      into the accumulator at `shift`, which stays below 2^(shift + 7), and
      the read either ends here or continues seven bits higher. */
  lemma AccumulateGroup(data: seq<Byte>, pos: nat, p: nat, result: nat, shift: nat)
    requires p < |data| && result < Shl(1, shift)
    requires Decoding(data, pos) == Shifted(Decoding(data, p), result, shift)
    ensures BitOr(result, Shl(data[p] % 128, shift)) < Shl(1, shift + 7)
    ensures data[p] < 128 ==>
      Decoding(data, pos) == Ok((BitOr(result, Shl(data[p] % 128, shift)), p + 1))
    ensures data[p] >= 128 ==>
      Decoding(data, pos)
      == Shifted(Decoding(data, p + 1), BitOr(result, Shl(data[p] % 128, shift)), shift + 7)
  {
    var g: nat := data[p] % 128;
    AccumulateBits(result, g, shift);
    if data[p] < 128 {
      assert g == data[p];
      assert Decoding(data, p) == Ok((g, p + 1));
      assert Shifted(Ok((g, p + 1)), result, shift) == Ok((result + Shl(g, shift), p + 1));
    } else {
      ShiftedStep(data, p, result, shift);
    }
  }

  /** `_read_varint` (send_voice_pack.py:96-104): the loop that ORs each
      seven-bit group into `result` at `shift`, stopping after a byte with
      bit 0x80 clear; reading past the end is the IndexError case. */
  method ReadVarint(data: seq<Byte>, pos: nat) returns (r: Result<(nat, nat)>)
    ensures r == Decoding(data, pos)
  {
    var result: nat, shift: nat, p: nat := 0, 0, pos;
    while true
      invariant result < Shl(1, shift)
      invariant Decoding(data, pos) == Shifted(Decoding(data, p), result, shift)
      decreases |data| - p
    {
      if p >= |data| {
        return Truncated;
      }
      var b := data[p];
      AccumulateGroup(data, pos, p, result, shift);
      var next := BitOr(result, Shl(b % 128, shift));
      if b < 128 {
        return Ok((next, p + 1));
      }
      result, shift, p := next, shift + 7, p + 1;
    }
  }
}
