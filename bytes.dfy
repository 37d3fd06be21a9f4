/** Byte-level framing shared by the chunk lister and the chunk remover:
    4-byte big-endian fields, read by multiplying out the bytes and written
    back with JavaScript's `>>` and `& 0xff`. */
module Bytes {

  /** One element of a `Uint8Array`. */
  type byte = x: int | 0 <= x < 0x100

  /** 2^32: every length and CRC field value lies below it. */
  const TwoTo32: int := 0x1_0000_0000

  /** The value of the big-endian field `buf[i..i+4]`, computed as
      `b0 * 0x1000000 + b1 * 0x10000 + b2 * 0x100 + b3`. */
  function BeU32(buf: seq<byte>, i: nat): (v: nat)
    requires i + 4 <= |buf|
    ensures v < 0x1_0000_0000
  {
    buf[i] as int * 0x1000000 + buf[i + 1] as int * 0x10000 + buf[i + 2] as int * 0x100 + buf[i + 3] as int
  }

  /** The expression `a[i] * 0x1000000 + a[i + 1] * 0x10000 + a[i + 2] * 0x100
      + a[i + 3]` that both walks evaluate on the input array. */
  method ReadU32(a: array<byte>, i: nat) returns (v: nat)
    requires i + 4 <= a.Length
    ensures v == BeU32(a[..], i)
  {
    v := a[i] as int * 0x1000000 + a[i + 1] as int * 0x10000 + a[i + 2] as int * 0x100 + a[i + 3] as int;
  }

  /** JavaScript's ToInt32: the signed 32-bit integer congruent to `x`
      modulo 2^32, which is what `>>` and `&` apply to their operands. */
  function ToInt32(x: int): (v: int)
    ensures -0x8000_0000 <= v < 0x8000_0000
    ensures (x - v) % 0x1_0000_0000 == 0
  {
    var m := x % 0x1_0000_0000;
    if m < 0x8000_0000 then m else m - 0x1_0000_0000
  }

  /** The four bytes `(x >> 24) & 0xff, (x >> 16) & 0xff, (x >> 8) & 0xff,
      x & 0xff` that the remover writes for a length or CRC field, as
      JavaScript evaluates them: both operators work on ToInt32(x), `>> k`
      is an arithmetic shift (a floor division by 2^k, which is what `/`
      is here for a positive divisor) and `& 0xff` keeps the low eight bits
      of the two's-complement result (a remainder modulo 256). Reading the
      bytes back with BeU32 gives `x` for every value below 2^32, including
      those at or above 2^31 whose shifted signed form is negative. */
  function BeBytes(x: int): (s: seq<byte>)
    ensures |s| == 4
    ensures 0 <= x < 0x1_0000_0000 ==> BeU32(s, 0) == x
  {
    var v := ToInt32(x);
    var s := [(v / 0x100_0000) % 0x100, (v / 0x1_0000) % 0x100, (v / 0x100) % 0x100, v % 0x100];
    assert 0 <= x < 0x1_0000_0000 ==> BeU32(s, 0) == x by {
      if 0 <= x < 0x1_0000_0000 {
        SignedBytes(x);
        EncodeDecode(x);
      }
    }
    s
  }

  /** For `x` below 2^32 the bytes of ToInt32(x) are the bytes of `x`. */
  lemma SignedBytes(x: int)
    requires 0 <= x < 0x1_0000_0000
    ensures var v := ToInt32(x);
      && (v / 0x100_0000) % 0x100 == (x / 0x100_0000) % 0x100
      && (v / 0x1_0000) % 0x100 == (x / 0x1_0000) % 0x100
      && (v / 0x100) % 0x100 == (x / 0x100) % 0x100
      && v % 0x100 == x % 0x100
  {
    if x >= 0x8000_0000 {
      assert ToInt32(x) == x - 0x1_0000_0000;
      ShiftNegative(x, 0x100_0000, 0x100);
      ShiftNegative(x, 0x1_0000, 0x1_0000);
      ShiftNegative(x, 0x100, 0x100_0000);
      ShiftNegative(x, 1, 0x1_0000_0000);
    }
  }

  /** When `x >= 2^31` its signed form is `x - 2^32`; dividing that by 2^k
      (k = 0, 8, 16, 24) lowers the quotient by m = 2^(32-k), a multiple of
      0x100, which leaves its low byte unchanged. */
  lemma ShiftNegative(x: int, d: int, m: int)
    requires (d == 1 && m == 0x1_0000_0000) || (d == 0x100 && m == 0x100_0000)
          || (d == 0x1_0000 && m == 0x1_0000) || (d == 0x100_0000 && m == 0x100)
    ensures (x - 0x1_0000_0000) / d == x / d - m
    ensures ((x - 0x1_0000_0000) / d) % 0x100 == (x / d) % 0x100
  {
    if d == 1 {
      assert (x - 0x1_0000_0000) / 1 == x / 1 - 0x1_0000_0000;
    } else if d == 0x100 {
      assert (x - 0x1_0000_0000) / 0x100 == x / 0x100 - 0x100_0000;
    } else if d == 0x1_0000 {
      assert (x - 0x1_0000_0000) / 0x1_0000 == x / 0x1_0000 - 0x1_0000;
    } else {
      assert (x - 0x1_0000_0000) / 0x100_0000 == x / 0x100_0000 - 0x100;
    }
  }

  /** Encoding then decoding: the four bytes of a value below 2^32,
      recombined as BeU32 does, give the value back. */
  lemma EncodeDecode(x: int)
    requires 0 <= x < 0x1_0000_0000
    ensures (x / 0x100_0000) % 0x100 * 0x100_0000 + (x / 0x1_0000) % 0x100 * 0x1_0000
            + (x / 0x100) % 0x100 * 0x100 + x % 0x100 == x
  {
    var a, ra := x / 0x100_0000, x % 0x100_0000;
    var b, rb := ra / 0x1_0000, ra % 0x1_0000;
    var c, e := rb / 0x100, rb % 0x100;
    assert x == a * 0x100_0000 + b * 0x1_0000 + c * 0x100 + e;
    assert a < 0x100;
    assert (x / 0x1_0000) == a * 0x100 + b;
    assert (x / 0x100) == a * 0x1_0000 + b * 0x100 + c;
    assert (x / 0x100_0000) % 0x100 == a;
    assert (x / 0x1_0000) % 0x100 == b;
    assert (x / 0x100) % 0x100 == c;
    assert x % 0x100 == e;
  }

  /** Decoding then encoding: writing back the value read from `buf[i..i+4]`
      reproduces those four bytes. */
  lemma {:induction false} DecodeEncode(buf: seq<byte>, i: nat)
    requires i + 4 <= |buf|
    ensures BeBytes(BeU32(buf, i)) == buf[i..i + 4]
  {
    var x := BeU32(buf, i);
    var s := BeBytes(x);
    var b0, b1, b2, b3: int := buf[i], buf[i + 1], buf[i + 2], buf[i + 3];
    assert x == ((b0 * 0x100 + b1) * 0x100 + b2) * 0x100 + b3;
    assert x / 0x100 == (b0 * 0x100 + b1) * 0x100 + b2;
    assert x / 0x1_0000 == b0 * 0x100 + b1;
    assert x / 0x100_0000 == b0;
    assert s[0] == b0 && s[1] == b1 && s[2] == b2 && s[3] == b3;
  }
}
