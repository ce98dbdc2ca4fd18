/**
 * The byte reader: fixed-width integers read at absolute offsets of an immutable
 * byte buffer, in little- or big-endian order, with two's-complement reinterpretation
 * for the signed widths (the `byteorder` crate's `read_*` functions), and the few
 * bit operations (`&`, `>>`) the decoders apply to the words they read.
 */
module Bytes {

  type Byte = b: int | 0 <= b < 0x100

  const U16_LIMIT: int := 0x1_0000
  const U32_LIMIT: int := 0x1_0000_0000
  /** The width of the i32/u32 words the decoders mask. */
  const WORD_BITS: nat := 32
  const BYTE_BITS: nat := 8

  /** The span `s[at..at + n]` lies inside the buffer (otherwise Rust's slice index panics). */
  predicate InBounds(s: seq<Byte>, at: int, n: nat) {
    0 <= at && at + n <= |s|
  }

  predicate InI16(x: int) {
    -0x8000 <= x < 0x8000
  }

  predicate InI32(x: int) {
    -0x8000_0000 <= x < 0x8000_0000
  }

  /** The i16 whose two's-complement bit pattern is `u`. */
  function ToI16(u: int): (r: int)
    requires 0 <= u < U16_LIMIT
    ensures InI16(r) && (r == u || r == u - U16_LIMIT)
  {
    if u < 0x8000 then u else u - U16_LIMIT
  }

  /** The i32 whose two's-complement bit pattern is `u` (Rust's `u32 as i32`). */
  function ToI32(u: int): (r: int)
    requires 0 <= u < U32_LIMIT
    ensures InI32(r) && (r == u || r == u - U32_LIMIT)
  {
    if u < 0x8000_0000 then u else u - U32_LIMIT
  }

  /** The u32 bit pattern of the i32 `v` (Rust's `i32 as u32`). */
  function AsU32(v: int): (r: nat)
    requires InI32(v)
    ensures r < U32_LIMIT && r % U32_LIMIT == v % U32_LIMIT
  {
    if v >= 0 then v else v + U32_LIMIT
  }

  /** `as u32` and `as i32` undo each other. */
  lemma AsU32RoundTrip(v: int, u: int)
    requires InI32(v) && 0 <= u < U32_LIMIT
    ensures ToI32(AsU32(v)) == v && AsU32(ToI32(u)) == u
  {
  }

  function U16BE(s: seq<Byte>, at: int): (r: int)
    requires InBounds(s, at, 2)
    ensures 0 <= r < U16_LIMIT
  {
    s[at] as int * 0x100 + s[at + 1]
  }

  function I16BE(s: seq<Byte>, at: int): (r: int)
    requires InBounds(s, at, 2)
    ensures InI16(r)
  {
    ToI16(U16BE(s, at))
  }

  function U32LE(s: seq<Byte>, at: int): (r: int)
    requires InBounds(s, at, 4)
    ensures 0 <= r < U32_LIMIT
  {
    s[at] as int + 0x100 * (s[at + 1] as int) + 0x1_0000 * (s[at + 2] as int) + 0x100_0000 * (s[at + 3] as int)
  }

  function I32LE(s: seq<Byte>, at: int): (r: int)
    requires InBounds(s, at, 4)
    ensures InI32(r)
  {
    ToI32(U32LE(s, at))
  }

  function U32BE(s: seq<Byte>, at: int): (r: int)
    requires InBounds(s, at, 4)
    ensures 0 <= r < U32_LIMIT
  {
    0x100_0000 * (s[at] as int) + 0x1_0000 * (s[at + 1] as int) + 0x100 * (s[at + 2] as int) + s[at + 3]
  }

  function I32BE(s: seq<Byte>, at: int): (r: int)
    requires InBounds(s, at, 4)
    ensures InI32(r)
  {
    ToI32(U32BE(s, at))
  }

  // Writers: the inverse of each reader, used to state what the readers decode.

  function EncodeU16BE(v: int): (s: seq<Byte>)
    requires 0 <= v < U16_LIMIT
    ensures |s| == 2
  {
    [v / 0x100, v % 0x100]
  }

  function EncodeI16BE(v: int): (s: seq<Byte>)
    requires InI16(v)
    ensures |s| == 2
  {
    EncodeU16BE(v % U16_LIMIT)
  }

  function EncodeU32LE(v: int): (s: seq<Byte>)
    requires 0 <= v < U32_LIMIT
    ensures |s| == 4
  {
    [v % 0x100, v / 0x100 % 0x100, v / 0x100 / 0x100 % 0x100, v / 0x100 / 0x100 / 0x100]
  }

  function EncodeI32LE(v: int): (s: seq<Byte>)
    requires InI32(v)
    ensures |s| == 4
  {
    EncodeU32LE(v % U32_LIMIT)
  }

  function EncodeU32BE(v: int): (s: seq<Byte>)
    requires 0 <= v < U32_LIMIT
    ensures |s| == 4
  {
    [v / 0x100 / 0x100 / 0x100, v / 0x100 / 0x100 % 0x100, v / 0x100 % 0x100, v % 0x100]
  }

  function EncodeI32BE(v: int): (s: seq<Byte>)
    requires InI32(v)
    ensures |s| == 4
  {
    EncodeU32BE(v % U32_LIMIT)
  }

  /** Reading a big-endian i16 inverts writing one, and the other way round. */
  lemma I16BERoundTrip(v: int, s: seq<Byte>, at: int)
    requires InI16(v) && InBounds(s, at, 2)
    ensures I16BE(EncodeI16BE(v), 0) == v
    ensures EncodeI16BE(I16BE(s, at)) == s[at..at + 2]
  {
    U16BERoundTrip(v % U16_LIMIT, s, at);
    I16Bits(v);
    BitsOfI16(U16BE(s, at));
  }

  /** An i16 survives the trip through its two's-complement bit pattern. */
  lemma I16Bits(v: int)
    requires InI16(v)
    ensures 0 <= v % U16_LIMIT < U16_LIMIT && ToI16(v % U16_LIMIT) == v
  {
    if v < 0 {
      assert v % U16_LIMIT == v + U16_LIMIT;
    }
  }

  /** A 16-bit pattern survives the trip through the i16 it stands for. */
  lemma BitsOfI16(u: int)
    requires 0 <= u < U16_LIMIT
    ensures ToI16(u) % U16_LIMIT == u
  {
    if u >= 0x8000 {
      assert (u - U16_LIMIT) % U16_LIMIT == u;
    }
  }

  /** Reading a big-endian u16 inverts writing one, and the other way round. */
  lemma U16BERoundTrip(v: int, s: seq<Byte>, at: int)
    requires 0 <= v < U16_LIMIT && InBounds(s, at, 2)
    ensures U16BE(EncodeU16BE(v), 0) == v
    ensures EncodeU16BE(U16BE(s, at)) == s[at..at + 2]
  {
    assert v == 0x100 * (v / 0x100) + v % 0x100;
    SplitByte(s[at] as int, s[at + 1] as int);
  }

  /** Splitting `256 * hi + lo` back into its high part and its low byte. */
  lemma SplitByte(hi: int, lo: int)
    requires hi >= 0 && 0 <= lo < 0x100
    ensures (0x100 * hi + lo) / 0x100 == hi && (0x100 * hi + lo) % 0x100 == lo
  {
  }

  /** Reading a little-endian u32 inverts writing one, and the other way round. */
  lemma U32LERoundTrip(v: int, s: seq<Byte>, at: int)
    requires 0 <= v < U32_LIMIT && InBounds(s, at, 4)
    ensures U32LE(EncodeU32LE(v), 0) == v
    ensures EncodeU32LE(U32LE(s, at)) == s[at..at + 4]
  {
    var v1 := v / 0x100;
    var v2 := v1 / 0x100;
    assert v == 0x100 * v1 + v % 0x100;
    assert v1 == 0x100 * v2 + v1 % 0x100;
    assert v2 == 0x100 * (v2 / 0x100) + v2 % 0x100;
    var hi2 := s[at + 2] as int + 0x100 * (s[at + 3] as int);
    var hi1 := s[at + 1] as int + 0x100 * hi2;
    assert U32LE(s, at) == 0x100 * hi1 + s[at];
    SplitByte(hi1, s[at]);
    SplitByte(hi2, s[at + 1]);
    SplitByte(s[at + 3], s[at + 2]);
  }

  /** Reading a big-endian u32 inverts writing one, and the other way round. */
  lemma U32BERoundTrip(v: int, s: seq<Byte>, at: int)
    requires 0 <= v < U32_LIMIT && InBounds(s, at, 4)
    ensures U32BE(EncodeU32BE(v), 0) == v
    ensures EncodeU32BE(U32BE(s, at)) == s[at..at + 4]
  {
    var v1 := v / 0x100;
    var v2 := v1 / 0x100;
    assert v == 0x100 * v1 + v % 0x100;
    assert v1 == 0x100 * v2 + v1 % 0x100;
    assert v2 == 0x100 * (v2 / 0x100) + v2 % 0x100;
    var hi2 := s[at + 1] as int + 0x100 * (s[at] as int);
    var hi1 := s[at + 2] as int + 0x100 * hi2;
    assert U32BE(s, at) == 0x100 * hi1 + s[at + 3];
    SplitByte(hi1, s[at + 3]);
    SplitByte(hi2, s[at + 2]);
    SplitByte(s[at], s[at + 1]);
  }

  /** Reading a little-endian i32 inverts writing one, and the other way round. */
  lemma I32LERoundTrip(v: int, s: seq<Byte>, at: int)
    requires InI32(v) && InBounds(s, at, 4)
    ensures I32LE(EncodeI32LE(v), 0) == v
    ensures EncodeI32LE(I32LE(s, at)) == s[at..at + 4]
  {
    U32LERoundTrip(v % U32_LIMIT, s, at);
    I32Bits(v);
    BitsOfI32(U32LE(s, at));
  }

  /** An i32 survives the trip through its two's-complement bit pattern. */
  lemma I32Bits(v: int)
    requires InI32(v)
    ensures 0 <= v % U32_LIMIT < U32_LIMIT && ToI32(v % U32_LIMIT) == v
  {
    if v < 0 {
      assert v % U32_LIMIT == v + U32_LIMIT;
    }
  }

  /** A 32-bit pattern survives the trip through the i32 it stands for. */
  lemma BitsOfI32(u: int)
    requires 0 <= u < U32_LIMIT
    ensures ToI32(u) % U32_LIMIT == u
  {
    if u >= 0x8000_0000 {
      assert (u - U32_LIMIT) % U32_LIMIT == u;
    }
  }

  /** Reading a big-endian i32 inverts writing one, and the other way round. */
  lemma I32BERoundTrip(v: int, s: seq<Byte>, at: int)
    requires InI32(v) && InBounds(s, at, 4)
    ensures I32BE(EncodeI32BE(v), 0) == v
    ensures EncodeI32BE(I32BE(s, at)) == s[at..at + 4]
  {
    U32BERoundTrip(v % U32_LIMIT, s, at);
    I32Bits(v);
    BitsOfI32(U32BE(s, at));
  }

  /** A big-endian i16 written at `at` reads back at `at`. */
  lemma I16BEAt(s: seq<Byte>, at: int, v: int)
    requires InI16(v) && InBounds(s, at, 2) && s[at..at + 2] == EncodeI16BE(v)
    ensures I16BE(s, at) == v
  {
    I16BERoundTrip(v, s, at);
    assert s[at] == EncodeI16BE(v)[0] && s[at + 1] == EncodeI16BE(v)[1];
  }

  /** A big-endian u16 written at `at` reads back at `at`. */
  lemma U16BEAt(s: seq<Byte>, at: int, v: int)
    requires 0 <= v < U16_LIMIT && InBounds(s, at, 2) && s[at..at + 2] == EncodeU16BE(v)
    ensures U16BE(s, at) == v
  {
    U16BERoundTrip(v, s, at);
    assert s[at] == EncodeU16BE(v)[0] && s[at + 1] == EncodeU16BE(v)[1];
  }

  /** A little-endian i32 written at `at` reads back at `at`. */
  lemma I32LEAt(s: seq<Byte>, at: int, v: int)
    requires InI32(v) && InBounds(s, at, 4) && s[at..at + 4] == EncodeI32LE(v)
    ensures I32LE(s, at) == v
  {
    I32LERoundTrip(v, s, at);
    var e := EncodeI32LE(v);
    assert s[at] == e[0] && s[at + 1] == e[1] && s[at + 2] == e[2] && s[at + 3] == e[3];
  }

  /** A big-endian i32 written at `at` reads back at `at`. */
  lemma I32BEAt(s: seq<Byte>, at: int, v: int)
    requires InI32(v) && InBounds(s, at, 4) && s[at..at + 4] == EncodeI32BE(v)
    ensures I32BE(s, at) == v
  {
    I32BERoundTrip(v, s, at);
    var e := EncodeI32BE(v);
    assert s[at] == e[0] && s[at + 1] == e[1] && s[at + 2] == e[2] && s[at + 3] == e[3];
  }

  // Bit operations

  function Pow2(n: nat): (r: nat)
    ensures r >= 1
  {
    if n == 0 then 1 else 2 * Pow2(n - 1)
  }

  /** `v >> s` on an unsigned value, one halving per position shifted. */
  function Shr(v: nat, s: nat): nat {
    if s == 0 then v else Shr(v / 2, s - 1)
  }

  /** Bit `k` (counting from the least significant) of `a` is set: `(a >> k) & 1 == 1`. */
  predicate TestBit(a: nat, k: nat) {
    if k == 0 then a % 2 == 1 else TestBit(a / 2, k - 1)
  }

  /** The value of a bit string read from its most significant bit down. */
  function FromBits(b: seq<bool>): (r: nat)
    ensures r < Pow2(|b|)
  {
    if |b| == 0 then 0 else 2 * FromBits(b[..|b| - 1]) + (if b[|b| - 1] then 1 else 0)
  }

  /** `a & b` restricted to the low `n` bits, computed bit by bit from the least significant. */
  function AndBits(a: nat, b: nat, n: nat): nat {
    if n == 0 then 0
    else (if a % 2 == 1 && b % 2 == 1 then 1 else 0) + 2 * AndBits(a / 2, b / 2, n - 1)
  }

  /** Rust's `x & m` on two i32 values, as the unsigned value of the resulting bit pattern. */
  function And32(x: int, m: int): nat {
    AndBits(x % U32_LIMIT, m % U32_LIMIT, WORD_BITS)
  }

  lemma {:induction false} Pow2Step8(n: nat)
    ensures Pow2(n + 8) == 0x100 * Pow2(n)
  {
    assert Pow2(n + 8) == 2 * Pow2(n + 7) == 4 * Pow2(n + 6) == 8 * Pow2(n + 5) == 16 * Pow2(n + 4);
    assert Pow2(n + 4) == 2 * Pow2(n + 3) == 4 * Pow2(n + 2) == 8 * Pow2(n + 1) == 16 * Pow2(n);
  }

  lemma Pow2Is32()
    ensures Pow2(32) == U32_LIMIT
  {
    Pow2Step8(0);
    Pow2Step8(8);
    Pow2Step8(16);
    Pow2Step8(24);
  }

  /** Shifting a power of two right by `j` places divides it by `2^j`. */
  lemma {:induction false} ShrPow2(a: nat, j: nat)
    requires j <= a
    ensures Shr(Pow2(a), j) == Pow2(a - j)
  {
    if j > 0 {
      assert Pow2(a) / 2 == Pow2(a - 1);
      ShrPow2(a - 1, j - 1);
    }
  }

  /** Masking with zero clears every bit. */
  lemma {:induction false} AndWithZero(a: nat, n: nat)
    ensures AndBits(a, 0, n) == 0
  {
    if n > 0 {
      AndWithZero(a / 2, n - 1);
    }
  }

  /** Euclidean division is determined by quotient and remainder. */
  lemma DivUnique(a: int, d: int, q: int, r: int)
    requires d > 0 && a == d * q + r && 0 <= r < d
    ensures a / d == q && a % d == r
  {
    var q', r' := a / d, a % d;
    assert a == d * q' + r' && 0 <= r' < d;
    if q > q' {
      MulMonotone(d, q' + 1, q);
      assert false;
    } else if q < q' {
      MulMonotone(d, q + 1, q');
      assert false;
    }
  }

  lemma MulMonotone(d: int, x: int, y: int)
    requires d > 0 && x <= y
    ensures d * x <= d * y
  {
  }

  /** Row `y + 1` of a row-major bitmap starts `width` entries after row `y`. */
  lemma NextRow(width: nat, y: nat)
    ensures y * width + width == (y + 1) * width
  {
  }

  /** Index `k` of a row-major `width` x `height` bitmap is column `x` of row `y`. */
  lemma Unflatten(width: nat, height: nat, k: nat) returns (x: nat, y: nat)
    requires k < width * height
    ensures x < width && y < height && y * width + x == k
  {
    x, y := k % width, k / width;
    if y >= height {
      MulMonotone(width, height, y);
    }
  }

  /** Row-major indexing: entry `y * width + x` of a `width` x `height` bitmap is column `x` of row `y`. */
  lemma FlatIndex(width: nat, height: nat, x: nat, y: nat)
    requires x < width && y < height
    ensures y * width + x < width * height
    ensures (y * width + x) / width == y && (y * width + x) % width == x
  {
    DivUnique(y * width + x, width, y, x);
    MulMonotone(width, y + 1, height);
    assert width * (y + 1) == y * width + width;
  }

  /** Masking with the single bit `2^k` keeps exactly that bit: `a & (1 << k) != 0` tests bit `k`. */
  lemma {:induction false} AndWithPow2(a: nat, k: nat, n: nat)
    requires k < n
    ensures AndBits(a, Pow2(k), n) == if TestBit(a, k) then Pow2(k) else 0
  {
    if k == 0 {
      AndWithZero(a / 2, n - 1);
    } else {
      assert Pow2(k) % 2 == 0 && Pow2(k) / 2 == Pow2(k - 1);
      AndWithPow2(a / 2, k - 1, n - 1);
    }
  }

  /** Masking with 3 keeps the two low bits: `a & 3 == a % 4`. */
  lemma AndWithThree(a: nat, n: nat)
    requires n >= 2
    ensures AndBits(a, 3, n) == a % 4
  {
    var half := a / 2;
    assert half / 2 == a / 4 && a % 4 == a % 2 + 2 * (half % 2);
    AndWithZero(half / 2, n - 2);
    assert AndBits(half, 1, n - 1) == half % 2 + 2 * AndBits(half / 2, 0, n - 2);
    assert AndBits(a, 3, n) == a % 2 + 2 * AndBits(half, 1, n - 1);
  }

  /** On i32 words, `x & (1 << k)` is non-zero exactly when bit `k` of the word's pattern is set. */
  lemma And32SingleBit(x: int, k: nat)
    requires k < 32
    ensures And32(x, Pow2(k)) != 0 <==> TestBit(x % U32_LIMIT, k)
    ensures And32(x, Pow2(k)) == if TestBit(x % U32_LIMIT, k) then Pow2(k) else 0
  {
    var a, p := x % U32_LIMIT, Pow2(k);
    Pow2Below32(k);
    assert p % U32_LIMIT == p;
    assert And32(x, p) == AndBits(a, p, WORD_BITS);
    AndWithPow2(a, k, WORD_BITS);
  }

  lemma Pow2Below32(k: nat)
    requires k < 32
    ensures Pow2(k) < U32_LIMIT
  {
    Pow2Monotone(k, 32);
    Pow2Is32();
  }

  lemma {:induction false} Pow2Monotone(k: nat, n: nat)
    requires k < n
    ensures Pow2(k) < Pow2(n)
  {
    if k < n - 1 {
      Pow2Monotone(k, n - 1);
    }
  }

  /** On i32 words, `x & 3` is `x` modulo 4 (the two low bits of the pattern). */
  lemma And32LowTwoBits(x: int)
    ensures And32(x, 3) == x % 4
  {
    var a, q := x % U32_LIMIT, x / U32_LIMIT;
    AndWithThree(a, WORD_BITS);
    assert x == 4 * (0x4000_0000 * q) + a;
    ModFourShift(a, 0x4000_0000 * q);
  }

  lemma ModFourShift(a: int, k: int)
    ensures (4 * k + a) % 4 == a % 4
  {
  }

  /** Bit `k` of `FromBits(b)` is the `k`-th entry of `b` counted from its end. */
  lemma {:induction false} FromBitsTestBit(b: seq<bool>, k: nat)
    requires k < |b|
    ensures TestBit(FromBits(b), k) <==> b[|b| - 1 - k]
  {
    var n := |b|;
    var a, q, bit := FromBits(b), FromBits(b[..n - 1]), if b[n - 1] then 1 else 0;
    DivUnique(a, 2, q, bit);
    if k > 0 {
      FromBitsTestBit(b[..n - 1], k - 1);
    }
  }
}
