/** The fixed-width byte layouts of library/binarypack/bp.go (lines 234-307):
    integers and booleans as two's-complement bytes cut to the field width,
    and float payloads as opaque 32- and 64-bit patterns whose bytes are put
    in the chosen byte order. */
module Encoding {
  import opened Bytes

  /** `binary.LittleEndian` and `binary.BigEndian`. */
  datatype Order = LittleEndian | BigEndian

  type int64 = x: int | -0x8000_0000_0000_0000 <= x < 0x8000_0000_0000_0000
  type uint32 = x: int | 0 <= x < 0x1_0000_0000
  type uint64 = x: int | 0 <= x < 0x1_0000_0000_0000_0000

  const TWO_64: nat := 0x1_0000_0000_0000_0000

  /** The byte widths a signed integer field can have. */
  predicate IsIntWidth(size: nat) {
    size == 1 || size == 2 || size == 4 || size == 8
  }

  function Pow256(k: nat): (r: int)
    ensures r >= 1
  {
    if k == 0 then 1 else 256 * Pow256(k - 1)
  }

  lemma Pow256Widths()
    ensures Pow256(1) == 0x100 && Pow256(2) == 0x1_0000
    ensures Pow256(4) == 0x1_0000_0000 && Pow256(8) == TWO_64
  {
    assert Pow256(2) == 256 * Pow256(1);
    assert Pow256(3) == 256 * Pow256(2);
    assert Pow256(4) == 256 * Pow256(3);
    assert Pow256(8) == 256 * 256 * 256 * 256 * Pow256(4);
  }

  /** Euclidean division is unique: any `q`, `r` with `u == d * q + r` and
      `0 <= r < d` are the quotient and the remainder. */
  lemma {:induction false} DivModUnique(u: int, d: int, q: int, r: int)
    requires d > 0 && 0 <= r < d && u == d * q + r
    ensures u / d == q && u % d == r
  {
    var q', r' := u / d, u % d;
    assert u == d * q' + r';
    MulDistributes(d, q, q');
    if q > q' {
      MulAtLeast(d, q - q');
    } else if q < q' {
      MulDistributes(d, q', q);
      MulAtLeast(d, q' - q);
    }
  }

  lemma {:induction false} MulDistributes(d: int, a: int, b: int)
    ensures d * (a - b) == d * a - d * b
  {
  }

  lemma {:induction false} MulAtLeast(d: nat, k: int)
    requires k >= 1
    ensures d * k >= d
  {
    if k > 1 {
      MulAtLeast(d, k - 1);
      MulDistributes(d, k, 1);
    }
  }

  lemma {:induction false} MulAssociates(a: int, b: int, c: int)
    ensures (a * b) * c == a * (b * c)
  {
  }

  /** Reducing modulo a multiple of `d` first does not change the remainder. */
  lemma {:induction false} ModOfMod(u: int, d: nat, m: nat)
    requires d > 0 && m > 0
    ensures (u % (d * m)) % d == u % d
  {
    var q, r := u / (d * m), u % (d * m);
    assert u == (d * m) * q + r;
    var q2, r2 := r / d, r % d;
    assert r == d * q2 + r2;
    assert u == d * (m * q + q2) + r2;
    DivModUnique(u, d, m * q + q2, r2);
  }

  /** The low `size` bytes of `u`, least significant first. */
  function LittleBytes(u: nat, size: nat): (r: seq<byte>)
    ensures |r| == size
  {
    if size == 0 then [] else [u % 256] + LittleBytes(u / 256, size - 1)
  }

  /** The unsigned number whose bytes, least significant first, are `b`. */
  function LittleValue(b: seq<byte>): (v: nat)
    ensures v < Pow256(|b|)
  {
    if b == [] then 0 else b[0] + 256 * LittleValue(b[1..])
  }

  /** Taking `u` modulo 256 * p splits into its low byte and the rest
      taken modulo p. */
  lemma {:induction false} ModSplit(u: nat, p: int)
    requires p >= 1
    ensures u % (256 * p) == u % 256 + 256 * ((u / 256) % p)
  {
    var q := u / 256;
    var a, b := q / p, q % p;
    DivModDecompose(q, p);
    MulAssociates(256, p, a);
    assert u == (256 * p) * a + (256 * b + u % 256);
    DivModUnique(u, 256 * p, a, 256 * b + u % 256);
  }

  lemma DivModDecompose(q: int, p: int)
    requires p >= 1
    ensures q == p * (q / p) + q % p && 0 <= q % p < p
  {
  }

  /** Reading back the low `size` bytes of `u` gives `u` modulo 256^size. */
  lemma {:induction false} LittleValueOfBytes(u: nat, size: nat)
    ensures LittleValue(LittleBytes(u, size)) == u % Pow256(size)
  {
    if size > 0 {
      var bytes := LittleBytes(u, size);
      LittleValueOfBytes(u / 256, size - 1);
      assert bytes[0] == u % 256 && bytes[1..] == LittleBytes(u / 256, size - 1);
      ModSplit(u, Pow256(size - 1));
    }
  }

  /** Writing out the value of a byte sequence gives the sequence back. */
  lemma {:induction false} LittleBytesOfValue(b: seq<byte>)
    ensures LittleBytes(LittleValue(b), |b|) == b
  {
    if b != [] {
      var v := LittleValue(b);
      DivModUnique(v, 256, LittleValue(b[1..]), b[0]);
      LittleBytesOfValue(b[1..]);
    }
  }

  /** The low bytes of `u` depend only on `u` modulo 256^size. */
  lemma {:induction false} LittleBytesMod(u: nat, size: nat)
    ensures LittleBytes(u, size) == LittleBytes(u % Pow256(size), size)
  {
    LittleValueOfBytes(u, size);
    LittleBytesOfValue(LittleBytes(u, size));
    LittleValueOfBytes(u % Pow256(size), size);
    assert (u % Pow256(size)) % Pow256(size) == u % Pow256(size);
  }

  /** The low `k` of the low `m` bytes are the low `k` bytes. */
  lemma {:induction false} LittleBytesPrefix(u: nat, m: nat, k: nat)
    requires k <= m
    ensures LittleBytes(u, m)[..k] == LittleBytes(u, k)
  {
    if k > 0 {
      LittleBytesPrefix(u / 256, m - 1, k - 1);
    }
  }

  /** Bytes laid out least significant first, put in `order`. */
  function InOrder(b: seq<byte>, order: Order): (r: seq<byte>)
    ensures |r| == |b|
  {
    if order == BigEndian then Reversed(b) else b
  }

  lemma {:induction false} InOrderTwice(b: seq<byte>, order: Order)
    ensures InOrder(InOrder(b, order), order) == b
  {
    ReversedTwice(b);
  }

  /** `binary.Write(buf, order, n)` for an int64: its eight two's-complement
      bytes in `order`. */
  function Int64Bytes(n: int64, order: Order): (r: seq<byte>)
    ensures |r| == 8
  {
    InOrder(LittleBytes(n % TWO_64, 8), order)
  }

  /** `int64ToBytes`: the eight bytes `binary.Write` produces, cut to the
      last `size` under big-endian and the first `size` under little-endian.
      Either way the field is the low `size` bytes of the two's-complement
      value, put in `order`. */
  function Int64ToBytes(n: int64, size: nat, order: Order): (r: seq<byte>)
    requires size <= 8
    ensures r == InOrder(LittleBytes(n % TWO_64, size), order)
  {
    var full := Int64Bytes(n, order);
    LittleBytesPrefix(n % TWO_64, 8, size);
    if order == BigEndian then
      assert full[8 - size..] == Reversed(LittleBytes(n % TWO_64, 8)[..size]);
      full[8 - size..]
    else
      full[..size]
  }

  /** The signed value of a `size`-byte two's-complement pattern `u`: the
      one number in the signed range of that width congruent to `u`. */
  function SignExtend(u: nat, size: nat): (r: int)
    requires IsIntWidth(size) && u < Pow256(size)
    ensures -Pow256(size) / 2 <= r < Pow256(size) / 2
    ensures r % Pow256(size) == u
  {
    var p := Pow256(size);
    Pow256Widths();
    if u >= p / 2 then
      DivModUnique(u - p, p, -1, u);
      u - p
    else
      DivModUnique(u, p, 0, u);
      u
  }

  /** A number in the signed range of a width is its own sign extension. */
  lemma {:induction false} SignExtendInRange(n: int, size: nat)
    requires IsIntWidth(size) && -Pow256(size) / 2 <= n < Pow256(size) / 2
    ensures SignExtend(n % Pow256(size), size) == n
  {
    var p := Pow256(size);
    Pow256Widths();
    if n < 0 {
      DivModUnique(n, p, -1, n + p);
    } else {
      DivModUnique(n, p, 0, n);
    }
  }

  /** `bytesToInt64`: the field read as a signed integer of its own width
      (int8, int16, int32 or int64) in `order`, and sign-extended, so the
      result is in that width's signed range. */
  function BytesToInt64(b: seq<byte>, order: Order): (r: int64)
    requires IsIntWidth(|b|)
    ensures -Pow256(|b|) / 2 <= r < Pow256(|b|) / 2
  {
    Pow256Widths();
    SignExtend(LittleValue(InOrder(b, order)), |b|)
  }

  /** The low bytes of an integer's 64-bit two's complement are the low
      bytes of the integer modulo 256^size. */
  lemma {:induction false} LowBytesOfInt(n: int, size: nat)
    requires IsIntWidth(size)
    ensures LittleBytes(n % TWO_64, size) == LittleBytes(n % Pow256(size), size)
  {
    Pow256Widths();
    var p := Pow256(size);
    var m := TWO_64 / p;
    assert TWO_64 == p * m by {
      if size == 1 { assert m == 0x100_0000_0000_0000; }
      else if size == 2 { assert m == 0x1_0000_0000_0000; }
      else if size == 4 { assert m == 0x1_0000_0000; }
    }
    LittleBytesMod(n % TWO_64, size);
    ModOfMod(n, p, m);
  }

  /** Writing back what `BytesToInt64` read reproduces the field. */
  lemma {:induction false} BytesToInt64Encodes(b: seq<byte>, order: Order)
    requires IsIntWidth(|b|)
    ensures Int64ToBytes(BytesToInt64(b, order), |b|, order) == b
  {
    var r := BytesToInt64(b, order);
    var c := InOrder(b, order);
    Pow256Widths();
    assert r == SignExtend(LittleValue(c), |b|);
    LowBytesOfInt(r, |b|);
    LittleBytesOfValue(c);
    InOrderTwice(b, order);
  }

  /** An integer packed into `size` bytes reads back as its value modulo
      256^size, sign-extended; so one in the signed range of that width
      reads back unchanged. */
  lemma {:induction false} Int64RoundTrip(n: int64, size: nat, order: Order)
    requires IsIntWidth(size)
    ensures BytesToInt64(Int64ToBytes(n, size, order), order) == SignExtend(n % Pow256(size), size)
    ensures -Pow256(size) / 2 <= n < Pow256(size) / 2 ==> BytesToInt64(Int64ToBytes(n, size, order), order) == n
  {
    Pow256Widths();
    var p := Pow256(size);
    LowBytesOfInt(n, size);
    InOrderTwice(LittleBytes(n % p, size), order);
    LittleValueOfBytes(n % p, size);
    DivModUnique(n % p, p, 0, n % p);
    if -p / 2 <= n < p / 2 {
      SignExtendInRange(n, size);
    }
  }

  /** `boolToBytes`: the one-byte integer 1 for true and 0 for false. */
  function BoolToBytes(x: bool, order: Order): (r: seq<byte>)
    ensures r == [if x then 1 else 0]
  {
    Pow256Widths();
    if x then Int64ToBytes(1, 1, order) else Int64ToBytes(0, 1, order)
  }

  /** `bytesToBool`: the byte read as an int8 is positive, so only 1..127
      reads as true and 0x80..0xFF, being negative, read as false. */
  function BytesToBool(b: seq<byte>, order: Order): (r: bool)
    requires |b| == 1
    ensures r <==> 1 <= b[0] < 128
  {
    Pow256Widths();
    var n := BytesToInt64(b, order);
    assert LittleValue(InOrder(b, order)) == b[0];
    n > 0
  }

  /** `float32ToBytes` with `size` 4: the float's 32-bit pattern in `order`. */
  function Float32ToBytes(bits: uint32, order: Order): (r: seq<byte>)
    ensures |r| == 4 && LittleValue(InOrder(r, order)) == bits
  {
    Pow256Widths();
    InOrderTwice(LittleBytes(bits, 4), order);
    LittleValueOfBytes(bits, 4);
    InOrder(LittleBytes(bits, 4), order)
  }

  /** `bytesToFloat32`: four bytes in `order` read as a 32-bit pattern. */
  function BytesToFloat32(b: seq<byte>, order: Order): (r: uint32)
    requires |b| == 4
    ensures LittleBytes(r, 4) == InOrder(b, order)
  {
    LittleBytesOfValue(InOrder(b, order));
    Pow256Widths();
    LittleValue(InOrder(b, order))
  }

  /** `float64ToBytes` with `size` 8: the float's 64-bit pattern in `order`. */
  function Float64ToBytes(bits: uint64, order: Order): (r: seq<byte>)
    ensures |r| == 8 && LittleValue(InOrder(r, order)) == bits
  {
    Pow256Widths();
    InOrderTwice(LittleBytes(bits, 8), order);
    LittleValueOfBytes(bits, 8);
    InOrder(LittleBytes(bits, 8), order)
  }

  /** `bytesToFloat64`: eight bytes in `order` read as a 64-bit pattern. */
  function BytesToFloat64(b: seq<byte>, order: Order): (r: uint64)
    requires |b| == 8
    ensures LittleBytes(r, 8) == InOrder(b, order)
  {
    LittleBytesOfValue(InOrder(b, order));
    Pow256Widths();
    LittleValue(InOrder(b, order))
  }

  /** Writing back the bit pattern a float field was read as reproduces
      the field. */
  lemma {:induction false} FloatBytesEncode(b4: seq<byte>, b8: seq<byte>, order: Order)
    requires |b4| == 4 && |b8| == 8
    ensures Float32ToBytes(BytesToFloat32(b4, order), order) == b4
    ensures Float64ToBytes(BytesToFloat64(b8, order), order) == b8
  {
    LittleBytesOfValue(InOrder(b4, order));
    InOrderTwice(b4, order);
    LittleBytesOfValue(InOrder(b8, order));
    InOrderTwice(b8, order);
  }

  /** An unsigned pattern that fits in `size` bytes survives being laid out
      in either order and read back. */
  lemma {:induction false} UnsignedRoundTrip(u: nat, size: nat, order: Order)
    requires u < Pow256(size)
    ensures LittleValue(InOrder(InOrder(LittleBytes(u, size), order), order)) == u
  {
    InOrderTwice(LittleBytes(u, size), order);
    LittleValueOfBytes(u, size);
    DivModUnique(u, Pow256(size), 0, u);
  }

  /** A float's bit pattern survives being written and read back. */
  lemma {:induction false} FloatRoundTrip(bits32: uint32, bits64: uint64, order: Order)
    ensures BytesToFloat32(Float32ToBytes(bits32, order), order) == bits32
    ensures BytesToFloat64(Float64ToBytes(bits64, order), order) == bits64
  {
    Pow256Widths();
    UnsignedRoundTrip(bits32, 4, order);
    UnsignedRoundTrip(bits64, 8, order);
  }

  /** Big-endian fields are little-endian fields read back to front. */
  lemma {:induction false} BigEndianIsReversed(n: int64, size: nat, bits32: uint32, bits64: uint64)
    requires size <= 8
    ensures Int64ToBytes(n, size, BigEndian) == Reversed(Int64ToBytes(n, size, LittleEndian))
    ensures Float32ToBytes(bits32, BigEndian) == Reversed(Float32ToBytes(bits32, LittleEndian))
    ensures Float64ToBytes(bits64, BigEndian) == Reversed(Float64ToBytes(bits64, LittleEndian))
  {
  }
}
