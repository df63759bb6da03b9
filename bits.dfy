/**
 * Fixed-width integer semantics of C/C++ that the decoder relies on:
 * powers of two, two's-complement reinterpretation, wrap-around,
 * bitwise AND with a low mask, and the highest set bit of a word.
 */
module Bits {

  function Pow2(n: nat): (r: nat)
    ensures r >= 1
  {
    if n == 0 then 1 else 2 * Pow2(n - 1)
  }

  lemma {:induction false} Pow2Add(a: nat, b: nat)
    ensures Pow2(a + b) == Pow2(a) * Pow2(b)
  {
    if a > 0 {
      Pow2Add(a - 1, b);
    }
  }

  lemma {:induction false} Pow2Monotone(a: nat, b: nat)
    requires a <= b
    ensures Pow2(a) <= Pow2(b)
  {
    if a < b {
      Pow2Monotone(a, b - 1);
    }
  }

  /** Literal values of the powers of two used by the decoder. */
  lemma Pow2Values()
    ensures Pow2(5) == 32 && Pow2(8) == 256 && Pow2(11) == 2048
    ensures Pow2(15) == 32768 && Pow2(16) == 65536
    ensures Pow2(23) == 0x80_0000 && Pow2(24) == 0x100_0000
    ensures Pow2(27) == 0x800_0000 && Pow2(31) == 0x8000_0000
    ensures Pow2(32) == 0x1_0000_0000
  {
  }

  /** Values representable by a signed two's-complement integer of `bits` bits. */
  predicate InSigned(v: int, bits: nat)
  {
    bits >= 1 && -(Pow2(bits - 1) as int) <= v < Pow2(bits - 1)
  }

  /** Values representable by an unsigned integer of `bits` bits. */
  predicate InUnsigned(v: int, bits: nat)
  {
    0 <= v < Pow2(bits)
  }

  /** The bit pattern of `v` as an unsigned `bits`-bit value (conversion to an unsigned type). */
  function ToUnsigned(v: int, bits: nat): (u: nat)
    ensures InUnsigned(u, bits)
  {
    v % Pow2(bits)
  }

  /** The signed value whose `bits`-bit two's-complement pattern is `u`. */
  function ToSigned(u: nat, bits: nat): (v: int)
    requires bits >= 1 && InUnsigned(u, bits)
    ensures InSigned(v, bits)
    ensures v == u || v == u - Pow2(bits)
  {
    if u < Pow2(bits - 1) then u else u - Pow2(bits)
  }

  /** Conversion of an arbitrary integer to a signed `bits`-bit type, wrapping modulo 2^bits. */
  function Wrap(v: int, bits: nat): (r: int)
    requires bits >= 1
    ensures InSigned(r, bits)
  {
    ToSigned(ToUnsigned(v, bits), bits)
  }

  /** Wrap without a case split: offset by half the range, reduce, and undo the offset. */
  lemma WrapOffset(v: int, bits: nat)
    requires bits >= 1
    ensures Wrap(v, bits) == (v + Pow2(bits - 1)) % Pow2(bits) - Pow2(bits - 1)
  {
    var p := Pow2(bits);
    var h := Pow2(bits - 1);
    assert p == 2 * h;
    var q := v / p;
    var u := v % p;
    if u < h {
      DivModUnique(v + h, p, q, u + h);
    } else {
      DivModUnique(v + h, p, q + 1, u + h - p);
    }
  }

  lemma SignedUnsignedInverse(v: int, bits: nat)
    requires InSigned(v, bits)
    ensures ToSigned(ToUnsigned(v, bits), bits) == v
  {
    var p := Pow2(bits);
    assert p == 2 * Pow2(bits - 1);
    if v >= 0 {
      DivModUnique(v, p, 0, v);
    } else {
      DivModUnique(v, p, -1, v + p);
    }
  }

  lemma UnsignedSignedInverse(u: nat, bits: nat)
    requires bits >= 1 && InUnsigned(u, bits)
    ensures ToUnsigned(ToSigned(u, bits), bits) == u
  {
    var p := Pow2(bits);
    if u < Pow2(bits - 1) {
      DivModUnique(u, p, 0, u);
    } else {
      DivModUnique(u - p, p, -1, u);
    }
  }

  /** Bitwise AND of two non-negative integers, bit by bit from the least significant. */
  function BitAnd(a: nat, b: nat): nat
  {
    if a == 0 || b == 0 then 0 else 2 * BitAnd(a / 2, b / 2) + (a % 2) * (b % 2)
  }

  /** AND never exceeds either operand. */
  lemma {:induction false} BitAndLe(a: nat, b: nat)
    ensures BitAnd(a, b) <= b
  {
    if a != 0 && b != 0 {
      BitAndLe(a / 2, b / 2);
      assert (a % 2) * (b % 2) <= b % 2;
    }
  }

  /** Masking with 2^k - 1 keeps the value modulo 2^k: `x & (size - 1)` on a power-of-two size. */
  lemma {:induction false} AndLowMask(x: nat, k: nat)
    ensures BitAnd(x, Pow2(k) - 1) == x % Pow2(k)
  {
    if k > 0 {
      var m := Pow2(k - 1);
      assert Pow2(k) - 1 == 2 * (m - 1) + 1;
      BitAndOddMask(x, m - 1);
      AndLowMask(x / 2, k - 1);
      DivModStep(x, m);
    } else {
      DivModUnique(x, 1, x, 0);
    }
  }

  /** AND with an odd mask keeps the low bit and ANDs the rest with the mask's upper bits. */
  lemma BitAndOddMask(x: nat, y: nat)
    ensures BitAnd(x, 2 * y + 1) == 2 * BitAnd(x / 2, y) + x % 2
  {
    var z := 2 * y + 1;
    DivModUnique(z, 2, y, 1);
    if x > 0 {
      assert BitAnd(x, z) == 2 * BitAnd(x / 2, z / 2) + (x % 2) * (z % 2);
    }
  }

  lemma DivModStep(x: nat, m: nat)
    requires m >= 1
    ensures x % (2 * m) == 2 * ((x / 2) % m) + x % 2
  {
    DivModSplit(x, 2, m);
  }

  /** Splitting a residue modulo a*m into its low digit in base a and the rest. */
  lemma DivModSplit(x: int, a: int, m: int)
    requires a >= 1 && m >= 1
    ensures x % (a * m) == a * ((x / a) % m) + x % a
    ensures x / (a * m) == (x / a) / m
  {
    var y, low := x / a, x % a;
    var q, r := y / m, y % m;
    assert x == a * y + low;
    assert y == m * q + r;
    MulRegroup(a, m, q, r);
    MulBelow(a, r, m);
    DivModUnique(x, a * m, q, a * r + low);
  }

  lemma MulRegroup(a: int, m: int, q: int, r: int)
    ensures a * (m * q + r) == (a * m) * q + a * r
  {
  }

  /** Multiplying by a non-negative number keeps an order: c * a <= c * b. */
  lemma MulMono(c: int, a: int, b: int)
    requires c >= 0 && a <= b
    ensures 0 <= c * (b - a) && c * a <= c * b
  {
    assert c * b - c * a == c * (b - a);
  }

  lemma MulBelow(a: int, r: int, m: int)
    requires a >= 1 && 0 <= r < m
    ensures 0 <= a * r <= a * m - a
  {
    assert a * m - a == a * (m - 1);
  }

  lemma MulSmall(d: int, k: int)
    requires d > 0 && -d < d * k < d
    ensures k == 0
  {
  }

  /** Euclidean division is unique: a decomposition x == d*q + r with 0 <= r < d is x / d, x % d. */
  lemma DivModUnique(x: int, d: int, q: int, r: int)
    requires d > 0 && 0 <= r < d && x == d * q + r
    ensures x / d == q && x % d == r
  {
    var q' := x / d;
    var r' := x % d;
    assert d * (q' - q) == r - r';
    MulSmall(d, q' - q);
  }

  /** `x & (2^k - 1)`: the low `k` bits of `x`. */
  function LowBits(x: nat, k: nat): (r: nat)
    ensures r == x % Pow2(k) && r < Pow2(k)
  {
    AndLowMask(x, k);
    BitAnd(x, Pow2(k) - 1)
  }

  /**
   * Position of the most significant set bit of `n`, or -1 when `n == 0`;
   * GLib's `g_bit_nth_msf (n, 32)` on a 32-bit word.
   */
  function HighestSetBit(n: nat): (r: int)
    ensures r >= -1
    ensures n == 0 <==> r == -1
  {
    if n == 0 then -1 else 1 + HighestSetBit(n / 2)
  }

  lemma {:induction false} HighestSetBitBounds(n: nat)
    requires n > 0
    ensures Pow2(HighestSetBit(n)) <= n < Pow2(HighestSetBit(n) + 1)
  {
    if n > 1 {
      HighestSetBitBounds(n / 2);
    }
  }

  /** Reducing modulo c*d first does not change a residue modulo c. */
  lemma ModOfMod(x: int, c: int, d: int)
    requires c > 0 && d > 0
    ensures (x % (c * d)) % c == x % c
  {
    var q := x / (c * d);
    var r := x % (c * d);
    var q2 := r / c;
    var r2 := r % c;
    assert x == (c * d) * q + r;
    assert r == c * q2 + r2;
    assert (c * d) * q == c * (d * q);
    assert x == c * (d * q + q2) + r2;
    DivModUnique(x, c, d * q + q2, r2);
  }

  /** Reducing modulo 2^32 first does not change a residue modulo a power of two up to 2^32. */
  lemma ModPow2OfMod32(x: nat, k: nat)
    requires k <= 32
    ensures (x % Pow2(32)) % Pow2(k) == x % Pow2(k)
  {
    Pow2Add(k, 32 - k);
    ModOfMod(x, Pow2(k), Pow2(32 - k));
  }
}
