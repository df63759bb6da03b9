/**
 * The per-sample helpers of the format normaliser (the anonymous namespace
 * of AudioConverter.cpp): byte-order correction, padding shift, sign
 * conversion and the shift to the canonical bit depth.
 */
module SampleConversion {
  import opened Bits
  import opened Bytes
  import opened Samples

  /** The C types `doLoop` is instantiated with. */
  datatype SampleType = Int8 | UInt8 | Int16 | UInt16 | Int24 | UInt24 | Int32 | UInt32 | Float32

  /** sizeof (T) */
  function SizeOf(t: SampleType): nat
  {
    match t
    case Int8 | UInt8 => 1
    case Int16 | UInt16 => 2
    case Int24 | UInt24 => 3
    case Int32 | UInt32 | Float32 => 4
  }

  /** 8 * sizeof (T) */
  function TypeBits(t: SampleType): nat
  {
    8 * SizeOf(t)
  }

  predicate IsIntegerType(t: SampleType)
  {
    t in {Int8, UInt8, Int16, UInt16, Int32, UInt32}
  }

  predicate IsSignedType(t: SampleType)
  {
    t in {Int8, Int16, Int24, Int32}
  }

  /**
   * A value of one of those types: an integer, the three bytes a, b, c of
   * the packed 24-bit structs (in memory order), or the bits of a float.
   */
  datatype RawSample = Int(v: int) | Packed(a: byte, b: byte, c: byte) | FloatBits(bits: nat)

  /** std::numeric_limits<T>::min () and max () of the integer types. */
  function TypeMin(t: SampleType): int
    requires IsIntegerType(t)
  {
    match t
    case Int8 => -0x80
    case Int16 => -0x8000
    case Int32 => -0x8000_0000
    case UInt8 | UInt16 | UInt32 => 0
  }

  function TypeMax(t: SampleType): int
    requires IsIntegerType(t)
  {
    match t
    case Int8 => 0x7F
    case UInt8 => 0xFF
    case Int16 => 0x7FFF
    case UInt16 => 0xFFFF
    case Int32 => 0x7FFF_FFFF
    case UInt32 => 0xFFFF_FFFF
  }

  /** `r` is a value of C type `t`. */
  predicate IsValueOf(t: SampleType, r: RawSample)
  {
    match t
    case Int24 | UInt24 => r.Packed?
    case Float32 => r.FloatBits? && r.bits < 0x1_0000_0000
    case Int8 | UInt8 | Int16 | UInt16 | Int32 | UInt32 => r.Int? && TypeMin(t) <= r.v <= TypeMax(t)
  }

  /** The limits are those of a two's-complement or unsigned integer of the type's width. */
  lemma TypeLimits(t: SampleType)
    requires IsIntegerType(t)
    ensures IsSignedType(t) ==>
      TypeMin(t) == -(Pow2(TypeBits(t) - 1) as int) && TypeMax(t) == Pow2(TypeBits(t) - 1) - 1
    ensures !IsSignedType(t) ==> TypeMin(t) == 0 && TypeMax(t) == Pow2(TypeBits(t)) - 1
    ensures forall v :: IsValueOf(t, Int(v)) <==>
      if IsSignedType(t) then InSigned(v, TypeBits(t)) else InUnsigned(v, TypeBits(t))
  {
    Pow2Values();
  }

  /** The value of type `t` stored in `bs` on a little-endian host. */
  function ReadRaw(t: SampleType, bs: seq<byte>): (r: RawSample)
    requires |bs| == SizeOf(t)
    ensures IsValueOf(t, r)
  {
    match t
    case Int24 | UInt24 => Packed(bs[0], bs[1], bs[2])
    case Float32 => Pow2Values(); FloatBits(FromLE(bs))
    case Int8 | Int16 | Int32 => TypeLimits(t); Int(ToSigned(FromLE(bs), TypeBits(t)))
    case UInt8 | UInt16 | UInt32 => TypeLimits(t); Int(FromLE(bs))
  }

  /**
   * toLittleEndian: reverses the bytes of 16-, 24- and 32-bit values; single
   * bytes and floats are returned as they are.
   */
  function ToLittleEndian(t: SampleType, r: RawSample): (s: RawSample)
    requires IsValueOf(t, r)
    ensures IsValueOf(t, s)
  {
    match t
    case Int8 | UInt8 | Float32 => r
    case Int24 | UInt24 => Packed(r.c, r.b, r.a)
    case Int16 | Int32 =>
      var swapped := ToSigned(ByteSwap(ToUnsigned(r.v, TypeBits(t)), SizeOf(t)), TypeBits(t));
      IntIsValueOf(t, swapped);
      Int(swapped)
    case UInt16 | UInt32 => TypeLimits(t); IntIsValueOf(t, ByteSwap(r.v, SizeOf(t))); Int(ByteSwap(r.v, SizeOf(t)))
  }

  /** Converting twice restores the value, for every type. */
  lemma ToLittleEndianInvolution(t: SampleType, r: RawSample)
    requires IsValueOf(t, r)
    ensures ToLittleEndian(t, ToLittleEndian(t, r)) == r
  {
    match t
    case Int8 | UInt8 | Float32 =>
    case Int24 | UInt24 =>
    case Int16 | Int32 =>
      TypeLimits(t);
      var bits := TypeBits(t);
      var u := ToUnsigned(r.v, bits);
      var s := ByteSwap(u, SizeOf(t));
      UnsignedSignedInverse(s, bits);
      ByteSwapInvolution(u, SizeOf(t));
      SignedUnsignedInverse(r.v, bits);
    case UInt16 | UInt32 =>
      TypeLimits(t);
      ByteSwapInvolution(r.v, SizeOf(t));
  }

  /**
   * For every type but float, converting the value read from `bs` is reading
   * the bytes of `bs` in the opposite order: a big-endian value is read correctly.
   */
  lemma ToLittleEndianReadsBigEndian(t: SampleType, bs: seq<byte>)
    requires |bs| == SizeOf(t) && t != Float32
    ensures ToLittleEndian(t, ReadRaw(t, bs)) == ReadRaw(t, Reverse(bs))
  {
    match t
    case Int8 | UInt8 =>
      assert Reverse(bs) == bs;
    case Int24 | UInt24 =>
    case Int16 | Int32 =>
      var bits := TypeBits(t);
      UnsignedSignedInverse(FromLE(bs), bits);
      ByteSwapReadsReversed(bs);
    case UInt16 | UInt32 =>
      ByteSwapReadsReversed(bs);
  }

  /**
   * makeSigned: identity on signed types; an unsigned value of width n is
   * moved down by 2^(n-1) into the signed range of the same width.
   */
  function MakeSigned(t: SampleType, v: int): (r: int)
    requires IsIntegerType(t) && IsValueOf(t, Int(v))
    ensures IsValueOf(SignedOf(t), Int(r))
  {
    if IsSignedType(t) then v else v + TypeMin(SignedOf(t))
  }

  /** std::make_signed: the signed integer type of the same width. */
  function SignedOf(t: SampleType): (s: SampleType)
    requires IsIntegerType(t)
    ensures IsIntegerType(s) && IsSignedType(s) && TypeBits(s) == TypeBits(t)
  {
    match t
    case Int8 | UInt8 => Int8
    case Int16 | UInt16 => Int16
    case Int32 | UInt32 => Int32
  }

  /**
   * makeSigned keeps a signed value and moves an unsigned value of n bits
   * down by 2^(n-1), into the signed range of the same width.
   */
  lemma MakeSignedOffset(t: SampleType, v: int)
    requires IsIntegerType(t) && IsValueOf(t, Int(v))
    ensures InSigned(MakeSigned(t, v), TypeBits(t))
    ensures IsSignedType(t) ==> MakeSigned(t, v) == v
    ensures !IsSignedType(t) ==> MakeSigned(t, v) + Pow2(TypeBits(t) - 1) == v
  {
    TypeLimits(SignedOf(t));
  }

  /**
   * Shifter<tFrom>::shift: a value of `bits` bits is brought to BITDEPTH bits,
   * by an arithmetic right shift when it is wider and a left shift otherwise.
   */
  function ShiftToSample(b: Build, bits: nat, v: int): int
    requires bits in {8, 16, 32}
  {
    match b
    case Build16 => if bits == 8 then v * 0x100 else if bits == 16 then v else v / 0x1_0000
    case Build24 => if bits == 8 then v * 0x1_0000 else if bits == 16 then v * 0x100 else v / 0x100
  }

  /**
   * The shift to BITDEPTH is a multiplication by 2^(BITDEPTH - bits) when
   * widening and a floor division by 2^(bits - BITDEPTH) when narrowing
   * (an arithmetic right shift rounds towards minus infinity).
   */
  lemma ShiftToSampleIsShift(b: Build, bits: nat, v: int)
    requires bits in {8, 16, 32}
    ensures bits > BitDepth(b) ==> ShiftToSample(b, bits, v) == v / Pow2(bits - BitDepth(b))
    ensures bits <= BitDepth(b) ==> ShiftToSample(b, bits, v) == v * Pow2(BitDepth(b) - bits)
  {
    Pow2Values();
  }

  /** makeSample for the integer types: makeSigned, then the shift to BITDEPTH. */
  function MakeSample(b: Build, t: SampleType, v: int): (r: int)
    requires IsIntegerType(t) && IsValueOf(t, Int(v))
    ensures MinValue(b) <= r <= MaxValue(b)
  {
    MakeSignedOffset(t, v);
    Pow2Values();
    ShiftToSampleRange(b, TypeBits(t), MakeSigned(t, v));
    ShiftToSample(b, TypeBits(t), MakeSigned(t, v))
  }

  /** The 32-bit pattern `c << 24 | b << 16 | a << 8` of a packed 24-bit sample. */
  function Unpack24(p: RawSample): (u: nat)
    requires p.Packed?
    ensures u <= 0xFFFF_FF00
  {
    ((p.c * 0x100 + p.b) * 0x100 + p.a) * 0x100
  }

  /** The low byte of the pattern is zero and the three bytes above it are the little-endian value. */
  lemma Unpack24Bytes(p: RawSample)
    requires p.Packed?
    ensures Unpack24(p) % 0x100 == 0 && Unpack24(p) / 0x100 == FromLE([p.a, p.b, p.c])
  {
    FromLE3(p.a, p.b, p.c);
    DivModUnique(Unpack24(p), 0x100, FromLE([p.a, p.b, p.c]), 0);
  }

  /** makeSample (tUInt24): the unpacked pattern as a guint32. */
  function MakeSampleU24(b: Build, p: RawSample): (r: int)
    requires p.Packed?
    ensures MinValue(b) <= r <= MaxValue(b)
  {
    MakeSample(b, UInt32, Unpack24(p))
  }

  /** The unpacked pattern of a packed 24-bit sample read as a gint32. */
  function Unpack24Signed(p: RawSample): (v: int)
    requires p.Packed?
    ensures IsValueOf(Int32, Int(v))
  {
    var u := Unpack24(p);
    if u < 0x8000_0000 then u else u - 0x1_0000_0000
  }

  /** makeSample (tInt24): the unpacked pattern as a gint32. */
  function MakeSampleI24(b: Build, p: RawSample): (r: int)
    requires p.Packed?
    ensures MinValue(b) <= r <= MaxValue(b)
  {
    MakeSample(b, Int32, Unpack24Signed(p))
  }


  /** A C `float` scaled and converted to gint32 (floating point, outside this model). */
  type Int32Value = x: int | -0x8000_0000 <= x < 0x8000_0000

  /** makeSample, overload chosen by the type of the value: every value, float included, lands in the sample range. */
  function Normalize(b: Build, t: SampleType, r: RawSample, floatScale: nat -> Int32Value): (s: int)
    requires IsValueOf(t, r)
    ensures MinValue(b) <= s <= MaxValue(b)
  {
    match t
    case UInt24 => MakeSampleU24(b, r)
    case Int24 => MakeSampleI24(b, r)
    case Float32 => MakeSample(b, Int32, floatScale(r.bits))
    case Int8 | UInt8 | Int16 | UInt16 | Int32 | UInt32 => MakeSample(b, t, r.v)
  }

  /**
   * shiftLeft: `v << s` on the integer types, the result converted back to
   * the type (two's-complement wrap-around); packed and float values are
   * returned unchanged.
   */
  function ShiftLeft(t: SampleType, r: RawSample, s: int): (q: RawSample)
    requires IsValueOf(t, r) && (IsIntegerType(t) ==> s >= 0)
    ensures IsValueOf(t, q)
  {
    match t
    case Int24 | UInt24 | Float32 => r
    case Int8 | Int16 | Int32 => TypeLimits(t); Int(Wrap(r.v * Pow2(s), TypeBits(t)))
    case UInt8 | UInt16 | UInt32 => TypeLimits(t); Int(ToUnsigned(r.v * Pow2(s), TypeBits(t)))
  }

  /**
   * The per-sample pipeline of doLoop: byte swap when big-endian, then the
   * padding shift when width exceeds depth, then makeSample.
   */
  function ConvertSample(b: Build, t: SampleType, bigEndian: bool, paddingShift: int,
                         r: RawSample, floatScale: nat -> Int32Value): (s: int)
    requires IsValueOf(t, r) && (IsIntegerType(t) ==> paddingShift >= 0)
    ensures MinValue(b) <= s <= MaxValue(b)
  {
    var swapped := if bigEndian then ToLittleEndian(t, r) else r;
    var padded := if paddingShift != 0 then ShiftLeft(t, swapped, paddingShift) else swapped;
    Normalize(b, t, padded, floatScale)
  }

  /** Shifting a value of `bits` bits (8, 16 or 32) lands in the sample range of the build. */
  lemma ShiftToSampleRange(b: Build, bits: nat, v: int)
    requires bits in {8, 16, 32} && InSigned(v, bits)
    ensures MinValue(b) <= ShiftToSample(b, bits, v) <= MaxValue(b)
  {
    Pow2Values();
  }

  /** The shift to BITDEPTH keeps the sign: an arithmetic shift of a negative value stays negative. */
  lemma ShiftToSampleSign(b: Build, bits: nat, v: int)
    requires bits in {8, 16, 32}
    ensures ShiftToSample(b, bits, v) < 0 <==> v < 0
  {
  }

  /** The shift to BITDEPTH preserves order. */
  lemma ShiftToSampleMonotone(b: Build, bits: nat, v: int, w: int)
    requires bits in {8, 16, 32} && v <= w
    ensures ShiftToSample(b, bits, v) <= ShiftToSample(b, bits, w)
  {
    Pow2Values();
  }

  /**
   * Widening loses nothing: the shifted value divided back is the input.
   * Narrowing keeps the top bits: the result is the floor of the input
   * scaled down, so the error is below one step of the output.
   */
  lemma ShiftToSamplePrecision(b: Build, bits: nat, v: int)
    requires bits in {8, 16, 32}
    ensures bits <= BitDepth(b) ==> ShiftToSample(b, bits, v) / Pow2(BitDepth(b) - bits) == v
    ensures bits > BitDepth(b) ==>
      ShiftToSample(b, bits, v) * Pow2(bits - BitDepth(b)) <= v
      < (ShiftToSample(b, bits, v) + 1) * Pow2(bits - BitDepth(b))
  {
    Pow2Values();
  }

  /** Every valid integer sample of every type becomes a sample of the build. */
  lemma MakeSampleRange(b: Build, t: SampleType, v: int)
    requires IsIntegerType(t) && IsValueOf(t, Int(v))
    ensures MinValue(b) <= MakeSample(b, t, v) <= MaxValue(b)
    ensures IsSample(b, MakeSample(b, t, v))
  {
    Pow2Values();
    ShiftToSampleRange(b, TypeBits(t), MakeSigned(t, v));
  }

  /** makeSample preserves order, for signed and unsigned types alike. */
  lemma MakeSampleMonotone(b: Build, t: SampleType, v: int, w: int)
    requires IsIntegerType(t) && IsValueOf(t, Int(v)) && IsValueOf(t, Int(w)) && v <= w
    ensures MakeSample(b, t, v) <= MakeSample(b, t, w)
  {
    ShiftToSampleMonotone(b, TypeBits(t), MakeSigned(t, v), MakeSigned(t, w));
  }

  /**
   * The least value of every type becomes MINVALUE; the greatest becomes
   * MAXVALUE exactly when the type is at least as wide as the build's depth
   * (a narrower type only reaches MAXVALUE with its low bits cleared).
   */
  lemma MakeSampleExtremes(b: Build, t: SampleType)
    requires IsIntegerType(t)
    ensures IsValueOf(t, Int(TypeMin(t))) && IsValueOf(t, Int(TypeMax(t)))
    ensures MakeSample(b, t, TypeMin(t)) == MinValue(b)
    ensures MakeSample(b, t, TypeMax(t)) == MaxValue(b) <==> TypeBits(t) >= BitDepth(b)
  {
    TypeLimits(t);
    Pow2Values();
  }

  /** An unsigned value is converted as the signed value 2^(n-1) below it. */
  lemma MakeSampleUnsignedAsSigned(b: Build, t: SampleType, u: SampleType, v: int)
    requires (t, u) in {(UInt8, Int8), (UInt16, Int16), (UInt32, Int32)}
    requires IsValueOf(t, Int(v))
    ensures IsValueOf(u, Int(v - Pow2(TypeBits(t) - 1)))
    ensures MakeSample(b, t, v) == MakeSample(b, u, v - Pow2(TypeBits(t) - 1))
  {
    Pow2Values();
  }

  /** The values test_makeSigned checks for the 8-bit types. */
  lemma MakeSignedChecks8()
    ensures IsValueOf(Int8, Int(127)) && IsValueOf(Int8, Int(-128)) && IsValueOf(UInt8, Int(255))
    ensures MakeSigned(Int8, 127) == 127 && MakeSigned(Int8, -128) == -128
    ensures MakeSigned(Int8, 0) == 0 && MakeSigned(Int8, 5) == 5
    ensures MakeSigned(UInt8, 0) == -128 && MakeSigned(UInt8, 255) == 127
  {
    Pow2Values();
  }

  /** The values test_makeSigned checks for the 16- and 32-bit types. */
  lemma MakeSignedChecksWide()
    ensures IsValueOf(Int16, Int(32767)) && IsValueOf(Int16, Int(-32768)) && IsValueOf(UInt16, Int(65535))
    ensures MakeSigned(Int16, 32767) == 32767 && MakeSigned(Int16, -32768) == -32768
    ensures MakeSigned(Int16, 0) == 0 && MakeSigned(Int16, 5) == 5
    ensures MakeSigned(UInt16, 0) == -32768 && MakeSigned(UInt16, 65535) == 32767
    ensures IsValueOf(Int32, Int(123456))
    ensures MakeSigned(Int32, 123456) == 123456 && MakeSigned(UInt32, 0) == -0x8000_0000
  {
    Pow2Values();
  }

  /** The 16-bit values test_makeSample checks. */
  lemma MakeSampleChecks16Bit(b: Build)
    ensures IsValueOf(Int16, Int(32767)) && IsValueOf(Int16, Int(-32768)) && IsValueOf(UInt16, Int(65535))
    ensures MakeSample(b, Int16, 32767) == MaxValue(b) - (if b == Build16 then 0 else 0xFF)
    ensures MakeSample(b, Int16, -32768) == MinValue(b)
    ensures MakeSample(b, Int16, 0) == 0
    ensures MakeSample(b, UInt16, 65535) == MaxValue(b) - (if b == Build16 then 0 else 0xFF)
    ensures MakeSample(b, UInt16, 0) == MinValue(b)
  {
    Pow2Values();
  }

  /** makeSample (tUInt24) is the unsigned 32-bit conversion of the unpacked pattern. */
  lemma MakeSampleU24Shift(b: Build, p: RawSample)
    requires p.Packed?
    ensures MakeSampleU24(b, p) == ShiftToSample(b, 32, Unpack24(p) - 0x8000_0000)
  {
    Pow2Values();
  }

  /** makeSample (tInt24) is the signed 32-bit conversion of the unpacked pattern. */
  lemma MakeSampleI24Shift(b: Build, p: RawSample)
    requires p.Packed?
    ensures InUnsigned(Unpack24(p), 32) &&
      MakeSampleI24(b, p) == ShiftToSample(b, 32, ToSigned(Unpack24(p), 32))
  {
    Pow2Values();
  }

  /** The packed unsigned maximum test_makeSample checks. */
  lemma MakeSampleCheckU24Max(b: Build)
    ensures MakeSampleU24(b, Packed(0xFF, 0xFF, 0xFF)) == MaxValue(b)
  {
    MakeSampleU24Shift(b, Packed(0xFF, 0xFF, 0xFF));
    assert Unpack24(Packed(0xFF, 0xFF, 0xFF)) == 0xFFFF_FF00;
    ShiftChecks32(b);
  }

  /** The packed unsigned minimum test_makeSample checks. */
  lemma MakeSampleCheckU24Min(b: Build)
    ensures MakeSampleU24(b, Packed(0, 0, 0)) == MinValue(b)
  {
    assert Unpack24(Packed(0, 0, 0)) == TypeMin(UInt32);
    MakeSampleExtremes(b, UInt32);
  }

  /**
   * The unsigned midpoint {FF, FF, 7F} test_makeSample accepts within a
   * tolerance (1 in the 16-bit build, 256 in the 24-bit build) is -1 in both.
   */
  lemma MakeSampleCheckU24Midpoint(b: Build)
    ensures MakeSampleU24(b, Packed(0xFF, 0xFF, 0x7F)) == -1
  {
    MakeSampleU24Shift(b, Packed(0xFF, 0xFF, 0x7F));
    assert Unpack24(Packed(0xFF, 0xFF, 0x7F)) == 0x7FFF_FF00;
    ShiftChecks32(b);
  }

  /** The packed signed values test_makeSample checks. */
  lemma MakeSampleChecksI24(b: Build)
    ensures MakeSampleI24(b, Packed(0xFF, 0xFF, 0x7F)) == MaxValue(b)
    ensures MakeSampleI24(b, Packed(0, 0, 0)) == 0
  {
    Pow2Values();
    MakeSampleI24Shift(b, Packed(0xFF, 0xFF, 0x7F));
    assert Unpack24(Packed(0xFF, 0xFF, 0x7F)) == 0x7FFF_FF00;
    UnsignedSignedInverse(0x7FFF_FF00, 32);
    MakeSampleI24Shift(b, Packed(0, 0, 0));
    assert Unpack24(Packed(0, 0, 0)) == 0;
    ShiftChecks32(b);
  }

  /** The 32-bit shifts behind the packed checks. */
  lemma ShiftChecks32(b: Build)
    ensures ShiftToSample(b, 32, 0x7FFF_FF00) == MaxValue(b)
    ensures ShiftToSample(b, 32, -0x8000_0000) == MinValue(b)
    ensures ShiftToSample(b, 32, -0x100) == -1
    ensures ShiftToSample(b, 32, 0) == 0
  {
    Pow2Values();
  }

  /** Every raw value of its type, float included, becomes a sample of the build. */
  lemma NormalizeRange(b: Build, t: SampleType, r: RawSample, floatScale: nat -> Int32Value)
    requires IsValueOf(t, r)
    ensures MinValue(b) <= Normalize(b, t, r, floatScale) <= MaxValue(b)
    ensures IsSample(b, Normalize(b, t, r, floatScale))
  {
    Pow2Values();
    match t
    case UInt24 => MakeSampleRange(b, UInt32, Unpack24(r));
    case Int24 => MakeSampleRange(b, Int32, Unpack24Signed(r));
    case Float32 => MakeSampleRange(b, Int32, floatScale(r.bits));
    case Int8 | UInt8 | Int16 | UInt16 | Int32 | UInt32 => MakeSampleRange(b, t, r.v);
  }

  /** The per-sample pipeline always yields a sample of the build. */
  lemma ConvertSampleRange(b: Build, t: SampleType, bigEndian: bool, paddingShift: int,
                           r: RawSample, floatScale: nat -> Int32Value)
    requires IsValueOf(t, r) && (IsIntegerType(t) ==> paddingShift >= 0)
    ensures MinValue(b) <= ConvertSample(b, t, bigEndian, paddingShift, r, floatScale) <= MaxValue(b)
    ensures IsSample(b, ConvertSample(b, t, bigEndian, paddingShift, r, floatScale))
  {
    var swapped := if bigEndian then ToLittleEndian(t, r) else r;
    var padded := if paddingShift != 0 then ShiftLeft(t, swapped, paddingShift) else swapped;
    NormalizeRange(b, t, padded, floatScale);
  }

  /**
   * A big-endian value converts to the same sample as the little-endian
   * encoding of the same value, for every type but float: the byte swap
   * undoes the byte order before the padding shift and makeSample.
   */
  lemma ConvertSampleBigEndian(b: Build, t: SampleType, paddingShift: int, bs: seq<byte>,
                               floatScale: nat -> Int32Value)
    requires |bs| == SizeOf(t) && t != Float32 && (IsIntegerType(t) ==> paddingShift >= 0)
    ensures ConvertSample(b, t, true, paddingShift, ReadRaw(t, bs), floatScale)
      == ConvertSample(b, t, false, paddingShift, ReadRaw(t, Reverse(bs)), floatScale)
  {
    ToLittleEndianReadsBigEndian(t, bs);
  }

  /**
   * shiftLeft moves a value of width - s significant bits to the top of its
   * container without wrapping: the padding shift is exact.
   */
  lemma ShiftLeftExact(t: SampleType, v: int, s: nat)
    requires IsIntegerType(t) && s < TypeBits(t)
    requires if IsSignedType(t) then InSigned(v, TypeBits(t) - s) else InUnsigned(v, TypeBits(t) - s)
    ensures IsValueOf(t, Int(v))
    ensures ShiftLeft(t, Int(v), s) == Int(v * Pow2(s))
  {
    if IsSignedType(t) {
      SignedShiftExact(TypeBits(t), v, s);
    } else {
      UnsignedShiftExact(TypeBits(t), v, s);
    }
    IntIsValueOf(t, v);
  }

  /** An integer representable in the width of an integer type is a value of it. */
  lemma IntIsValueOf(t: SampleType, v: int)
    requires IsIntegerType(t)
    requires if IsSignedType(t) then InSigned(v, TypeBits(t)) else InUnsigned(v, TypeBits(t))
    ensures IsValueOf(t, Int(v))
  {
    TypeLimits(t);
  }

  /** A signed value of n - s bits shifted left by s still fits n bits. */
  lemma SignedShiftExact(n: nat, v: int, s: nat)
    requires s < n && InSigned(v, n - s)
    ensures InSigned(v, n) && Wrap(v * Pow2(s), n) == v * Pow2(s)
  {
    Pow2Add(n - s - 1, s);
    Pow2Monotone(n - s - 1, n - 1);
    ScaledBounds(v, Pow2(n - s - 1), Pow2(s));
    SignedUnsignedInverse(v * Pow2(s), n);
  }

  lemma ScaledBounds(v: int, h: int, p: int)
    requires p >= 1 && -h <= v < h
    ensures -(h * p) <= v * p < h * p
  {
    MulMono(p, -h, v);
    MulMono(p, v + 1, h);
  }

  /** An unsigned value of n - s bits shifted left by s still fits n bits. */
  lemma UnsignedShiftExact(n: nat, v: int, s: nat)
    requires s <= n && InUnsigned(v, n - s)
    ensures InUnsigned(v, n) && ToUnsigned(v * Pow2(s), n) == v * Pow2(s)
  {
    Pow2Add(n - s, s);
    Pow2Monotone(n - s, n);
    ScaledBounds(v, Pow2(n - s), Pow2(s));
    DivModUnique(v * Pow2(s), Pow2(n), 0, v * Pow2(s));
  }

  /**
   * makeSample (tUInt24): the three bytes are the little-endian unsigned
   * 24-bit value, centred by 2^23; the 24-bit build keeps it exactly, the
   * 16-bit build keeps its top 16 bits.
   */
  lemma MakeSampleU24Value(b: Build, p: RawSample)
    requires p.Packed?
    ensures var v := FromLE([p.a, p.b, p.c]) - 0x80_0000;
      (b == Build24 ==> MakeSampleU24(b, p) == v) && (b == Build16 ==> MakeSampleU24(b, p) == v / 0x100)
  {
    var v := FromLE([p.a, p.b, p.c]) - 0x80_0000;
    MakeSampleU24Shift(b, p);
    Unpack24Bytes(p);
    assert Unpack24(p) - 0x8000_0000 == v * 0x100;
    ShiftUnpacked(b, v);
  }

  /**
   * makeSample (tInt24): the three bytes are the little-endian signed 24-bit
   * value; the 24-bit build keeps it exactly, the 16-bit build keeps its top
   * 16 bits.
   */
  lemma MakeSampleI24Value(b: Build, p: RawSample)
    requires p.Packed?
    ensures Pow2(24) == 0x100_0000 && InUnsigned(FromLE([p.a, p.b, p.c]), 24)
    ensures var v := ToSigned(FromLE([p.a, p.b, p.c]), 24);
      (b == Build24 ==> MakeSampleI24(b, p) == v) && (b == Build16 ==> MakeSampleI24(b, p) == v / 0x100)
  {
    Pow2Values();
    var u := FromLE([p.a, p.b, p.c]);
    var v := ToSigned(u, 24);
    MakeSampleI24Shift(b, p);
    Unpack24Bytes(p);
    assert ToSigned(Unpack24(p), 32) == v * 0x100;
    ShiftUnpacked(b, v);
  }

  /** The shift to BITDEPTH of a 32-bit value whose low byte is zero. */
  lemma ShiftUnpacked(b: Build, v: int)
    ensures ShiftToSample(b, 32, v * 0x100) == if b == Build24 then v else v / 0x100
  {
    DivModUnique(v * 0x100, 0x100, v, 0);
    DivModSplit(v * 0x100, 0x100, 0x100);
  }
}
