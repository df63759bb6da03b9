/**
 * The canonical sample of a build (StreamDecoder.h): `tSample` is a 16-bit
 * integer carrying 16 significant bits, or (USE32BIT) a 32-bit integer
 * carrying 24.  Buffers hold interleaved stereo samples in host
 * (little-endian) byte order.
 */
module Samples {
  import opened Bits
  import opened Bytes

  /** The two build configurations. */
  datatype Build = Build16 | Build24

  /** BITDEPTH */
  function BitDepth(b: Build): nat
  {
    if b == Build16 then 16 else 24
  }

  /** 8 * sizeof (tSample) */
  function SampleBits(b: Build): nat
  {
    if b == Build16 then 16 else 32
  }

  /** sizeof (tSample) */
  function SampleBytes(b: Build): nat
  {
    if b == Build16 then 2 else 4
  }

  /** MAXVALUE: the largest value of BITDEPTH significant bits. */
  function MaxValue(b: Build): int
  {
    if b == Build16 then 0x7FFF else 0x7F_FFFF
  }

  /** MINVALUE: the smallest value of BITDEPTH significant bits. */
  function MinValue(b: Build): int
  {
    if b == Build16 then -0x8000 else -0x80_0000
  }

  lemma ValueBounds(b: Build)
    ensures MaxValue(b) == Pow2(BitDepth(b) - 1) - 1
    ensures MinValue(b) == -(Pow2(BitDepth(b) - 1) as int)
    ensures SampleBits(b) == 8 * SampleBytes(b)
  {
    Pow2Values();
  }

  /** A value of type tSample. */
  predicate IsSample(b: Build, v: int)
  {
    InSigned(v, SampleBits(b))
  }

  /** A stereo frame of canonical samples (Resampler::Frame). */
  datatype Frame = Frame(left: int, right: int)

  predicate IsFrame(b: Build, f: Frame)
  {
    IsSample(b, f.left) && IsSample(b, f.right)
  }

  function EncodeSample(b: Build, v: int): (bs: seq<byte>)
    ensures |bs| == SampleBytes(b)
  {
    ToLE(ToUnsigned(v, SampleBits(b)), SampleBytes(b))
  }

  function DecodeSample(b: Build, bs: seq<byte>): (v: int)
    requires |bs| == SampleBytes(b)
    ensures IsSample(b, v)
  {
    ValueBounds(b);
    ToSigned(FromLE(bs), SampleBits(b))
  }

  lemma DecodeEncodeSample(b: Build, v: int)
    requires IsSample(b, v)
    ensures DecodeSample(b, EncodeSample(b, v)) == v
  {
    ValueBounds(b);
    var u := ToUnsigned(v, SampleBits(b));
    FromToLE(u, SampleBytes(b));
    DivModUnique(u, Pow2(SampleBits(b)), 0, u);
    SignedUnsignedInverse(v, SampleBits(b));
  }

  /** The bytes of a tSample array. */
  function EncodeSamples(b: Build, vs: seq<int>): (bs: seq<byte>)
    ensures |bs| == SampleBytes(b) * |vs|
  {
    if vs == [] then [] else EncodeSample(b, vs[0]) + EncodeSamples(b, vs[1..])
  }

  /** The whole tSample values a byte buffer holds; a trailing partial sample is ignored. */
  function DecodeSamples(b: Build, bs: seq<byte>): (vs: seq<int>)
    ensures forall i :: 0 <= i < |vs| ==> IsSample(b, vs[i])
    decreases |bs|
  {
    var n := SampleBytes(b);
    if |bs| < n then [] else [DecodeSample(b, bs[..n])] + DecodeSamples(b, bs[n..])
  }

  lemma {:induction false} DecodeSamplesLength(b: Build, bs: seq<byte>)
    ensures |DecodeSamples(b, bs)| == |bs| / SampleBytes(b)
    decreases |bs|
  {
    var n := SampleBytes(b);
    if |bs| >= n {
      DecodeSamplesLength(b, bs[n..]);
      DivModUnique(|bs|, n, |bs[n..]| / n + 1, |bs[n..]| % n);
    } else {
      DivModUnique(|bs|, n, 0, |bs|);
    }
  }

  lemma {:induction false} DecodeEncodeSamples(b: Build, vs: seq<int>)
    requires forall i :: 0 <= i < |vs| ==> IsSample(b, vs[i])
    ensures DecodeSamples(b, EncodeSamples(b, vs)) == vs
  {
    if vs != [] {
      var bs := EncodeSamples(b, vs);
      var n := SampleBytes(b);
      assert bs[..n] == EncodeSample(b, vs[0]);
      assert bs[n..] == EncodeSamples(b, vs[1..]);
      DecodeEncodeSample(b, vs[0]);
      DecodeEncodeSamples(b, vs[1..]);
    }
  }

  /** Samples of frames in interleaved order: left, right, left, right, ... */
  function Interleave(fs: seq<Frame>): (vs: seq<int>)
    ensures |vs| == 2 * |fs|
    ensures forall k :: 0 <= k < |fs| ==> vs[2 * k] == fs[k].left && vs[2 * k + 1] == fs[k].right
  {
    if fs == [] then [] else [fs[0].left, fs[0].right] + Interleave(fs[1..])
  }

  /** Consecutive pairs of samples as frames; an odd trailing sample is ignored. */
  function Pairs(vs: seq<int>): (fs: seq<Frame>)
    ensures |fs| == |vs| / 2
    ensures forall k :: 0 <= k < |fs| ==> fs[k] == Frame(vs[2 * k], vs[2 * k + 1])
  {
    if |vs| < 2 then [] else [Frame(vs[0], vs[1])] + Pairs(vs[2..])
  }

  lemma PairsInterleave(fs: seq<Frame>)
    ensures Pairs(Interleave(fs)) == fs
  {
  }

  /** The bytes of a Frame array. */
  function EncodeFrames(b: Build, fs: seq<Frame>): (bs: seq<byte>)
    ensures |bs| == 2 * SampleBytes(b) * |fs|
  {
    EncodeSamples(b, Interleave(fs))
  }

  /** The whole frames a byte buffer holds: size / sizeof (tSample) / 2 of them. */
  function DecodeFrames(b: Build, bs: seq<byte>): (fs: seq<Frame>)
    ensures |fs| == |bs| / SampleBytes(b) / 2
    ensures forall k :: 0 <= k < |fs| ==> IsFrame(b, fs[k])
  {
    DecodeSamplesLength(b, bs);
    Pairs(DecodeSamples(b, bs))
  }

  /** Reading back the bytes of frames gives the frames. */
  lemma DecodeEncodeFrames(b: Build, fs: seq<Frame>)
    requires forall k :: 0 <= k < |fs| ==> IsFrame(b, fs[k])
    ensures DecodeFrames(b, EncodeFrames(b, fs)) == fs
  {
    var vs := Interleave(fs);
    forall i | 0 <= i < |vs| ensures IsSample(b, vs[i]) {
      assert IsFrame(b, fs[i / 2]);
      assert i % 2 == 0 ==> vs[i] == fs[i / 2].left;
      assert i % 2 == 1 ==> vs[i] == fs[i / 2].right;
    }
    DecodeEncodeSamples(b, vs);
    PairsInterleave(fs);
  }
}
