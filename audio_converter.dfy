/**
 * The format normaliser (AudioConverter): reads the source format from the
 * caps once, then turns each buffer of that format into interleaved stereo
 * samples of the build's canonical type.
 */
module Conversion {
  import opened Bits
  import opened Bytes
  import opened Samples
  import opened SampleConversion
  import opened Decimal

  datatype Option<T> = None | Some(value: T)

  /**
   * The fields of the first caps structure that the converter and the
   * pipeline read; the rate is a gint.
   */
  datatype CapsStructure = CapsStructure(channels: Option<nat>, format: Option<string>, rate: Option<int>)

  /** Caps: the first structure, when there is one. */
  datatype Caps = Caps(structure: Option<CapsStructure>)

  /** The source format as the converter records it. */
  datatype Format = Format(bigEndian: bool, isFloat: bool, isSigned: bool,
                           width: nat, depth: nat, channels: nat)

  /** The values the constructor starts from: 16-bit signed little-endian stereo. */
  const DefaultFormat := Format(false, false, true, 16, 16, 2)

  /** format[i] of a C string, '\0' past its end. */
  function CharAt(s: string, i: nat): char
  {
    if i < |s| then s[i] else '\0'
  }

  /** The C string `s` denotes: everything before its first '\0'. */
  function CString(s: string): (c: string)
    ensures c <= s && '\0' !in c
  {
    if |s| == 0 || s[0] == '\0' then [] else [s[0]] + CString(s[1..])
  }

  /**
   * The format string parser: the first character selects signed, unsigned
   * or float (any other leaves the format as it is), then the sizes follow.
   */
  function ParseFormatString(d: Format, format: string): (f: Format)
    ensures f.channels == d.channels
  {
    var first := CharAt(format, 0);
    if first == 'S' then ParseSizes(d.(isSigned := true), format[1..])
    else if first == 'U' then ParseSizes(d.(isSigned := false), format[1..])
    else if first == 'F' then ParseSizes(d.(isFloat := true), format[1..])
    else d
  }

  /**
   * The rest of a format string: the depth, an optional "_" and width (the
   * width is the depth without it), and "BE" for big-endian.
   */
  function ParseSizes(d: Format, rest: string): (f: Format)
    ensures f == d.(depth := f.depth, width := f.width, bigEndian := f.bigEndian)
  {
    var (depth, afterDepth) := ParseUnsigned(rest);
    var (width, tail) := if CharAt(afterDepth, 0) == '_' then ParseUnsigned(afterDepth[1..]) else (depth, afterDepth);
    d.(depth := depth, width := width, bigEndian := CString(tail) == "BE")
  }

  /** The format the constructor records for `caps`. */
  function ParseCaps(caps: Caps): (f: Format)
    ensures f.channels <= 2
  {
    match caps.structure
    case None => DefaultFormat
    case Some(s) =>
      var channels := if s.channels.Some? then s.channels.value else DefaultFormat.channels;
      var clamped := DefaultFormat.(channels := if channels > 2 then 2 else channels);
      if s.format.Some? then ParseFormatString(clamped, s.format.value) else clamped
  }

  /** The GStreamer name of a format, such as S16LE, U24_32BE or F32LE. */
  function FormatName(f: Format): string
  {
    [KindLetter(f)] + (DigitsOf(f.depth) + (WidthSuffix(f) + ByteOrderSuffix(f)))
  }

  function KindLetter(f: Format): char
  {
    if f.isFloat then 'F' else if f.isSigned then 'S' else 'U'
  }

  /** "_" and the width when it differs from the depth. */
  function WidthSuffix(f: Format): string
  {
    if f.width == f.depth then "" else ['_'] + DigitsOf(f.width)
  }

  function ByteOrderSuffix(f: Format): string
  {
    if f.bigEndian then "BE" else "LE"
  }

  /** Caps carrying a channel count and a format name, and no rate. */
  function CapsOf(channels: nat, name: string): Caps
  {
    Caps(Some(CapsStructure(Some(channels), Some(name), None)))
  }

  /** A string without '\0' is its own C string. */
  lemma {:induction false} CStringWithoutNul(s: string)
    requires '\0' !in s
    ensures CString(s) == s
  {
    if |s| > 0 {
      CStringWithoutNul(s[1..]);
    }
  }

  /** The sizes and byte order of a format name read back as they were printed. */
  lemma ParseSizesName(d: Format, f: Format)
    ensures var g := ParseSizes(d, FormatName(f)[1..]);
      g.depth == f.depth && g.width == f.width && g.bigEndian == f.bigEndian
  {
    var suffix := ByteOrderSuffix(f);
    assert '\0' !in suffix;
    CStringWithoutNul(suffix);
    var rest := DigitsOf(f.depth) + (WidthSuffix(f) + suffix);
    assert FormatName(f) == [KindLetter(f)] + rest;
    assert FormatName(f)[1..] == rest;
    if f.width != f.depth {
      assert rest == DigitsOf(f.depth) + (['_'] + (DigitsOf(f.width) + suffix));
      ParseSizesWithWidth(d, f.depth, f.width, suffix);
    } else {
      assert rest == DigitsOf(f.depth) + suffix;
      ParseSizesWithoutWidth(d, f.depth, suffix);
    }
  }

  /** The sizes of a name that spells the width out. */
  lemma ParseSizesWithWidth(d: Format, depth: nat, width: nat, suffix: string)
    requires suffix == [] || !IsDigit(suffix[0])
    ensures var g := ParseSizes(d, DigitsOf(depth) + (['_'] + (DigitsOf(width) + suffix)));
      g.depth == depth && g.width == width && g.bigEndian == (CString(suffix) == "BE")
  {
    var afterDepth := ['_'] + (DigitsOf(width) + suffix);
    ParseUnsignedDigitsOf(depth, afterDepth);
    assert CharAt(afterDepth, 0) == '_' && afterDepth[1..] == DigitsOf(width) + suffix;
    ParseUnsignedDigitsOf(width, suffix);
  }

  /** The sizes of a name whose width is its depth. */
  lemma ParseSizesWithoutWidth(d: Format, depth: nat, suffix: string)
    requires suffix == [] || (!IsDigit(suffix[0]) && suffix[0] != '_')
    ensures var g := ParseSizes(d, DigitsOf(depth) + suffix);
      g.depth == depth && g.width == depth && g.bigEndian == (CString(suffix) == "BE")
  {
    ParseUnsignedDigitsOf(depth, suffix);
  }

  /**
   * The format string parser reads back every field a format name carries:
   * the kind letter, depth, width and byte order.
   */
  lemma ParseFormatStringName(d: Format, f: Format)
    ensures var g := ParseFormatString(d, FormatName(f));
      g.isFloat == (f.isFloat || d.isFloat) &&
      g.isSigned == (if f.isFloat then d.isSigned else f.isSigned) &&
      g.depth == f.depth && g.width == f.width && g.bigEndian == f.bigEndian && g.channels == d.channels
  {
    assert CharAt(FormatName(f), 0) == KindLetter(f);
    ParseSizesName(d.(isSigned := true), f);
    ParseSizesName(d.(isSigned := false), f);
    ParseSizesName(d.(isFloat := true), f);
  }

  /**
   * Parsing the name of a format gives the format back, for every format
   * the converter can record (a float format keeps the signed flag set)
   * with at most two channels.
   */
  lemma ParseFormatName(f: Format)
    requires f.isFloat ==> f.isSigned
    requires f.channels <= 2
    ensures ParseCaps(CapsOf(f.channels, FormatName(f))) == f
  {
    ParseFormatStringName(DefaultFormat.(channels := f.channels), f);
  }

  /** More than two channels are read as two; a missing count means two. */
  lemma ParseCapsChannels(channels: Option<nat>, format: Option<string>, rate: Option<int>)
    ensures var f := ParseCaps(Caps(Some(CapsStructure(channels, format, rate))));
      f.channels == (if channels.None? then 2 else if channels.value > 2 then 2 else channels.value)
  {
  }

  /**
   * An empty format, or one starting with an unknown letter, leaves every
   * field but the channel count at its default.
   */
  lemma ParseUnknownFormat(channels: Option<nat>, format: string, rate: Option<int>)
    requires CharAt(format, 0) !in {'S', 'U', 'F'}
    ensures ParseCaps(Caps(Some(CapsStructure(channels, Some(format), rate)))) ==
      DefaultFormat.(channels := ParseCaps(Caps(Some(CapsStructure(channels, None, rate)))).channels)
  {
  }

  /** The 8-bit names carry no byte order and are read as little-endian. */
  lemma ParseEightBitNames(d: Format)
    ensures ParseFormatString(d, "S8") == d.(isSigned := true, depth := 8, width := 8, bigEndian := false)
    ensures ParseFormatString(d, "U8") == d.(isSigned := false, depth := 8, width := 8, bigEndian := false)
  {
    ParseUnsignedDigitsOf(8, "");
    assert DigitsOf(8) == "8";
  }

  /** The sample type eat dispatches doLoop on, if any. */
  function DispatchType(f: Format): (t: Option<SampleType>)
    ensures t.Some? && t.value != Float32 ==> SizeOf(t.value) == f.width / 8
  {
    if f.isFloat then Some(Float32)
    else if f.width == 8 then Some(if f.isSigned then Int8 else UInt8)
    else if f.width == 16 then Some(if f.isSigned then Int16 else UInt16)
    else if f.width == 24 then Some(if f.isSigned then Int24 else UInt24)
    else if f.width == 32 then Some(if f.isSigned then Int32 else UInt32)
    else None
  }

  /** paddingShiftAmount */
  function PaddingShift(f: Format): int
  {
    if f.isFloat then 0 else f.width - f.depth
  }

  /**
   * What the conversion demands of a format to stay within its buffer and
   * defined C++ shifts: a float sample of at least 4 bytes, and for the
   * plain integer types a padding shift that is not negative and, for
   * 32-bit values, below 32.
   */
  predicate ConversionDefined(f: Format)
  {
    match DispatchType(f)
    case None => true
    case Some(t) =>
      (t == Float32 ==> f.width < 8 || f.width >= 32) &&
      (IsIntegerType(t) ==> 0 <= PaddingShift(f) && (TypeBits(t) == 32 ==> PaddingShift(f) < 32))
  }

  /** The `k`-th value of type `t` stored in `input`. */
  function ReadAt(t: SampleType, input: seq<byte>, k: nat): (r: RawSample)
    requires (k + 1) * SizeOf(t) <= |input|
    ensures IsValueOf(t, r)
  {
    ReadRaw(t, input[k * SizeOf(t)..(k + 1) * SizeOf(t)])
  }

  /** The whole values of type `t` in `input` (the buffer cast to `const T*`). */
  function AsValues(t: SampleType, input: seq<byte>): (vs: seq<RawSample>)
    ensures |vs| == |input| / SizeOf(t)
    ensures forall k :: 0 <= k < |vs| ==> IsValueOf(t, vs[k])
  {
    seq(|input| / SizeOf(t), k requires 0 <= k < |input| / SizeOf(t) =>
      MulMono(SizeOf(t), k + 1, |input| / SizeOf(t));
      ReadAt(t, input, k))
  }

  /** A frame reader's source sample count: one sample per mono frame, two per stereo frame. */
  function SamplesRead(channels: nat, n: nat): nat
  {
    if channels == 1 then n else 2 * n
  }

  /** The index of the source sample output sample `j` is read from. */
  function SourceSample(channels: nat, j: nat): nat
  {
    if channels == 1 then j / 2 else j
  }

  /** The two samples of frame `k` read source values SamplesRead(channels, k) onwards. */
  lemma SourceSampleOfFrame(channels: nat, k: nat)
    ensures SourceSample(channels, 2 * k) == SamplesRead(channels, k)
    ensures SourceSample(channels, 2 * k + 1) == SamplesRead(channels, k) + (if channels == 1 then 0 else 1)
  {
  }

  /**
   * Output sample `j`: the source value it is read from, put through the
   * per-sample conversion (0 stands for a sample past the input, which
   * doLoop never writes).
   */
  function OutputSample(b: Build, f: Format, t: SampleType, src: seq<RawSample>, j: nat,
                        floatScale: nat -> Int32Value): int
    requires forall k :: 0 <= k < |src| ==> IsValueOf(t, src[k])
    requires IsIntegerType(t) ==> PaddingShift(f) >= 0
  {
    var k := SourceSample(f.channels, j);
    if k < |src| then ConvertSample(b, t, f.bigEndian, PaddingShift(f), src[k], floatScale) else 0
  }

  /**
   * The samples doLoop writes for `n` frames, two per frame: sample `j` is
   * source value `j` put through the conversion for stereo input, and
   * source value `j / 2` for mono input, so both sides of a mono frame
   * carry the same sample.
   */
  function ConvertedSamples(b: Build, f: Format, t: SampleType, src: seq<RawSample>, n: nat,
                            floatScale: nat -> Int32Value): (vs: seq<int>)
    requires f.channels in {1, 2} && SamplesRead(f.channels, n) <= |src|
    requires forall k :: 0 <= k < |src| ==> IsValueOf(t, src[k])
    requires IsIntegerType(t) ==> PaddingShift(f) >= 0
    ensures |vs| == 2 * n
    ensures forall j :: 0 <= j < 2 * n ==> SourceSample(f.channels, j) < |src|
  {
    seq(2 * n, j requires 0 <= j < 2 * n => OutputSample(b, f, t, src, j, floatScale))
  }

  /** The frames the output of eat holds: |input| / bytesPerSample / channels. */
  function FrameCount(f: Format, size: nat): nat
    requires f.width / 8 > 0 && f.channels > 0
  {
    size / (f.width / 8) / f.channels
  }

  /** The frames eat counts are all in the buffer when its samples are at least `sampleSize` bytes. */
  lemma FramesFit(size: nat, bytesPerSample: nat, channels: nat, sampleSize: nat)
    requires 1 <= sampleSize <= bytesPerSample && channels in {1, 2}
    ensures SamplesRead(channels, size / bytesPerSample / channels) <= size / sampleSize
  {
    var samples := size / bytesPerSample;
    var n := samples / channels;
    assert SamplesRead(channels, n) <= samples;
    MulMono(samples, sampleSize, bytesPerSample);
    assert samples * sampleSize <= size;
    DivLowerBound(size, sampleSize, samples);
  }

  lemma DivLowerBound(x: nat, d: nat, q: nat)
    requires d >= 1 && q * d <= x
    ensures q <= x / d
  {
    var r := x / d;
    assert (r + 1) * d == r * d + d;
    if r + 1 <= q {
      MulMono(d, r + 1, q);
    }
  }

  /** What eat returns. */
  datatype EatResult =
    | PassThrough                 // the input buffer itself
    | Output(data: seq<byte>)     // a new buffer with these contents
    | Unfilled(size: nat)         // a new buffer of this size that nothing writes

  /** Input already in the canonical format is handed on as it is. */
  predicate IsPassThrough(b: Build, f: Format)
  {
    !f.bigEndian && !f.isFloat && f.isSigned &&
    f.width == SampleBits(b) && f.depth == BitDepth(b) && f.channels == 2
  }

  class AudioConverter {
    const build: Build
    var srcIsBigEndian: bool
    var srcIsFloat: bool
    var srcIsSigned: bool
    var srcWidth: nat
    var srcDepth: nat
    var srcChannels: nat

    function SourceFormat(): Format
      reads this
    {
      Format(srcIsBigEndian, srcIsFloat, srcIsSigned, srcWidth, srcDepth, srcChannels)
    }

    /** Records the source format described by `caps`. */
    constructor (b: Build, caps: Caps)
      ensures build == b && SourceFormat() == ParseCaps(caps)
    {
      build := b;
      srcIsBigEndian := false;
      srcIsFloat := false;
      srcWidth := 16;
      srcDepth := 16;
      srcChannels := 2;
      srcIsSigned := true;
      new;
      if caps.structure.Some? {
        var s := caps.structure.value;
        if s.channels.Some? {
          srcChannels := s.channels.value;
        }
        if srcChannels > 2 {
          srcChannels := 2;
        }
        if s.format.Some? {
          ReadFormatString(s.format.value);
        }
      }
    }

    /** The constructor's parsing of the format string, over the format recorded so far. */
    method ReadFormatString(format: string)
      modifies this
      ensures SourceFormat() == ParseFormatString(old(SourceFormat()), format)
    {
      var first := CharAt(format, 0);
      if first == 'S' || first == 'U' || first == 'F' {
        if first == 'S' {
          srcIsSigned := true;
        } else if first == 'U' {
          srcIsSigned := false;
        } else {
          srcIsFloat := true;
        }
        ReadSizes(format[1..]);
      }
    }

    /** The sizes and byte order that follow the first character of the format string. */
    method ReadSizes(rest: string)
      modifies this
      ensures SourceFormat() == ParseSizes(old(SourceFormat()), rest)
    {
      var (depth, afterDepth) := ParseUnsigned(rest);
      var tail := afterDepth;
      srcDepth := depth;
      if CharAt(afterDepth, 0) == '_' {
        var (width, afterWidth) := ParseUnsigned(afterDepth[1..]);
        srcWidth := width;
        tail := afterWidth;
      } else {
        srcWidth := srcDepth;
      }
      srcIsBigEndian := CString(tail) == "BE";
    }

    /**
     * Converts one buffer: input in the canonical format passes through;
     * without whole samples or channels the result is empty; otherwise a
     * buffer of two canonical samples per source frame, filled when the
     * width selects a sample type.
     */
    method Eat(input: seq<byte>, floatScale: nat -> Int32Value) returns (r: EatResult)
      requires srcChannels <= 2 && ConversionDefined(SourceFormat())
      ensures r.PassThrough? <==> IsPassThrough(build, SourceFormat())
      ensures !r.PassThrough? && (srcWidth / 8 == 0 || srcChannels == 0) ==> r == Output([])
      ensures !r.PassThrough? && srcWidth / 8 > 0 && srcChannels > 0 ==>
        var n := FrameCount(SourceFormat(), |input|);
        match DispatchType(SourceFormat())
        case None => r == Unfilled(2 * SampleBytes(build) * n)
        case Some(t) =>
          SamplesRead(srcChannels, n) <= |AsValues(t, input)| &&
          r == Output(EncodeSamples(build, ConvertedSamples(build, SourceFormat(), t, AsValues(t, input), n, floatScale)))
    {
      if IsPassThrough(build, SourceFormat()) {
        return PassThrough;
      }
      var bytesPerSample := srcWidth / 8;
      if bytesPerSample == 0 || srcChannels == 0 {
        return Output([]);
      }
      var n := |input| / bytesPerSample / srcChannels;
      var t := DispatchType(SourceFormat());
      if t.None? {
        return Unfilled(2 * SampleBytes(build) * n);
      }
      FramesFit(|input|, bytesPerSample, srcChannels, SizeOf(t.value));
      var out := new int[2 * n];
      DoLoop(t.value, AsValues(t.value, input), n, out, floatScale);
      r := Output(EncodeSamples(build, out[..]));
    }

    /**
     * SampleReader<T, 1> and SampleReader<T, 2>: the frame at position `p`
     * and the position after it; a mono sample feeds both sides.
     */
    static method ReadSampleFrame(src: seq<RawSample>, p: nat, channels: nat)
      returns (left: RawSample, right: RawSample, next: nat)
      requires channels in {1, 2} && p + channels <= |src|
      ensures next == p + channels
      ensures left == src[p] && right == src[next - 1]
    {
      if channels == 1 {
        left := src[p];
        right := left;
        next := p + 1;
      } else {
        left := src[p];
        right := src[p + 1];
        next := p + 2;
      }
    }

    /**
     * What doLoop does to each side of a frame: byte swap when the source
     * is big-endian, the padding shift when width exceeds depth, then
     * makeSample.  `value` is source value `k`, and the result is output
     * sample `j`, which reads it.
     */
    method ConvertValue(t: SampleType, convertEndianess: bool, paddingShiftAmount: int,
                        value: RawSample, floatScale: nat -> Int32Value,
                        ghost src: seq<RawSample>, ghost j: nat) returns (s: int)
      requires SourceSample(srcChannels, j) < |src| && value == src[SourceSample(srcChannels, j)]
      requires forall k :: 0 <= k < |src| ==> IsValueOf(t, src[k])
      requires convertEndianess == srcIsBigEndian && paddingShiftAmount == PaddingShift(SourceFormat())
      requires IsIntegerType(t) ==> paddingShiftAmount >= 0
      ensures s == OutputSample(build, SourceFormat(), t, src, j, floatScale)
      ensures MinValue(build) <= s <= MaxValue(build)
    {
      var v := value;
      if convertEndianess {
        v := ToLittleEndian(t, v);
      }
      if paddingShiftAmount != 0 {
        v := ShiftLeft(t, v, paddingShiftAmount);
      }
      s := Normalize(build, t, v, floatScale);
      assert s == ConvertSample(build, t, convertEndianess, paddingShiftAmount, value, floatScale);
    }

    /**
     * One pass of doLoop's loop: read the frame at `p` and convert both
     * sides; the results are output samples 2 * frame and 2 * frame + 1.
     */
    method ConvertFrame(t: SampleType, src: seq<RawSample>, p: nat, convertEndianess: bool,
                        paddingShiftAmount: int, floatScale: nat -> Int32Value, ghost frame: nat)
      returns (l: int, r: int, next: nat)
      requires srcChannels in {1, 2} && p == SamplesRead(srcChannels, frame)
      requires SamplesRead(srcChannels, frame + 1) <= |src|
      requires forall k :: 0 <= k < |src| ==> IsValueOf(t, src[k])
      requires convertEndianess == srcIsBigEndian && paddingShiftAmount == PaddingShift(SourceFormat())
      requires IsIntegerType(t) ==> paddingShiftAmount >= 0
      ensures next == SamplesRead(srcChannels, frame + 1)
      ensures l == OutputSample(build, SourceFormat(), t, src, 2 * frame, floatScale)
      ensures r == OutputSample(build, SourceFormat(), t, src, 2 * frame + 1, floatScale)
    {
      var left, right;
      left, right, next := ReadSampleFrame(src, p, srcChannels);
      SourceSampleOfFrame(srcChannels, frame);
      l := ConvertValue(t, convertEndianess, paddingShiftAmount, left, floatScale, src, 2 * frame);
      r := ConvertValue(t, convertEndianess, paddingShiftAmount, right, floatScale, src, 2 * frame + 1);
    }

    /**
     * doLoop: converts `numFrames` frames of values of type `t` from `src`
     * into `out`, two samples per frame.
     */
    method DoLoop(t: SampleType, src: seq<RawSample>, numFrames: nat, out: array<int>,
                  floatScale: nat -> Int32Value)
      requires srcChannels in {1, 2} && SamplesRead(srcChannels, numFrames) <= |src|
      requires forall k :: 0 <= k < |src| ==> IsValueOf(t, src[k])
      requires IsIntegerType(t) ==> PaddingShift(SourceFormat()) >= 0
      requires out.Length == 2 * numFrames
      modifies out
      ensures out[..] == ConvertedSamples(build, SourceFormat(), t, src, numFrames, floatScale)
    {
      var convertEndianess := srcIsBigEndian;
      var paddingShiftAmount := if srcIsFloat then 0 else srcWidth - srcDepth;
      ghost var format := SourceFormat();
      var p := 0;
      var frame := 0;
      while frame < numFrames
        invariant 0 <= frame <= numFrames
        invariant p == SamplesRead(srcChannels, frame)
        invariant forall j :: 0 <= j < 2 * frame ==> out[j] == OutputSample(build, format, t, src, j, floatScale)
      {
        var l, r;
        l, r, p := ConvertFrame(t, src, p, convertEndianess, paddingShiftAmount, floatScale, frame);
        out[2 * frame] := l;
        out[2 * frame + 1] := r;
        frame := frame + 1;
      }
      assert out[..] == out[..2 * numFrames];
    }
  }
}
