/**
 * Resampler (Resampler.cpp, Resampler.h): linear-interpolation rate
 * conversion of stereo frames.  Incoming frames go into a scratch ring
 * buffer; the source position advances in 5.27 fixed point by a constant
 * increment per output frame.
 */
module Resampling {
  import opened Bits
  import opened Bytes
  import opened Samples
  import opened Ring

  /** 1 << FP_POST: one source frame in the fixed-point position (FP_POST == 27). */
  const One: nat := 0x800_0000
  /** 2^32: the range of a guint32. */
  const Word: nat := 0x1_0000_0000
  /** The largest increment for which the guint32 fraction sum never wraps. */
  const MaxIncrement: nat := 0xF800_0000

  /** A frame of zero samples: a value-initialised Frame. */
  const Silence := Frame(0, 0)

  /** The source position: m_srcPositionInt whole frames plus m_srcPositionFracFP / One. */
  datatype Position = Position(index: nat, frac: nat)

  /** The position as one fixed-point number. */
  function Fixed(p: Position): nat
  {
    p.index * One + p.frac
  }

  /**
   * m_srcIncrementFP = (1 << FP_POST) / (tgt / src), computed through a
   * double; modelled as the exact floor of 2^27 * src / tgt.
   */
  function Increment(sourceSR: nat, targetSR: nat): (inc: nat)
    requires targetSR > 0
    ensures inc * targetSR <= One * sourceSR < inc * targetSR + targetSR
  {
    assert One * sourceSR == targetSR * (One * sourceSR / targetSR) + One * sourceSR % targetSR;
    One * sourceSR / targetSR
  }

  /** Up to a ratio of 31, the increment leaves room for any fraction below One in a guint32. */
  lemma IncrementBound(sourceSR: nat, targetSR: nat)
    requires targetSR > 0 && sourceSR <= 31 * targetSR
    ensures Increment(sourceSR, targetSR) <= MaxIncrement
  {
    var inc := Increment(sourceSR, targetSR);
    if inc > MaxIncrement {
      MulStrict(inc, MaxIncrement, targetSR);
      assert false;
    }
  }

  lemma MulStrict(a: int, b: int, c: int)
    requires a > b && c > 0
    ensures a * c > b * c
  {
    assert a * c - b * c == (a - b) * c;
  }

  /** `x & ((1 << FP_POST) - 1)` keeps the fraction: x mod One. */
  lemma MaskFrac(x: nat)
    ensures BitAnd(x, One - 1) == x % One
  {
    Pow2Values();
    AndLowMask(x, 27);
  }

  /**
   * One output frame's step in doResampling: add the increment to the
   * guint32 fraction; whole frames move into the integer position and the
   * fraction keeps its low FP_POST bits.  Without wrap-around the
   * fixed-point position grows by exactly the increment.
   */
  function Advance(p: Position, inc: nat): (q: Position)
    requires p.frac < One && inc < Word
    ensures q.frac < One && q.index >= p.index
    ensures p.frac + inc < Word ==> Fixed(q) == Fixed(p) + inc
  {
    var sum := (p.frac + inc) % Word;
    var preComma := sum / One;
    MaskFrac(sum);
    if preComma != 0 then Position(p.index + preComma, BitAnd(sum, One - 1))
    else Position(p.index, sum)
  }

  /** The position after n output frames. */
  function AdvanceN(p: Position, inc: nat, n: nat): (q: Position)
    requires p.frac < One && inc < Word
    ensures q.frac < One
  {
    if n == 0 then p else Advance(AdvanceN(p, inc, n - 1), inc)
  }

  /** Position conservation: after n steps the fixed-point position has grown by n * inc. */
  lemma {:induction false} AdvanceNFixed(p: Position, inc: nat, n: nat)
    requires p.frac < One && inc <= MaxIncrement
    ensures Fixed(AdvanceN(p, inc, n)) == Fixed(p) + n * inc
  {
    if n > 0 {
      AdvanceNFixed(p, inc, n - 1);
      assert n * inc == (n - 1) * inc + inc;
    }
  }

  /** The reference for both interpolations: the floor of the convex combination of prev and next. */
  function Mix(prev: int, next: int, w: nat, scale: nat): int
    requires w < scale
  {
    (next * w + prev * (scale - w)) / scale
  }

  predicate Between(x: int, a: int, b: int)
  {
    (a <= x <= b) || (b <= x <= a)
  }

  /** The floor of a convex combination lies between its end points and is prev at weight 0. */
  lemma MixBetween(prev: int, next: int, w: nat, scale: nat)
    requires w < scale
    ensures Between(Mix(prev, next, w, scale), prev, next)
    ensures w == 0 ==> Mix(prev, next, w, scale) == prev
  {
    var d := next - prev;
    var x := d * w;
    MixSplit(prev, next, w, scale);
    DivAddMultiple(prev, scale, x);
    if d >= 0 {
      MulMono(d, w, scale);
      DivBetween(x, scale, 0, d);
    } else {
      MulMono(-d, w, scale);
      DivBetween(x, scale, d, 0);
    }
  }

  lemma MixSplit(prev: int, next: int, w: int, scale: int)
    ensures next * w + prev * (scale - w) == scale * prev + (next - prev) * w
  {
  }

  lemma DivAddMultiple(a: int, scale: int, x: int)
    requires scale >= 1
    ensures (scale * a + x) / scale == a + x / scale
  {
    assert x == scale * (x / scale) + x % scale;
    assert scale * (a + x / scale) == scale * a + scale * (x / scale);
    DivModUnique(scale * a + x, scale, a + x / scale, x % scale);
  }

  /** Bounds on a quotient from bounds on the dividend. */
  lemma DivBetween(x: int, scale: int, lo: int, hi: int)
    requires scale >= 1 && scale * lo <= x <= scale * hi
    ensures lo <= x / scale <= hi
  {
    var q := x / scale;
    assert x == scale * (x / scale) + x % scale;
    if q < lo {
      MulMono(scale, q + 1, lo);
      assert false;
    }
    if q > hi {
      MulMono(scale, hi, q);
      assert false;
    }
  }

  /**
   * interpolate<gint16>: the weight frac >> 11 on 16 bits; the products and
   * their sum are unsigned 32-bit, shifted right by 16 and converted to
   * gint16.
   */
  function Interpolate16(prev: int, next: int, frac: nat): (r: int)
    ensures -0x8000 <= r < 0x8000
  {
    var w := frac / 0x800;
    var u := (next * w + prev * (0x1_0000 - w)) % Word;
    var h := u / 0x1_0000;
    if h < 0x8000 then h else h - 0x1_0000
  }

  /** The unsigned arithmetic of interpolate<gint16> still yields the floor of the convex combination. */
  lemma Interpolate16IsMix(prev: int, next: int, frac: nat)
    requires -0x8000 <= prev < 0x8000 && -0x8000 <= next < 0x8000 && frac < One
    ensures Interpolate16(prev, next, frac) == Mix(prev, next, frac / 0x800, 0x1_0000)
  {
    var w := frac / 0x800;
    var v := next * w + prev * (0x1_0000 - w);
    var y := Mix(prev, next, w, 0x1_0000);
    MixBetween(prev, next, w, 0x1_0000);
    DivModSplit(v, 0x1_0000, 0x1_0000);
    var u := v % Word;
    DivModUnique(u, 0x1_0000, (v / 0x1_0000) % 0x1_0000, v % 0x1_0000);
    if y >= 0 {
      DivModUnique(y, 0x1_0000, 0, y);
    } else {
      DivModUnique(y, 0x1_0000, -1, y + 0x1_0000);
    }
  }

  /**
   * interpolate<gint32>: the weight frac << 5 on 32 bits; the products and
   * their sum are gint64 (two's-complement wrap-around stands for the
   * overflow C leaves undefined), shifted right arithmetically by 32 and
   * converted to gint32.
   */
  function Interpolate32(prev: int, next: int, frac: nat): (r: int)
    ensures -0x8000_0000 <= r < 0x8000_0000
  {
    var fracBig := frac * 32;
    HighWordWraps(next * fracBig + prev * (Word - fracBig));
    Pow2Values();
    HighWord(next * fracBig + prev * (Word - fracBig))
  }

  /**
   * The gint32 conversion of a gint64 shifted right by 32; each wrap-around
   * is written as (v + 2^(n-1)) mod 2^n - 2^(n-1), without a case split.
   */
  function HighWord(v: int): int
  {
    var wide := (v + 0x8000_0000_0000_0000) % 0x1_0000_0000_0000_0000 - 0x8000_0000_0000_0000;
    (wide / Word + 0x8000_0000) % Word - 0x8000_0000
  }

  /** HighWord wraps to 64 bits, shifts right by 32 and wraps to 32 bits. */
  lemma HighWordWraps(v: int)
    ensures HighWord(v) == Wrap(Wrap(v, 64) / Word, 32)
    ensures InSigned(HighWord(v), 32)
  {
    assert Pow2(63) == 0x8000_0000_0000_0000 by { Pow2Values(); Pow2Add(31, 32); }
    assert Pow2(64) == 0x1_0000_0000_0000_0000 by { Pow2Values(); Pow2Add(32, 32); }
    WrapOffset(v, 64);
    Pow2Values();
    WrapOffset(Wrap(v, 64) / Word, 32);
  }

  /**
   * For gint32 samples the 64-bit arithmetic of interpolate<gint32> neither
   * overflows nor truncates: it yields the floor of the convex combination.
   */
  lemma Interpolate32IsMix(prev: int, next: int, frac: nat)
    requires -0x8000_0000 <= prev < 0x8000_0000 && -0x8000_0000 <= next < 0x8000_0000 && frac < One
    ensures Interpolate32(prev, next, frac) == Mix(prev, next, frac * 32, Word)
  {
    var f := frac * 32;
    var v := next * f + prev * (Word - f);
    assert Interpolate32(prev, next, frac) == HighWord(v);
    Interpolate32NoOverflow(prev, next, f);
    DivModUnique(v + 0x8000_0000_0000_0000, 0x1_0000_0000_0000_0000, 0, v + 0x8000_0000_0000_0000);
    var y := v / Word;
    MixBetween(prev, next, f, Word);
    DivModUnique(y + 0x8000_0000, Word, 0, y + 0x8000_0000);
  }

  /** The 64-bit intermediate of interpolate<gint32> does not overflow. */
  lemma Interpolate32NoOverflow(prev: int, next: int, f: nat)
    requires -0x8000_0000 <= prev < 0x8000_0000 && -0x8000_0000 <= next < 0x8000_0000 && f < Word
    ensures -0x8000_0000_0000_0000 <= next * f + prev * (Word - f) < 0x8000_0000_0000_0000
  {
    ConvexBounds(prev, next, f, Word);
  }

  /** A weighted sum with weights f and scale - f lies between scale * prev and scale * next. */
  lemma ConvexBounds(prev: int, next: int, f: int, scale: int)
    requires 0 <= f <= scale
    ensures var v := next * f + prev * (scale - f);
      (scale * prev <= v <= scale * next) || (scale * next <= v <= scale * prev)
  {
    MixSplit(prev, next, f, scale);
    MixSplit(next, prev, scale - f, scale);
    if next >= prev {
      MulMono(next - prev, f, scale);
    } else {
      MulMono(prev - next, scale - f, scale);
    }
  }

  /** The sample ranges of the two builds' tSample, as literals. */
  lemma SampleLimits(b: Build, v: int)
    requires IsSample(b, v)
    ensures b == Build16 ==> -0x8000 <= v < 0x8000
    ensures b == Build24 ==> -0x8000_0000 <= v < 0x8000_0000
  {
    Pow2Values();
  }

  /** interpolate<tSample> of the build. */
  function Interpolate(b: Build, prev: int, next: int, frac: nat): int
  {
    if b == Build16 then Interpolate16(prev, next, frac) else Interpolate32(prev, next, frac)
  }

  /** An interpolated sample is a tSample and lies between prev and next. */
  lemma InterpolateBetween(b: Build, prev: int, next: int, frac: nat)
    requires IsSample(b, prev) && IsSample(b, next) && frac < One
    ensures IsSample(b, Interpolate(b, prev, next, frac))
    ensures Between(Interpolate(b, prev, next, frac), prev, next)
  {
    SampleLimits(b, prev);
    SampleLimits(b, next);
    var r := Interpolate(b, prev, next, frac);
    if b == Build16 {
      Interpolate16IsMix(prev, next, frac);
      MixBetween(prev, next, frac / 0x800, 0x1_0000);
    } else {
      Interpolate32IsMix(prev, next, frac);
      MixBetween(prev, next, frac * 32, Word);
    }
    BetweenIsSample(b, r, prev, next);
  }

  /** A value between two samples is a sample. */
  lemma BetweenIsSample(b: Build, r: int, prev: int, next: int)
    requires IsSample(b, prev) && IsSample(b, next) && Between(r, prev, next)
    ensures IsSample(b, r)
  {
  }

  predicate AllFrames(b: Build, fs: seq<Frame>)
  {
    forall k :: 0 <= k < |fs| ==> IsFrame(b, fs[k])
  }

  /** peek on the array contents `slots`: the slot the mask |slots| - 1 selects. */
  function PeekSlot(slots: seq<Frame>, readHead: nat): Frame
    requires |slots| >= 1
  {
    BitAndLe(readHead, |slots| - 1);
    slots[BitAnd(readHead, |slots| - 1)]
  }

  /**
   * calcInterpolatedFrame on the scratch array `slots`: the frame at the
   * position truncated to a guint32, or, when the fraction is non-zero, the
   * channel-wise interpolation between it and the next frame.
   */
  function CalcFrame(b: Build, slots: seq<Frame>, p: Position): Frame
    requires |slots| >= 1
  {
    var prevFramePos := p.index % Word;
    var frac := BitAnd(p.frac, One - 1);
    if frac == 0 then PeekSlot(slots, prevFramePos)
    else
      var nextFramePos := (prevFramePos + 1) % Word;
      var prev := PeekSlot(slots, prevFramePos);
      var next := PeekSlot(slots, nextFramePos);
      Frame(Interpolate(b, prev.left, next.left, frac), Interpolate(b, prev.right, next.right, frac))
  }

  /** On a power-of-two array, the masked slot is the position modulo the capacity. */
  lemma PeekSlotMod(slots: seq<Frame>, k: nat, readHead: nat)
    requires |slots| == Pow2(k)
    ensures PeekSlot(slots, readHead) == slots[readHead % |slots|]
  {
    AndLowMask(readHead, k);
  }

  /**
   * Truncating the position to a guint32, and the guint32 increment of it,
   * select the same slots as the full position and its successor, because
   * the capacity is a power of two dividing 2^32.
   */
  lemma TruncatedSlot(cap: nat, k: nat, x: nat)
    requires cap == Pow2(k) && k <= 32
    ensures (x % Word) % cap == x % cap
    ensures ((x % Word + 1) % Word) % cap == (x + 1) % cap
  {
    Pow2Word();
    ModPow2OfMod32(x, k);
    ModPow2OfMod32(x + 1, k);
    AddOneMod(x, Word);
  }

  lemma Pow2Word()
    ensures Pow2(32) == Word
  {
    Pow2Values();
  }

  /** Incrementing before or after the reduction gives the same residue. */
  lemma AddOneMod(x: int, m: int)
    requires m >= 1
    ensures (x % m + 1) % m == (x + 1) % m
  {
    assert x == m * (x / m) + x % m;
    ModShift(x % m + 1, m, x / m);
  }

  /** When the fraction is zero the output frame is the scratch frame at the position, unchanged. */
  lemma CalcFrameExact(b: Build, slots: seq<Frame>, k: nat, p: Position)
    requires |slots| == Pow2(k) && k <= 32 && p.frac == 0
    ensures CalcFrame(b, slots, p) == slots[p.index % |slots|]
  {
    TruncatedSlot(|slots|, k, p.index);
    PeekSlotMod(slots, k, p.index % Word);
    MaskFrac(0);
  }

  /**
   * Otherwise each channel of the output lies between the frame at the
   * position and the frame after it.
   */
  lemma CalcFrameBetween(b: Build, slots: seq<Frame>, k: nat, p: Position)
    requires |slots| == Pow2(k) && k <= 32 && AllFrames(b, slots) && 0 < p.frac < One
    ensures var prev := slots[p.index % |slots|];
      var next := slots[(p.index + 1) % |slots|];
      var f := CalcFrame(b, slots, p);
      && IsFrame(b, f)
      && Between(f.left, prev.left, next.left) && Between(f.right, prev.right, next.right)
  {
    CalcFrameInterpolated(b, slots, k, p);
    var prev := slots[p.index % |slots|];
    var next := slots[(p.index + 1) % |slots|];
    InterpolateBetween(b, prev.left, next.left, p.frac);
    InterpolateBetween(b, prev.right, next.right, p.frac);
  }

  /** With a fraction, the frame is interpolated between the slots of the position and its successor. */
  lemma CalcFrameInterpolated(b: Build, slots: seq<Frame>, k: nat, p: Position)
    requires |slots| == Pow2(k) && k <= 32 && 0 < p.frac < One
    ensures var prev := slots[p.index % |slots|];
      var next := slots[(p.index + 1) % |slots|];
      CalcFrame(b, slots, p) ==
        Frame(Interpolate(b, prev.left, next.left, p.frac), Interpolate(b, prev.right, next.right, p.frac))
  {
    TruncatedSlot(|slots|, k, p.index);
    PeekSlotMod(slots, k, p.index % Word);
    PeekSlotMod(slots, k, (p.index % Word + 1) % Word);
    MaskFrac(p.frac);
    DivModUnique(p.frac, One, 0, p.frac);
  }

  /** The frames doResampling writes: output frame k is calculated at the position after k steps. */
  function Resampled(b: Build, slots: seq<Frame>, p: Position, inc: nat, n: nat): (fs: seq<Frame>)
    requires |slots| >= 1 && p.frac < One && inc < Word
    ensures |fs| == n
  {
    seq(n, k requires 0 <= k < n => CalcFrame(b, slots, AdvanceN(p, inc, k)))
  }

  /** The first i + 1 frames doResampling writes are the first i and the frame at the position after i steps. */
  lemma ResampledExtend(b: Build, slots: seq<Frame>, p: Position, inc: nat, n: nat, i: nat)
    requires |slots| >= 1 && p.frac < One && inc < Word && i < n
    ensures Resampled(b, slots, p, inc, n)[..i + 1]
      == Resampled(b, slots, p, inc, n)[..i] + [CalcFrame(b, slots, AdvanceN(p, inc, i))]
  {
    var r := Resampled(b, slots, p, inc, n);
    assert r[i] == CalcFrame(b, slots, AdvanceN(p, inc, i));
    PrefixSnoc(r, i);
  }

  /** A prefix one longer is the shorter prefix and the next element. */
  lemma PrefixSnoc<T>(r: seq<T>, i: nat)
    requires i < |r|
    ensures r[..i + 1] == r[..i] + [r[i]]
  {
  }

  /**
   * getNumFramesAvailable and produceResampledBuffer as written: the
   * frames written beyond the integer position less one lookahead frame,
   * scaled by tgt / src, and none when nothing is available.
   */
  function OutFrameCount(writeHead: nat, index: nat, sourceSR: nat, targetSR: nat): (n: nat)
    requires sourceSR > 0
    ensures writeHead <= index + 1 ==> n == 0
    ensures writeHead > index + 1 ==>
      n * sourceSR <= (writeHead - index - 1) * targetSR < n * sourceSR + sourceSR
  {
    var numFramesAvailable := writeHead - index - 1;
    if numFramesAvailable <= 0 then 0
    else
      assert numFramesAvailable * targetSR == sourceSR * (numFramesAvailable * targetSR / sourceSR) + numFramesAvailable * targetSR % sourceSR;
      numFramesAvailable * targetSR / sourceSR
  }

  /** calcInterpolatedFrame at p reads only frames below writeHead. */
  predicate ReadsWritten(p: Position, writeHead: nat)
  {
    p.index < writeHead && (p.frac != 0 ==> p.index + 1 < writeHead)
  }

  /** The number of output frames from p on whose position is at most writeHead - 1. */
  function SafeFrameCount(writeHead: nat, p: Position, inc: nat): (n: nat)
    requires inc > 0
    ensures forall k: nat :: k < n <==> writeHead >= 1 && Fixed(p) + k * inc <= (writeHead - 1) * One
  {
    if writeHead == 0 || Fixed(p) > (writeHead - 1) * One then
      assert forall k: nat :: Fixed(p) + k * inc >= Fixed(p) by {
        forall k: nat ensures Fixed(p) + k * inc >= Fixed(p) { MulMono(inc, 0, k); }
      }
      0
    else
      var room := (writeHead - 1) * One - Fixed(p);
      SafeCountIff(room, inc);
      room / inc + 1
  }

  /** k <= room / inc exactly when k * inc <= room. */
  lemma SafeCountIff(room: nat, inc: nat)
    requires inc > 0
    ensures forall k: nat :: k < room / inc + 1 <==> k * inc <= room
  {
    forall k: nat ensures k < room / inc + 1 <==> k * inc <= room {
      SafeCountStep(room, inc, k);
    }
  }

  lemma SafeCountStep(room: nat, inc: nat, k: nat)
    requires inc > 0
    ensures k <= room / inc <==> k * inc <= room
  {
    var q := room / inc;
    assert room == inc * (room / inc) + room % inc;
    if k <= q {
      MulMono(inc, k, q);
    } else {
      MulMono(inc, q + 1, k);
    }
  }

  /**
   * The output frame count the reservation of one lookahead frame
   * evidently intends: the count as written, but no more frames than stay
   * within the written frames.
   */
  function CorrectedFrameCount(writeHead: nat, p: Position, sourceSR: nat, targetSR: nat, inc: nat): (n: nat)
    requires sourceSR > 0
    ensures n <= OutFrameCount(writeHead, p.index, sourceSR, targetSR)
  {
    var asWritten := OutFrameCount(writeHead, p.index, sourceSR, targetSR);
    if inc == 0 then asWritten
    else
      var safe := SafeFrameCount(writeHead, p, inc);
      if safe < asWritten then safe else asWritten
  }

  /** With the corrected count every frame peeked during a call has been written. */
  lemma CorrectedReadsWritten(writeHead: nat, p: Position, sourceSR: nat, targetSR: nat, inc: nat, k: nat)
    requires sourceSR > 0 && p.frac < One && inc <= MaxIncrement
    requires k < CorrectedFrameCount(writeHead, p, sourceSR, targetSR, inc)
    ensures ReadsWritten(AdvanceN(p, inc, k), writeHead)
  {
    var q := AdvanceN(p, inc, k);
    AdvanceNFixed(p, inc, k);
    if inc == 0 {
      assert Fixed(q) == Fixed(p);
    } else {
      assert Fixed(p) + k * inc <= (writeHead - 1) * One;
    }
  }

  /**
   * The count as written lets interpolation read a frame that has not been
   * written: at 16000 -> 48000 Hz, after a first buffer of two frames and a
   * second of one, the fifth output frame of the second call peeks frame 3
   * while only frames 0..2 exist.
   */
  lemma OutFrameCountReadsUnwritten()
    ensures var inc := Increment(16000, 48000);
      var p := AdvanceN(Position(0, 0), inc, 3);
      && OutFrameCount(2, 0, 16000, 48000) == 3
      && OutFrameCount(3, p.index, 16000, 48000) == 6
      && !ReadsWritten(AdvanceN(p, inc, 4), 3)
  {
    var inc := Increment(16000, 48000);
    assert inc == 44739242;
    var p := AdvanceN(Position(0, 0), inc, 3);
    assert AdvanceN(Position(0, 0), inc, 1) == Position(0, 44739242);
    assert AdvanceN(Position(0, 0), inc, 2) == Position(0, 89478484);
    assert p == Position(0, 134217726);
    assert AdvanceN(p, inc, 1) == Position(1, 44739240);
    assert AdvanceN(p, inc, 2) == Position(1, 89478482);
    assert AdvanceN(p, inc, 3) == Position(1, 134217724);
    assert AdvanceN(p, inc, 4) == Position(2, 44739238);
  }

  /**
   * Halving the rate of four frames: the count is one frame, and that frame
   * sits at position 0 with a zero fraction, so it is the first input frame.
   */
  lemma HalfRateScenario()
    ensures var fs := [Frame(100, -100), Frame(200, -200), Frame(300, -300), Frame(400, -400)];
      var slots := Slots(Silence, Capacity(2), fs);
      var inc := Increment(2, 1);
      && CorrectedFrameCount(4, Position(0, 0), 2, 1, inc) == 1
      && Resampled(Build16, slots, Position(0, 0), inc, 1) == [Frame(100, -100)]
  {
    var fs := [Frame(100, -100), Frame(200, -200), Frame(300, -300), Frame(400, -400)];
    assert HighestSetBit(2) == 1;
    assert Capacity(2) == 4;
    var slots := Slots(Silence, 4, fs);
    SlotsFull(Silence, 4, fs);
    var inc := Increment(2, 1);
    assert inc == 0x1000_0000;
    assert SafeFrameCount(4, Position(0, 0), inc) == 2;
    assert OutFrameCount(4, 0, 2, 1) == 1;
    MaskFrac(0);
    assert CalcFrame(Build16, slots, Position(0, 0)) == Frame(100, -100);
  }

  class Resampler {
    const build: Build
    /** m_sourceSR */
    const sourceSR: nat
    /** m_targetSR */
    const targetSR: nat
    /** m_scratchBuffer */
    const scratch: RingBuffer<Frame>
    /** m_srcIncrementFP */
    const incrementFP: nat
    /** m_srcPositionFracFP */
    var fracFP: nat
    /** m_srcPositionInt */
    var positionInt: nat

    function Pos(): Position
      reads this
    {
      Position(positionInt, fracFP)
    }

    ghost predicate Valid()
      reads this, scratch, scratch.buffer
    {
      ScratchValid() && fracFP < One
    }

    /** The part of the invariant that does not depend on the position. */
    ghost predicate ScratchValid()
      reads scratch, scratch.buffer
    {
      && scratch.Valid()
      && scratch.fill == Silence
      && sourceSR > 0 && targetSR > 0
      && incrementFP <= MaxIncrement
    }

    /**
     * Resampler (srcSR, tgtSR): a scratch buffer for max (srcSR, tgtSR)
     * frames, position zero, increment 2^27 * srcSR / tgtSR.
     */
    constructor (b: Build, srcSR: nat, tgtSR: nat)
      requires 0 < srcSR < 0x4000_0000 && 0 < tgtSR < 0x4000_0000 && srcSR <= 31 * tgtSR
      ensures Valid() && fresh(scratch) && fresh(scratch.buffer)
      ensures build == b && sourceSR == srcSR && targetSR == tgtSR
      ensures incrementFP == Increment(srcSR, tgtSR)
      ensures scratch.history == [] && Pos() == Position(0, 0)
      ensures scratch.buffer.Length == Capacity(if srcSR < tgtSR then tgtSR else srcSR)
    {
      build := b;
      sourceSR := srcSR;
      targetSR := tgtSR;
      scratch := new RingBuffer(if srcSR < tgtSR then tgtSR else srcSR, Silence);
      fracFP := 0;
      incrementFP := Increment(srcSR, tgtSR);
      positionInt := 0;
      IncrementBound(srcSR, tgtSR);
    }

    /**
     * eat: the input itself when the rates are equal; otherwise its whole
     * frames are appended to the scratch buffer and the output holds the
     * frames resampled from the old position on.
     */
    method Eat(input: seq<byte>) returns (output: seq<byte>)
      requires Valid()
      modifies this, scratch, scratch.buffer
      ensures Valid()
      ensures sourceSR == targetSR ==>
        output == input && unchanged(this, scratch, scratch.buffer)
      ensures sourceSR != targetSR ==>
        && scratch.history == old(scratch.history) + DecodeFrames(build, input)
        && var n := CorrectedFrameCount(|scratch.history|, old(Pos()), sourceSR, targetSR, incrementFP);
           && output == EncodeFrames(build, Resampled(build, scratch.buffer[..], old(Pos()), incrementFP, n))
           && Pos() == AdvanceN(old(Pos()), incrementFP, n)
    {
      if sourceSR == targetSR {
        return input;
      }
      WriteToScratch(input);
      output := ProduceResampledBuffer();
    }

    /** writeToScratch: size / sizeof (tSample) / 2 whole frames go into the scratch buffer. */
    method WriteToScratch(input: seq<byte>)
      requires Valid()
      modifies scratch, scratch.buffer
      ensures Valid()
      ensures scratch.history == old(scratch.history) + DecodeFrames(build, input)
    {
      var frames := DecodeFrames(build, input);
      scratch.Write(frames);
    }

    /** produceResampledBuffer: as many output frames as the corrected count allows. */
    method ProduceResampledBuffer() returns (output: seq<byte>)
      requires Valid()
      modifies this
      ensures Valid()
      ensures var n := CorrectedFrameCount(|scratch.history|, old(Pos()), sourceSR, targetSR, incrementFP);
        && output == EncodeFrames(build, Resampled(build, scratch.buffer[..], old(Pos()), incrementFP, n))
        && Pos() == AdvanceN(old(Pos()), incrementFP, n)
    {
      var numOutFrames := CorrectedFrameCount(scratch.GetWriteHead(), Pos(), sourceSR, targetSR, incrementFP);
      var out := new Frame[numOutFrames](_ => Silence);
      DoResampling(out);
      output := EncodeFrames(build, out[..]);
    }

    /**
     * doResampling: each output frame is calculated at the current
     * position, which then advances by the increment.
     */
    method DoResampling(out: array<Frame>)
      requires Valid() && out != scratch.buffer
      modifies this, out
      ensures Valid()
      ensures out[..] == Resampled(build, scratch.buffer[..], old(Pos()), incrementFP, out.Length)
      ensures Pos() == AdvanceN(old(Pos()), incrementFP, out.Length)
    {
      ghost var slots := scratch.buffer[..];
      ghost var start := Pos();
      ghost var expected := Resampled(build, slots, start, incrementFP, out.Length);
      for i := 0 to out.Length
        invariant Valid() && scratch.buffer[..] == slots
        invariant Pos() == AdvanceN(start, incrementFP, i)
        invariant out[..i] == expected[..i]
      {
        ResampleNext(out, i, slots, start, expected);
      }
      assert out[..] == out[..out.Length];
    }

    /** ResampleStep extends the frames written so far by the next frame doResampling owes. */
    method ResampleNext(out: array<Frame>, i: nat, ghost slots: seq<Frame>, ghost start: Position,
                        ghost expected: seq<Frame>)
      requires Valid() && out != scratch.buffer && i < out.Length && scratch.buffer[..] == slots
      requires start.frac < One && Pos() == AdvanceN(start, incrementFP, i)
      requires expected == Resampled(build, slots, start, incrementFP, out.Length)
      requires out[..i] == expected[..i]
      modifies this, out
      ensures Valid() && scratch.buffer[..] == slots
      ensures Pos() == AdvanceN(start, incrementFP, i + 1)
      ensures out[..i + 1] == expected[..i + 1]
    {
      ghost var before := out[..i];
      ResampleStep(out, i);
      assert out[..i + 1] == before + [out[i]];
      ResampledExtend(build, slots, start, incrementFP, out.Length, i);
    }

    /** One iteration of doResampling: the frame at the position goes to out[i], then the position advances. */
    method ResampleStep(out: array<Frame>, i: nat)
      requires Valid() && out != scratch.buffer && i < out.Length
      modifies this, out
      ensures Valid()
      ensures out[..] == old(out[..])[i := CalcFrame(build, scratch.buffer[..], old(Pos()))]
      ensures Pos() == Advance(old(Pos()), incrementFP)
    {
      var target := CalcInterpolatedFrame();
      out[i] := target;
      var next := Advance(Pos(), incrementFP);
      positionInt, fracFP := next.index, next.frac;
    }

    /** calcInterpolatedFrame: the output frame at the current position. */
    method CalcInterpolatedFrame() returns (target: Frame)
      requires Valid()
      ensures target == CalcFrame(build, scratch.buffer[..], Pos())
    {
      var prevFramePos := positionInt % Word;
      var frac := BitAnd(fracFP, One - 1);
      PeekSlotMod(scratch.buffer[..], scratch.bits, prevFramePos);
      PeekSlotMod(scratch.buffer[..], scratch.bits, (prevFramePos + 1) % Word);
      if frac == 0 {
        target := scratch.Peek(prevFramePos);
      } else {
        var nextFramePos := (prevFramePos + 1) % Word;
        var prev := scratch.Peek(prevFramePos);
        var next := scratch.Peek(nextFramePos);
        target := Frame(Interpolate(build, prev.left, next.left, frac), Interpolate(build, prev.right, next.right, frac));
      }
    }
  }
}
