# stream-decoder PCM core in Dafny

A model of the audio path in raumfeld's stream-decoder, with proofs about it.
GStreamer hands the decoder raw PCM buffers in many formats. The audio path
turns them into interleaved stereo samples at one build-time width:

- **16-bit build:** `tSample` is `gint16` and `BITDEPTH` is 16.
- **24-bit build:** `tSample` is `gint32` and `BITDEPTH` is 24.

The path resamples those samples to a rate the renderer accepts. The model
covers the following:

- **AudioConverter** (`audio_converter.dfy`, `sample_conversion.dfy`):
  - it parses the GStreamer format string `[SUF]<depth>[_<width>][BE]` and the channel count;
  - it passes canonical input through unchanged;
  - otherwise it converts each sample in order: byte swap, padding shift, `makeSigned`, then the shift to `BITDEPTH`.
- **RingBuffer** (`ring_buffer.dfy`):
  - a power-of-two array addressed by an ever-growing write head;
  - `write` splits at the end of the array;
  - a ghost history of every element written explains the array contents.
- **Resampler** (`resampler.dfy`):
  - a 5.27 fixed-point source position advanced by a constant increment;
  - an exact copy at fraction zero, otherwise per-channel integer interpolation;
  - the output frame count reserves one lookahead frame.
- **Pipeline** (`pipeline.dfy`):
  - choice of the target rate from the renderer's list;
  - one-time creation of the converter;
  - creation and replacement of the resampler when the caps change;
  - the gating of audio data.
- **Pipelines** (`pipelines.dfy`): the stream-id registry (decode, stop, reset).
- **SupportedProtocols** (`supported_protocols.dfy`): the `http-get:*:<mime>:*` list built from the type-find factories' caps, and its NULL-terminated array form.

Support modules:

- `bits.dfy`: powers of two, two's-complement conversion and masking.
- `bytes.dfy`: little-endian byte strings and byte swaps.
- `decimal.dfy`: `strtoul` on digit runs.
- `samples.dfy`: the two builds, and buffers as `tSample` and `Frame` arrays.

Buffers are byte sequences in host (little-endian) order. Both builds are
covered through a `Build` parameter.

Where the documented behaviour and the code differ, the model follows the code,
with two exceptions. The two defects listed under "## Findings" are modelled
both ways: as written, with a lemma that exhibits the defect, and corrected,
with the intended property proved. The classes (`Resampling.Resampler`,
`Pipelining.Pipeline`) use the corrected versions. Elsewhere the model keeps
the code's behaviour, including where it departs from the comments:

- The ring buffer's capacity is the power of two *strictly* greater than the requested size. An exact power of two is doubled, and 0 gives 1.
- `chooseSamplerate` picks the smallest allowed rate that is *at least* the source rate, so an equal rate is chosen. When every allowed rate is below the source rate it falls back to the largest one, not to 0.
- Take four frames `(100,-100)` … `(400,-400)` at 2 Hz resampled to 1 Hz. The count `(4 - 0 - 1) * 1 / 2` gives one output frame. That frame sits at fraction zero, so it is the first input frame `(100,-100)` unchanged, not an interpolated pair (`Resampling.HalfRateScenario`).

## Model

| member | source | states |
|---|---|---|
| Samples.ValueBounds | src/AudioConverter.cpp:10-16 | MAXVALUE and MINVALUE are the limits of a BITDEPTH-bit signed value, and tSample has 8 bits per byte of its size, in both builds |
| Samples.DecodeFrames | src/Resampler.cpp:93-95 | a buffer holds size / sizeof(tSample) / 2 whole frames, and every channel of each is a tSample |
| Samples.DecodeEncodeFrames | src/Resampler.cpp:93-95 | reading back the bytes of frames gives the frames |
| Samples.DecodeEncodeSamples | src/AudioConverter.cpp:393-394 | reading back the bytes of a tSample array gives the samples |
| Samples.PairsInterleave | src/Resampler.h:39-42 | a Frame array read as interleaved samples and regrouped in pairs gives the frames back |
| Bytes.ByteSwapInvolution | src/AudioConverter.cpp:80-116 | swapping the byte order twice restores the value |
| Bytes.ByteSwapReadsReversed | src/AudioConverter.cpp:80-116 | a swapped value is the value read with the opposite byte order |
| Bytes.ByteSwap | src/AudioConverter.cpp:80-116 | swapping an n-byte value yields an n-byte value |
| Decimal.ParseUnsigned | src/AudioConverter.cpp:259-264 | strtoul consumes a prefix made only of digits and returns their decimal value; it stops before a non-digit and reads 0 when nothing is consumed |
| Decimal.ParseUnsignedDigitsOf | src/AudioConverter.cpp:259-264 | strtoul reads a printed number back and stops exactly where it ends |
| SampleConversion.TypeLimits | src/AudioConverter.cpp:123-130 | numeric_limits of every integer type are those of a two's-complement or unsigned integer of its width |
| SampleConversion.ReadRaw | src/AudioConverter.cpp:311-357 | a value read from sizeof(T) bytes is a value of T |
| SampleConversion.ToLittleEndian | src/AudioConverter.cpp:70-121 | the converted value is again a value of the same type |
| SampleConversion.ToLittleEndianInvolution | src/AudioConverter.cpp:70-121 | toLittleEndian applied twice is the identity for every type, including the 8-bit and float ones |
| SampleConversion.ToLittleEndianReadsBigEndian | src/AudioConverter.cpp:80-116 | converting a value is reading its bytes in reverse order, for every non-float type |
| SampleConversion.MakeSigned | src/AudioConverter.cpp:123-130 | the result is a value of the signed type of the same width |
| SampleConversion.SignedOf | src/AudioConverter.cpp:124 | std::make_signed gives a signed integer type of the same width |
| SampleConversion.MakeSignedOffset | src/AudioConverter.cpp:123-130 | makeSigned is the identity on signed types and subtracts 2^(n-1) on unsigned ones |
| SampleConversion.ShiftToSampleIsShift | src/AudioConverter.cpp:132-165 | a narrower value is multiplied by 2^(BITDEPTH - width), a wider one is floor-divided by 2^(width - BITDEPTH) |
| SampleConversion.ShiftToSampleRange | src/AudioConverter.cpp:132-165 | a signed value of 8, 16 or 32 bits shifts into [MINVALUE, MAXVALUE] |
| SampleConversion.ShiftToSampleMonotone | src/AudioConverter.cpp:132-165 | the shift to BITDEPTH preserves order |
| SampleConversion.ShiftToSamplePrecision | src/AudioConverter.cpp:132-165 | a left shift loses nothing; a right shift loses only the low bits |
| SampleConversion.ShiftToSampleSign | src/AudioConverter.cpp:132-165 | the shift to BITDEPTH keeps the sign of the value |
| SampleConversion.MakeSampleRange | src/AudioConverter.cpp:167-171 | every integer value of every type becomes a sample of the build |
| SampleConversion.MakeSample | src/AudioConverter.cpp:167-171 | every integer value of every type lands in [MINVALUE, MAXVALUE] |
| SampleConversion.MakeSampleMonotone | src/AudioConverter.cpp:167-171 | makeSample preserves order for signed and unsigned types |
| SampleConversion.MakeSampleExtremes | src/AudioConverter.cpp:167-171 | the type's minimum maps to MINVALUE; its maximum maps to MAXVALUE exactly when the type is at least BITDEPTH bits wide |
| SampleConversion.MakeSampleUnsignedAsSigned | src/AudioConverter.cpp:167-171 | an unsigned value converts like the signed value 2^(n-1) below it |
| SampleConversion.Unpack24 | src/AudioConverter.cpp:173-177 | the pattern c<<24 \| b<<16 \| a<<8 fits a guint32 with its low byte clear (at most 0xFFFFFF00) |
| SampleConversion.Unpack24Bytes | src/AudioConverter.cpp:173-177 | the pattern has a zero low byte, and the three bytes above it are the little-endian 24-bit value |
| SampleConversion.MakeSampleU24 | src/AudioConverter.cpp:173-177 | a packed unsigned 24-bit sample lands in [MINVALUE, MAXVALUE] |
| SampleConversion.MakeSampleU24Value | src/AudioConverter.cpp:173-177 | the 24-bit build yields the little-endian value of the three bytes less 2^23; the 16-bit build yields that value floor-divided by 256 |
| SampleConversion.Unpack24Signed | src/AudioConverter.cpp:179-183 | the pattern stored in a gint32 is a gint32 value |
| SampleConversion.MakeSampleI24 | src/AudioConverter.cpp:179-183 | a packed signed 24-bit sample lands in [MINVALUE, MAXVALUE] |
| SampleConversion.MakeSampleI24Value | src/AudioConverter.cpp:179-183 | the 24-bit build yields the three bytes as a signed little-endian 24-bit value; the 16-bit build yields that value floor-divided by 256 |
| SampleConversion.MakeSignedChecks8 | src/AudioConverter.cpp:415-424 | the 8-bit makeSigned test values |
| SampleConversion.MakeSignedChecksWide | src/AudioConverter.cpp:425-434 | the 16- and 32-bit makeSigned test values |
| SampleConversion.MakeSampleChecks16Bit | src/AudioConverter.cpp:445-470 | the gint16/guint16 makeSample test values of both builds (0x7FFF00 in the 24-bit build) |
| SampleConversion.MakeSampleCheckU24Max | src/AudioConverter.cpp:452-453 | {FF,FF,FF} unsigned maps to MAXVALUE in both builds |
| SampleConversion.MakeSampleCheckU24Min | src/AudioConverter.cpp:452-453 | {0,0,0} unsigned maps to MINVALUE in both builds |
| SampleConversion.MakeSampleCheckU24Midpoint | src/AudioConverter.cpp:454 | {FF,FF,7F} unsigned maps to -1, inside both tolerances (1 and 256) |
| SampleConversion.MakeSampleChecksI24 | src/AudioConverter.cpp:456-457 | {FF,FF,7F} signed maps to MAXVALUE and {0,0,0} to 0 |
| SampleConversion.ShiftChecks32 | src/AudioConverter.cpp:452-457 | the 32-bit shifts behind the packed test values |
| SampleConversion.ShiftLeft | src/AudioConverter.cpp:191-210 | the padding shift yields a value of the same type |
| SampleConversion.ShiftLeftExact | src/AudioConverter.cpp:191-210 | a value with s spare high bits, shifted left by s, is multiplied by 2^s without wrap-around |
| SampleConversion.NormalizeRange | src/AudioConverter.cpp:167-189 | every makeSample overload yields a sample of the build |
| SampleConversion.Normalize | src/AudioConverter.cpp:167-189 | every makeSample overload, float included, lands in [MINVALUE, MAXVALUE] |
| SampleConversion.ConvertSampleRange | src/AudioConverter.cpp:381-394 | the per-sample pipeline always yields a sample of the build |
| SampleConversion.ConvertSample | src/AudioConverter.cpp:381-394 | swap, padding shift and makeSample together land in [MINVALUE, MAXVALUE] |
| SampleConversion.ConvertSampleBigEndian | src/AudioConverter.cpp:381-394 | for every non-float type, big-endian bytes convert to the same sample as the same bytes reversed and read as little-endian |
| Conversion.ParseFormatString | src/AudioConverter.cpp:238-257 | the format string never changes the channel count |
| Conversion.ParseSizes | src/AudioConverter.cpp:259-270 | only depth, width and byte order are set by the size part |
| Conversion.ParseCaps | src/AudioConverter.cpp:228-233 | the recorded channel count is at most 2 |
| Conversion.ParseFormatName | src/AudioConverter.cpp:213-278 | parsing a format's name gives the format back (a float format keeps the signed flag) |
| Conversion.ParseFormatStringName | src/AudioConverter.cpp:238-270 | S/U/F set signed, unsigned or float; depth, width and byte order are read back from a name |
| Conversion.ParseSizesName | src/AudioConverter.cpp:259-270 | depth, width and byte order of a name are read back |
| Conversion.ParseSizesWithWidth | src/AudioConverter.cpp:259-264 | `<depth>_<width>` sets both |
| Conversion.ParseSizesWithoutWidth | src/AudioConverter.cpp:265-268 | without `_<width>` the width is the depth |
| Conversion.ParseCapsChannels | src/AudioConverter.cpp:230-233 | more than two channels read as two, a missing count as two, and no lower clamp |
| Conversion.ParseUnknownFormat | src/AudioConverter.cpp:252-256 | an empty or unknown format keeps every default but the channel count |
| Conversion.ParseEightBitNames | src/AudioConverter.cpp:259-270 | S8 and U8 are read as 8-bit little-endian |
| Conversion.DispatchType | src/AudioConverter.cpp:313-357 | the integer type doLoop is instantiated with has width / 8 bytes |
| Conversion.AsValues | src/AudioConverter.cpp:315-355 | the buffer cast to `const T*` holds size / sizeof(T) values of T |
| Conversion.SourceSampleOfFrame | src/AudioConverter.cpp:47-68 | frame k of a mono reader reads value k for both sides; a stereo reader reads values 2k and 2k+1 |
| Conversion.ConvertedSamples | src/AudioConverter.cpp:368-396 | doLoop writes two samples per frame, and every input sample it reads lies within the input |
| Conversion.FramesFit | src/AudioConverter.cpp:300-301 | the frames eat counts lie within the input buffer |
| Conversion.AudioConverter.constructor | src/AudioConverter.cpp:213-278 | the recorded format is the parse of the caps |
| Conversion.AudioConverter.ReadFormatString | src/AudioConverter.cpp:238-257 | the fields the constructor sets from the format string are those of ParseFormatString over the format recorded before |
| Conversion.AudioConverter.ReadSizes | src/AudioConverter.cpp:259-270 | depth, width and byte order are set as ParseSizes reads them |
| Conversion.AudioConverter.Eat | src/AudioConverter.cpp:280-365 | passthrough exactly for canonical input; an empty buffer without whole samples or channels; otherwise 2 * frames converted samples, or an unfilled buffer of that size for an unknown width |
| Conversion.AudioConverter.ReadSampleFrame | src/AudioConverter.cpp:47-68 | a mono frame feeds the same value to both sides; a stereo frame reads two values |
| Conversion.AudioConverter.ConvertValue | src/AudioConverter.cpp:381-394 | one side of a frame becomes the specified output sample, within [MINVALUE, MAXVALUE] |
| Conversion.AudioConverter.ConvertFrame | src/AudioConverter.cpp:377-395 | one pass of the loop produces output samples 2k and 2k+1 and advances the reader |
| Conversion.AudioConverter.DoLoop | src/AudioConverter.cpp:368-412 | the output array holds exactly the converted samples of all frames |
| Bits.AndLowMask | src/RingBuffer.h:26 | masking with 2^k - 1 is reduction modulo 2^k |
| Bits.BitAndLe | src/RingBuffer.h:26 | a masked index never exceeds the mask |
| Bits.HighestSetBitBounds | src/RingBuffer.h:16 | g_bit_nth_msf finds the bit with 2^k <= n < 2^(k+1) |
| Ring.CapacityBits | src/RingBuffer.h:16 | the exponent is the smallest k with n < 2^k |
| Ring.HighestSetBitMinimal | src/RingBuffer.h:16 | one above the highest set bit is that smallest exponent |
| Ring.CapacityBounds | src/RingBuffer.h:16-17 | the capacity exceeds the request, is 1 for 0 and at most twice a positive request |
| Ring.CapacityBitsBound | src/RingBuffer.h:16 | requests below 2^30 give a capacity that still fits a gint |
| Ring.Slots | src/RingBuffer.h:30-51 | the array contents after a history of writes has capacity slots |
| Ring.SlotsAppend | src/RingBuffer.h:34-49 | after appending at most capacity elements, each slot holds the element written into it or its old content |
| Ring.SlotsWriteStep | src/RingBuffer.h:38-41 | one step of the copy loop stores element i at writeHeadIdx + i |
| Ring.SlotsRecent | src/RingBuffer.h:24-28 | each of the last capacity positions written reads back its element |
| Ring.SlotsFull | src/RingBuffer.h:30-51 | after exactly capacity writes, slot i holds element i |
| Ring.SlotsFrom | src/RingBuffer.h:30-51 | every slot holds the initial element or a written element |
| Ring.SlotsUnwritten | src/RingBuffer.h:17 | a slot no write has reached keeps its value-initialised element |
| Ring.RingBuffer.constructor | src/RingBuffer.h:13-18 | capacity 1 << (g_bit_nth_msf(n) + 1) of value-initialised slots, write head 0 |
| Ring.RingBuffer.Peek | src/RingBuffer.h:24-28 | the slot readHead mod capacity, which holds element readHead for any of the last capacity positions |
| Ring.RingBuffer.GetWriteHead | src/RingBuffer.h:53-56 | the number of elements ever written |
| Ring.RingBuffer.Write | src/RingBuffer.h:30-51 | the history grows by the data, the write head by its length (no change for an empty write), and the array matches the history |
| Ring.RingBuffer.CopyIn | src/RingBuffer.h:36-43 | a write that fits before the array's end stores the data in place behind the write head |
| Resampling.Increment | src/Resampler.cpp:57 | inc * tgt <= 2^27 * src < (inc + 1) * tgt |
| Resampling.IncrementBound | src/Resampler.cpp:57 | for src <= 31 * tgt the increment leaves the guint32 fraction sum without wrap |
| Resampling.MaskFrac | src/Resampler.cpp:144 | the fraction mask keeps the position modulo 2^27 |
| Resampling.Advance | src/Resampler.cpp:138-145 | the fraction stays below 2^27, the integer position never decreases, and without wrap the fixed-point position grows by exactly inc |
| Resampling.AdvanceN | src/Resampler.cpp:134-146 | the fraction stays below 2^27 after any number of output frames |
| Resampling.AdvanceNFixed | src/Resampler.cpp:134-146 | after n frames the fixed-point position has grown by n * inc |
| Resampling.MixBetween | src/Resampler.cpp:14-47 | the floor of a convex combination lies between its end points and is prev at weight 0 |
| Resampling.Interpolate16IsMix | src/Resampler.cpp:14-29 | the unsigned 32-bit arithmetic truncated to gint16 equals the floor of (next*w + prev*(65536-w)) / 65536 with w = frac >> 11 |
| Resampling.Interpolate16 | src/Resampler.cpp:14-29 | the result is a gint16 for any inputs |
| Resampling.Interpolate32IsMix | src/Resampler.cpp:31-47 | for gint32 inputs the gint64 arithmetic neither wraps nor truncates: interpolate<gint32> is the floor of the convex combination with weight frac << 5 over 2^32 |
| Resampling.Interpolate32 | src/Resampler.cpp:31-47 | the result is a gint32 for any inputs |
| Resampling.HighWordWraps | src/Resampler.cpp:40-46 | the sum wraps to gint64, is shifted right by 32 and wraps to gint32 |
| Resampling.Interpolate32NoOverflow | src/Resampler.cpp:31-47 | the gint64 intermediate never overflows |
| Resampling.InterpolateBetween | src/Resampler.cpp:14-47 | an interpolated sample is a tSample between prev and next |
| Resampling.PeekSlotMod | src/RingBuffer.h:24-28 | the masked slot is the read position modulo the capacity |
| Resampling.TruncatedSlot | src/Resampler.cpp:151-160 | truncating the position and its successor to guint32 selects the same slots |
| Resampling.CalcFrameExact | src/Resampler.cpp:149-157 | at fraction zero the output frame is the scratch frame at the position |
| Resampling.CalcFrameInterpolated | src/Resampler.cpp:149-168 | otherwise each channel is interpolated between the frame at the position and the next |
| Resampling.CalcFrameBetween | src/Resampler.cpp:158-167 | an interpolated frame is a frame whose channels lie between the two source frames |
| Resampling.Resampled | src/Resampler.cpp:131-147 | doResampling produces one frame per requested output frame |
| Resampling.ResampledExtend | src/Resampler.cpp:131-147 | the frames of i + 1 steps are those of i steps followed by the frame at the position after i steps |
| Resampling.OutFrameCount | src/Resampler.cpp:100-113 | as written: floor((writeHead - posInt - 1) * tgt / src), and 0 when nothing is available |
| Resampling.SafeFrameCount | src/Resampler.cpp:100-113 | exactly the frames whose position is at most writeHead - 1 |
| Resampling.CorrectedFrameCount | src/Resampler.cpp:107-113 | never more frames than the count as written |
| Resampling.CorrectedReadsWritten | src/Resampler.cpp:149-168 | with the corrected count every peeked position (and its lookahead) has been written |
| Resampling.OutFrameCountReadsUnwritten | src/Resampler.cpp:100-113 | the count as written can make interpolation read an unwritten frame |
| Resampling.HalfRateScenario | src/Resampler.cpp:107-157 | 4 frames at 2 Hz to 1 Hz give the single frame (100,-100) |
| Resampling.Resampler.constructor | src/Resampler.cpp:49-58 | scratch of capacity for max(src, tgt) frames, position 0, increment 2^27 * src / tgt |
| Resampling.Resampler.Eat | src/Resampler.cpp:76-86 | equal rates hand the input back with nothing changed; otherwise the frames are appended and the output is the resampled frames from the old position, which advances |
| Resampling.Resampler.WriteToScratch | src/Resampler.cpp:88-98 | the scratch history grows by the input's whole frames |
| Resampling.Resampler.ProduceResampledBuffer | src/Resampler.cpp:107-123 | the output holds the resampled frames for the frame count |
| Resampling.Resampler.DoResampling | src/Resampler.cpp:131-147 | out[k] is the frame at the position after k steps, and the position advances by the number of frames |
| Resampling.Resampler.ResampleNext | src/Resampler.cpp:134-146 | one pass of the loop extends the frames written so far by the next frame owed and advances the position one step |
| Resampling.Resampler.ResampleStep | src/Resampler.cpp:136-145 | one output frame is written and the position advances by one step |
| Resampling.Resampler.CalcInterpolatedFrame | src/Resampler.cpp:149-168 | the frame computed from the scratch array at the current position |
| Pipelining.FirstAtLeast | src/Pipeline.cpp:253-258 | the index of the first rate at least the source rate, or the list length |
| Pipelining.Choose | src/Pipeline.cpp:247-263 | 0 for no allowed rates or a zero source rate; otherwise an allowed rate |
| Pipelining.AscendingSortedEnough | src/Pipeline.cpp:255 | a strictly ascending list of positive rates satisfies the assertion for every source rate |
| Pipelining.ChooseStep | src/Pipeline.cpp:253-259 | one pass of the loop keeps the chosen rate equal to the choice over the rates seen |
| Pipelining.ChooseSmallestAtLeast | src/Pipeline.cpp:253-258 | on a sorted list, the smallest allowed rate at least the source rate |
| Pipelining.ChooseExactRate | src/Pipeline.cpp:257-258 | an allowed rate equal to the source rate is chosen |
| Pipelining.ChooseLargestBelow | src/Pipeline.cpp:253-258 | when all allowed rates are below the source rate, the largest |
| Pipelining.ResamplerSetup | src/Pipeline.cpp:193-213 | a first resampler gets the chosen target and announces it; a replacement keeps the source rate of the caps and the old target |
| Pipelining.ResamplerSetupAsWritten | src/Pipeline.cpp:193-213 | as written, the new resampler has the caps' source rate and the announcement is the intended one; only a replaced resampler differs, converting to 44100 |
| Pipelining.SetupKeepsAnnouncedTarget | src/Pipeline.cpp:200-212 | the resampler always converts to the one rate announced to the renderer |
| Pipelining.SetupAsWrittenLosesAnnouncedTarget | src/Pipeline.cpp:207-212 | the code as written replaces the resampler with one converting to 44100 Hz |
| Pipelining.Pipeline.constructor | src/Pipeline.cpp:10-15 | the allowed rates are those given, no processors, not closing |
| Pipelining.Pipeline.SetAllowedSamplerates | src/Pipeline.cpp:41-51 | the rates are appended in their order, nothing else changes |
| Pipelining.Pipeline.ChooseSamplerate | src/Pipeline.cpp:247-263 | the loop computes Choose of the allowed rates |
| Pipelining.Pipeline.SetupAudioConverter | src/Pipeline.cpp:187-191 | a converter is created from the first caps and never replaced |
| Pipelining.Pipeline.SetupResampler | src/Pipeline.cpp:193-213 | the resampler and the announced rates follow ResamplerSetup, nothing else changes; the rate list must pass the loop's assertion only when a first resampler is created |
| Pipelining.Pipeline.HandOffData | src/Pipeline.cpp:172-185 | caps set both processors up unless closing; the buffer is processed exactly when both exist and the pipeline is not closing |
| Pipelining.Pipeline.Close | src/Pipeline.cpp:17-21 | the close flag is raised and nothing else changes |
| Registry.Pipelines.constructor | src/Pipelines.cpp:7-12 | the registry starts empty |
| Registry.Pipelines.OnDecode | src/Pipelines.cpp:35-60 | init failure returns false and changes nothing; success writes the descriptor when asked and stores, under the id and replacing any older one, a fresh pipeline for that id, uri and rate list with no converter, no resampler, nothing announced and not closing |
| Registry.Pipelines.OnStop | src/Pipelines.cpp:62-77 | an unknown id changes nothing; a known id removes exactly that key |
| Registry.Pipelines.Reset | src/Pipelines.cpp:84-88 | the registry is emptied |
| Protocols.UpToComma | src/SupportedProtocols.cpp:35-38 | the longest prefix without a comma: the string up to its first comma |
| Protocols.Entries | src/SupportedProtocols.cpp:31-60 | nothing unless the caps string is accepted; then the truncated MIME entry, and a content-type entry exactly when that type exists and differs |
| Protocols.FactoryEntries | src/SupportedProtocols.cpp:25-64 | at most two entries per factory |
| Protocols.ProtocolList | src/SupportedProtocols.cpp:21-69 | the WMA entry is always last |
| Protocols.AllHttpGet | src/SupportedProtocols.cpp:40-56 | every entry has the form http-get:*:...:* |
| Protocols.AcceptedListed | src/SupportedProtocols.cpp:31-45 | every accepted factory's truncated MIME type is advertised |
| Protocols.NothingFromRejected | src/SupportedProtocols.cpp:31-33 | without accepted caps only the WMA entry remains |
| Protocols.SupportedProtocols.constructor | src/SupportedProtocols.cpp:12-15 | the list is the one init builds |
| Protocols.SupportedProtocols.Init | src/SupportedProtocols.cpp:21-69 | the factories' entries in order, then the WMA entry, are pushed |
| Protocols.SupportedProtocols.AddFactory | src/SupportedProtocols.cpp:27-60 | one factory's entries are pushed |
| Protocols.SupportedProtocols.AsArrayOfStrings | src/SupportedProtocols.cpp:71-84 | a new array of size + 1 slots with every entry in order and NULL last |

## Left out

- Floating point:
  - `makeSample(gfloat)` scales a float to a gint32. The model takes that step as the parameter `floatScale`.
  - The float test values (src/AudioConverter.cpp:441-443, 461-463) are not modelled.
- Resampling.Increment: the increment is computed through a `double` ratio (`getRatio`). The model takes the exact floor of 2^27 * src / tgt.
- Decimal.ParseUnsigned: reads only a run of decimal digits. `strtoul`'s leading whitespace, signs and overflow are not modelled.
- Signed left shifts that overflow are undefined in C++. The model takes them as two's-complement wrap-around: `c << 24` in `makeSample(tInt24)` and `v << s` in `shiftLeft`.
- Conversion.AudioConverter.Eat: requires `ConversionDefined` of the format. For the integer types, the padding shift must not be negative and must be below 32 for 32-bit values. Float data must be at least four bytes per sample. Other formats make the C++ read past the buffer or shift by an undefined amount.
- The caps channel count is a `nat`: a negative `gint` channel count is not modelled. Any count above two is clamped. The generic `SampleReader<T>` (src/AudioConverter.cpp:35-45) only serves other counts, so it is unreachable.
- Out-of-memory errors, GStreamer buffer mapping failures and reference counting are left out. Buffers are byte sequences.
- The 64-bit write head and source position (`guint64`) are unbounded naturals in the model. Wrap-around after 2^64 frames is not modelled.
- Ring.RingBuffer.constructor: requires fewer than 2^30 elements, because `1 << 31` overflows the `gint` size.
- Resampling.Resampler.constructor: requires positive rates below 2^30 and src <= 31 * tgt:
  - a zero rate divides by zero;
  - a larger ratio lets the `guint32` fraction sum wrap.
- A reader more than the capacity behind the write head reads overwritten data, as in the code. Only `Ring.SlotsRecent` and `Ring.SlotsFrom` say what it then sees.
- Resampling.Resampler.Eat: produces `CorrectedFrameCount` frames, not the count as written (first finding below).
- Resampling.Resampler.ProduceResampledBuffer: computes `CorrectedFrameCount`, not the count as written by `getNumFramesAvailable` (first finding below).
- Pipelining.Pipeline.SetupResampler: gives a replacement resampler the previously announced target rate, not 44100 (second finding below).
- Pipelining.Pipeline.ChooseSamplerate: requires the `g_assert` in its loop to hold (`SortedEnough`). The abort on a list that is not sorted is not modelled. `SetupResampler` and `HandOffData` require it only when they create the first resampler, the one case that reaches the loop.
- Resampling.Interpolate32: signed overflow of the `gint64` products is undefined in C++. The model wraps it (`HighWord`). For `gint32` inputs no overflow happens (`Interpolate32NoOverflow`).
- Pipelining.Pipeline.SetupResampler: requires the caps rate to be a `gint` (`RateIsGint`).
- The pipeline records its processors by the parameters they were created from, not as converter and resampler objects. `processAndSendAudioData` is not modelled because it only chains the two `eat` calls and writes the result to the pipe. `HandOffData` returns whether it runs.
- Registry.Pipelines.OnDecode: takes the result of `Pipeline::init` as a parameter. Pipe creation and the GStreamer graph are I/O. The message callback is left out.
- Outside inputs:
  - the type-find factory list and `gst_caps_to_string` appear as the sequence of caps strings;
  - `g_content_type_from_mime_type` is a function parameter.
- `Pipelines::iteratePipelines`, `getSupportedProtocols` and the `SupportedProtocols::get` singleton only forward to modelled members.
- The rest of the process is not modelled: the D-Bus service, the watchdog, tracing, statistics, and the bus and pad callbacks.

## Findings

| source | as written | input that shows it | evidently intended | confidence | as-written member | corrected member |
|---|---|---|---|---|---|---|
| src/Resampler.cpp:100-113 | the output frame count uses only the integer source position, less one lookahead frame, and ignores the fraction | 16000 Hz to 48000 Hz, buffers of 2 frames then 1 frame: in the second call the count is 6, and the fifth frame sits at position 2 with a non-zero fraction, so it interpolates with frame 3 while only frames 0..2 are written | the lookahead reservation holds: every frame calcInterpolatedFrame peeks has been written | medium; not executed | Resampling.OutFrameCountReadsUnwritten | Resampling.CorrectedReadsWritten |
| src/Pipeline.cpp:207-211 | a resampler replaced after a source-rate change converts to `tgtSR`, which still holds the local default 44100 | allowed rates [48000], caps at 48000 Hz then 32000 Hz: the renderer was told 48000 Hz, the new resampler converts 32000 Hz to 44100 Hz | convert to the rate sent to the renderer before, as the comment at lines 209-210 says | high; not executed | Pipelining.SetupAsWrittenLosesAnnouncedTarget | Pipelining.SetupKeepsAnnouncedTarget |
