/**
 * Pipeline (Pipeline.cpp): the per-stream bookkeeping around the audio
 * processors.  It keeps the list of sample rates the renderer accepts,
 * chooses a target rate for a source rate, creates the converter once, and
 * creates or replaces the resampler when the caps announce a source rate.
 * Each processor is recorded by the parameters it was built from: the
 * converter by the format it parsed, the resampler by its two rates.
 */
module Pipelining {
  import opened Bits
  import opened Conversion

  /** The rate setupResampler assumes when the caps carry none. */
  const DefaultRate := 44100

  /** The rates a resampler was created with. */
  datatype Rates = Rates(sourceSR: int, targetSR: int)

  /** The index of the first rate at least `source`, or |rates| when there is none. */
  function FirstAtLeast(rates: seq<nat>, source: nat): (i: nat)
    ensures i <= |rates|
    ensures i < |rates| ==> rates[i] >= source
    ensures forall j :: 0 <= j < i ==> rates[j] < source
  {
    if rates == [] then 0
    else if rates[0] >= source then 0
    else
      var i := 1 + FirstAtLeast(rates[1..], source);
      assert forall j :: 1 <= j < i ==> rates[j] == rates[1..][j - 1];
      i
  }

  /** Any index with the properties of FirstAtLeast is FirstAtLeast. */
  lemma FirstAtLeastUnique(rates: seq<nat>, source: nat, k: nat)
    requires k <= |rates| && (k < |rates| ==> rates[k] >= source)
    requires forall j :: 0 <= j < k ==> rates[j] < source
    ensures FirstAtLeast(rates, source) == k
  {
  }

  /**
   * The rate chooseSamplerate settles on, stated without the loop: 0 for a
   * zero source rate or no allowed rates, otherwise the first allowed rate
   * that is at least the source rate, and the last one when there is none.
   */
  function Choose(rates: seq<nat>, source: nat): (r: nat)
    ensures rates == [] || source == 0 ==> r == 0
    ensures rates != [] && source > 0 ==> r in rates
  {
    if rates == [] || source == 0 then 0
    else
      var k := FirstAtLeast(rates, source);
      if k < |rates| then rates[k] else rates[|rates| - 1]
  }

  /**
   * The g_assert in chooseSamplerate: the rate chosen so far is below every
   * allowed rate the loop visits.
   */
  predicate SortedEnough(rates: seq<nat>, source: nat)
  {
    forall i :: 0 <= i < |rates| ==> Choose(rates[..i], source) < rates[i]
  }

  predicate StrictlyAscending(rates: seq<nat>)
  {
    forall i, j :: 0 <= i < j < |rates| ==> rates[i] < rates[j]
  }

  /** A strictly ascending list of positive rates passes the assertion for every source rate. */
  lemma AscendingSortedEnough(rates: seq<nat>, source: nat)
    requires StrictlyAscending(rates) && (rates != [] ==> rates[0] > 0)
    ensures SortedEnough(rates, source)
  {
    forall i | 0 <= i < |rates|
      ensures Choose(rates[..i], source) < rates[i]
    {
      var c := Choose(rates[..i], source);
      if i > 0 && source > 0 {
        assert c in rates[..i];
      }
    }
  }

  /** One pass of the loop body: the chosen rate moves to `sr` while it is below both the source rate and `sr`. */
  lemma ChooseStep(rates: seq<nat>, source: nat, i: nat)
    requires i < |rates| && Choose(rates[..i], source) < rates[i]
    ensures var c := Choose(rates[..i], source);
      Choose(rates[..i + 1], source) == if c < source && c < rates[i] then rates[i] else c
  {
    var pre, post := rates[..i], rates[..i + 1];
    assert post[..i] == pre;
    if source > 0 && i > 0 {
      var k := FirstAtLeast(pre, source);
      if k < i {
        FirstAtLeastUnique(post, source, k);
      } else {
        assert Choose(pre, source) == rates[i - 1];
        if rates[i] >= source {
          FirstAtLeastUnique(post, source, i);
        } else {
          FirstAtLeastUnique(post, source, i + 1);
        }
      }
    }
  }

  /** On a sorted list, the choice is the smallest allowed rate at least the source rate, when there is one. */
  lemma ChooseSmallestAtLeast(rates: seq<nat>, source: nat, i: nat)
    requires StrictlyAscending(rates) && source > 0 && i < |rates| && rates[i] >= source
    ensures Choose(rates, source) >= source
    ensures forall j :: 0 <= j < |rates| && rates[j] >= source ==> Choose(rates, source) <= rates[j]
  {
  }

  /** An allowed rate equal to the source rate is chosen, not skipped. */
  lemma ChooseExactRate(rates: seq<nat>, source: nat)
    requires StrictlyAscending(rates) && source > 0 && source in rates
    ensures Choose(rates, source) == source
  {
    var i :| 0 <= i < |rates| && rates[i] == source;
    ChooseSmallestAtLeast(rates, source, i);
  }

  /** When every allowed rate is below the source rate, the largest one is chosen. */
  lemma ChooseLargestBelow(rates: seq<nat>, source: nat)
    requires StrictlyAscending(rates) && source > 0 && rates != []
    requires forall j :: 0 <= j < |rates| ==> rates[j] < source
    ensures Choose(rates, source) == rates[|rates| - 1]
    ensures forall j :: 0 <= j < |rates| ==> rates[j] <= Choose(rates, source)
  {
  }

  /** The source rate setupResampler reads: the caps' gint rate, 44100 when there is none. */
  function SourceRate(caps: Caps): int
  {
    match caps.structure
    case Some(s) => if s.rate.Some? then s.rate.value else DefaultRate
    case None => DefaultRate
  }

  /** Caps whose rate, when present, is a gint. */
  predicate RateIsGint(caps: Caps)
  {
    caps.structure.Some? && caps.structure.value.rate.Some? ==> InSigned(caps.structure.value.rate.value, 32)
  }

  /**
   * The target rate of a first resampler: chooseSamplerate of the gint
   * source rate passed as a guint32, and its guint32 result stored in a gint.
   */
  function FirstTarget(rates: seq<nat>, srcSR: int): int
  {
    Wrap(Choose(rates, ToUnsigned(srcSR, 32)), 32)
  }

  /**
   * setupResampler as written: a first resampler gets the chosen target
   * rate, and that rate is announced to the renderer; a resampler whose
   * source rate differs is replaced by one whose target is the local
   * default 44100.  Returns the new resampler and the announced rate.
   */
  function ResamplerSetupAsWritten(current: Option<Rates>, rates: seq<nat>, srcSR: int): (r: (Option<Rates>, Option<int>))
    ensures r.0.Some? && r.0.value.sourceSR == srcSR
    ensures r.1 == ResamplerSetup(current, rates, srcSR).1
    ensures current.None? || current.value.sourceSR == srcSR ==> r == ResamplerSetup(current, rates, srcSR)
    ensures current.Some? && current.value.sourceSR != srcSR ==> r.0.value.targetSR == DefaultRate
  {
    if current.None? then
      var tgtSR := FirstTarget(rates, srcSR);
      (Some(Rates(srcSR, tgtSR)), Some(tgtSR))
    else if current.value.sourceSR != srcSR then
      (Some(Rates(srcSR, DefaultRate)), None)
    else (current, None)
  }

  /**
   * setupResampler as its comment intends: a replacement resampler keeps
   * converting to the rate announced to the renderer before.
   */
  function ResamplerSetup(current: Option<Rates>, rates: seq<nat>, srcSR: int): (r: (Option<Rates>, Option<int>))
    ensures r.0.Some? && r.0.value.sourceSR == srcSR
    ensures current.Some? ==> r.1.None? && r.0.value.targetSR == current.value.targetSR
    ensures current.None? ==> r.1 == Some(r.0.value.targetSR)
  {
    if current.None? then
      var tgtSR := FirstTarget(rates, srcSR);
      (Some(Rates(srcSR, tgtSR)), Some(tgtSR))
    else if current.value.sourceSR != srcSR then
      (Some(Rates(srcSR, current.value.targetSR)), None)
    else (current, None)
  }

  /**
   * The renderer is told one rate, when the first resampler is created, and
   * every resampler after that must convert to it.
   */
  predicate TargetAnnounced(resampler: Option<Rates>, announced: seq<int>)
  {
    if resampler.None? then announced == []
    else announced == [resampler.value.targetSR]
  }

  /** The intended setup keeps the resampler's target equal to the announced rate, for any caps. */
  lemma SetupKeepsAnnouncedTarget(current: Option<Rates>, announced: seq<int>, rates: seq<nat>, srcSR: int)
    requires TargetAnnounced(current, announced)
    ensures var (next, announce) := ResamplerSetup(current, rates, srcSR);
      TargetAnnounced(next, announced + (if announce.Some? then [announce.value] else []))
  {
    var (next, announce) := ResamplerSetup(current, rates, srcSR);
    if current.Some? {
      assert announced + [] == announced;
    }
  }

  /**
   * The code as written breaks that: with 48000 as the only allowed rate,
   * caps at 48000 Hz and then at 32000 Hz leave a resampler converting to
   * 44100 Hz while the renderer was told 48000 Hz.
   */
  lemma SetupAsWrittenLosesAnnouncedTarget()
    ensures var (first, announce) := ResamplerSetupAsWritten(None, [48000], 48000);
      && first == Some(Rates(48000, 48000)) && announce == Some(48000)
      && TargetAnnounced(first, [48000])
      && ResamplerSetupAsWritten(first, [48000], 32000) == (Some(Rates(32000, 44100)), None)
      && !TargetAnnounced(Some(Rates(32000, 44100)), [48000])
  {
    Pow2Values();
    assert FirstAtLeast([48000], 48000) == 0;
  }

  class Pipeline {
    /** m_id */
    const id: nat
    /** m_uri */
    const uri: string
    /** m_allowedSampleRates: guint32 rates, in the order given */
    var allowedRates: seq<nat>
    /** m_audioConverter, by the format it was created from */
    var converter: Option<Format>
    /** m_resampler, by its source and target rates */
    var resampler: Option<Rates>
    /** The target rates written to the audio pipe, oldest first. */
    var announced: seq<int>
    /** m_close */
    var close: bool

    /** Pipeline (stream_id, uri, allowedSamplerates): no processors yet, not closing. */
    constructor (streamId: nat, streamUri: string, rates: seq<nat>)
      ensures id == streamId && uri == streamUri && allowedRates == rates
      ensures converter.None? && resampler.None? && announced == [] && !close
    {
      id := streamId;
      uri := streamUri;
      allowedRates := [];
      converter := None;
      resampler := None;
      announced := [];
      close := false;
      new;
      SetAllowedSamplerates(rates);
    }

    /** setAllowedSamplerates: pushes the rates onto the list in their order. */
    method SetAllowedSamplerates(rates: seq<nat>)
      modifies this
      ensures allowedRates == old(allowedRates) + rates
      ensures converter == old(converter) && resampler == old(resampler)
      ensures announced == old(announced) && close == old(close)
    {
      for i := 0 to |rates|
        invariant allowedRates == old(allowedRates) + rates[..i]
        invariant converter == old(converter) && resampler == old(resampler)
        invariant announced == old(announced) && close == old(close)
      {
        assert rates[..i + 1] == rates[..i] + [rates[i]];
        allowedRates := allowedRates + [rates[i]];
      }
      assert rates[..|rates|] == rates;
    }

    /**
     * chooseSamplerate: the chosen rate moves to each allowed rate in turn
     * while it is below both the source rate and that rate.
     */
    method ChooseSamplerate(sourceRate: nat) returns (chosenRate: nat)
      requires SortedEnough(allowedRates, sourceRate)
      ensures chosenRate == Choose(allowedRates, sourceRate)
    {
      chosenRate := 0;
      for i := 0 to |allowedRates|
        invariant chosenRate == Choose(allowedRates[..i], sourceRate)
      {
        var sr := allowedRates[i];
        ChooseStep(allowedRates, sourceRate, i);
        if chosenRate < sourceRate && chosenRate < sr {
          chosenRate := sr;
        }
      }
      assert allowedRates[..|allowedRates|] == allowedRates;
    }

    /** setupAudioConverter: a converter is created from the first caps and never replaced. */
    method SetupAudioConverter(caps: Caps)
      modifies this
      ensures converter == if old(converter).None? then Some(ParseCaps(caps)) else old(converter)
      ensures resampler == old(resampler) && announced == old(announced)
      ensures allowedRates == old(allowedRates) && close == old(close)
    {
      if converter.None? {
        converter := Some(ParseCaps(caps));
      }
    }

    /**
     * setupResampler: the first caps create a resampler to the chosen rate
     * and announce that rate; caps with another source rate replace it by
     * one converting to the announced rate.
     */
    method SetupResampler(caps: Caps)
      requires RateIsGint(caps)
      requires resampler.None? ==> SortedEnough(allowedRates, ToUnsigned(SourceRate(caps), 32))
      modifies this
      ensures var (next, announce) := ResamplerSetup(old(resampler), allowedRates, SourceRate(caps));
        && resampler == next
        && announced == old(announced) + (if announce.Some? then [announce.value] else [])
      ensures converter == old(converter) && allowedRates == old(allowedRates) && close == old(close)
    {
      var srcSR := SourceRate(caps);
      if resampler.None? {
        var chosen := ChooseSamplerate(ToUnsigned(srcSR, 32));
        var tgtSR := Wrap(chosen, 32);
        resampler := Some(Rates(srcSR, tgtSR));
        announced := announced + [tgtSR];
      } else if resampler.value.sourceSR != srcSR {
        resampler := Some(Rates(srcSR, resampler.value.targetSR));
      }
    }

    /**
     * handOffData: caps set the processors up unless the pipeline is
     * closing; the buffer is processed only when both processors exist and
     * the pipeline is not closing.
     */
    method HandOffData(caps: Option<Caps>) returns (processed: bool)
      requires caps.Some? ==> RateIsGint(caps.value)
      requires caps.Some? && !close && resampler.None? ==>
        SortedEnough(allowedRates, ToUnsigned(SourceRate(caps.value), 32))
      modifies this
      ensures processed <==> converter.Some? && resampler.Some? && !close
      ensures close == old(close) && allowedRates == old(allowedRates)
      ensures caps.None? || old(close) ==>
        converter == old(converter) && resampler == old(resampler) && announced == old(announced)
      ensures caps.Some? && !old(close) ==>
        && converter == (if old(converter).None? then Some(ParseCaps(caps.value)) else old(converter))
        && var (next, announce) := ResamplerSetup(old(resampler), allowedRates, SourceRate(caps.value));
           && resampler == next
           && announced == old(announced) + (if announce.Some? then [announce.value] else [])
    {
      if caps.Some? && !close {
        SetupAudioConverter(caps.value);
        SetupResampler(caps.value);
      }
      processed := resampler.Some? && converter.Some? && !close;
    }

    /** The destructor raises m_close first, so that no more audio is handed on. */
    method Close()
      modifies this
      ensures close
      ensures converter == old(converter) && resampler == old(resampler)
      ensures announced == old(announced) && allowedRates == old(allowedRates)
    {
      close := true;
    }
  }
}
