/**
 * SupportedProtocols (SupportedProtocols.cpp): the UPnP protocol-info
 * strings the decoder advertises, "http-get:*:<mime>:*", built from the
 * caps of GStreamer's type-find factories.  The factories' caps strings and
 * GIO's MIME-to-content-type mapping are inputs.
 */
module Protocols {
  import opened Conversion

  const Wma := "http-get:*:audio/x-ms-wma:*"

  /** The protocol-info string for a MIME type or content type. */
  function HttpGet(mime: string): string
  {
    "http-get:*:" + mime + ":*"
  }

  /** Caps strings that are advertised: non-empty, and audio/... or one of the two Ogg types. */
  predicate Accepted(mime: string)
  {
    |mime| > 0 && ("audio/" <= mime || mime == "application/ogg" || mime == "application/x-ogg")
  }

  /** The caps string cut at its first comma, where its fields begin. */
  function UpToComma(mime: string): (m: string)
    ensures m <= mime && ',' !in m
    ensures |m| < |mime| ==> mime[|m|] == ','
  {
    if mime == [] || mime[0] == ',' then [] else [mime[0]] + UpToComma(mime[1..])
  }

  /**
   * The entries one factory contributes: none unless its caps string is
   * accepted; then the entry for the truncated MIME type, followed by one
   * for its content type when there is one and it differs.
   */
  function Entries(caps: Option<string>, contentType: string -> Option<string>): (es: seq<string>)
    ensures |es| <= 2
    ensures es == [] <==> caps.None? || !Accepted(caps.value)
    ensures es != [] ==> es[0] == HttpGet(UpToComma(caps.value))
    ensures es != [] ==>
      var t := contentType(UpToComma(caps.value));
      (|es| == 2 <==> t.Some? && t.value != UpToComma(caps.value)) &&
      (|es| == 2 ==> es[1] == HttpGet(t.value))
  {
    if caps.None? || !Accepted(caps.value) then []
    else
      var mime := UpToComma(caps.value);
      var t := contentType(mime);
      if t.Some? && t.value != mime then [HttpGet(mime), HttpGet(t.value)] else [HttpGet(mime)]
  }

  /** The entries of all factories, in factory order. */
  function FactoryEntries(factories: seq<Option<string>>, contentType: string -> Option<string>): (es: seq<string>)
    ensures |es| <= 2 * |factories|
  {
    if factories == [] then []
    else FactoryEntries(factories[..|factories| - 1], contentType) + Entries(factories[|factories| - 1], contentType)
  }

  /** The list init builds: the factories' entries, then the WMA entry. */
  function ProtocolList(factories: seq<Option<string>>, contentType: string -> Option<string>): (ps: seq<string>)
    ensures |ps| >= 1 && ps[|ps| - 1] == Wma
  {
    FactoryEntries(factories, contentType) + [Wma]
  }

  predicate IsHttpGet(e: string)
  {
    |e| >= 13 && e[..11] == "http-get:*:" && e[|e| - 2..] == ":*"
  }

  /** Every advertised string has the protocol-info form. */
  lemma {:induction false} AllHttpGet(factories: seq<Option<string>>, contentType: string -> Option<string>)
    ensures forall e :: e in ProtocolList(factories, contentType) ==> IsHttpGet(e)
    decreases |factories|
  {
    if factories != [] {
      AllHttpGet(factories[..|factories| - 1], contentType);
    }
  }

  /** Every accepted factory's truncated MIME type is advertised. */
  lemma {:induction false} AcceptedListed(factories: seq<Option<string>>, contentType: string -> Option<string>, i: nat)
    requires i < |factories| && factories[i].Some? && Accepted(factories[i].value)
    ensures HttpGet(UpToComma(factories[i].value)) in FactoryEntries(factories, contentType)
    decreases |factories|
  {
    var n := |factories| - 1;
    var front := factories[..n];
    var x := HttpGet(UpToComma(factories[i].value));
    var before := FactoryEntries(front, contentType);
    var last := Entries(factories[n], contentType);
    assert FactoryEntries(factories, contentType) == before + last;
    if i < n {
      assert front[i] == factories[i];
      AcceptedListed(front, contentType, i);
      var j :| 0 <= j < |before| && before[j] == x;
      assert (before + last)[j] == x;
    } else {
      assert (before + last)[|before|] == x;
    }
  }

  /** Factories whose caps are missing or not audio add nothing. */
  lemma {:induction false} NothingFromRejected(factories: seq<Option<string>>, contentType: string -> Option<string>)
    requires forall i :: 0 <= i < |factories| ==> factories[i].None? || !Accepted(factories[i].value)
    ensures ProtocolList(factories, contentType) == [Wma]
    decreases |factories|
  {
    if factories != [] {
      NothingFromRejected(factories[..|factories| - 1], contentType);
    }
  }

  /** The list of factories one longer contributes that factory's entries at the end. */
  lemma FactoryEntriesAppend(factories: seq<Option<string>>, contentType: string -> Option<string>, i: nat)
    requires i < |factories|
    ensures FactoryEntries(factories[..i + 1], contentType) ==
      FactoryEntries(factories[..i], contentType) + Entries(factories[i], contentType)
  {
    assert factories[..i + 1][..i] == factories[..i];
  }

  class SupportedProtocols {
    /** m_supportedProtocols */
    var supportedProtocols: seq<string>

    /** SupportedProtocols (): the list init builds from the factories. */
    constructor (factories: seq<Option<string>>, contentType: string -> Option<string>)
      ensures supportedProtocols == ProtocolList(factories, contentType)
    {
      supportedProtocols := [];
      new;
      Init(factories, contentType);
    }

    /**
     * init: for each factory with an accepted caps string, the caps string
     * cut at its first comma, then its differing content type, are pushed;
     * the WMA entry comes last.
     */
    method Init(factories: seq<Option<string>>, contentType: string -> Option<string>)
      modifies this
      ensures supportedProtocols == old(supportedProtocols) + ProtocolList(factories, contentType)
    {
      for i := 0 to |factories|
        invariant supportedProtocols == old(supportedProtocols) + FactoryEntries(factories[..i], contentType)
      {
        FactoryEntriesAppend(factories, contentType, i);
        AddFactory(factories[i], contentType);
      }
      assert factories[..|factories|] == factories;
      supportedProtocols := supportedProtocols + [Wma];
    }

    /** The body of init's loop for one factory's caps string. */
    method AddFactory(caps: Option<string>, contentType: string -> Option<string>)
      modifies this
      ensures supportedProtocols == old(supportedProtocols) + Entries(caps, contentType)
    {
      if caps.Some? && |caps.value| > 0 {
        if "audio/" <= caps.value || caps.value == "application/ogg" || caps.value == "application/x-ogg" {
          var mime := UpToComma(caps.value);
          supportedProtocols := supportedProtocols + [HttpGet(mime)];
          var t := contentType(mime);
          if t.Some? && t.value != mime {
            supportedProtocols := supportedProtocols + [HttpGet(t.value)];
            assert supportedProtocols == old(supportedProtocols) + [HttpGet(mime), HttpGet(t.value)];
          }
        }
      }
    }

    /**
     * asArrayOfStrings: a new array of size + 1 slots holding a copy of
     * every entry in order, terminated by NULL.
     */
    method AsArrayOfStrings() returns (ret: array<Option<string>>)
      ensures fresh(ret) && ret.Length == |supportedProtocols| + 1
      ensures forall i :: 0 <= i < |supportedProtocols| ==> ret[i] == Some(supportedProtocols[i])
      ensures ret[|supportedProtocols|] == None
    {
      ret := new Option<string>[|supportedProtocols| + 1](_ => None);
      var walker := 0;
      for k := 0 to |supportedProtocols|
        invariant walker == k
        invariant forall i :: 0 <= i < k ==> ret[i] == Some(supportedProtocols[i])
        invariant ret[|supportedProtocols|] == None
      {
        ret[walker] := Some(supportedProtocols[k]);
        walker := walker + 1;
      }
      ret[walker] := None;
    }
  }
}
