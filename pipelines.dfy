/**
 * Pipelines (Pipelines.cpp): the registry of running pipelines, keyed by
 * the 64-bit stream id the D-Bus service hands out.
 */
module Registry {
  import opened Conversion
  import opened Pipelining

  class Pipelines {
    /** m_pipelines */
    var pipelines: map<nat, Pipeline>

    constructor ()
      ensures pipelines == map[]
    {
      pipelines := map[];
    }

    /**
     * onDecode: a new pipeline for the stream; `initResult` is what its
     * init returned (the read end of a new pipe, or -1 when the pipe could
     * not be created).  On failure nothing is stored and false is returned;
     * otherwise the descriptor goes to `*pipe` when the caller passed one,
     * and the pipeline is stored under the stream id, replacing any older one.
     */
    method OnDecode(streamId: nat, uri: string, allowedRates: seq<nat>, initResult: int, wantsPipe: bool)
      returns (ok: bool, pipe: Option<int>)
      modifies this
      ensures ok <==> initResult != -1
      ensures !ok ==> pipelines == old(pipelines) && pipe.None?
      ensures ok ==>
        && streamId in pipelines && fresh(pipelines[streamId])
        && pipelines == old(pipelines)[streamId := pipelines[streamId]]
        && pipelines[streamId].id == streamId && pipelines[streamId].uri == uri
        && pipelines[streamId].allowedRates == allowedRates
        && pipelines[streamId].converter.None? && pipelines[streamId].resampler.None?
        && pipelines[streamId].announced == [] && !pipelines[streamId].close
        && pipe == if wantsPipe then Some(initResult) else None
    {
      var pipeline := new Pipeline(streamId, uri, allowedRates);
      if initResult == -1 {
        return false, None;
      }
      pipe := if wantsPipe then Some(initResult) else None;
      pipelines := pipelines[streamId := pipeline];
      ok := true;
    }

    /** onStop: the stream's pipeline is dropped; an unknown id changes nothing. */
    method OnStop(streamId: nat)
      modifies this
      ensures streamId !in old(pipelines) ==> pipelines == old(pipelines)
      ensures streamId in old(pipelines) ==> pipelines == old(pipelines) - {streamId}
      ensures streamId !in pipelines
    {
      if streamId !in pipelines {
        return;
      }
      pipelines := pipelines - {streamId};
    }

    /** reset: every pipeline is dropped. */
    method Reset()
      modifies this
      ensures pipelines == map[]
    {
      pipelines := map[];
    }
  }
}
