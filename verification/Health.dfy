/** Per-state publish failures of the current cycle (internal/health/registry.go). */
module Health {
  import opened Common

  datatype Feed = FeedAlerts | FeedSPCTorn | FeedSPCHail | FeedSPCWind | FeedPublish

  function CountOf(failures: map<string, nat>, state: string): nat {
    if state in failures then failures[state] else 0
  }

  /** `m[state]++` on a map whose absent keys read zero. */
  function Bump(failures: map<string, nat>, state: string): map<string, nat> {
    failures[state := CountOf(failures, state) + 1]
  }

  class Registry {
    var last: map<Feed, Time>
    var publishFailures: map<string, nat>

    constructor ()
      ensures last == map[] && publishFailures == map[]
    {
      last, publishFailures := map[], map[];
    }

    method RecordSuccess(feed: Feed, t: Time)
      modifies this`last
      ensures last == old(last)[feed := t]
    {
      last := last[feed := t];
    }

    method RecordPublishPutFailure(state: string)
      modifies this`publishFailures
      ensures publishFailures == Bump(old(publishFailures), state)
    {
      publishFailures := publishFailures[state := CountOf(publishFailures, state) + 1];
    }

    method ResetPublishFailures()
      modifies this`publishFailures
      ensures publishFailures == map[]
    {
      publishFailures := map[];
    }

    /** A copy: later failures do not show in it. */
    method PublishPutFailures() returns (out: map<string, nat>)
      ensures out == publishFailures
    {
      out := map[];
      var todo := publishFailures.Keys;
      while todo != {}
        invariant todo <= publishFailures.Keys
        invariant out == map k | k in publishFailures && k !in todo :: publishFailures[k]
        decreases todo
      {
        var k :| k in todo;
        out := out[k := publishFailures[k]];
        todo := todo - {k};
      }
    }
  }
}
