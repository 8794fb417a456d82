/**
 * The per-endpoint request metrics of stats.py: a module-level table that
 * update_metrics changes in place and get_stats hands out as it is.
 */
module Stats {

  /** One endpoint's entry of `metrics` (stats.py:8-13). */
  datatype EndpointMetrics = EndpointMetrics(
    requestCount: int,
    errorCount: int,
    incomingBytes: int,
    avgResponseTime: real)

  /** The entry update_metrics creates for an endpoint it has not seen. */
  const Fresh := EndpointMetrics(0, 0, 0, 0.0)

  /** The smoothing factor of the moving average (stats.py:20). */
  const Alpha: real := 0.2

  /** The entry of endpoint e, or a fresh one if there is none yet. */
  function Lookup(m: map<string, EndpointMetrics>, e: string): EndpointMetrics {
    if e in m then m[e] else Fresh
  }

  /** The average after a request that took t: a stored 0.0 is taken to
      mean "no sample yet" and is replaced by t; otherwise the exponential
      moving average with weight Alpha on t. */
  function Smooth(avg: real, t: real): real {
    if avg == 0.0 then t else Alpha * t + (1.0 - Alpha) * avg
  }

  /** What one update_metrics call makes of an endpoint's entry. */
  function Observe(m: EndpointMetrics, t: real, error: bool, bytes: int): (r: EndpointMetrics)
    ensures r.requestCount == m.requestCount + 1
    ensures r.errorCount == m.errorCount + (if error then 1 else 0)
    ensures r.incomingBytes == m.incomingBytes + bytes
    ensures m.avgResponseTime == 0.0 ==> r.avgResponseTime == t
    ensures m.avgResponseTime != 0.0 ==> r.avgResponseTime == 0.2 * t + 0.8 * m.avgResponseTime
  {
    EndpointMetrics(
      m.requestCount + 1,
      m.errorCount + (if error then 1 else 0),
      m.incomingBytes + bytes,
      Smooth(m.avgResponseTime, t))
  }

  /** One call of update_metrics(endpoint, request_time, error, incoming_bytes). */
  datatype Sample = Sample(endpoint: string, requestTime: real, error: bool, incomingBytes: int)

  /** The table after one call. */
  function Record(m: map<string, EndpointMetrics>, s: Sample): (r: map<string, EndpointMetrics>)
    ensures s.endpoint in r && r[s.endpoint].requestCount == Lookup(m, s.endpoint).requestCount + 1
    ensures forall e :: e != s.endpoint ==> (e in r <==> e in m)
    ensures forall e :: e != s.endpoint && e in m ==> r[e] == m[e]
  {
    m[s.endpoint := Observe(Lookup(m, s.endpoint), s.requestTime, s.error, s.incomingBytes)]
  }

  /** The table after a series of calls, in order. */
  function Replay(m: map<string, EndpointMetrics>, samples: seq<Sample>): (r: map<string, EndpointMetrics>)
    decreases |samples|
    ensures r.Keys >= m.Keys
    ensures forall i :: 0 <= i < |samples| ==> samples[i].endpoint in r
  {
    if samples == [] then m else Replay(Record(m, samples[0]), samples[1..])
  }

  /** Replaying one more call is one more Record, so the table after a
      series of update_metrics calls (each ending in Record of the table
      before it) is the Replay of that series. */
  lemma {:induction false} ReplayAppend(m: map<string, EndpointMetrics>, samples: seq<Sample>, s: Sample)
    ensures Replay(m, samples + [s]) == Record(Replay(m, samples), s)
    decreases |samples|
  {
    if samples == [] {
      assert samples + [s] == [s];
    } else {
      assert (samples + [s])[1..] == samples[1..] + [s];
      ReplayAppend(Record(m, samples[0]), samples[1..], s);
    }
  }

  /** Writing a key twice leaves only the second value. */
  lemma Overwrite(m: map<string, EndpointMetrics>, k: string, a: EndpointMetrics, b: EndpointMetrics)
    ensures m[k := a][k := b] == m[k := b]
  {
    var twice, once := m[k := a][k := b], m[k := b];
    assert forall e :: e in once ==> twice[e] == once[e];
  }

  /** The module-level `metrics` dictionary and the two functions over it. */
  class MetricsTable {
    var metrics: map<string, EndpointMetrics>

    /** `metrics = {}` at import. */
    constructor()
      ensures metrics == map[]
    {
      metrics := map[];
    }

    /** update_metrics (stats.py:6-25): create the entry if missing, bump
        the three counters, then update the average. */
    method UpdateMetrics(endpoint: string, requestTime: real, error: bool, incomingBytes: int)
      modifies this
      ensures metrics == Record(old(metrics), Sample(endpoint, requestTime, error, incomingBytes))
      ensures endpoint in metrics
      ensures forall e :: e != endpoint ==> (e in metrics <==> e in old(metrics))
      ensures forall e :: e != endpoint && e in old(metrics) ==> metrics[e] == old(metrics)[e]
    {
      if endpoint !in metrics {
        metrics := metrics[endpoint := Fresh];
      }
      ghost var before := Lookup(old(metrics), endpoint);
      assert metrics == old(metrics)[endpoint := before];
      var m := metrics[endpoint];
      metrics := metrics[endpoint := m.(requestCount := m.requestCount + 1)];
      Overwrite(old(metrics), endpoint, m, metrics[endpoint]);
      m := metrics[endpoint];
      metrics := metrics[endpoint := m.(errorCount := m.errorCount + if error then 1 else 0)];
      Overwrite(old(metrics), endpoint, m, metrics[endpoint]);
      m := metrics[endpoint];
      metrics := metrics[endpoint := m.(incomingBytes := m.incomingBytes + incomingBytes)];
      Overwrite(old(metrics), endpoint, m, metrics[endpoint]);
      m := metrics[endpoint];
      if m.avgResponseTime == 0.0 {
        metrics := metrics[endpoint := m.(avgResponseTime := requestTime)];
      } else {
        metrics := metrics[endpoint := m.(avgResponseTime := Alpha * requestTime + (1.0 - Alpha) * m.avgResponseTime)];
      }
      Overwrite(old(metrics), endpoint, m, metrics[endpoint]);
      assert metrics[endpoint] == Observe(before, requestTime, error, incomingBytes);
    }

    /** get_stats (stats.py:28-29) returns the live table, not a copy: a
        caller that keeps it sees every later update. */
    method GetStats() returns (live: MetricsTable)
      ensures live == this
    {
      live := this;
    }
  }

  // ---------------------------------------------------------------------
  // Properties
  // ---------------------------------------------------------------------

  /** An entry that can come out of update_metrics with non-negative byte
      counts: at least one request, and no more errors than requests. */
  predicate Consistent(m: EndpointMetrics) {
    0 <= m.errorCount <= m.requestCount && 1 <= m.requestCount && 0 <= m.incomingBytes
  }

  /** Every call leaves its endpoint's entry consistent, starting from a
      fresh entry or a consistent one. */
  lemma ObserveConsistent(m: EndpointMetrics, t: real, error: bool, bytes: int)
    requires m == Fresh || Consistent(m)
    requires 0 <= bytes
    ensures Consistent(Observe(m, t, error, bytes))
  {
  }

  /** The first request of an endpoint sets its average to that request's time. */
  lemma FirstSampleSetsAverage(t: real, error: bool, bytes: int)
    ensures Observe(Fresh, t, error, bytes) == EndpointMetrics(1, if error then 1 else 0, bytes, t)
  {
  }

  /** Two requests of 1.0 and 2.0 give the average 0.2 * 2.0 + 0.8 * 1.0 = 1.2. */
  lemma TwoSamples()
    ensures Replay(map[], [Sample("/a", 1.0, false, 10), Sample("/a", 2.0, true, 5)])
            == map["/a" := EndpointMetrics(2, 1, 15, 1.2)]
  {
    var s0 := Sample("/a", 1.0, false, 10);
    var s1 := Sample("/a", 2.0, true, 5);
    var m1 := Record(map[], s0);
    assert m1 == map["/a" := EndpointMetrics(1, 0, 10, 1.0)];
    assert Record(m1, s1) == map["/a" := EndpointMetrics(2, 1, 15, 1.2)];
    assert [s0, s1][1..] == [s1];
  }

  /** The 0.0 sentinel is tested on every call, not only the first: an
      average that the moving average itself brings to exactly 0.0 is
      discarded and replaced by the next request's time (1.0, then -4.0
      give 0.0; then 5.0 gives 5.0 where the moving average would be 1.0). */
  lemma SentinelResetsAverage()
    ensures var m := Observe(Observe(Observe(Fresh, 1.0, false, 0), -4.0, false, 0), 5.0, false, 0);
            m.avgResponseTime == 5.0 && Alpha * 5.0 + (1.0 - Alpha) * 0.0 == 1.0
  {
    assert Observe(Fresh, 1.0, false, 0).avgResponseTime == 1.0;
    assert Observe(Observe(Fresh, 1.0, false, 0), -4.0, false, 0).avgResponseTime == 0.0;
  }

  /** A table entry that only requests with times in [lo, hi] have touched
      either still holds the 0.0 sentinel or an average in [lo, hi]. */
  predicate AverageWithin(m: EndpointMetrics, lo: real, hi: real) {
    m.avgResponseTime == 0.0 || lo <= m.avgResponseTime <= hi
  }

  lemma SmoothWithin(avg: real, t: real, lo: real, hi: real)
    requires avg == 0.0 || lo <= avg <= hi
    requires lo <= t <= hi
    ensures lo <= Smooth(avg, t) <= hi
  {
  }

  /** The number of calls for endpoint e, of those the errors, and the bytes. */
  function CountFor(samples: seq<Sample>, e: string): nat {
    if samples == [] then 0 else (if samples[0].endpoint == e then 1 else 0) + CountFor(samples[1..], e)
  }

  function ErrorsFor(samples: seq<Sample>, e: string): nat {
    if samples == [] then 0
    else (if samples[0].endpoint == e && samples[0].error then 1 else 0) + ErrorsFor(samples[1..], e)
  }

  function BytesFor(samples: seq<Sample>, e: string): int {
    if samples == [] then 0
    else (if samples[0].endpoint == e then samples[0].incomingBytes else 0) + BytesFor(samples[1..], e)
  }

  /** After any series of calls, an endpoint has an entry exactly when it
      had one or was called, and its counters have grown by the number of
      its calls, of its failed calls, and by its bytes; calls for other
      endpoints do not touch it. */
  lemma {:induction false} ReplayCounts(m: map<string, EndpointMetrics>, samples: seq<Sample>, e: string)
    ensures var r := Replay(m, samples);
            && (e in r <==> e in m || CountFor(samples, e) > 0)
            && r.Keys >= m.Keys
            && (CountFor(samples, e) == 0 && e in m ==> r[e] == m[e])
            && (e in r ==>
                  && r[e].requestCount == Lookup(m, e).requestCount + CountFor(samples, e)
                  && r[e].errorCount == Lookup(m, e).errorCount + ErrorsFor(samples, e)
                  && r[e].incomingBytes == Lookup(m, e).incomingBytes + BytesFor(samples, e))
    decreases |samples|
  {
    if samples != [] {
      ReplayCounts(Record(m, samples[0]), samples[1..], e);
    }
  }

  /** Every error is a request: starting from an empty table, each
      endpoint's error count is at most its request count. */
  lemma ReplayErrorsBounded(samples: seq<Sample>, e: string)
    requires e in Replay(map[], samples)
    ensures 0 <= Replay(map[], samples)[e].errorCount <= Replay(map[], samples)[e].requestCount
  {
    ReplayCounts(map[], samples, e);
    ErrorsAtMostCalls(samples, e);
  }

  lemma {:induction false} ErrorsAtMostCalls(samples: seq<Sample>, e: string)
    ensures ErrorsFor(samples, e) <= CountFor(samples, e)
  {
    if samples != [] {
      ErrorsAtMostCalls(samples[1..], e);
    }
  }

  /** When every request of a series took between lo and hi, every
      average in the table stays between lo and hi (or at the sentinel
      0.0), and an endpoint that was called has an average in [lo, hi]. */
  lemma {:induction false} ReplayAverageWithin(m: map<string, EndpointMetrics>, samples: seq<Sample>, lo: real, hi: real)
    requires forall e :: e in m ==> AverageWithin(m[e], lo, hi)
    requires forall i :: 0 <= i < |samples| ==> lo <= samples[i].requestTime <= hi
    ensures forall e :: e in Replay(m, samples) ==> AverageWithin(Replay(m, samples)[e], lo, hi)
    ensures forall e :: CountFor(samples, e) > 0 ==> e in Replay(m, samples) && lo <= Replay(m, samples)[e].avgResponseTime <= hi
    decreases |samples|
  {
    if samples != [] {
      var s := samples[0];
      var m1 := Record(m, s);
      SmoothWithin(Lookup(m, s.endpoint).avgResponseTime, s.requestTime, lo, hi);
      assert forall e :: e in m1 ==> AverageWithin(m1[e], lo, hi);
      assert forall i :: 0 <= i < |samples[1..]| ==> samples[1..][i] == samples[i + 1];
      ReplayAverageWithin(m1, samples[1..], lo, hi);
      forall e | CountFor(samples, e) > 0
        ensures e in Replay(m, samples) && lo <= Replay(m, samples)[e].avgResponseTime <= hi
      {
        if CountFor(samples[1..], e) == 0 {
          assert e == s.endpoint;
          ReplayCounts(m1, samples[1..], e);
        }
      }
    }
  }
}
