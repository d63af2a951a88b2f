/**
 * `LoadGenerator` (http_benchmark.py): one benchmark run at one concurrency
 * level. Its tasks share one event-loop thread and append to two shared lists,
 * `results` (latencies in ms) and `errors` (one `1` per failed attempt), which
 * `run` then reduces to a metrics row.
 *
 * What the network, the clocks and the scheduler do is an input here: a run is
 * the sequence of attempts its workers began before the deadline, in the order
 * the event loop interleaved them. Each attempt is listed with what the
 * transport would do with its request; an attempt whose pacing draw raises is
 * listed too, and its transfer is never used.
 */
module LoadGen {

  import opened Wrappers
  import opened Dicts
  import Text

  newtype byte = b: int | 0 <= b < 256

  /** The request body: a text string or the bytes of a file. */
  datatype Body = Str(text: string) | Bytes(octets: seq<byte>)

  /** What the transport does with the request of one attempt: it raised, or it completed with
      the full response read between two readings of the monotonic clock
      (seconds). */
  datatype Transfer = Raised | Completed(start: real, stop: real)

  /** A monotonic clock never goes backwards. */
  type Exchange = x: Transfer | x.Raised? || x.start <= x.stop witness Raised

  /** The pause `_send_request` takes before a request, by pacing mode: a
      uniform draw from [0, bound], an exponential draw with the given mean, or
      none. The random draw itself is not modelled. */
  datatype Delay = NoDelay | UniformUpTo(bound: real) | ExponentialMean(mean: real)

  /** The attributes a `LoadGenerator` keeps. `avgJitter` is in seconds. */
  datatype LoadGenerator = LoadGenerator(
    url: string, concurrency: int, duration: int, requestType: string,
    headers: Dict<string, string>, data: Body, mode: string, avgJitter: real)

  /** The exceptions a run can raise: the error rate divides by the number of
      attempts without checking it, and numpy's exponential draw rejects a
      negative scale before any request is sent. */
  datatype RunError = ZeroDivision | NegativeScale

  /** One value of the metrics row. The error rate is kept as the exact ratio
      of two counts; a percentile is kept as which percentile of which
      latencies. */
  datatype Cell = Int(n: int) | Ratio(num: int, den: int) | PercentileOf(p: nat, latencies: seq<real>)

  /** The keys of the metrics dict. `Label` gives the text Python uses. */
  datatype Key = ConcurrencyLevel | DurationSeconds | SuccessfulRequests | TotalErrors | ErrorRate
               | LatencyPercentile(p: nat)

  type Row = Dict<Key, Cell>

  const BaseKeys := [ConcurrencyLevel, DurationSeconds, SuccessfulRequests, TotalErrors, ErrorRate]

  const Percentiles: seq<nat> := [50, 75, 95, 99]

  const PercentileKeys := [LatencyPercentile(50), LatencyPercentile(75), LatencyPercentile(95), LatencyPercentile(99)]

  /** The dict key as text; the percentile keys are `f"p{p} Latency (ms)"`. */
  function Label(k: Key): string
  {
    match k
    case ConcurrencyLevel => "Concurrency Level"
    case DurationSeconds => "Duration (s)"
    case SuccessfulRequests => "Successful Requests"
    case TotalErrors => "Total Errors"
    case ErrorRate => "Error Rate (%)"
    case LatencyPercentile(p) => "p" + Text.Decimal(p) + " Latency (ms)"
  }

  /** Two percentile labels are equal only for the same percentile: the
      digits between the "p" and the fixed suffix read back as the number. */
  lemma PercentileLabelsDistinct(p: nat, q: nat)
    requires Label(LatencyPercentile(p)) == Label(LatencyPercentile(q))
    ensures p == q
  {
    var d1, d2 := Text.Decimal(p), Text.Decimal(q);
    var l1, l2 := Label(LatencyPercentile(p)), Label(LatencyPercentile(q));
    assert |d1| == |d2|;
    assert l1[1..1 + |d1|] == d1;
    assert l2[1..1 + |d2|] == d2;
    Text.DecimalRoundTrip(p);
    Text.DecimalRoundTrip(q);
  }

  /** Distinct keys have distinct labels, so the row never writes two of its
      values under one dict key: the base labels begin with different
      letters and every percentile label begins with 'p'. */
  lemma LabelsDistinct(k1: Key, k2: Key)
    requires Label(k1) == Label(k2)
    ensures k1 == k2
  {
    assert Label(k1)[0] == Label(k2)[0];
    if k1.LatencyPercentile? && k2.LatencyPercentile? {
      PercentileLabelsDistinct(k1.p, k2.p);
    }
  }

  /** The constructor: the request type is upper-cased and the average jitter,
      given in milliseconds, is kept in seconds. */
  function NewLoadGenerator(url: string, concurrency: int, duration: int, requestType: string,
                            headers: Dict<string, string>, data: Body, mode: string, avgJitterMs: int): (g: LoadGenerator)
    ensures g.requestType == Text.Upper(requestType)
    ensures g.avgJitter * 1000.0 == avgJitterMs as real
    ensures g.avgJitter >= 0.0 <==> avgJitterMs >= 0
    ensures g.url == url && g.concurrency == concurrency && g.duration == duration
    ensures g.headers == headers && g.data == data && g.mode == mode
  {
    LoadGenerator(url, concurrency, duration, Text.Upper(requestType), headers, data, mode,
                  avgJitterMs as real / 1000.0)
  }

  /** `numpy.random.exponential` raises for a negative scale; the uniform draw
      and the sleep accept any bound. */
  predicate PacingRaises(mode: string, jitter: real)
  {
    mode == "exponential" && jitter < 0.0
  }

  /** The pacing dispatch of `_send_request`: only "uniform" and "exponential"
      pause, both with mean `jitter`; every other mode, "burst" included, sends
      at once. The mode is compared as given, without case folding. The
      exponential draw raises for a negative jitter; the draw sits outside the
      request's `try`, so nothing catches it. */
  function PacingFor(mode: string, jitter: real): (d: Result<Delay, RunError>)
    ensures d.Failure? <==> PacingRaises(mode, jitter)
    ensures d.Failure? ==> d.error == NegativeScale
    ensures d.Success? ==> (d.value.NoDelay? <==> mode != "uniform" && mode != "exponential")
    ensures d.Success? && d.value.UniformUpTo? ==> mode == "uniform" && d.value.bound == 2.0 * jitter
    ensures d.Success? && d.value.ExponentialMean? ==>
              mode == "exponential" && d.value.mean == jitter && jitter >= 0.0
  {
    if mode == "uniform" then Success(UniformUpTo(2.0 * jitter))
    else if mode == "exponential" then
      if jitter < 0.0 then Failure(NegativeScale) else Success(ExponentialMean(jitter))
    else Success(NoDelay)
  }

  /** The outcome of one call of `_send_request`: the pause it took and the
      value it returned. */
  datatype Attempt = Attempt(pause: Delay, latency: real)

  /** The value `_send_request` returns for an exchange: the sentinel -1.0
      exactly when the request raised, otherwise the elapsed monotonic time in
      milliseconds, which is never negative (a latency of 0 is a success). */
  function LatencyOf(x: Exchange): (latency: real)
    ensures latency == -1.0 <==> x.Raised?
    ensures latency >= 0.0 <==> x.Completed?
    ensures x.Completed? ==> latency * 0.001 == x.stop - x.start
  {
    match x
    case Raised => -1.0
    case Completed(start, stop) => (stop - start) * 1000.0
  }

  /** `_send_request`: pause as the mode says, then send and time the request.
      It raises only when the pause does; a failed request is the sentinel. */
  function SendRequest(g: LoadGenerator, x: Exchange): (a: Result<Attempt, RunError>)
    ensures a.Failure? <==> PacingRaises(g.mode, g.avgJitter)
    ensures a.Failure? ==> a.error == NegativeScale
    ensures a.Success? ==> (a.value.latency == -1.0 <==> x.Raised?) && (a.value.latency >= 0.0 <==> x.Completed?)
    ensures a.Success? && x.Completed? ==> a.value.latency * 0.001 == x.stop - x.start
    ensures a.Success? ==> (a.value.pause.NoDelay? <==> g.mode != "uniform" && g.mode != "exponential")
  {
    match PacingFor(g.mode, g.avgJitter)
    case Failure(e) => Failure(e)
    case Success(pause) => Success(Attempt(pause, LatencyOf(x)))
  }

  /** The values `_send_request` returns for a sequence of exchanges. */
  function Latencies(xs: seq<Exchange>): (ls: seq<real>)
    ensures |ls| == |xs|
  {
    if xs == [] then []
    else Latencies(xs[..|xs| - 1]) + [LatencyOf(xs[|xs| - 1])]
  }

  /** What `_worker` appends to `results` for a sequence of returned values. */
  function Successes(ls: seq<real>): (r: seq<real>)
    ensures |r| <= |ls|
    ensures forall k :: 0 <= k < |r| ==> r[k] >= 0.0
  {
    if ls == [] then []
    else Successes(ls[..|ls| - 1]) + (if ls[|ls| - 1] >= 0.0 then [ls[|ls| - 1]] else [])
  }

  /** What `_worker` appends to `errors` for a sequence of returned values. */
  function ErrorMarks(ls: seq<real>): (r: seq<int>)
    ensures |r| <= |ls|
    ensures forall k :: 0 <= k < |r| ==> r[k] == 1
  {
    if ls == [] then []
    else ErrorMarks(ls[..|ls| - 1]) + (if ls[|ls| - 1] >= 0.0 then [] else [1])
  }

  /** The number of exchanges that completed: an independent count to check
      the two lists against. */
  function Completions(xs: seq<Exchange>): (n: nat)
    ensures n <= |xs|
  {
    if xs == [] then 0
    else Completions(xs[1..]) + (if xs[0].Completed? then 1 else 0)
  }

  /** The number of exchanges that raised. */
  function Failures(xs: seq<Exchange>): (n: nat)
    ensures n <= |xs|
  {
    if xs == [] then 0
    else Failures(xs[1..]) + (if xs[0].Raised? then 1 else 0)
  }

  /** Every exchange either completed or raised. */
  lemma {:induction false} CompletedOrRaised(xs: seq<Exchange>)
    ensures Completions(xs) + Failures(xs) == |xs|
  {
    if xs != [] {
      CompletedOrRaised(xs[1..]);
    }
  }

  /** Filing one more returned value extends exactly one of the two lists. */
  lemma FilingStep(xs: seq<Exchange>, i: nat)
    requires i < |xs|
    ensures var l := LatencyOf(xs[i]);
            && Successes(Latencies(xs[..i + 1])) == Successes(Latencies(xs[..i])) + (if l >= 0.0 then [l] else [])
            && ErrorMarks(Latencies(xs[..i + 1])) == ErrorMarks(Latencies(xs[..i])) + (if l >= 0.0 then [] else [1])
  {
    var ys := xs[..i + 1];
    assert ys[..|ys| - 1] == xs[..i];
    var ls := Latencies(ys);
    assert ls == Latencies(xs[..i]) + [LatencyOf(xs[i])];
    assert ls[..|ls| - 1] == Latencies(xs[..i]);
  }

  /** `FilingStep` after entries already in the lists. */
  lemma FileAfter(results0: seq<real>, errors0: seq<int>, xs: seq<Exchange>, i: nat)
    requires i < |xs|
    ensures var l := LatencyOf(xs[i]);
            && results0 + Successes(Latencies(xs[..i + 1]))
               == (results0 + Successes(Latencies(xs[..i]))) + (if l >= 0.0 then [l] else [])
            && errors0 + ErrorMarks(Latencies(xs[..i + 1]))
               == (errors0 + ErrorMarks(Latencies(xs[..i]))) + (if l >= 0.0 then [] else [1])
  {
    FilingStep(xs, i);
  }

  /** The shared `results` and `errors` lists of one run. */
  class Collector {
    var results: seq<real>
    var errors: seq<int>

    constructor ()
      ensures results == [] && errors == []
    {
      results := [];
      errors := [];
    }

    /** One iteration of `_worker`'s loop after `_send_request` returned:
        exactly one of the two lists grows by one entry. */
    method Record(latency: real)
      modifies this
      ensures latency >= 0.0 ==> results == old(results) + [latency] && errors == old(errors)
      ensures latency < 0.0 ==> results == old(results) && errors == old(errors) + [1]
    {
      if latency >= 0.0 {
        results := results + [latency];
      } else {
        errors := errors + [1];
      }
    }

    /** `_worker`: one task issuing the given exchanges one after another
        (the deadline decides how many there are) and filing each outcome.
        When the pacing raises, the first call raises before anything is
        filed. */
    method Worker(g: LoadGenerator, xs: seq<Exchange>) returns (r: Result<(), RunError>)
      modifies this
      ensures r.Failure? <==> xs != [] && PacingRaises(g.mode, g.avgJitter)
      ensures r.Failure? ==> r.error == NegativeScale && results == old(results) && errors == old(errors)
      ensures r.Success? ==> results == old(results) + Successes(Latencies(xs))
      ensures r.Success? ==> errors == old(errors) + ErrorMarks(Latencies(xs))
    {
      ghost var results0, errors0 := results, errors;
      var i := 0;
      while i < |xs|
        invariant 0 <= i <= |xs|
        invariant PacingRaises(g.mode, g.avgJitter) ==> i == 0
        invariant results == results0 + Successes(Latencies(xs[..i]))
        invariant errors == errors0 + ErrorMarks(Latencies(xs[..i]))
      {
        var attempt := SendRequest(g, xs[i]);
        if attempt.Failure? {
          assert results == results0 && errors == errors0;
          return Failure(attempt.error);
        }
        FileAfter(results0, errors0, xs, i);
        Record(attempt.value.latency);
        i := i + 1;
      }
      assert xs[..|xs|] == xs;
      return Success(());
    }
  }

  lemma BaseKeysListed()
    ensures Distinct(BaseKeys)
    ensures Elements(BaseKeys) == {ConcurrencyLevel, DurationSeconds, SuccessfulRequests, TotalErrors, ErrorRate}
  {
    forall k | k in {ConcurrencyLevel, DurationSeconds, SuccessfulRequests, TotalErrors, ErrorRate}
      ensures k in Elements(BaseKeys)
    {
      assert k in BaseKeys;
    }
  }

  /** The literal part of the metrics dict: the five base keys, in order. */
  function BaseRow(level: int, duration: int, successful: int, errorCount: int, rate: Cell): (row: Row)
    ensures Valid(row) && row.order == BaseKeys
    ensures row.entries[ConcurrencyLevel] == Int(level) && row.entries[DurationSeconds] == Int(duration)
    ensures row.entries[SuccessfulRequests] == Int(successful) && row.entries[TotalErrors] == Int(errorCount)
    ensures row.entries[ErrorRate] == rate
  {
    var row := Dict(BaseKeys, map[ConcurrencyLevel := Int(level), DurationSeconds := Int(duration),
                                  SuccessfulRequests := Int(successful), TotalErrors := Int(errorCount),
                                  ErrorRate := rate]);
    BaseKeysListed();
    row
  }

  /** The percentile loop: `metrics[f"p{p} Latency (ms)"] = percentile(p)` for
      each `p` of `ps` in turn. Nothing but percentile keys is touched. */
  function AddPercentiles(row: Row, ps: seq<nat>, latencies: seq<real>): (r: Row)
    requires Valid(row)
    ensures Valid(r)
  {
    if ps == [] then row
    else
      var p := ps[|ps| - 1];
      Put(AddPercentiles(row, ps[..|ps| - 1], latencies), LatencyPercentile(p), PercentileOf(p, latencies))
  }

  /** `error_count / (successful_requests + error_count)`, kept as the ratio. */
  function ErrorFraction(successful: nat, errorCount: nat): (c: Cell)
    requires successful + errorCount > 0
    ensures c.Ratio? && c.den > 0
    ensures RatioValue(c) * (successful + errorCount) as real == errorCount as real
    ensures 0.0 <= RatioValue(c) <= 1.0
    ensures RatioValue(c) == 0.0 <==> errorCount == 0
    ensures RatioValue(c) == 1.0 <==> successful == 0
  {
    RatioBounds(errorCount, successful + errorCount);
    Ratio(errorCount, successful + errorCount)
  }

  /** The number a ratio cell stands for. */
  function RatioValue(c: Cell): real
    requires c.Ratio? && c.den != 0
  {
    c.num as real / c.den as real
  }

  /** The row after the percentile loop has run over the four percentiles. */
  function WithPercentiles(base: Row, results: seq<real>): (r: Row)
    requires Valid(base)
  {
    AddPercentiles(base, Percentiles, results)
  }

  /** The reduction at the end of `run`: the counts, the error rate and, when
      some latency was recorded, the percentiles. */
  function Reduce(g: LoadGenerator, results: seq<real>, errors: seq<int>): Result<Row, RunError>
  {
    if |results| + |errors| == 0 then Failure(ZeroDivision)
    else
      var rate := ErrorFraction(|results|, |errors|);
      var base := BaseRow(g.concurrency, g.duration, |results|, |errors|, rate);
      Success(if |results| > 0 then WithPercentiles(base, results) else base)
  }

  /** The row `run` returns for these exchanges, or the exception it raises. */
  function RunMetrics(g: LoadGenerator, xs: seq<Exchange>): Result<Row, RunError>
  {
    if xs != [] && PacingRaises(g.mode, g.avgJitter) then Failure(NegativeScale)
    else Reduce(g, Successes(Latencies(xs)), ErrorMarks(Latencies(xs)))
  }

  /** The concurrent phase of `run`: the workers' loop bodies, in the order the
      event loop ran them, file their outcomes into one shared collector. Run
      one at a time, they file exactly as one worker loop over the interleaved
      exchanges. A raise in any task is re-raised by `gather`. */
  method Gather(g: LoadGenerator, xs: seq<Exchange>) returns (r: Result<(seq<real>, seq<int>), RunError>)
    ensures r.Failure? <==> xs != [] && PacingRaises(g.mode, g.avgJitter)
    ensures r.Failure? ==> r.error == NegativeScale
    ensures r.Success? ==> r.value == (Successes(Latencies(xs)), ErrorMarks(Latencies(xs)))
  {
    var c := new Collector();
    var outcome := c.Worker(g, xs);
    if outcome.Failure? {
      return Failure(outcome.error);
    }
    assert c.results == [] + Successes(Latencies(xs)) == Successes(Latencies(xs));
    assert c.errors == [] + ErrorMarks(Latencies(xs)) == ErrorMarks(Latencies(xs));
    return Success((c.results, c.errors));
  }

  /** The percentile loop of `run`, over the four percentiles in order. */
  method InsertPercentiles(base: Row, results: seq<real>) returns (metrics: Row)
    requires Valid(base)
    ensures metrics == WithPercentiles(base, results)
  {
    var ps := Percentiles;
    metrics := base;
    var k := 0;
    while k < |ps|
      invariant 0 <= k <= |ps|
      invariant metrics == AddPercentiles(base, ps[..k], results)
    {
      AddPercentilesStep(base, ps, k, results);
      metrics := Put(metrics, LatencyPercentile(ps[k]), PercentileOf(ps[k], results));
      k := k + 1;
    }
    assert ps[..|ps|] == ps;
  }

  /** One more percentile of the loop is one more dict assignment. */
  lemma AddPercentilesStep(row: Row, ps: seq<nat>, k: nat, latencies: seq<real>)
    requires Valid(row) && k < |ps|
    ensures Valid(AddPercentiles(row, ps[..k], latencies))
    ensures AddPercentiles(row, ps[..k + 1], latencies)
            == Put(AddPercentiles(row, ps[..k], latencies), LatencyPercentile(ps[k]), PercentileOf(ps[k], latencies))
  {
    assert ps[..k + 1][..k] == ps[..k];
  }

  /** Reduce with its local definitions spelled out. */
  lemma ReduceUnfolds(g: LoadGenerator, results: seq<real>, errors: seq<int>)
    ensures |results| + |errors| == 0 ==> Reduce(g, results, errors) == Failure(ZeroDivision)
    ensures |results| + |errors| > 0 ==>
            var base := BaseRow(g.concurrency, g.duration, |results|, |errors|,
                                ErrorFraction(|results|, |errors|));
            Reduce(g, results, errors) == Success(if |results| > 0 then WithPercentiles(base, results) else base)
  {
  }

  /** The row holds the level, the duration, the two counts and the ratio of
      the errors to all attempts under the five base keys. */
  predicate Reports(row: Row, level: int, duration: int, successful: nat, errorCount: nat)
  {
    && ConcurrencyLevel in row.entries && row.entries[ConcurrencyLevel] == Int(level)
    && DurationSeconds in row.entries && row.entries[DurationSeconds] == Int(duration)
    && SuccessfulRequests in row.entries && row.entries[SuccessfulRequests] == Int(successful)
    && TotalErrors in row.entries && row.entries[TotalErrors] == Int(errorCount)
    && ErrorRate in row.entries && row.entries[ErrorRate] == Ratio(errorCount, successful + errorCount)
  }

  /** The reduced row holds the level, the duration, the two counts and their
      ratio under the five base keys. */
  lemma ReduceKeepsBase(g: LoadGenerator, results: seq<real>, errors: seq<int>)
    requires |results| + |errors| > 0
    ensures Reduce(g, results, errors).Success?
    ensures Reports(Reduce(g, results, errors).value, g.concurrency, g.duration, |results|, |errors|)
  {
    ReduceUnfolds(g, results, errors);
    var base := BaseRow(g.concurrency, g.duration, |results|, |errors|, ErrorFraction(|results|, |errors|));
    AddPercentilesKeepsOthers(base, Percentiles, results);
  }

  /** The end of `run`: count both lists, divide, build the row and, when
      some latency was recorded, add the percentiles. */
  method Summarise(g: LoadGenerator, results: seq<real>, errors: seq<int>) returns (r: Result<Row, RunError>)
    ensures r == Reduce(g, results, errors)
  {
    ReduceUnfolds(g, results, errors);
    var successful := |results|;
    var errorCount := |errors|;
    if successful + errorCount == 0 {
      return Failure(ZeroDivision);
    }
    var rate := ErrorFraction(successful, errorCount);
    var base := BaseRow(g.concurrency, g.duration, successful, errorCount, rate);
    if successful > 0 {
      var metrics := InsertPercentiles(base, results);
      return Success(metrics);
    }
    return Success(base);
  }

  /** `run`: gather the outcomes of all attempts, then reduce them to the
      metrics row. A raise in a task ends the run; with no attempt at all the
      error-rate division raises. */
  method Run(g: LoadGenerator, xs: seq<Exchange>) returns (r: Result<Row, RunError>)
    ensures r == RunMetrics(g, xs)
  {
    var gathered := Gather(g, xs);
    if gathered.Failure? {
      return Failure(gathered.error);
    }
    r := Summarise(g, gathered.value.0, gathered.value.1);
  }

  // ---------------------------------------------------------------------------
  // What the two lists hold
  // ---------------------------------------------------------------------------

  /** Every value `_send_request` returned is filed exactly once, in one of the
      two lists. */
  lemma {:induction false} FiledOnce(ls: seq<real>)
    ensures |Successes(ls)| + |ErrorMarks(ls)| == |ls|
  {
    if ls != [] {
      FiledOnce(ls[..|ls| - 1]);
    }
  }

  /** Filing two runs of values one after the other files each run in turn:
      successful latencies keep the order in which they were produced. */
  lemma {:induction false} SuccessesAppend(a: seq<real>, b: seq<real>)
    ensures Successes(a + b) == Successes(a) + Successes(b)
  {
    if b != [] {
      var init, last := b[..|b| - 1], b[|b| - 1];
      SuccessesAppend(a, init);
      var ab := a + b;
      assert ab[..|ab| - 1] == a + init;
      assert ab[|ab| - 1] == last;
      var tail := if last >= 0.0 then [last] else [];
      assert Successes(ab) == Successes(a + init) + tail;
      assert Successes(b) == Successes(init) + tail;
    } else {
      assert a + b == a;
    }
  }

  lemma {:induction false} ErrorMarksAppend(a: seq<real>, b: seq<real>)
    ensures ErrorMarks(a + b) == ErrorMarks(a) + ErrorMarks(b)
  {
    if b != [] {
      var init, last := b[..|b| - 1], b[|b| - 1];
      ErrorMarksAppend(a, init);
      var ab := a + b;
      assert ab[..|ab| - 1] == a + init;
      assert ab[|ab| - 1] == last;
      var tail := if last >= 0.0 then [] else [1];
      assert ErrorMarks(ab) == ErrorMarks(a + init) + tail;
      assert ErrorMarks(b) == ErrorMarks(init) + tail;
    } else {
      assert a + b == a;
    }
  }

  lemma {:induction false} LatenciesAppend(a: seq<Exchange>, b: seq<Exchange>)
    ensures Latencies(a + b) == Latencies(a) + Latencies(b)
  {
    if b == [] {
      assert a + b == a;
    } else {
      LatenciesAppend(a, b[..|b| - 1]);
      assert (a + b)[..|a + b| - 1] == a + b[..|b| - 1];
    }
  }

  lemma {:induction false} CompletionsAppend(a: seq<Exchange>, b: seq<Exchange>)
    ensures Completions(a + b) == Completions(a) + Completions(b)
    ensures Failures(a + b) == Failures(a) + Failures(b)
  {
    if a == [] {
      assert a + b == b;
    } else {
      CompletionsAppend(a[1..], b);
      assert (a + b)[1..] == a[1..] + b;
    }
  }

  /** What two runs of exchanges, one after the other, leave in the lists. */
  lemma CollectedAppend(a: seq<Exchange>, b: seq<Exchange>)
    ensures Successes(Latencies(a + b)) == Successes(Latencies(a)) + Successes(Latencies(b))
    ensures ErrorMarks(Latencies(a + b)) == ErrorMarks(Latencies(a)) + ErrorMarks(Latencies(b))
  {
    LatenciesAppend(a, b);
    SuccessesAppend(Latencies(a), Latencies(b));
    ErrorMarksAppend(Latencies(a), Latencies(b));
  }

  /** The sentinel never misfiles: `results` receives one latency per completed
      exchange and `errors` one mark per exchange that raised. */
  lemma {:induction false} CountsMatchExchanges(xs: seq<Exchange>)
    ensures |Successes(Latencies(xs))| == Completions(xs)
    ensures |ErrorMarks(Latencies(xs))| == Failures(xs)
  {
    if xs != [] {
      var init, x := xs[..|xs| - 1], xs[|xs| - 1];
      CountsMatchExchanges(init);
      assert init + [x] == xs;
      CompletionsAppend(init, [x]);
      assert [x][1..] == [];
    }
  }

  /** One exchange moved from the end of a sequence to somewhere in the middle
      leaves the same latencies, up to order, and the same number of marks. */
  lemma MoveOne(init: seq<Exchange>, x: Exchange, before: seq<Exchange>, after: seq<Exchange>)
    requires multiset(Successes(Latencies(init))) == multiset(Successes(Latencies(before + after)))
    requires |ErrorMarks(Latencies(init))| == |ErrorMarks(Latencies(before + after))|
    ensures multiset(Successes(Latencies(init + [x]))) == multiset(Successes(Latencies(before + [x] + after)))
    ensures |ErrorMarks(Latencies(init + [x]))| == |ErrorMarks(Latencies(before + [x] + after))|
  {
    CollectedAppend(init, [x]);
    CollectedAppend(before + [x], after);
    CollectedAppend(before, [x]);
    CollectedAppend(before, after);
  }

  lemma SplitLast(xs: seq<Exchange>)
    requires xs != []
    ensures xs == xs[..|xs| - 1] + [xs[|xs| - 1]]
    ensures multiset(xs[..|xs| - 1]) == multiset(xs) - multiset{xs[|xs| - 1]}
  {
    assert xs == xs[..|xs| - 1] + [xs[|xs| - 1]];
  }

  lemma SplitAt(ys: seq<Exchange>, k: nat)
    requires k < |ys|
    ensures ys == ys[..k] + [ys[k]] + ys[k + 1..]
    ensures multiset(ys[..k] + ys[k + 1..]) == multiset(ys) - multiset{ys[k]}
  {
    assert ys == ys[..k] + [ys[k]] + ys[k + 1..];
  }

  /** The event loop may interleave the workers' appends in any order: any two
      orders of the same exchanges leave the same latencies (up to order) in
      `results` and the same number of marks in `errors`. */
  lemma {:induction false} InterleavingIrrelevant(xs: seq<Exchange>, ys: seq<Exchange>)
    requires multiset(xs) == multiset(ys)
    ensures multiset(Successes(Latencies(xs))) == multiset(Successes(Latencies(ys)))
    ensures |ErrorMarks(Latencies(xs))| == |ErrorMarks(Latencies(ys))|
    decreases |xs|
  {
    if xs == [] {
      assert |ys| == |multiset(ys)| == 0;
      assert ys == xs;
    } else {
      var init, x := xs[..|xs| - 1], xs[|xs| - 1];
      SplitLast(xs);
      assert x in multiset(ys);
      var k :| 0 <= k < |ys| && ys[k] == x;
      var before, after := ys[..k], ys[k + 1..];
      SplitAt(ys, k);
      InterleavingIrrelevant(init, before + after);
      MoveOne(init, x, before, after);
    }
  }

  // ---------------------------------------------------------------------------
  // The metrics row
  // ---------------------------------------------------------------------------

  /** A ratio of a part to a non-empty whole lies in [0, 1], is 0 exactly when
      the part is empty and 1 exactly when the part is the whole. */
  lemma RatioBounds(part: nat, whole: nat)
    requires part <= whole && whole > 0
    ensures RatioValue(Ratio(part, whole)) * whole as real == part as real
    ensures 0.0 <= RatioValue(Ratio(part, whole)) <= 1.0
    ensures RatioValue(Ratio(part, whole)) == 0.0 <==> part == 0
    ensures RatioValue(Ratio(part, whole)) == 1.0 <==> part == whole
  {
    var f := RatioValue(Ratio(part, whole));
    assert f * whole as real == part as real;
  }

  /** The percentile keys as the loop inserts them, one per percentile. */
  function KeysOf(ps: seq<nat>): (ks: seq<Key>)
    ensures |ks| == |ps|
  {
    seq(|ps|, i requires 0 <= i < |ps| => LatencyPercentile(ps[i]))
  }

  /** The percentile loop leaves every other key and its value alone. */
  lemma {:induction false} AddPercentilesKeepsOthers(row: Row, ps: seq<nat>, latencies: seq<real>)
    requires Valid(row)
    ensures forall k :: k in row.entries && !k.LatencyPercentile? ==>
              k in AddPercentiles(row, ps, latencies).entries &&
              AddPercentiles(row, ps, latencies).entries[k] == row.entries[k]
  {
    if ps != [] {
      AddPercentilesKeepsOthers(row, ps[..|ps| - 1], latencies);
    }
  }

  /** Every percentile key the loop inserts holds its own percentile of the
      latencies. */
  lemma {:induction false} AddPercentilesValues(row: Row, ps: seq<nat>, latencies: seq<real>)
    requires Valid(row)
    ensures forall k :: k in AddPercentiles(row, ps, latencies).entries && k !in row.entries ==>
              k.LatencyPercentile? && AddPercentiles(row, ps, latencies).entries[k] == PercentileOf(k.p, latencies)
  {
    if ps != [] {
      AddPercentilesValues(row, ps[..|ps| - 1], latencies);
    }
  }

  /** Every percentile the loop runs over has its key in the row afterwards. */
  lemma {:induction false} AddPercentilesPresent(row: Row, ps: seq<nat>, latencies: seq<real>)
    requires Valid(row)
    ensures forall i :: 0 <= i < |ps| ==> LatencyPercentile(ps[i]) in AddPercentiles(row, ps, latencies).entries
  {
    if ps != [] {
      var init := ps[..|ps| - 1];
      AddPercentilesPresent(row, init, latencies);
      assert forall i :: 0 <= i < |init| ==> ps[i] == init[i];
    }
  }

  /** Over a row without percentile keys, and for distinct percentiles, the
      loop appends one new key per percentile, in order. */
  lemma {:induction false} AddPercentilesOrder(row: Row, ps: seq<nat>, latencies: seq<real>)
    requires Valid(row)
    requires forall k :: k in row.entries ==> !k.LatencyPercentile?
    requires Distinct(ps)
    ensures AddPercentiles(row, ps, latencies).order == row.order + KeysOf(ps)
  {
    if ps != [] {
      var init, p := ps[..|ps| - 1], ps[|ps| - 1];
      LastIsNew(ps);
      AddPercentilesOrder(row, init, latencies);
      var d := AddPercentiles(row, init, latencies);
      KeysOfExcludes(init, p);
      assert LatencyPercentile(p) !in row.entries;
      assert LatencyPercentile(p) !in row.order;
      assert LatencyPercentile(p) !in d.order;
      assert KeysOf(ps) == KeysOf(init) + [LatencyPercentile(p)];
    }
  }

  lemma LastIsNew(ps: seq<nat>)
    requires Distinct(ps) && ps != []
    ensures Distinct(ps[..|ps| - 1]) && ps[|ps| - 1] !in ps[..|ps| - 1]
  {
  }

  lemma KeysOfExcludes(ps: seq<nat>, p: nat)
    requires p !in ps
    ensures LatencyPercentile(p) !in KeysOf(ps)
  {
  }

  /** `run` raises exactly when no attempt was made at all (the division by
      the number of attempts is unguarded) or when the pacing raises at the
      first attempt; with no attempt the pacing is never drawn. */
  lemma RunFails(g: LoadGenerator, xs: seq<Exchange>)
    ensures RunMetrics(g, xs).Failure? <==> xs == [] || PacingRaises(g.mode, g.avgJitter)
    ensures RunMetrics(g, xs).Failure? ==>
              RunMetrics(g, xs).error == if xs == [] then ZeroDivision else NegativeScale
  {
    CountsMatchExchanges(xs);
    CompletedOrRaised(xs);
  }

  /** The counts and the rate of the row: the level and the duration are the
      generator's, the successful requests are the exchanges that completed,
      the errors those that raised, and the rate is the ratio of the errors to
      all attempts. */
  lemma RunCounts(g: LoadGenerator, xs: seq<Exchange>)
    requires xs != [] && !PacingRaises(g.mode, g.avgJitter)
    ensures RunMetrics(g, xs).Success?
    ensures Completions(xs) + Failures(xs) == |xs|
    ensures Reports(RunMetrics(g, xs).value, g.concurrency, g.duration, Completions(xs), Failures(xs))
  {
    var results, errors := Successes(Latencies(xs)), ErrorMarks(Latencies(xs));
    CountsMatchExchanges(xs);
    CompletedOrRaised(xs);
    ReduceKeepsBase(g, results, errors);
  }

  /** The keys of the row: the five base keys, then p50, p75, p95, p99 exactly
      when some request succeeded, each holding that percentile of the
      successful latencies. */
  lemma RunKeys(g: LoadGenerator, xs: seq<Exchange>)
    requires xs != [] && !PacingRaises(g.mode, g.avgJitter)
    ensures RunMetrics(g, xs).Success?
    ensures RunMetrics(g, xs).value.order == BaseKeys + (if Completions(xs) > 0 then PercentileKeys else [])
    ensures Completions(xs) > 0 ==> forall i :: 0 <= i < |Percentiles| ==>
              var row := RunMetrics(g, xs).value;
              PercentileKeys[i] in row.entries &&
              row.entries[PercentileKeys[i]] == PercentileOf(Percentiles[i], Successes(Latencies(xs)))
  {
    CountsMatchExchanges(xs);
    ReduceKeys(g, Successes(Latencies(xs)), ErrorMarks(Latencies(xs)));
  }

  /** The keys of the reduced row, and what the percentile keys hold. */
  lemma ReduceKeys(g: LoadGenerator, results: seq<real>, errors: seq<int>)
    requires |results| + |errors| > 0
    ensures Reduce(g, results, errors).Success?
    ensures Reduce(g, results, errors).value.order == BaseKeys + (if |results| > 0 then PercentileKeys else [])
    ensures |results| > 0 ==> forall i :: 0 <= i < |Percentiles| ==>
              var row := Reduce(g, results, errors).value;
              PercentileKeys[i] in row.entries && row.entries[PercentileKeys[i]] == PercentileOf(Percentiles[i], results)
  {
    ReduceUnfolds(g, results, errors);
    var base := BaseRow(g.concurrency, g.duration, |results|, |errors|, ErrorFraction(|results|, |errors|));
    if |results| > 0 {
      WithPercentilesOrder(base, results);
      WithPercentilesValues(base, results);
    }
  }

  /** The base row holds no percentile key. */
  lemma BaseHasNoPercentiles(base: Row)
    requires Valid(base) && base.order == BaseKeys
    ensures forall k :: k in base.entries ==> !k.LatencyPercentile?
  {
    assert forall k :: k in base.entries ==> k in BaseKeys;
  }

  /** The percentile loop over the base row appends the four percentile keys
      after the base keys, in order. */
  lemma WithPercentilesOrder(base: Row, results: seq<real>)
    requires Valid(base) && base.order == BaseKeys
    ensures WithPercentiles(base, results).order == BaseKeys + PercentileKeys
  {
    BaseHasNoPercentiles(base);
    assert Distinct(Percentiles);
    AddPercentilesOrder(base, Percentiles, results);
    assert KeysOf(Percentiles) == PercentileKeys;
  }

  /** Each percentile key the loop adds to the base row holds its percentile
      of the latencies. */
  lemma WithPercentilesValues(base: Row, results: seq<real>)
    requires Valid(base) && base.order == BaseKeys
    ensures forall i :: 0 <= i < |Percentiles| ==>
              var row := WithPercentiles(base, results);
              PercentileKeys[i] in row.entries && row.entries[PercentileKeys[i]] == PercentileOf(Percentiles[i], results)
  {
    BaseHasNoPercentiles(base);
    AddPercentilesPresent(base, Percentiles, results);
    AddPercentilesValues(base, Percentiles, results);
    assert forall i :: 0 <= i < |Percentiles| ==> PercentileKeys[i] == LatencyPercentile(Percentiles[i]);
  }
}
