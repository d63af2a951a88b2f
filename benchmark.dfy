/**
 * `HTTPBenchmark` (http_benchmark.py): the settings of a load test and its
 * `run`, which runs one `LoadGenerator` per concurrency level, in the order the
 * levels are listed, and collects their metrics rows into one matrix.
 *
 * The attempts each level's run makes are an input: `traffic(i)` lists the
 * attempts the workers of the `i`-th level began before the deadline, with what
 * the network did with each request.
 */
module Benchmark {

  import opened Wrappers
  import opened Dicts
  import Text
  import opened LoadGen

  /** The settings an `HTTPBenchmark` keeps; none of them changes after the
      constructor. The concurrency levels are `None` when the caller gave
      none. `avgJitter` is in milliseconds. */
  datatype HTTPBenchmark = HTTPBenchmark(
    url: string, duration: int, concurrencyLevels: Option<seq<int>>, requestType: string,
    headers: Dict<string, string>, data: Body, mode: string, avgJitter: int)

  /** Why `run` raised: the levels are not a list, or the run of the level at
      `index` raised. */
  datatype BenchError = NotIterable | LevelFailed(index: nat, error: RunError)

  /** The constructor: only the request type is rewritten, upper-cased. */
  function NewBenchmark(url: string, duration: int, concurrencyLevels: Option<seq<int>>, requestType: string,
                        headers: Dict<string, string>, data: Body, mode: string, avgJitter: int): (b: HTTPBenchmark)
    ensures b.requestType == Text.Upper(requestType)
    ensures b.url == url && b.duration == duration && b.concurrencyLevels == concurrencyLevels
    ensures b.headers == headers && b.data == data && b.mode == mode && b.avgJitter == avgJitter
  {
    HTTPBenchmark(url, duration, concurrencyLevels, Text.Upper(requestType), headers, data, mode, avgJitter)
  }

  /** The generator `run_tests` builds for one level: the benchmark's settings
      with that level. */
  function GeneratorFor(b: HTTPBenchmark, level: int): LoadGenerator
  {
    NewLoadGenerator(b.url, level, b.duration, b.requestType, b.headers, b.data, b.mode, b.avgJitter)
  }

  /** Every generator gets the benchmark's settings unchanged: upper-casing an
      already upper-cased request type a second time changes nothing, and the
      jitter is the same number of milliseconds, in seconds. */
  lemma GeneratorInheritsSettings(url: string, duration: int, levels: Option<seq<int>>, requestType: string,
                                  headers: Dict<string, string>, data: Body, mode: string, avgJitter: int, level: int)
    ensures var g := GeneratorFor(NewBenchmark(url, duration, levels, requestType, headers, data, mode, avgJitter), level);
            && g.requestType == Text.Upper(requestType)
            && g.concurrency == level && g.url == url && g.duration == duration
            && g.headers == headers && g.data == data && g.mode == mode
            && g.avgJitter * 1000.0 == avgJitter as real
  {
    Text.UpperIdempotent(requestType);
  }

  /** What the run of each level returns, level by level. */
  function LevelOutcomes(b: HTTPBenchmark, levels: seq<int>, traffic: nat -> seq<Exchange>): seq<Result<Row, RunError>>
  {
    seq(|levels|, i requires 0 <= i < |levels| => RunMetrics(GeneratorFor(b, levels[i]), traffic(i)))
  }

  /** The matrix the loop collects from the levels' outcomes, taken in order:
      one row per level, or the error of the first level whose run raised,
      which ends the loop. */
  function Matrix(outcomes: seq<Result<Row, RunError>>): Result<seq<Row>, BenchError>
  {
    if |outcomes| == 0 then Success([])
    else
      var n := |outcomes| - 1;
      match Matrix(outcomes[..n])
      case Failure(e) => Failure(e)
      case Success(rows) =>
        match outcomes[n]
        case Failure(e) => Failure(LevelFailed(n, e))
        case Success(row) => Success(rows + [row])
  }

  /** What `run` produces: iterating over no list raises at once. */
  function BenchmarkRun(b: HTTPBenchmark, traffic: nat -> seq<Exchange>): Result<seq<Row>, BenchError>
  {
    match b.concurrencyLevels
    case None => Failure(NotIterable)
    case Some(levels) => Matrix(LevelOutcomes(b, levels, traffic))
  }

  /** Once a prefix of the outcomes has raised, the whole loop has raised with
      the same error. */
  lemma {:induction false} FailureEndsLoop(outcomes: seq<Result<Row, RunError>>, i: nat)
    requires i <= |outcomes|
    requires Matrix(outcomes[..i]).Failure?
    ensures Matrix(outcomes) == Matrix(outcomes[..i])
  {
    if i < |outcomes| {
      var n := |outcomes| - 1;
      assert outcomes[..n][..i] == outcomes[..i];
      FailureEndsLoop(outcomes[..n], i);
    } else {
      assert outcomes[..i] == outcomes;
    }
  }

  /** `run_tests`: one generator per level, in order, each row appended as
      its run returns; the first run that raises ends the loop. */
  method RunTests(b: HTTPBenchmark, traffic: nat -> seq<Exchange>) returns (r: Result<seq<Row>, BenchError>)
    ensures r == BenchmarkRun(b, traffic)
  {
    if b.concurrencyLevels.None? {
      return Failure(NotIterable);
    }
    var levels := b.concurrencyLevels.value;
    ghost var outcomes := LevelOutcomes(b, levels, traffic);
    var results: seq<Row> := [];
    var i := 0;
    while i < |levels|
      invariant 0 <= i <= |levels|
      invariant Matrix(outcomes[..i]) == Success(results)
    {
      var generator := GeneratorFor(b, levels[i]);
      var outcome := Run(generator, traffic(i));
      assert outcomes[..i + 1][..i] == outcomes[..i];
      if outcome.Failure? {
        FailureEndsLoop(outcomes, i + 1);
        return Failure(LevelFailed(i, outcome.error));
      }
      results := results + [outcome.value];
      i := i + 1;
    }
    assert outcomes[..i] == outcomes;
    return Success(results);
  }

  /** The loop completes exactly when every outcome is a row; otherwise it
      stops with the error of the first outcome that is not. */
  lemma {:induction false} MatrixFailsAtFirstError(outcomes: seq<Result<Row, RunError>>)
    ensures Matrix(outcomes).Success? <==> forall i :: 0 <= i < |outcomes| ==> outcomes[i].Success?
    ensures Matrix(outcomes).Failure? ==>
              exists k :: 0 <= k < |outcomes| && outcomes[k].Failure?
                && Matrix(outcomes).error == LevelFailed(k, outcomes[k].error)
                && forall j :: 0 <= j < k ==> outcomes[j].Success?
  {
    if |outcomes| > 0 {
      var n := |outcomes| - 1;
      MatrixFailsAtFirstError(outcomes[..n]);
      if Matrix(outcomes[..n]).Failure? {
        var k :| 0 <= k < n && outcomes[..n][k].Failure?
                 && Matrix(outcomes[..n]).error == LevelFailed(k, outcomes[..n][k].error)
                 && forall j :: 0 <= j < k ==> outcomes[..n][j].Success?;
        assert outcomes[k] == outcomes[..n][k];
        assert forall j :: 0 <= j < k ==> outcomes[j] == outcomes[..n][j];
      } else {
        assert forall j :: 0 <= j < n ==> outcomes[j] == outcomes[..n][j];
      }
    }
  }

  /** On success there is one row per outcome, in order, and each is that
      outcome's row. */
  lemma {:induction false} MatrixRows(outcomes: seq<Result<Row, RunError>>)
    requires Matrix(outcomes).Success?
    ensures |Matrix(outcomes).value| == |outcomes|
    ensures forall i :: 0 <= i < |outcomes| ==>
              outcomes[i].Success? && Matrix(outcomes).value[i] == outcomes[i].value
  {
    if |outcomes| > 0 {
      var n := |outcomes| - 1;
      MatrixRows(outcomes[..n]);
      assert forall j :: 0 <= j < n ==> outcomes[j] == outcomes[..n][j];
    }
  }

  /** Every generator of the benchmark raises at its first request when the
      pacing is exponential and the jitter negative. */
  predicate PacingRaisesFor(b: HTTPBenchmark)
  {
    b.mode == "exponential" && b.avgJitter < 0
  }

  /** The outcome of one level: a row exactly when the level saw an attempt
      and the pacing does not raise; the division error when it saw none. */
  lemma LevelFails(b: HTTPBenchmark, level: int, xs: seq<Exchange>)
    ensures RunMetrics(GeneratorFor(b, level), xs).Failure? <==> xs == [] || PacingRaisesFor(b)
    ensures RunMetrics(GeneratorFor(b, level), xs).Failure? ==>
              RunMetrics(GeneratorFor(b, level), xs).error == if xs == [] then ZeroDivision else NegativeScale
  {
    var g := GeneratorFor(b, level);
    assert PacingRaises(g.mode, g.avgJitter) <==> PacingRaisesFor(b);
    RunFails(g, xs);
  }

  /** `run` returns a matrix exactly when the levels are a list and every level
      saw at least one attempt with a pacing that does not raise; otherwise it
      raises for the first level that failed: the division by zero of a level
      that saw no attempt, or the exponential draw's error. */
  lemma BenchmarkFailsAtFirstFailingLevel(b: HTTPBenchmark, traffic: nat -> seq<Exchange>)
    requires b.concurrencyLevels.Some?
    ensures var levels := b.concurrencyLevels.value;
            BenchmarkRun(b, traffic).Success? <==>
              forall i :: 0 <= i < |levels| ==> traffic(i) != [] && !PacingRaisesFor(b)
    ensures BenchmarkRun(b, traffic).Failure? ==>
              exists k :: 0 <= k < |b.concurrencyLevels.value| && (traffic(k) == [] || PacingRaisesFor(b))
                && BenchmarkRun(b, traffic).error
                   == LevelFailed(k, if traffic(k) == [] then ZeroDivision else NegativeScale)
                && forall j :: 0 <= j < k ==> traffic(j) != [] && !PacingRaisesFor(b)
  {
    var levels := b.concurrencyLevels.value;
    var outcomes := LevelOutcomes(b, levels, traffic);
    forall i | 0 <= i < |levels|
      ensures outcomes[i].Success? <==> traffic(i) != [] && !PacingRaisesFor(b)
      ensures outcomes[i].Failure? ==> outcomes[i].error == if traffic(i) == [] then ZeroDivision else NegativeScale
    {
      LevelFails(b, levels[i], traffic(i));
    }
    MatrixFailsAtFirstLevel(outcomes, traffic, PacingRaisesFor(b));
    assert BenchmarkRun(b, traffic) == Matrix(outcomes);
    if Matrix(outcomes).Failure? {
      var k :| 0 <= k < |outcomes| && (traffic(k) == [] || PacingRaisesFor(b))
               && Matrix(outcomes).error == LevelFailed(k, if traffic(k) == [] then ZeroDivision else NegativeScale)
               && forall j :: 0 <= j < k ==> traffic(j) != [] && !PacingRaisesFor(b);
      assert k < |levels|;
    }
  }

  /** The loop over outcomes that each fail exactly when their level saw no
      attempt or the pacing raises stops at the first such level. */
  lemma MatrixFailsAtFirstLevel(outcomes: seq<Result<Row, RunError>>, traffic: nat -> seq<Exchange>, raises: bool)
    requires forall i :: 0 <= i < |outcomes| ==> (outcomes[i].Success? <==> traffic(i) != [] && !raises)
    requires forall i :: 0 <= i < |outcomes| && outcomes[i].Failure? ==>
               outcomes[i].error == if traffic(i) == [] then ZeroDivision else NegativeScale
    ensures Matrix(outcomes).Success? <==> forall i :: 0 <= i < |outcomes| ==> traffic(i) != [] && !raises
    ensures Matrix(outcomes).Failure? ==>
              exists k :: 0 <= k < |outcomes| && (traffic(k) == [] || raises)
                && Matrix(outcomes).error == LevelFailed(k, if traffic(k) == [] then ZeroDivision else NegativeScale)
                && forall j :: 0 <= j < k ==> traffic(j) != [] && !raises
  {
    MatrixFailsAtFirstError(outcomes);
    if Matrix(outcomes).Failure? {
      var k :| 0 <= k < |outcomes| && outcomes[k].Failure?
               && Matrix(outcomes).error == LevelFailed(k, outcomes[k].error)
               && forall j :: 0 <= j < k ==> outcomes[j].Success?;
      forall j | 0 <= j < k
        ensures traffic(j) != [] && !raises
      {
        assert outcomes[j].Success?;
      }
    }
  }

  /** Row `i` of the matrix is the row of the run at level `i`: it reports
      that level, the benchmark's duration, the counts of the exchanges that
      run saw and their error rate. */
  lemma BenchmarkRowCounts(b: HTTPBenchmark, traffic: nat -> seq<Exchange>, i: nat)
    requires BenchmarkRun(b, traffic).Success?
    requires b.concurrencyLevels.Some? && i < |b.concurrencyLevels.value|
    ensures |BenchmarkRun(b, traffic).value| == |b.concurrencyLevels.value|
    ensures Reports(BenchmarkRun(b, traffic).value[i], b.concurrencyLevels.value[i], b.duration,
                    Completions(traffic(i)), Failures(traffic(i)))
  {
    var levels := b.concurrencyLevels.value;
    var outcomes := LevelOutcomes(b, levels, traffic);
    MatrixRows(outcomes);
    var g := GeneratorFor(b, levels[i]);
    assert outcomes[i] == RunMetrics(g, traffic(i));
    RunFails(g, traffic(i));
    RunCounts(g, traffic(i));
  }
}
