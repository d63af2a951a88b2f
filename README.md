# http_benchmark in Dafny

A model of a small HTTP load-testing tool.

`LoadGenerator` runs one benchmark at one concurrency level. Its tasks share
one event loop and append each request's outcome to two shared lists:
`results` gets latencies in milliseconds and `errors` gets one `1` per failed
attempt. The generator then reduces the two lists to a metrics row: the
level, the duration, the two counts, the error rate and, when some request
succeeded, the p50/p75/p95/p99 latencies. `HTTPBenchmark.run` runs one
generator per concurrency level, in order, and collects the rows into a
matrix. The command line (`fire_bench._main`) turns `-H key:value` options
into a header dict and picks the request body from `-d` or a
`--data-binary` file.

The project has six files:

- `wrappers.dfy`: `Option` and `Result`.
- `dicts.dfy`: an insertion-ordered dict (key order plus a map). Both the
  header dict and the metrics row use it.
- `text.dfy`: the string operations the program relies on: `strip`,
  `split(sep, 1)`, ASCII `upper` and decimal rendering.
- `loadgen.dfy`: `LoadGenerator`.
  - `_send_request` is modelled by `SendRequest`, which combines the pacing
    (`PacingFor`) with the value returned for the exchange (`LatencyOf`).
  - `_worker` is the method `Collector.Worker`, which appends to the two
    lists of a `Collector`; `Gather` runs it over the interleaved exchanges.
  - The reduction at the end of `run` is modelled, except that a percentile
    cell records which percentile of which latencies it holds rather than
    the interpolated number, and the `.2f` formatting is not modelled.
  - Lemmas relate the lists to the exchanges that produced them.
- `benchmark.dfy`: `HTTPBenchmark` and the `run_tests` loop.
- `firebench.dfy`: header parsing, body selection and the whole `_main`.

The network, the clocks and the scheduler are inputs to the model:

- A run is the sequence of attempts (`Exchange`) its workers began before the
  deadline, in the order the event loop interleaved them. An attempt whose
  exponential draw raises is listed too; what its request would have done is
  then never used. So with at least one worker, a positive duration and a
  raising pacing, the run is not empty.
- The request of an attempt either raised or completed between two readings
  of the monotonic clock.
- `traffic(i)` is the run for the `i`-th concurrency level.

`run` divides unguarded (http_benchmark.py:144), so the model returns
`Failure(ZeroDivision)` for a run that saw no attempt at all. In the
"exponential" mode a negative jitter makes `numpy.random.exponential` raise
before the request's `try` (http_benchmark.py:103-104), so the model returns
`Failure(NegativeScale)` for any run that makes an attempt with such a
generator. Either exception ends `HTTPBenchmark.run`, so no matrix is
returned.

## Model

| member | source | states |
|---|---|---|
| Dicts.Empty | fire_bench.py:40 | The empty dict has no keys and an empty key order. |
| Dicts.Put | fire_bench.py:44 | `d[k] = v` maps `k` to `v` and keeps every other entry. A new key is appended to the order; an existing key keeps its place. The dict invariant (each key listed once) is preserved. |
| Dicts.SizeIsOrderLength | fire_bench.py:40-44 | A dict has exactly as many entries as its key order has elements. |
| Text.TrimStart | fire_bench.py:44 | The result is a suffix of the input; everything dropped before it is whitespace; it does not start with whitespace. |
| Text.TrimEnd | fire_bench.py:44 | The result is a prefix of the input; everything dropped after it is whitespace; it does not end with whitespace. |
| Text.Strip | fire_bench.py:44 | `str.strip()`: neither end of the result is whitespace, and every character of the result comes from the input. |
| Text.StripIsTrims | fire_bench.py:44 | Strip is rstrip after lstrip, so only whitespace is removed, and only from the two ends. |
| Text.StripIdempotent | fire_bench.py:44 | Stripping twice gives the same as stripping once. |
| Text.SplitAtFirst | fire_bench.py:43 | `split(":", 1)` yields two pieces exactly when the separator occurs. The input is then the first piece, the separator and the second piece, and the first piece holds no separator. |
| Text.SplitAtFirstUnique | fire_bench.py:43 | For any `a + sep + b` with no `sep` in `a`, the split returns exactly `(a, b)`, whatever `b` holds. |
| Text.Upper | http_benchmark.py:87 | `upper()` keeps the length and leaves no lower-case ASCII letter. Each lower-case letter becomes its capital (its code minus 32) and every other character is unchanged. |
| Text.UpperIdempotent | http_benchmark.py:35 | Upper-casing an already upper-cased request type changes nothing. |
| Text.DecimalRoundTrip | http_benchmark.py:159 | Reading back the digits of the percentile in `f"p{p} ..."` gives `p`. |
| LoadGen.PercentileLabelsDistinct | http_benchmark.py:159 | Two percentile keys `f"p{p} Latency (ms)"` are the same text only for the same `p`. |
| LoadGen.LabelsDistinct | http_benchmark.py:147-159 | Distinct metric keys have distinct labels, so no value of the row overwrites another. |
| LoadGen.NewLoadGenerator | http_benchmark.py:84-91 | The constructor upper-cases the request type and stores the jitter in seconds (`avg_jitter / 1000`), with the same sign. Every other field is stored as given. |
| LoadGen.PacingFor | http_benchmark.py:101-104 | Only "uniform" (a draw from [0, 2·jitter]) and "exponential" (mean jitter) pause; every other mode, "burst" included, sends at once. The exponential draw raises `NegativeScale` exactly when the jitter is negative; nothing else in the pacing raises. |
| LoadGen.LatencyOf | http_benchmark.py:106-112 | `_send_request` returns -1.0 exactly when the request raised. Otherwise it returns the elapsed monotonic time in milliseconds, which is ≥ 0. |
| LoadGen.SendRequest | http_benchmark.py:94-112 | A call raises exactly when its exponential pacing has a negative jitter, because the draw is outside the `try`. Otherwise a failed request is reported as the -1.0 sentinel and a completed one as its non-negative elapsed time in milliseconds, and a pause is taken exactly in the two pacing modes. |
| LoadGen.Latencies | http_benchmark.py:118-119 | One returned value per exchange. |
| LoadGen.Successes | http_benchmark.py:120-121 | `results` only ever receives non-negative latencies. |
| LoadGen.ErrorMarks | http_benchmark.py:122-123 | `errors` only ever receives `1`s. |
| LoadGen.Failures | http_benchmark.py:111-112 | Counts the exchanges that raised, at most one per exchange. It is an independent count, used to check `errors` against. |
| LoadGen.Completions | http_benchmark.py:106-110 | Counts the exchanges that completed, at most one per exchange. It is an independent count, used to check `results` against. |
| LoadGen.CompletedOrRaised | http_benchmark.py:106-112 | Every exchange either completed or raised: the two counts add up to the number of exchanges. |
| LoadGen.FilingStep | http_benchmark.py:119-123 | Filing one more returned value extends exactly one of the two lists, by that value or by a mark. |
| LoadGen.Collector.constructor | http_benchmark.py:134-135 | Both lists start empty. |
| LoadGen.Collector.Record | http_benchmark.py:120-123 | A latency ≥ 0 is appended to `results` and nothing else changes. Otherwise a `1` is appended to `errors` and nothing else changes. |
| LoadGen.Collector.Worker | http_benchmark.py:114-123 | When the pacing raises, the worker's first call raises and the lists are unchanged. Otherwise, after one worker's exchanges, the lists are their old contents followed by that worker's successful latencies, in order, and one mark per failure. |
| LoadGen.Gather | http_benchmark.py:132-140 | The concurrent phase of `run`: from empty lists, a worker over the interleaved exchanges leaves exactly their successful latencies and failure marks, or raises `NegativeScale` when there is an attempt and the pacing raises. |
| LoadGen.FiledOnce | http_benchmark.py:120-123 | Every returned value is filed exactly once, in one of the two lists. |
| LoadGen.SuccessesAppend | http_benchmark.py:120-121 | Filing two runs of values one after the other fills `results` with the first run's latencies, then the second's. |
| LoadGen.ErrorMarksAppend | http_benchmark.py:122-123 | The same for `errors`. |
| LoadGen.LatenciesAppend | http_benchmark.py:118-119 | The values returned for two runs of exchanges are those of the first run, then those of the second. |
| LoadGen.CompletionsAppend | http_benchmark.py:106-112 | Both counts add up over two runs of exchanges. |
| LoadGen.CollectedAppend | http_benchmark.py:137-140 | Two runs of exchanges, one after the other, leave each list holding the first run's entries and then the second's. |
| LoadGen.CountsMatchExchanges | http_benchmark.py:106-123 | The -1.0 sentinel never misfiles: `len(results)` is the number of completed exchanges and `len(errors)` the number that raised. |
| LoadGen.MoveOne | http_benchmark.py:137-140 | Moving one exchange from the end of the order into the middle keeps the same multiset of latencies and the same number of marks. |
| LoadGen.InterleavingIrrelevant | http_benchmark.py:137-140 | Any two interleavings of the same exchanges, as multisets, leave the same multiset of latencies in `results` and the same number of marks in `errors`. |
| LoadGen.BaseRow | http_benchmark.py:147-153 | The literal part of `metrics` has the five base keys, in order, each holding its given value. |
| LoadGen.ErrorFraction | http_benchmark.py:144 | The error rate times `successful_requests + error_count` is `error_count`. It lies in [0, 1], is 0 exactly when no request failed and 1 exactly when none succeeded. |
| LoadGen.RatioBounds | http_benchmark.py:144 | The error rate lies in [0, 1]. It is 0 exactly when no request failed and 1 exactly when every request failed. |
| LoadGen.AddPercentiles | http_benchmark.py:158-159 | The percentile loop preserves the dict invariant. |
| LoadGen.AddPercentilesKeepsOthers | http_benchmark.py:158-159 | The percentile loop leaves every non-percentile key and its value alone. |
| LoadGen.AddPercentilesValues | http_benchmark.py:158-159 | Every key the loop adds is a percentile key holding that percentile of the latencies. |
| LoadGen.AddPercentilesPresent | http_benchmark.py:158-159 | After the loop, every percentile it ran over has its key in the row. |
| LoadGen.AddPercentilesOrder | http_benchmark.py:156-159 | Over a row with no percentile keys, and for distinct percentiles, the loop appends one new key per percentile, in order. |
| LoadGen.InsertPercentiles | http_benchmark.py:156-159 | The imperative loop over `[50, 75, 95, 99]` builds the same row as the specification of the loop. |
| LoadGen.WithPercentilesOrder | http_benchmark.py:147-159 | On the base row, the loop gives the key order: the five base keys, then p50, p75, p95, p99. |
| LoadGen.WithPercentilesValues | http_benchmark.py:156-159 | On the base row, each of the four percentile keys holds its percentile of the successful latencies. |
| LoadGen.ReduceKeepsBase | http_benchmark.py:142-153 | The reduced row reports the level, the duration, both list lengths and the error rate under the base keys. The percentile loop does not disturb them. |
| LoadGen.ReduceKeys | http_benchmark.py:147-159 | The row's keys are the base keys, followed by the percentile keys exactly when some latency was recorded. Each percentile key holds its percentile. |
| LoadGen.Summarise | http_benchmark.py:142-161 | The imperative reduction builds the same row, or raises the same division error, as its specification. |
| LoadGen.Run | http_benchmark.py:125-161 | `run` is gather followed by reduce: it returns the row or the error of its specification `RunMetrics`. |
| LoadGen.RunFails | http_benchmark.py:101-144 | `run` raises exactly when no attempt was made (`ZeroDivision`, the division is unguarded) or when an attempt's exponential pacing has a negative jitter (`NegativeScale`). |
| LoadGen.RunCounts | http_benchmark.py:142-153 | For a non-empty run, the row holds the generator's level and duration. Successful Requests is the number of completed exchanges and Total Errors the number that raised. Together they account for every exchange, and the rate is the second over their sum. |
| LoadGen.RunKeys | http_benchmark.py:147-159 | A non-empty run's row has the base keys, then the four percentile keys exactly when some exchange completed. Each percentile key holds its percentile of the successful latencies. |
| Benchmark.NewBenchmark | http_benchmark.py:32-39 | The constructor upper-cases the request type and keeps every other setting unchanged. |
| Benchmark.GeneratorInheritsSettings | http_benchmark.py:57-58 | Each generator gets the benchmark's settings unchanged. Its request type is the upper-cased one; upper-casing it again changes nothing. The jitter is the same number of milliseconds, stored in seconds. |
| Benchmark.LevelFails | http_benchmark.py:56-59 | The generator for a level raises exactly when that level saw no attempt (`ZeroDivision`) or the benchmark's exponential pacing has a negative jitter (`NegativeScale`). |
| Benchmark.FailureEndsLoop | http_benchmark.py:56-59 | Once one level has raised, the loop's result is that error. |
| Benchmark.RunTests | http_benchmark.py:54-60 | The `run_tests` loop produces exactly what its specification does: `NotIterable` when no levels were given, otherwise the matrix or the first level's error. |
| Benchmark.MatrixFailsAtFirstError | http_benchmark.py:56-59 | The loop completes exactly when every level returned a row. Otherwise its error is that of the first level that raised, at that level's index. |
| Benchmark.MatrixFailsAtFirstLevel | http_benchmark.py:56-59 | When each level's outcome fails exactly when that level saw no attempt or the pacing raises, the loop completes exactly when no level fails, and otherwise stops at the first failing level with its error. |
| Benchmark.MatrixRows | http_benchmark.py:55-60 | On success the matrix has one row per level, in order, and each row is that level's row. |
| Benchmark.BenchmarkFailsAtFirstFailingLevel | http_benchmark.py:54-60 | With levels given, `run` returns a matrix exactly when every level saw at least one attempt and the pacing does not raise. Otherwise it raises for the first level that fails, with `ZeroDivision` when that level saw no attempt and `NegativeScale` otherwise, and every earlier level succeeded. |
| Benchmark.BenchmarkRowCounts | http_benchmark.py:54-60 | Row `i` reports level `i`, the benchmark's duration, the completed and raised exchange counts of that level's run, and the error rate as the raised count over their sum. |
| FireBench.HeaderPair | fire_bench.py:43-44 | An entry yields a pair exactly when it holds a ':'; otherwise the unpacking fails. The key then holds no ':'. |
| FireBench.HeaderPairOf | fire_bench.py:43-44 | `key:value`, with no ':' in the key, gives back the stripped key and the stripped value, even when the value holds ':'. |
| FireBench.Store | fire_bench.py:40-44 | A stored header dict always satisfies the dict invariant. |
| FireBench.HeadersFrom | fire_bench.py:40-44 | The header dict `_main` builds is `Store` over the split `-H` entries: the dict, which always satisfies the dict invariant, or the error of the first malformed entry. |
| FireBench.MalformedEndsLoop | fire_bench.py:42-43 | Once an entry has raised, the header loop's result is that error. |
| FireBench.ParseHeaders | fire_bench.py:40-44 | The imperative header loop produces exactly what its specification does: the dict, or the error of the first malformed entry. |
| FireBench.StoreFailsAtFirstMalformed | fire_bench.py:42-44 | Storing completes exactly when every entry split. Otherwise it raises for the first entry that did not. |
| FireBench.StoreKeysCover | fire_bench.py:42-44 | Every entry's key is a key of the dict. |
| FireBench.StoreKeysFromEntries | fire_bench.py:42-44 | Every key of the dict is some entry's key. |
| FireBench.StoreSize | fire_bench.py:42-44 | The dict has no more keys than there are entries. |
| FireBench.StoreLastWins | fire_bench.py:42-44 | For a repeated key the last entry wins: an entry whose key no later entry repeats gives the stored value. |
| FireBench.HeadersFailAtFirstMalformed | fire_bench.py:41-44 | The header loop completes exactly when every `-H` entry holds a ':'. Otherwise it raises for the first entry that does not. |
| FireBench.HeaderKeys | fire_bench.py:41-44 | The dict's keys are exactly the stripped keys of the entries, and there are at most as many keys as entries. |
| FireBench.HeaderLastWins | fire_bench.py:41-44 | When every entry is well formed, the value under a key is that of the last entry with that key. |
| FireBench.ChosenBody | fire_bench.py:47-54 | GET sends "". Otherwise a non-empty `-d` text wins. Otherwise a non-empty `--data-binary` path that is a regular file gives exactly that file's bytes, and one that is not raises `MissingFile`. With neither option given the body is "". |
| FireBench.Prepare | fire_bench.py:39-56 | The imperative header-then-body code produces exactly what its specification does. |
| FireBench.PreparedMeaning | fire_bench.py:39-56 | A header error is reported first, then a file error. Otherwise the benchmark gets the options, the header dict (empty when no `-H` was given) and the chosen body. |
| FireBench.RunCommandLine | fire_bench.py:39-57 | `_main` prepares the benchmark and runs it; an error of either step is reported. |
| FireBench.OutcomeSucceeds | fire_bench.py:39-57 | `_main` yields a matrix exactly when every header holds ':', the body could be read, levels were given, every level saw an attempt and the pacing is not exponential with a negative jitter. The matrix then has one row per level. |

## Left out

- The network (aiohttp sessions, `request`, `response.read`) is not modelled. Each request's outcome is an input `Exchange`. Which exceptions the `try` catches is not modelled: every raise inside it becomes the -1.0 sentinel. The exponential draw before the `try` is modelled and raises for a negative jitter.
- Clocks and the deadline (`time.time`, `time.monotonic`, `end_time`) are not modelled. How many attempts the workers begin before the deadline is decided by the length of the supplied attempt sequence, which includes an attempt that raises in its pacing draw.
- The asyncio scheduling of the `concurrency` tasks is not modelled. The workers' appends are one supplied interleaving, and `InterleavingIrrelevant` shows that the order changes neither the latency multiset nor the error count. That `range(concurrency)` tasks are created is not modelled.
- The random values drawn by `numpy.random.uniform` and `numpy.random.exponential`, and the sleep itself, are not modelled. Which distribution is used, its parameter, and the exponential draw's error for a negative scale are modelled.
- LoadGen.AddPercentiles: `np.percentile` (linear interpolation) is not computed. A percentile cell records which percentile of which latencies it is.
- LoadGen.ErrorFraction: the rate is kept as the exact ratio of two counts. The `:.2f` string formatting of the rate and of the percentiles, a floating-point rendering, is not modelled.
- Floating-point arithmetic is modelled with `real`. That includes the `* 1000` in `_send_request` and `avg_jitter / 1000`.
- pandas (`DataFrame`), tabulate, tqdm and logging (the logger argument and the log output of `run`) are display or I/O only and are not modelled. `run` is modelled up to the list of rows it passes to `DataFrame`.
- argparse is not modelled: types, choices, defaults and the mutually exclusive group are not checked. `Args` is the already-parsed namespace. The rest of `_main` is modelled for any values, including request types outside the choices.
- File reading (`os.path.isfile`, `open`, `_parse_binary_from_file`) is not modelled. The file system is a map from each regular file's path to its bytes.
- Text.Upper: only ASCII letters are upper-cased. Python's full Unicode case mapping (for instance 'ß' becoming "SS") is not modelled.
- Text.Strip: whitespace is the fixed set of code points Python's `str.isspace` accepts.
- The headers dict passed to `LoadGenerator` and to the aiohttp session is modelled as a value; the session's own use of it is not modelled. `HTTPBenchmark`'s default `headers=None` and `data=None` are not modelled, because `_main` always passes a dict and a body.
- The example `_main` of http_benchmark.py is not modelled; it is a fixed demo call.
- The model works with the key datatype rather than its text; `LoadGen.LabelsDistinct` shows the two are interchangeable as dict keys.
