/**
 * `fire_bench._main` (fire_bench.py): turns the parsed command line into an
 * `HTTPBenchmark` and runs it. The header options become a dict, split at
 * their first ':' and stripped; the body is chosen from `-d` or from the
 * file named by `--data-binary`, and only for request types other than GET.
 *
 * Argument parsing itself is not modelled: `Args` is what it produced. The
 * file system is a map from the path of each regular file to its bytes.
 */
module FireBench {

  import opened Wrappers
  import opened Dicts
  import Text
  import opened LoadGen
  import opened Benchmark

  /** What `_main` can raise before or while running the benchmark: a header
      with no ':' (the two-name unpacking of its split fails), a
      `--data-binary` path that is not a regular file, or an exception of
      `HTTPBenchmark.run`. */
  datatype CliError = MalformedHeader(entry: string) | MissingFile(path: string) | BenchmarkFailed(error: BenchError)

  /** The parsed options. An option that was not given is `None`; `header`
      collects every `-H`. */
  datatype Args = Args(
    url: string, duration: int, concurrencyLevels: Option<seq<int>>, requestType: string,
    mode: string, avgJitter: int, data: Option<string>, dataBinary: Option<string>,
    header: Option<seq<string>>)

  /** One `-H` entry as a key and a value: the text before its first ':' and
      the text after it, both stripped; None when it holds no ':'. */
  function HeaderPair(entry: string): (r: Option<(string, string)>)
    ensures r.None? <==> ':' !in entry
    ensures r.Some? ==> ':' !in r.value.0
  {
    match Text.SplitAtFirst(entry, ':')
    case None => None
    case Some((key, value)) => Some((Text.Strip(key), Text.Strip(value)))
  }

  /** A key without ':' and any value, joined by ':', come back stripped:
      the value may itself hold ':'. */
  lemma HeaderPairOf(key: string, value: string)
    requires ':' !in key
    ensures HeaderPair(key + ":" + value) == Some((Text.Strip(key), Text.Strip(value)))
  {
    Text.SplitAtFirstUnique(key, ':', value);
  }

  /** The key and the value of a well-formed entry. */
  function KeyOf(entry: string): string
    requires ':' in entry
  {
    HeaderPair(entry).value.0
  }

  function ValueOf(entry: string): string
    requires ':' in entry
  {
    HeaderPair(entry).value.1
  }

  /** One `-H` entry together with its split. */
  datatype ParsedHeader = ParsedHeader(entry: string, pair: Option<(string, string)>)

  /** Every entry with its split, in order. */
  function SplitAll(entries: seq<string>): (ps: seq<ParsedHeader>)
    ensures |ps| == |entries|
    ensures forall i :: 0 <= i < |entries| ==> ps[i] == ParsedHeader(entries[i], HeaderPair(entries[i]))
  {
    seq(|entries|, i requires 0 <= i < |entries| => ParsedHeader(entries[i], HeaderPair(entries[i])))
  }

  /** The header dict after the split entries in order, each stored under its
      key; the first malformed entry raises. */
  function Store(ps: seq<ParsedHeader>): (r: Result<Dict<string, string>, CliError>)
    ensures r.Success? ==> Valid(r.value)
  {
    if ps == [] then Success(Empty())
    else
      var n := |ps| - 1;
      match Store(ps[..n])
      case Failure(e) => Failure(e)
      case Success(headers) =>
        match ps[n].pair
        case None => Failure(MalformedHeader(ps[n].entry))
        case Some((key, value)) => Success(Put(headers, key, value))
  }

  /** The header dict the entries give, or the error they raise. */
  function HeadersFrom(entries: seq<string>): (r: Result<Dict<string, string>, CliError>)
    ensures r.Success? ==> Valid(r.value)
  {
    Store(SplitAll(entries))
  }

  /** Once a prefix of the entries has raised, the whole loop has raised with
      the same error. */
  lemma {:induction false} MalformedEndsLoop(ps: seq<ParsedHeader>, i: nat)
    requires i <= |ps|
    requires Store(ps[..i]).Failure?
    ensures Store(ps) == Store(ps[..i])
  {
    if i < |ps| {
      var n := |ps| - 1;
      assert ps[..n][..i] == ps[..i];
      MalformedEndsLoop(ps[..n], i);
    } else {
      assert ps[..i] == ps;
    }
  }

  /** The header loop of `_main`: starting from an empty dict, each entry is
      split and stored; the first entry without ':' raises. */
  method ParseHeaders(entries: seq<string>) returns (r: Result<Dict<string, string>, CliError>)
    ensures r == HeadersFrom(entries)
  {
    ghost var ps := SplitAll(entries);
    var headers: Dict<string, string> := Empty();
    var i := 0;
    while i < |entries|
      invariant 0 <= i <= |entries|
      invariant Store(ps[..i]) == Success(headers)
    {
      var header := entries[i];
      var pair := HeaderPair(header);
      StoreStep(ps, i, headers);
      if pair.None? {
        MalformedEndsLoop(ps, i + 1);
        return Failure(MalformedHeader(header));
      }
      headers := Put(headers, pair.value.0, pair.value.1);
      i := i + 1;
    }
    assert ps[..i] == ps;
    return Success(headers);
  }

  /** One step of the loop. */
  lemma StoreStep(ps: seq<ParsedHeader>, i: nat, headers: Dict<string, string>)
    requires i < |ps| && Store(ps[..i]) == Success(headers)
    ensures Valid(headers)
    ensures Store(ps[..i + 1]) == match ps[i].pair
      case None => Failure(MalformedHeader(ps[i].entry))
      case Some((key, value)) => Success(Put(headers, key, value))
  {
    assert ps[..i + 1][..i] == ps[..i];
  }

  /** Storing completes exactly when every entry split; otherwise it raises
      for the first entry that did not. */
  lemma {:induction false} StoreFailsAtFirstMalformed(ps: seq<ParsedHeader>)
    ensures Store(ps).Success? <==> forall i :: 0 <= i < |ps| ==> ps[i].pair.Some?
    ensures Store(ps).Failure? ==>
              exists k :: 0 <= k < |ps| && ps[k].pair.None?
                && Store(ps).error == MalformedHeader(ps[k].entry)
                && forall j :: 0 <= j < k ==> ps[j].pair.Some?
  {
    if ps != [] {
      var n := |ps| - 1;
      StoreFailsAtFirstMalformed(ps[..n]);
      assert forall j :: 0 <= j < n ==> ps[..n][j] == ps[j];
      if Store(ps[..n]).Failure? {
        var k :| 0 <= k < n && ps[..n][k].pair.None?
                 && Store(ps[..n]).error == MalformedHeader(ps[..n][k].entry)
                 && forall j :: 0 <= j < k ==> ps[..n][j].pair.Some?;
        assert ps[k] == ps[..n][k];
      }
    }
  }

  /** A stored dict is the dict of all but the last entry with the last one put in. */
  lemma StoreLast(ps: seq<ParsedHeader>)
    requires ps != [] && Store(ps).Success?
    ensures Store(ps[..|ps| - 1]).Success? && ps[|ps| - 1].pair.Some?
    ensures Store(ps).value.entries.Keys
            == Store(ps[..|ps| - 1]).value.entries.Keys + {ps[|ps| - 1].pair.value.0}
  {
  }

  /** Every entry's key is a key of the stored dict. */
  lemma {:induction false} StoreKeysCover(ps: seq<ParsedHeader>)
    requires Store(ps).Success?
    ensures forall i :: 0 <= i < |ps| ==> ps[i].pair.Some? && ps[i].pair.value.0 in Store(ps).value.entries
  {
    if ps != [] {
      var n := |ps| - 1;
      StoreLast(ps);
      StoreKeysCover(ps[..n]);
      forall i | 0 <= i < n
        ensures ps[i] == ps[..n][i]
      {
      }
    }
  }

  /** Every key of the stored dict is some entry's key. */
  lemma {:induction false} StoreKeysFromEntries(ps: seq<ParsedHeader>)
    requires Store(ps).Success?
    ensures forall k :: k in Store(ps).value.entries ==>
              exists i :: 0 <= i < |ps| && ps[i].pair.Some? && ps[i].pair.value.0 == k
  {
    if ps != [] {
      var n := |ps| - 1;
      StoreLast(ps);
      StoreKeysFromEntries(ps[..n]);
      forall k | k in Store(ps).value.entries
        ensures exists i :: 0 <= i < |ps| && ps[i].pair.Some? && ps[i].pair.value.0 == k
      {
        if k != ps[n].pair.value.0 {
          var i :| 0 <= i < n && ps[..n][i].pair.Some? && ps[..n][i].pair.value.0 == k;
          assert ps[i] == ps[..n][i];
        }
      }
    }
  }

  /** The stored dict has no more keys than there are entries. */
  lemma {:induction false} StoreSize(ps: seq<ParsedHeader>)
    requires Store(ps).Success?
    ensures |Store(ps).value.entries| <= |ps|
  {
    if ps != [] {
      var n := |ps| - 1;
      StoreLast(ps);
      StoreSize(ps[..n]);
    }
  }

  /** When a key is repeated the last entry wins: an entry whose key no later
      entry repeats gives the value stored under that key. */
  lemma {:induction false} StoreLastWins(ps: seq<ParsedHeader>, i: nat)
    requires Store(ps).Success? && i < |ps| && ps[i].pair.Some?
    requires forall j :: i < j < |ps| ==> ps[j].pair.None? || ps[j].pair.value.0 != ps[i].pair.value.0
    ensures ps[i].pair.value.0 in Store(ps).value.entries
    ensures Store(ps).value.entries[ps[i].pair.value.0] == ps[i].pair.value.1
  {
    var n := |ps| - 1;
    if i < n {
      assert forall j :: 0 <= j < n ==> ps[..n][j] == ps[j];
      StoreLastWins(ps[..n], i);
    }
  }

  /** The header loop completes exactly when every entry holds a ':';
      otherwise it raises for the first entry that does not. */
  lemma HeadersFailAtFirstMalformed(entries: seq<string>)
    ensures HeadersFrom(entries).Success? <==> forall i :: 0 <= i < |entries| ==> ':' in entries[i]
    ensures HeadersFrom(entries).Failure? ==>
              exists k :: 0 <= k < |entries| && ':' !in entries[k]
                && HeadersFrom(entries).error == MalformedHeader(entries[k])
                && forall j :: 0 <= j < k ==> ':' in entries[j]
  {
    var ps := SplitAll(entries);
    StoreFailsAtFirstMalformed(ps);
  }

  /** The keys of the header dict are the keys of the entries, and there are
      no more of them than entries. */
  lemma HeaderKeys(entries: seq<string>)
    requires HeadersFrom(entries).Success?
    ensures forall i :: 0 <= i < |entries| ==> ':' in entries[i] && KeyOf(entries[i]) in HeadersFrom(entries).value.entries
    ensures forall k :: k in HeadersFrom(entries).value.entries ==>
              exists i :: 0 <= i < |entries| && ':' in entries[i] && KeyOf(entries[i]) == k
    ensures |HeadersFrom(entries).value.entries| <= |entries|
  {
    var ps := SplitAll(entries);
    StoreKeysCover(ps);
    StoreKeysFromEntries(ps);
    StoreSize(ps);
  }

  /** When a key is repeated the last entry wins: an entry whose key no later
      entry repeats gives the value stored under that key. */
  lemma HeaderLastWins(entries: seq<string>, i: nat)
    requires forall j :: 0 <= j < |entries| ==> ':' in entries[j]
    requires i < |entries|
    requires forall j :: i < j < |entries| ==> KeyOf(entries[j]) != KeyOf(entries[i])
    ensures HeadersFrom(entries).Success?
    ensures KeyOf(entries[i]) in HeadersFrom(entries).value.entries
    ensures HeadersFrom(entries).value.entries[KeyOf(entries[i])] == ValueOf(entries[i])
  {
    var ps := SplitAll(entries);
    StoreFailsAtFirstMalformed(ps);
    StoreLastWins(ps, i);
  }

  /** The `-H` entries; none given is no entries. */
  function HeaderEntries(header: Option<seq<string>>): seq<string>
  {
    if header.None? then [] else header.value
  }

  /** Python truthiness of an optional string: given and not empty. */
  predicate Given(option: Option<string>)
  {
    option.Some? && option.value != ""
  }

  /** The request body `_main` passes on: empty for GET; otherwise the `-d`
      text when it is not empty, else the bytes of the `--data-binary` file,
      which must be a regular file, else empty. */
  function ChosenBody(requestType: string, data: Option<string>, dataBinary: Option<string>,
                      files: map<string, seq<byte>>): (r: Result<Body, CliError>)
    ensures r.Failure? <==>
              Text.Upper(requestType) != "GET" && !Given(data) && Given(dataBinary) && dataBinary.value !in files
    ensures r.Failure? ==> r.error == MissingFile(dataBinary.value)
    ensures Text.Upper(requestType) == "GET" ==> r == Success(Str(""))
    ensures Text.Upper(requestType) != "GET" && Given(data) ==> r == Success(Str(data.value))
    ensures Text.Upper(requestType) != "GET" && !Given(data) && Given(dataBinary) && dataBinary.value in files ==>
              r == Success(Bytes(files[dataBinary.value]))
    ensures !Given(data) && !Given(dataBinary) ==> r == Success(Str(""))
    ensures r.Success? && r.value.Bytes? ==>
              && Text.Upper(requestType) != "GET" && !Given(data) && Given(dataBinary)
              && dataBinary.value in files && r.value.octets == files[dataBinary.value]
    ensures r.Success? && r.value.Str? && r.value.text != "" ==>
              Text.Upper(requestType) != "GET" && Given(data) && r.value.text == data.value
  {
    if Text.Upper(requestType) == "GET" then Success(Str(""))
    else if Given(data) then Success(Str(data.value))
    else if Given(dataBinary) then
      if dataBinary.value in files then Success(Bytes(files[dataBinary.value]))
      else Failure(MissingFile(dataBinary.value))
    else Success(Str(""))
  }

  /** The benchmark `_main` builds, or what it raises first: the headers are
      processed before the body. */
  function Prepared(args: Args, files: map<string, seq<byte>>): Result<HTTPBenchmark, CliError>
  {
    match HeadersFrom(HeaderEntries(args.header))
    case Failure(e) => Failure(e)
    case Success(headers) =>
      match ChosenBody(args.requestType, args.data, args.dataBinary, files)
      case Failure(e) => Failure(e)
      case Success(body) =>
        Success(NewBenchmark(args.url, args.duration, args.concurrencyLevels, args.requestType,
                             headers, body, args.mode, args.avgJitter))
  }

  /** The part of `_main` before `run`: the header loop, then the body. */
  method Prepare(args: Args, files: map<string, seq<byte>>) returns (r: Result<HTTPBenchmark, CliError>)
    ensures r == Prepared(args, files)
  {
    var headers := ParseHeaders(HeaderEntries(args.header));
    if headers.Failure? {
      return Failure(headers.error);
    }
    var data := Str("");
    if Text.Upper(args.requestType) != "GET" {
      if Given(args.data) {
        data := Str(args.data.value);
      } else if Given(args.dataBinary) {
        if args.dataBinary.value !in files {
          return Failure(MissingFile(args.dataBinary.value));
        }
        data := Bytes(files[args.dataBinary.value]);
      }
    }
    return Success(NewBenchmark(args.url, args.duration, args.concurrencyLevels, args.requestType,
                                headers.value, data, args.mode, args.avgJitter));
  }

  /** What `_main` raises, and when it does not, the benchmark it builds:
      a malformed header is reported even when the body is also at fault,
      and the benchmark gets the options, the header dict and the body. */
  lemma PreparedMeaning(args: Args, files: map<string, seq<byte>>)
    ensures var headers := HeadersFrom(HeaderEntries(args.header));
            var body := ChosenBody(args.requestType, args.data, args.dataBinary, files);
            && (Prepared(args, files).Success? <==> headers.Success? && body.Success?)
            && (headers.Failure? ==> Prepared(args, files) == Failure(headers.error))
            && (headers.Success? && body.Failure? ==> Prepared(args, files) == Failure(body.error))
    ensures Prepared(args, files).Success? ==>
              var b := Prepared(args, files).value;
              && b.headers == HeadersFrom(HeaderEntries(args.header)).value && Valid(b.headers)
              && b.data == ChosenBody(args.requestType, args.data, args.dataBinary, files).value
              && b.requestType == Text.Upper(args.requestType)
              && b.url == args.url && b.duration == args.duration && b.concurrencyLevels == args.concurrencyLevels
              && b.mode == args.mode && b.avgJitter == args.avgJitter
              && (HeaderEntries(args.header) == [] ==> b.headers == Empty())
  {
  }

  /** Everything `_main` does: prepare the benchmark, then run it. */
  function Outcome(args: Args, files: map<string, seq<byte>>, traffic: nat -> seq<Exchange>): Result<seq<Row>, CliError>
  {
    match Prepared(args, files)
    case Failure(e) => Failure(e)
    case Success(b) =>
      match BenchmarkRun(b, traffic)
      case Failure(e) => Failure(BenchmarkFailed(e))
      case Success(rows) => Success(rows)
  }

  /** `_main`, up to the matrix that `run` returns. */
  method RunCommandLine(args: Args, files: map<string, seq<byte>>, traffic: nat -> seq<Exchange>)
    returns (r: Result<seq<Row>, CliError>)
    ensures r == Outcome(args, files, traffic)
  {
    var prepared := Prepare(args, files);
    if prepared.Failure? {
      return Failure(prepared.error);
    }
    var matrix := RunTests(prepared.value, traffic);
    if matrix.Failure? {
      return Failure(BenchmarkFailed(matrix.error));
    }
    return Success(matrix.value);
  }

  /** The command line yields a matrix exactly when every header holds a ':',
      the body could be read, levels were given and every level saw at least
      one attempt, with a pacing that does not raise; the matrix then has one
      row per level, in order. */
  lemma OutcomeSucceeds(args: Args, files: map<string, seq<byte>>, traffic: nat -> seq<Exchange>)
    ensures Outcome(args, files, traffic).Success? <==>
              && (forall i :: 0 <= i < |HeaderEntries(args.header)| ==> ':' in HeaderEntries(args.header)[i])
              && ChosenBody(args.requestType, args.data, args.dataBinary, files).Success?
              && args.concurrencyLevels.Some?
              && (forall i :: 0 <= i < |args.concurrencyLevels.value| ==>
                    traffic(i) != [] && !(args.mode == "exponential" && args.avgJitter < 0))
    ensures Outcome(args, files, traffic).Success? ==>
              |Outcome(args, files, traffic).value| == |args.concurrencyLevels.value|
  {
    HeadersFailAtFirstMalformed(HeaderEntries(args.header));
    PreparedMeaning(args, files);
    var prepared := Prepared(args, files);
    if prepared.Success? && args.concurrencyLevels.Some? {
      BenchmarkFailsAtFirstFailingLevel(prepared.value, traffic);
      if BenchmarkRun(prepared.value, traffic).Success? && |args.concurrencyLevels.value| > 0 {
        BenchmarkRowCounts(prepared.value, traffic, 0);
      }
    }
  }
}
