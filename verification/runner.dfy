/** The batch: `executor.map` over the targets, the success count, and the
    two drivers' `main` from their targets to the final tally. The thread
    pool is modelled by the order in which tasks complete, which is
    arbitrary; its worker bound is not modelled. */
module Runner {
  import opened Wrappers
  import opened Text
  import opened Targets
  import opened Artifacts
  import opened Scan

  /** Why a whole run stops before any scan starts. */
  datatype RunError =
    | RangeRefused(reason: RangeError)   // the range driver's validation
    | ListFileMissing                    // the list driver's `os.path.isfile` check
    | NoWorkers                          // `ThreadPoolExecutor` refuses `max_workers <= 0`

  /** The final tally: every scan's trace, in target order, and
      `results.count(True)` out of `len(ips)`. */
  datatype Summary = Summary(traces: seq<ScanTrace>, successful: nat, total: nat)

  /** Scanning every target in order; task `k` sees `world(k)`. */
  function ScanAll(driver: Driver, ips: seq<string>, outputDir: string, options: string,
                   world: nat -> World): (results: seq<ScanTrace>)
    ensures |results| == |ips|
  {
    seq(|ips|, k requires 0 <= k < |ips| => ScanIp(driver, ips[k], outputDir, options, world(k)))
  }

  /** `list(executor.map(scan, ips))`: tasks finish in the order
      `completion` (any order that finishes each task), each result is
      stored in the slot of its task, and the slots are read back in
      submission order. The results are index-aligned with the targets
      whatever the completion order. */
  method ExecutorMap(driver: Driver, ips: seq<string>, outputDir: string, options: string,
                     world: nat -> World, completion: seq<nat>) returns (results: seq<ScanTrace>)
    requires |completion| == |ips|
    requires forall i :: 0 <= i < |completion| ==> completion[i] < |ips|
    requires forall k :: 0 <= k < |ips| ==> k in completion
    ensures |results| == |ips|
    ensures forall k :: 0 <= k < |ips| ==> results[k] == ScanIp(driver, ips[k], outputDir, options, world(k))
    ensures results == ScanAll(driver, ips, outputDir, options, world)
  {
    ghost var expected := ScanAll(driver, ips, outputDir, options, world);
    var slots: seq<Option<ScanTrace>> := seq(|ips|, _ => None);
    var i := 0;
    while i < |completion|
      invariant 0 <= i <= |completion|
      invariant |slots| == |ips|
      invariant forall k :: 0 <= k < |ips| && k in completion[..i] ==> slots[k].Some?
      invariant forall k :: 0 <= k < |ips| && slots[k].Some? ==> slots[k].value == expected[k]
    {
      var task := completion[i];
      slots := slots[task := Some(ScanIp(driver, ips[task], outputDir, options, world(task)))];
      assert completion[..i + 1] == completion[..i] + [task];
      i := i + 1;
    }
    assert completion[..i] == completion;
    results := [];
    var j := 0;
    while j < |ips|
      invariant 0 <= j <= |ips|
      invariant results == expected[..j]
    {
      results := results + [slots[j].value];
      j := j + 1;
    }
  }

  // ----------------------------------------------------------- counting

  /** `results.count(True)`. */
  function CountSuccesses(results: seq<ScanTrace>): (n: nat)
    ensures n <= |results|
    decreases |results|
  {
    if results == [] then 0
    else CountSuccesses(results[..|results| - 1]) + if results[|results| - 1].success then 1 else 0
  }

  /** The positions holding a successful scan. */
  function SuccessIndices(results: seq<ScanTrace>): set<nat> {
    set k: nat | k < |results| && results[k].success
  }

  /** The count is the number of successful positions. */
  lemma {:induction false} CountIsSuccessIndices(results: seq<ScanTrace>)
    ensures CountSuccesses(results) == |SuccessIndices(results)|
    decreases |results|
  {
    if results != [] {
      var n := |results| - 1;
      var front := results[..n];
      CountIsSuccessIndices(front);
      if results[n].success {
        assert SuccessIndices(results) == SuccessIndices(front) + {n};
      } else {
        assert SuccessIndices(results) == SuccessIndices(front);
      }
    }
  }

  /** Everything succeeded exactly when the count is the total, and nothing
      did exactly when it is zero. */
  lemma {:induction false} CountExtremes(results: seq<ScanTrace>)
    ensures CountSuccesses(results) == |results| <==> forall k :: 0 <= k < |results| ==> results[k].success
    ensures CountSuccesses(results) == 0 <==> forall k :: 0 <= k < |results| ==> !results[k].success
    decreases |results|
  {
    if results != [] {
      var n := |results| - 1;
      CountExtremes(results[..n]);
      assert forall k :: 0 <= k < n ==> results[..n][k] == results[k];
    }
  }

  /** One failing target leaves the others untouched: the tally is one
      short of the total. */
  lemma {:induction false} OneFailureCostsOne(results: seq<ScanTrace>, bad: nat)
    requires bad < |results| && !results[bad].success
    requires forall k :: 0 <= k < |results| && k != bad ==> results[k].success
    ensures CountSuccesses(results) == |results| - 1
    decreases |results|
  {
    var n := |results| - 1;
    var front := results[..n];
    if bad == n {
      CountExtremes(front);
    } else {
      OneFailureCostsOne(front, bad);
    }
  }

  function Summarize(traces: seq<ScanTrace>): Summary {
    Summary(traces, CountSuccesses(traces), |traces|)
  }

  /** A scan of the given targets succeeds exactly where its world raises
      nothing, so the tally counts those worlds. */
  lemma ScanAllTally(driver: Driver, ips: seq<string>, outputDir: string, options: string, world: nat -> World)
    ensures CountSuccesses(ScanAll(driver, ips, outputDir, options, world)) ==
              |set k: nat | k < |ips| && NothingRaises(options, world(k))|
  {
    var results := ScanAll(driver, ips, outputDir, options, world);
    CountIsSuccessIndices(results);
    assert SuccessIndices(results) == set k: nat | k < |ips| && NothingRaises(options, world(k));
  }

  // ----------------------------------------------------------- the drivers

  /** py-seq.py's `main`: validate the range, scan every address on
      `threads` workers, tally. The pool is created after validation and
      raises before any scan when `threads` is not positive. */
  function RunRange(base: string, start: int, end: int, outputDir: string, options: string,
                    threads: int, world: nat -> World): (r: Result<Summary, RunError>)
    ensures r.Err? <==> !(0 <= start <= end <= MaxOctet) || threads <= 0
    ensures !(0 <= start <= end <= MaxOctet) ==> r == Err(RangeRefused(CheckRange(start, end).value))
    ensures 0 <= start <= end <= MaxOctet && threads <= 0 ==> r == Err(NoWorkers)
    ensures r.Ok? ==> r.value.traces == ScanAll(RangeDriver, RangeTargets(base, start, end), outputDir, options, world)
    ensures r.Ok? ==>
              && r.value.total == |r.value.traces| == end - start + 1
              && (forall k :: 0 <= k < r.value.total ==>
                    r.value.traces[k].argv == Command.Argv(options, base + "." + Decimal(start + k)))
              && r.value.successful == |set k: nat | k < r.value.total && NothingRaises(options, world(k))|
  {
    match GenerateTargets(base, start, end)
    case Err(e) => Err(RangeRefused(e))
    case Ok(ips) =>
      if threads <= 0 then Err(NoWorkers)
      else
        ScanAllTally(RangeDriver, ips, outputDir, options, world);
        Ok(Summarize(ScanAll(RangeDriver, ips, outputDir, options, world)))
  }

  /** py-list.py's `main`: the lines of the list file (absent when the path
      is not a regular file), parsed, every target scanned on `threads`
      workers, tallied. The pool is created after the file is read and
      raises before any scan when `threads` is not positive. */
  function RunList(file: Option<seq<string>>, outputDir: string, options: string,
                   threads: int, world: nat -> World): (r: Result<Summary, RunError>)
    ensures r.Err? <==> file.None? || threads <= 0
    ensures file.None? ==> r == Err(ListFileMissing)
    ensures file.Some? && threads <= 0 ==> r == Err(NoWorkers)
    ensures r.Ok? ==> r.value.traces == ScanAll(ListDriver, ParseLines(file.value), outputDir, options, world)
    ensures r.Ok? ==>
              var ips := ParseLines(file.value);
              && r.value.total == |r.value.traces| == |ips|
              && (forall k :: 0 <= k < r.value.total ==>
                    r.value.traces[k].argv == Command.Argv(options, ips[k]))
              && r.value.successful == |set k: nat | k < r.value.total && NothingRaises(options, world(k))|
  {
    match file
    case None => Err(ListFileMissing)
    case Some(lines) =>
      var ips := ParseLines(lines);
      if threads <= 0 then Err(NoWorkers)
      else
        ScanAllTally(ListDriver, ips, outputDir, options, world);
        Ok(Summarize(ScanAll(ListDriver, ips, outputDir, options, world)))
  }
}
