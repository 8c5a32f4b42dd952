# enum4linux-ng batch drivers, modelled in Dafny

Two small Python drivers run the `enum4linux-ng` enumeration tool over many
hosts. `enum4linux/py-seq.py` scans `base.start` … `base.end` for a validated
octet range. `enum4linux/py-list.py` scans the hosts listed in a file, one per
line, skipping blank lines and `#` comments. Each script defines its own
`scan_ip`, and the two are the same except for how they name the artifacts.
`scan_ip` runs the tool once with the user's options and writes the
output to `<dir>/<name>.txt`. When the options ask for JSON, it runs the tool
a second time. It returns `True` unless an exception was raised. The drivers
map `scan_ip` over the targets on a thread pool and report how many returned
`True`.

This project models the pure logic beneath that plumbing:

- `Text`: the Python string operations the drivers use. These are
  `str.isspace`, `strip()`, `split()`, the `in` substring test and
  `str(int)`. A `" ".join` helper, which the drivers do not call, serves
  only to state that splitting space-joined words returns them.
- `Targets`: range validation and generation, and the list-file filter.
- `Artifacts`: artifact naming. `py-list.py` replaces `/` with `_` and
  `py-seq.py` does not. This module also builds the `.txt`/`.json` paths and
  the text artifact's content.
- `Command`: the argument vector, and the rule that picks the options of the
  second (JSON) run.
- `Scan`: `scan_ip`. The tool and the file system are an input `World`. It
  records whether each tool run completed or raised, and whether writing the
  artifact raised.
- `Runner`: `executor.map`, modelled as tasks finishing in an arbitrary order
  into index-keyed slots. Also the success count, and each driver's `main`
  from its input to the final tally.

Behaviour of the code worth noting:

- The JSON flags are found by substring tests on the raw option string, so
  an option word that merely contains `--json` also triggers the JSON run.
- When `-oJ` is present, the second run happens with the options unchanged.
- With only `--json`, the JSON path is appended to the option string before
  it is split, so a path holding whitespace reaches the tool as several
  words. Inline comments in the list file are not removed: the line
  `10.0.0.1 # x` is the target `10.0.0.1 # x`, and its JSON path
  `out/10.0.0.1 # x.json` is split into three arguments.
- `scan_ip` returns a bare boolean.
- Two targets can share an artifact name. Under the list driver,
  `10.0.0.0/24` and `10.0.0.0_24` do.
- Under the range driver, a base holding `/` gives artifact paths that run
  through a sub-directory of the output directory. Only the output directory
  itself is created, so unless that sub-directory already exists the write
  raises and the scan counts as failed, after the tool has run. A base that
  starts with `/` leaves the output directory altogether, because
  `os.path.join` discards the directory (see "## Left out").
- A thread count of zero or less makes `ThreadPoolExecutor` raise after the
  targets are known, so no scan runs.

## Model

| member | source | states |
|---|---|---|
| Targets.CheckRange | enum4linux/py-seq.py:58-64 | a range is accepted exactly when 0 <= start <= end <= 255; it is refused as out of bounds exactly when some bound lies outside 0..255, and as inverted exactly when both bounds are octets and start > end |
| Targets.RangeTargets | enum4linux/py-seq.py:75 | the generated list has end - start + 1 entries (none for an empty range) and entry k is `f"{base}.{start + k}"` |
| Targets.GenerateTargets | enum4linux/py-seq.py:58-75 | validation then generation: an error exactly when the range is invalid, carrying the validation's reason; otherwise between 1 and 256 targets, the generated list |
| Targets.RangeTargetsNumbered | enum4linux/py-seq.py:75 | every target is `base.` followed by decimal digits whose value is start + k at position k, so the octets are strictly ascending |
| Targets.RangeTargetsMembership | enum4linux/py-seq.py:75 | `base.N` is among the targets if and only if start <= N <= end |
| Targets.RangeTargetsDistinct | enum4linux/py-seq.py:75 | no address is generated twice |
| Targets.ParseLines | enum4linux/py-list.py:72 | at most one target per line; every target is non-empty and does not start with `#` |
| Targets.ParseLinesAppend | enum4linux/py-list.py:72 | parsing is line by line: the targets of a concatenation of line lists are the concatenation of their targets |
| Targets.ParseLinesIdempotent | enum4linux/py-list.py:72 | parsing the parsed targets as lines returns them unchanged |
| Targets.ParseLinesCount | enum4linux/py-list.py:72 | duplicates are kept: a target occurs in the output as many times as lines strip to it, and a non-target never occurs |
| Targets.SelectTargets | enum4linux/py-list.py:72 | the filter as a loop with provenance: each kept entry is the stripped line at its recorded position, positions strictly increase, and a position is recorded exactly when its stripped line is a target |
| Targets.ParseTargets | enum4linux/py-list.py:72 | each target is the stripped text of a line of the file, targets follow file order, and a line contributes exactly when its stripped text is non-empty and not a comment |
| Text.Strip | enum4linux/py-list.py:72 | the stripped line is no longer than the line and neither starts nor ends with whitespace |
| Text.StripEmpty | enum4linux/py-list.py:72 | a line strips to the empty string exactly when it is all whitespace |
| Text.StripIsSurroundingWhitespaceRemoved | enum4linux/py-list.py:72 | strip returns the unique slice that has only whitespace around it and non-whitespace at both of its ends |
| Text.StripIdempotent | enum4linux/py-list.py:72 | stripping twice equals stripping once |
| Text.Split | enum4linux/py-seq.py:18 | every option word is non-empty and free of whitespace |
| Text.SplitJoin | enum4linux/py-seq.py:18 | splitting space-joined words returns exactly those words |
| Text.SplitKeepsNonSpace | enum4linux/py-seq.py:18 | the concatenated words are the non-whitespace characters of the option string, in order |
| Text.SplitAtSpace | enum4linux/py-seq.py:34-36 | splitting at a whitespace character splits the two sides independently |
| Text.Contains | enum4linux/py-seq.py:32 | `sub in s` holds exactly when sub occurs in s at some index |
| Text.Decimal | enum4linux/py-seq.py:75 | str(n) is a non-empty string of digits without a leading zero, at most three long for an octet |
| Text.ParseDecimalOfDecimal | enum4linux/py-seq.py:75 | reading str(n) back as a number gives n |
| Text.DecimalInjective | enum4linux/py-seq.py:75 | distinct octets print differently |
| Text.IntToString | enum4linux/py-seq.py:75 | `f"{i}"` is non-empty, is str(i) for a non-negative i, and starts with `-` for a negative i |
| Text.IntToStringInjective | enum4linux/py-seq.py:75 | distinct integers print differently |
| Artifacts.CleanIp | enum4linux/py-list.py:14 | clean_ip has the length of ip, contains no `/`, holds `_` where ip held `/` and equals ip at every other position |
| Artifacts.CleanIpIdentity | enum4linux/py-list.py:14 | cleaning leaves ip unchanged if and only if ip contains no `/` |
| Artifacts.CleanIpIdempotent | enum4linux/py-list.py:14 | cleaning twice equals cleaning once |
| Artifacts.CleanIpSameName | enum4linux/py-list.py:14-15 | two targets get the same artifact name exactly when they have equal length and differ only at positions where both hold `/` or `_` |
| Artifacts.CleanIpCollision | enum4linux/py-list.py:14-15 | the distinct targets `10.0.0.0/24` and `10.0.0.0_24` both name their artifacts `10.0.0.0_24` |
| Artifacts.ArtifactName | enum4linux/py-seq.py:13 | the range driver names the artifacts after the raw target; the list driver names them after the cleaned target, which holds no `/`; the two agree on targets without `/` |
| Artifacts.ArtifactPath | enum4linux/py-seq.py:13 | an artifact path is the output directory, one `/`, the name, then the extension (`.txt` here, `.json` at line 33) |
| Artifacts.ArtifactPathInjective | enum4linux/py-list.py:15 | within one output directory and for one extension, distinct names give distinct paths |
| Artifacts.ListArtifactsInOutputDir | enum4linux/py-list.py:13-15 | under the list driver the `.txt` and `.json` paths are the output directory, one `/`, and a non-empty segment with no further `/` |
| Artifacts.RangeArtifactLeavesOutputDir | enum4linux/py-seq.py:13 | under the range driver a target holding `/` gets `.txt` and `.json` paths that are not directly in the output directory |
| Artifacts.RangeArtifactOfSlashTarget | enum4linux/py-seq.py:13 | the target `a/b` is given the path `out/a/b.txt` under the range driver and `out/a_b.txt` under the list driver |
| Artifacts.RangeTargetsNeedNoCleaning | enum4linux/py-seq.py:13 | when the base has no `/`, every range target has no `/`, so both drivers name its artifacts after the target itself |
| Artifacts.RangeArtifactPathsDistinct | enum4linux/py-seq.py:13 | distinct range targets write distinct text artifacts |
| Artifacts.ArtifactContent | enum4linux/py-seq.py:25-29 | the artifact starts with stdout, equals stdout exactly when stderr is empty, and otherwise continues with the ERRORS banner and stderr |
| Artifacts.ArtifactDeterminesStderr | enum4linux/py-seq.py:25-29 | for a given stdout the artifact determines stderr, so no error output is lost |
| Artifacts.ArtifactAmbiguous | enum4linux/py-list.py:27-31 | an artifact whose stdout contains the banner reads the same as one with an error section |
| Command.Argv | enum4linux/py-seq.py:18 | the argument vector starts with `enum4linux-ng`, ends with the target as one element, and in between holds exactly the split options, each non-empty and free of whitespace |
| Command.ArgvOfJoinedOptions | enum4linux/py-seq.py:18 | options given as space-separated words reach the tool as exactly those words, followed by the target |
| Command.JsonOptions | enum4linux/py-seq.py:32-36 | no second run exactly when neither `-oJ` nor `--json` is a substring of the options; with `-oJ` the options are reused unchanged; with only `--json`, ` -oJ <json path>` is appended; a second run's options always start with the originals and contain `-oJ` |
| Command.JsonArgvAppendsPath | enum4linux/py-seq.py:33-38 | with only `--json` and a JSON path without whitespace, the second run's arguments are the original ones, then `-oJ` and the path, then the target |
| Command.JsonPathWithSpaceIsSplit | enum4linux/py-list.py:35-38 | a JSON path containing whitespace never reaches the tool as one argument, unless it is the target itself |
| Command.JsonRuleIsSubstringTest | enum4linux/py-list.py:34-36 | the option word `--jsonx`, which merely contains `--json`, triggers the JSON run with ` -oJ <path>` appended |
| Scan.ScanIp | enum4linux/py-seq.py:9-45 | the first run always uses the argument vector; the scan returns True exactly when no step raises; the artifact is written exactly when the first run completes and the write does not raise, at the text path with the captured content; the JSON run starts exactly when the artifact was written and JSON was requested, with the JSON options |
| Scan.ExitCodeIgnored | enum4linux/py-seq.py:17-42 | changing the tool's exit status changes nothing about the scan, including its result |
| Scan.JsonRunOutputDiscarded | enum4linux/py-seq.py:35-39 | what the second run prints does not affect the scan |
| Scan.NoJsonRunWithoutRequest | enum4linux/py-list.py:34-41 | without a JSON request, the second run's behaviour does not affect the scan |
| Runner.ExecutorMap | enum4linux/py-seq.py:78-82 | whatever order the tasks finish in, result k is the scan of target k with its own world |
| Runner.CountSuccesses | enum4linux/py-seq.py:84 | the success count never exceeds the number of targets |
| Runner.CountIsSuccessIndices | enum4linux/py-seq.py:84 | the count equals the number of positions holding True |
| Runner.CountExtremes | enum4linux/py-list.py:81 | the count equals the total exactly when every scan succeeded, and is zero exactly when none did |
| Runner.OneFailureCostsOne | enum4linux/py-list.py:81 | when exactly one scan fails the count is the total minus one |
| Runner.ScanAllTally | enum4linux/py-list.py:75-81 | the tally equals the number of targets whose world raises nothing |
| Runner.RunRange | enum4linux/py-seq.py:57-85 | an invalid range stops the run with its reason before any scan; a valid range with a thread count of zero or less stops it with the pool's error; otherwise the traces are the range driver's scans of the generated targets in order (end - start + 1 of them, scan k targeting `base.(start+k)`), and the tally counts the targets whose world raises nothing |
| Runner.RunList | enum4linux/py-list.py:57-82 | a path that is not a regular file stops the run before any scan; otherwise a thread count of zero or less stops it with the pool's error; otherwise the traces are the list driver's scans of the parsed targets in order, and the tally counts the targets whose world raises nothing |

## Left out

- The tool itself and `subprocess.run`. What a run does is an input: it
  completed with some stdout, stderr and exit status, or it raised.
- File I/O. Reading the list file is an input sequence of lines, or absent
  when `os.path.isfile` is false: the path does not exist, or is a
  directory or another non-regular entry. A regular file that cannot be
  opened or decoded raises at `enum4linux/py-list.py:71-72` (opening at
  the `open` call, decoding while the comprehension reads lines) and ends the
  program; the model assumes it can be read. The text artifact is a
  returned path and content. Whether its write raises, for example because
  a directory on its path does not exist, is an input. A write that raises part-way leaves a truncated or partial file,
  which is not modelled: the model records no artifact.
- `os.makedirs`. An exception there ends the program before any scan, and
  that is not modelled.
- `os.path.join` is modelled as `dir + "/" + name`. Python's special cases
  are not modelled. These are an absolute second argument, which discards
  the directory, and a directory that already ends in `/`.
- Thread-pool concurrency and how many tasks run at once. Only the
  order-preserving collection of results is modelled, under any completion
  order. The refusal of a non-positive thread count is modelled.
- `print` progress messages, the exception message printed on failure,
  `argparse` and `sys.exit` codes. A refused run is an error result instead.
  The `print` on entry to `scan_ip` lies outside its `try`, so an exception
  there would abort the whole batch. That is not modelled.
- Text-mode newline translation when the list file is read. Lines are given
  as strings, and `strip()` removes any line terminator.
- Runner.CountSuccesses: its own contract only bounds the count. The exact
  count is stated by Runner.CountIsSuccessIndices and Runner.CountExtremes.
