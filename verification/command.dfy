/** The command lines a scan runs. The tool is never run through a shell:
    its argument vector is the tool name, the whitespace-split option string
    and the target as one final element. A second, JSON-producing run is
    chosen by substring tests on the raw option string. */
module Command {
  import opened Wrappers
  import opened Text

  const Tool := "enum4linux-ng"
  const JsonShortFlag := "-oJ"
  const JsonLongFlag := "--json"

  /** `["enum4linux-ng"] + options.split() + [ip]`. */
  function Argv(options: string, ip: string): (argv: seq<string>)
    ensures |argv| == |Split(options)| + 2
    ensures argv[0] == Tool && argv[|argv| - 1] == ip
    ensures argv[1..|argv| - 1] == Split(options)
    ensures forall k :: 1 <= k < |argv| - 1 ==> argv[k] != [] && NoSpace(argv[k])
  {
    [Tool] + Split(options) + [ip]
  }

  /** Options written as space-separated words reach the tool as exactly
      those words, and the target follows as one element whatever it holds. */
  lemma ArgvOfJoinedOptions(words: seq<string>, ip: string)
    requires WellFormedWords(words)
    ensures Argv(Join(words), ip) == [Tool] + words + [ip]
  {
    SplitJoin(words);
  }

  /** `"-oJ" in options or "--json" in options`: whether a JSON run follows. */
  predicate JsonRequested(options: string) {
    Contains(options, JsonShortFlag) || Contains(options, JsonLongFlag)
  }

  /** The options of the second run, or `None` when there is no second run:
      with `-oJ` anywhere in the string the options are reused as they are;
      with only `--json`, ` -oJ <jsonFile>` is appended. */
  function JsonOptions(options: string, jsonFile: string): (r: Option<string>)
    ensures r.None? <==> !JsonRequested(options)
    ensures Contains(options, JsonShortFlag) ==> r == Some(options)
    ensures !Contains(options, JsonShortFlag) && Contains(options, JsonLongFlag) ==>
              r == Some(options + " -oJ " + jsonFile)
    ensures r.Some? ==> options <= r.value && Contains(r.value, JsonShortFlag)
  {
    if !JsonRequested(options) then None
    else if Contains(options, JsonShortFlag) then Some(options)
    else
      var jo := options + " -oJ " + jsonFile;
      assert jo[|options| + 1..|options| + 4] == JsonShortFlag;
      assert OccursAt(jo, JsonShortFlag, |options| + 1);
      Some(jo)
  }

  /** When only `--json` was given and the JSON path has no whitespace, the
      second run's arguments are the original ones followed by `-oJ` and the
      path as one element. */
  lemma JsonArgvAppendsPath(options: string, jsonFile: string, ip: string)
    requires !Contains(options, JsonShortFlag) && Contains(options, JsonLongFlag)
    requires jsonFile != [] && NoSpace(jsonFile)
    ensures Argv(JsonOptions(options, jsonFile).value, ip) ==
              [Tool] + Split(options) + [JsonShortFlag, jsonFile] + [ip]
  {
    SplitAppendedJsonFlag(options, jsonFile);
  }

  /** Helper: how `options + " -oJ " + jsonFile` splits. */
  lemma SplitAppendedJsonFlag(options: string, jsonFile: string)
    requires jsonFile != [] && NoSpace(jsonFile)
    ensures Split(options + " -oJ " + jsonFile) == Split(options) + [JsonShortFlag, jsonFile]
  {
    var tail := JsonShortFlag + [' '] + jsonFile;
    assert options + " -oJ " + jsonFile == options + [' '] + tail;
    SplitAtSpace(options, ' ', tail);
    SplitAtSpace(JsonShortFlag, ' ', jsonFile);
    SplitWord(JsonShortFlag);
    SplitWord(jsonFile);
  }

  /** The JSON path is spliced into the option string before splitting, so a
      path holding whitespace never reaches the tool as one argument. */
  lemma JsonPathWithSpaceIsSplit(options: string, jsonFile: string, ip: string)
    requires !Contains(options, JsonShortFlag) && Contains(options, JsonLongFlag)
    requires !NoSpace(jsonFile)
    ensures jsonFile !in Argv(JsonOptions(options, jsonFile).value, ip)[1..]
              || jsonFile == ip
  {
    var argv := Argv(JsonOptions(options, jsonFile).value, ip);
    forall k | 1 <= k < |argv| - 1
      ensures argv[k] != jsonFile
    {
    }
    assert forall t :: t in argv[1..] ==> t in argv[1..|argv| - 1] || t == ip;
  }

  /** The flags are found as substrings, not as words: an option word that
      merely contains `--json` still triggers the JSON run. */
  lemma JsonRuleIsSubstringTest(jsonFile: string)
    ensures JsonOptions("--jsonx", jsonFile) == Some("--jsonx -oJ " + jsonFile)
  {
    assert OccursAt("--jsonx", JsonLongFlag, 0);
    assert 'J' !in "--jsonx";
    NotContainedWithoutChar("--jsonx", JsonShortFlag, 2);
    assert Contains("--jsonx", JsonLongFlag);
    assert !Contains("--jsonx", JsonShortFlag);
    assert "--jsonx" + " -oJ " == "--jsonx -oJ ";
  }
}
