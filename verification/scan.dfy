/** `scan_ip`: one target's scan. The tool and the file system are outside
    the model; what they do is an input (`World`): whether each tool run
    completed (with its output and exit status) or raised, and whether
    writing the text artifact raised. Each driver defines this same
    function; the two differ only in how the artifact is named. */
module Scan {
  import opened Wrappers
  import opened Artifacts
  import opened Command

  /** What `subprocess.run` did: it completed, whatever the exit status, or
      it raised (tool missing, permission denied, ...). */
  datatype ProcessResult =
    | Completed(stdout: string, stderr: string, exitCode: int)
    | Raised(message: string)

  /** The outside world for one scan: the first run, whether writing the
      text artifact raises, and the second (JSON) run if there is one. */
  datatype World = World(first: ProcessResult, writeRaises: bool, second: ProcessResult)

  /** A file the driver writes: its path and its whole content. */
  datatype Artifact = Artifact(path: string, content: string)

  /** What one scan did: the arguments of the first run, the text artifact
      written, the arguments of the second run if it was started, and the
      value `scan_ip` returned. */
  datatype ScanTrace = ScanTrace(
    argv: seq<string>,
    artifact: Option<Artifact>,
    jsonArgv: Option<seq<string>>,
    success: bool)

  /** No step of the scan raises: the first run completes, the artifact is
      written, and the JSON run, when requested, completes. */
  predicate NothingRaises(options: string, w: World) {
    && w.first.Completed?
    && !w.writeRaises
    && (JsonRequested(options) ==> w.second.Completed?)
  }

  /** `scan_ip(ip, output_dir, options)` under `driver`'s naming. */
  function ScanIp(driver: Driver, ip: string, outputDir: string, options: string, w: World): (t: ScanTrace)
    ensures t.argv == Argv(options, ip)
    ensures t.success <==> NothingRaises(options, w)
    ensures t.artifact.Some? <==> w.first.Completed? && !w.writeRaises
    ensures t.artifact.Some? ==>
              && t.artifact.value.path == TextPath(outputDir, ArtifactName(driver, ip))
              && t.artifact.value.content == ArtifactContent(w.first.stdout, w.first.stderr)
    ensures t.jsonArgv.Some? <==> t.artifact.Some? && JsonRequested(options)
    ensures t.jsonArgv.Some? ==>
              t.jsonArgv.value == Argv(JsonOptions(options, JsonPath(outputDir, ArtifactName(driver, ip))).value, ip)
  {
    var name := ArtifactName(driver, ip);
    var argv := Argv(options, ip);
    match w.first
    case Raised(_) => ScanTrace(argv, None, None, false)
    case Completed(out, err, _) =>
      if w.writeRaises then ScanTrace(argv, None, None, false)
      else
        var artifact := Artifact(TextPath(outputDir, name), ArtifactContent(out, err));
        match JsonOptions(options, JsonPath(outputDir, name))
        case None => ScanTrace(argv, Some(artifact), None, true)
        case Some(jsonOptions) =>
          ScanTrace(argv, Some(artifact), Some(Argv(jsonOptions, ip)), w.second.Completed?)
  }

  /** The world with the first run's exit status replaced. */
  function WithExitCode(w: World, code: int): World {
    match w.first
    case Completed(out, err, _) => w.(first := Completed(out, err, code))
    case Raised(_) => w
  }

  /** The tool's exit status plays no part: a failing tool still counts as a
      successful scan, and nothing else about the scan changes either. */
  lemma ExitCodeIgnored(driver: Driver, ip: string, outputDir: string, options: string, w: World, code: int)
    ensures ScanIp(driver, ip, outputDir, options, WithExitCode(w, code)) == ScanIp(driver, ip, outputDir, options, w)
  {
  }

  /** The second run's output is discarded: only whether it raised matters. */
  lemma JsonRunOutputDiscarded(driver: Driver, ip: string, outputDir: string, options: string,
                               w: World, out: string, err: string, code: int)
    requires w.second.Completed?
    ensures ScanIp(driver, ip, outputDir, options, w.(second := Completed(out, err, code))) ==
            ScanIp(driver, ip, outputDir, options, w)
  {
  }

  /** Without a JSON request the second run's behaviour is irrelevant. */
  lemma NoJsonRunWithoutRequest(driver: Driver, ip: string, outputDir: string, options: string,
                                w: World, second: ProcessResult)
    requires !JsonRequested(options)
    ensures ScanIp(driver, ip, outputDir, options, w.(second := second)) ==
            ScanIp(driver, ip, outputDir, options, w)
  {
  }
}
