/** Where each scan's output goes and what it contains. The range driver
    names the artifacts after the raw target; the list driver first replaces
    every `/` with `_` so that CIDR-like targets stay one path segment. */
module Artifacts {
  import opened Text
  import opened Targets

  /** The two drivers differ only in how they name artifacts. */
  datatype Driver =
    | RangeDriver   // enum4linux/py-seq.py: the target itself
    | ListDriver    // enum4linux/py-list.py: the target with `/` replaced by `_`

  /** `os.path.join(dir, name)`, with a single `/` separator. */
  function PathJoin(dir: string, name: string): string {
    dir + "/" + name
  }

  predicate SlashOrUnderscore(c: char) {
    c == '/' || c == '_'
  }

  /** `ip.replace('/', '_')`. */
  function CleanIp(ip: string): (r: string)
    ensures |r| == |ip|
    ensures forall k :: 0 <= k < |ip| ==> r[k] == if ip[k] == '/' then '_' else ip[k]
    ensures '/' !in r
    decreases |ip|
  {
    if ip == [] then [] else [if ip[0] == '/' then '_' else ip[0]] + CleanIp(ip[1..])
  }

  /** Cleaning changes a target exactly when it holds a `/`. */
  lemma CleanIpIdentity(ip: string)
    ensures CleanIp(ip) == ip <==> '/' !in ip
  {
    if '/' in ip {
      var k :| 0 <= k < |ip| && ip[k] == '/';
      assert CleanIp(ip)[k] != ip[k];
    }
  }

  /** Cleaning twice is cleaning once. */
  lemma CleanIpIdempotent(ip: string)
    ensures CleanIp(CleanIp(ip)) == CleanIp(ip)
  {
    CleanIpIdentity(CleanIp(ip));
  }

  /** Two targets that agree except where both hold `/` or `_`. */
  predicate AgreeUpToSlash(a: string, b: string) {
    |a| == |b| &&
    forall k :: 0 <= k < |a| ==> a[k] == b[k] || (SlashOrUnderscore(a[k]) && SlashOrUnderscore(b[k]))
  }

  /** Exactly when two targets get the same artifact name under the list
      driver: same length, and wherever they differ both hold `/` or `_`. */
  lemma CleanIpSameName(a: string, b: string)
    ensures CleanIp(a) == CleanIp(b) <==> AgreeUpToSlash(a, b)
  {
    if AgreeUpToSlash(a, b) {
      SameNameIfAgree(a, b);
    }
    if CleanIp(a) == CleanIp(b) {
      AgreeIfSameName(a, b);
    }
  }

  lemma SameNameIfAgree(a: string, b: string)
    requires AgreeUpToSlash(a, b)
    ensures CleanIp(a) == CleanIp(b)
  {
    var ca, cb := CleanIp(a), CleanIp(b);
    forall k | 0 <= k < |a|
      ensures ca[k] == cb[k]
    {
    }
  }

  lemma AgreeIfSameName(a: string, b: string)
    requires CleanIp(a) == CleanIp(b)
    ensures AgreeUpToSlash(a, b)
  {
    var c := CleanIp(a);
    forall k | 0 <= k < |a|
      ensures a[k] == b[k] || (SlashOrUnderscore(a[k]) && SlashOrUnderscore(b[k]))
    {
      assert c[k] == (if a[k] == '/' then '_' else a[k]);
      assert c[k] == (if b[k] == '/' then '_' else b[k]);
    }
  }

  /** Naming is not injective: a CIDR block and its underscore spelling share
      one artifact name. */
  lemma CleanIpCollision()
    ensures "10.0.0.0/24" != "10.0.0.0_24"
    ensures CleanIp("10.0.0.0/24") == CleanIp("10.0.0.0_24") == "10.0.0.0_24"
  {
    CleanIpSameName("10.0.0.0/24", "10.0.0.0_24");
    CleanIpIdentity("10.0.0.0_24");
    assert "10.0.0.0/24"[8] != "10.0.0.0_24"[8];
  }

  /** The base name of a target's artifacts under each driver: the raw
      target for the range driver, the cleaned target for the list driver. */
  function ArtifactName(driver: Driver, ip: string): (name: string)
    ensures |name| == |ip|
    ensures driver == RangeDriver ==> name == ip
    ensures driver == ListDriver ==> name == CleanIp(ip) && '/' !in name
    ensures '/' !in ip ==> name == ip
  {
    CleanIpIdentity(ip);
    match driver
    case RangeDriver => ip
    case ListDriver => CleanIp(ip)
  }

  /** `os.path.join(dir, f"{name}{ext}")`: an artifact's path. */
  function ArtifactPath(dir: string, name: string, ext: string): (p: string)
    ensures |p| == |dir| + 1 + |name| + |ext|
    ensures p[..|dir|] == dir && p[|dir|] == '/'
    ensures p[|dir| + 1..|dir| + 1 + |name|] == name
    ensures p[|dir| + 1 + |name|..] == ext
  {
    PathJoin(dir, name + ext)
  }

  /** `<dir>/<name>.txt`. */
  function TextPath(dir: string, name: string): string {
    ArtifactPath(dir, name, ".txt")
  }

  /** `<dir>/<name>.json`. */
  function JsonPath(dir: string, name: string): string {
    ArtifactPath(dir, name, ".json")
  }

  /** `p` names an entry directly inside `dir`: `dir`, one `/`, and a
      non-empty remainder without a further `/`. */
  predicate DirectlyIn(dir: string, p: string) {
    && |dir| + 1 < |p|
    && p[..|dir|] == dir
    && p[|dir|] == '/'
    && forall k :: |dir| < k < |p| ==> p[k] != '/'
  }

  /** Under the list driver both artifacts sit directly in the output
      directory. */
  lemma ListArtifactsInOutputDir(dir: string, ip: string)
    ensures DirectlyIn(dir, TextPath(dir, ArtifactName(ListDriver, ip)))
    ensures DirectlyIn(dir, JsonPath(dir, ArtifactName(ListDriver, ip)))
  {
    var name := ArtifactName(ListDriver, ip);
    JoinedDirectlyIn(dir, name + ".txt");
    JoinedDirectlyIn(dir, name + ".json");
  }

  /** Helper: joining a `/`-free non-empty segment stays in the directory. */
  lemma JoinedDirectlyIn(dir: string, segment: string)
    requires segment != [] && '/' !in segment
    ensures DirectlyIn(dir, PathJoin(dir, segment))
  {
    var p := PathJoin(dir, segment);
    forall k | |dir| < k < |p|
      ensures p[k] != '/'
    {
      assert p[k] == segment[k - |dir| - 1];
    }
  }

  /** Within one output directory and for one extension, the path
      determines the name. */
  lemma ArtifactPathInjective(dir: string, ext: string, a: string, b: string)
    requires ArtifactPath(dir, a, ext) == ArtifactPath(dir, b, ext)
    ensures a == b
  {
    var pa, pb := ArtifactPath(dir, a, ext), ArtifactPath(dir, b, ext);
    assert |a| == |b|;
    assert a == pa[|dir| + 1..|dir| + 1 + |a|];
    assert b == pb[|dir| + 1..|dir| + 1 + |b|];
  }

  /** The range driver does not clean its targets: a target holding `/` is
      given artifact paths through a sub-directory of the output directory,
      e.g. `out/a/b.txt` for the target `a/b`. That sub-directory is never
      created, so the write succeeds only if it already exists. */
  lemma RangeArtifactLeavesOutputDir(dir: string, ip: string)
    requires '/' in ip
    ensures !DirectlyIn(dir, TextPath(dir, ArtifactName(RangeDriver, ip)))
    ensures !DirectlyIn(dir, JsonPath(dir, ArtifactName(RangeDriver, ip)))
  {
    var i :| 0 <= i < |ip| && ip[i] == '/';
    var p, q := TextPath(dir, ip), JsonPath(dir, ip);
    assert p[|dir| + 1..|dir| + 1 + |ip|][i] == '/';
    assert p[|dir| + 1 + i] == '/';
    assert q[|dir| + 1..|dir| + 1 + |ip|][i] == '/';
    assert q[|dir| + 1 + i] == '/';
  }

  /** The concrete case: `a/b` under the range driver. */
  lemma RangeArtifactOfSlashTarget()
    ensures TextPath("out", ArtifactName(RangeDriver, "a/b")) == "out/a/b.txt"
    ensures TextPath("out", ArtifactName(ListDriver, "a/b")) == "out/a_b.txt"
  {
    assert CleanIp("a/b") == "a_b" by {
      assert CleanIp("a/b")[1] == '_';
    }
  }

  /** Range targets never need cleaning when the base has no `/`, so the two
      drivers name them alike. */
  lemma RangeTargetsNeedNoCleaning(base: string, start: nat, end: int)
    requires '/' !in base
    ensures forall t :: t in RangeTargets(base, start, end) ==>
              ArtifactName(RangeDriver, t) == ArtifactName(ListDriver, t) == t
  {
    var ips := RangeTargets(base, start, end);
    forall t | t in ips
      ensures '/' !in t
    {
      var k :| 0 <= k < |ips| && ips[k] == t;
      var d := Decimal(start + k);
      assert t == base + "." + d;
      assert '/' !in d by {
        assert forall i :: 0 <= i < |d| ==> IsDigit(d[i]);
      }
    }
  }

  /** Distinct range targets write distinct text artifacts. */
  lemma RangeArtifactPathsDistinct(dir: string, base: string, start: nat, end: int)
    ensures var ips := RangeTargets(base, start, end);
      forall i, j :: 0 <= i < |ips| && 0 <= j < |ips| && i != j ==>
        TextPath(dir, ArtifactName(RangeDriver, ips[i])) != TextPath(dir, ArtifactName(RangeDriver, ips[j]))
  {
    var ips := RangeTargets(base, start, end);
    RangeTargetsDistinct(base, start, end);
    forall i, j | 0 <= i < |ips| && 0 <= j < |ips| && i != j
      ensures TextPath(dir, ips[i]) != TextPath(dir, ips[j])
    {
      if TextPath(dir, ips[i]) == TextPath(dir, ips[j]) {
        ArtifactPathInjective(dir, ".txt", ips[i], ips[j]);
      }
    }
  }

  // ------------------------------------------------------ artifact content

  /** Written between the tool's standard output and its error output. */
  const ErrorsBanner := "\n\nERRORS:\n"

  /** The text artifact: standard output, then the banner and the error
      output when there is any. */
  function ArtifactContent(stdout: string, stderr: string): (content: string)
    ensures stdout <= content
    ensures content == stdout <==> stderr == []
    ensures stderr != [] ==> content[|stdout|..] == ErrorsBanner + stderr
  {
    stdout + if stderr != [] then ErrorsBanner + stderr else []
  }

  /** Given the standard output, the artifact determines the error output:
      nothing the tool printed is lost. */
  lemma ArtifactDeterminesStderr(stdout: string, e1: string, e2: string)
    requires ArtifactContent(stdout, e1) == ArtifactContent(stdout, e2)
    ensures e1 == e2
  {
    if e1 != [] && e2 != [] {
      var c := ArtifactContent(stdout, e1);
      assert e1 == c[|stdout|..][|ErrorsBanner|..];
      assert e2 == c[|stdout|..][|ErrorsBanner|..];
    }
  }

  /** Without knowing the standard output the artifact is ambiguous: output
      that itself contains the banner reads like an error section. */
  lemma ArtifactAmbiguous()
    ensures ArtifactContent("x" + ErrorsBanner + "y", "") == ArtifactContent("x", "y")
  {
  }
}
