/** Target generation. The range driver (enum4linux/py-seq.py) builds
    `base.N` for every N of a validated octet range; the list driver
    (enum4linux/py-list.py) reads one target per line, stripped, dropping
    blank lines and `#` comments. */
module Targets {
  import opened Wrappers
  import opened Text

  // ---------------------------------------------------------- range mode

  /** Largest value of the last octet. */
  const MaxOctet := 255

  /** Why a range is refused, in the order the driver checks. */
  datatype RangeError =
    | OutOfBounds     // a bound lies outside 0..255
    | StartAfterEnd   // both bounds are octets but start > end

  /** The two validation steps of the range driver: bounds first, then order.
      `None` means the range is accepted. */
  function CheckRange(start: int, end: int): (r: Option<RangeError>)
    ensures r.None? <==> 0 <= start <= end <= MaxOctet
    ensures r == Some(OutOfBounds) <==>
              (start < 0 || start > MaxOctet || end < 0 || end > MaxOctet)
    ensures r == Some(StartAfterEnd) <==>
              (0 <= start <= MaxOctet && 0 <= end <= MaxOctet && start > end)
  {
    if start < 0 || start > MaxOctet || end < 0 || end > MaxOctet then Some(OutOfBounds)
    else if start > end then Some(StartAfterEnd)
    else None
  }

  /** `f"{base}.{i}"`. */
  function RangeTarget(base: string, i: int): string {
    base + "." + IntToString(i)
  }

  /** `[f"{base}.{i}" for i in range(start, end + 1)]`. */
  function RangeTargets(base: string, start: int, end: int): (ips: seq<string>)
    ensures |ips| == if start <= end then end - start + 1 else 0
    ensures forall k :: 0 <= k < |ips| ==> ips[k] == RangeTarget(base, start + k)
    decreases end - start
  {
    if start > end then [] else RangeTargets(base, start, end - 1) + [RangeTarget(base, end)]
  }

  /** Validation followed by generation: either the refusal, or the targets. */
  function GenerateTargets(base: string, start: int, end: int): (r: Result<seq<string>, RangeError>)
    ensures r.Err? <==> !(0 <= start <= end <= MaxOctet)
    ensures r.Err? ==> CheckRange(start, end) == Some(r.error)
    ensures r.Ok? ==> 1 <= |r.value| == end - start + 1 <= MaxOctet + 1
    ensures r.Ok? ==> r.value == RangeTargets(base, start, end)
  {
    match CheckRange(start, end)
    case Some(e) => Err(e)
    case None => Ok(RangeTargets(base, start, end))
  }

  /** The last octet of a generated target, read back as a number. */
  function OctetOf(base: string, ip: string): int
    requires |base| + 1 <= |ip|
  {
    ParseDecimal(ip[|base| + 1..])
  }

  /** Every generated target is `base.` followed by the decimal of its
      octet, the k-th target carries octet `start + k`, so the targets are in
      strictly ascending numeric order. */
  lemma RangeTargetsNumbered(base: string, start: nat, end: int)
    ensures var ips := RangeTargets(base, start, end);
      && (forall k :: 0 <= k < |ips| ==>
            && |base| + 1 <= |ips[k]|
            && ips[k][..|base| + 1] == base + "."
            && AllDigits(ips[k][|base| + 1..])
            && OctetOf(base, ips[k]) == start + k)
      && (forall i, j :: 0 <= i < j < |ips| ==> OctetOf(base, ips[i]) < OctetOf(base, ips[j]))
  {
    var ips := RangeTargets(base, start, end);
    forall k | 0 <= k < |ips|
      ensures |base| + 1 <= |ips[k]|
      ensures ips[k][..|base| + 1] == base + "."
      ensures AllDigits(ips[k][|base| + 1..])
      ensures OctetOf(base, ips[k]) == start + k
    {
      RangeTargetNumbered(base, start, end, k);
    }
  }

  /** Helper: the k-th target is `base.` and digits reading as `start + k`. */
  lemma RangeTargetNumbered(base: string, start: nat, end: int, k: nat)
    requires k < |RangeTargets(base, start, end)|
    ensures var ip := RangeTargets(base, start, end)[k];
      && |base| + 1 <= |ip|
      && ip[..|base| + 1] == base + "."
      && AllDigits(ip[|base| + 1..])
      && OctetOf(base, ip) == start + k
  {
    RangeTargetAt(base, start, end, k);
    ParseDecimalOfDecimal(start + k);
  }

  /** Helper: the k-th target splits as `base.` and the decimal of its octet. */
  lemma RangeTargetAt(base: string, start: nat, end: int, k: nat)
    requires k < |RangeTargets(base, start, end)|
    ensures var ip := RangeTargets(base, start, end)[k];
      && |base| + 1 <= |ip|
      && ip[..|base| + 1] == base + "."
      && ip[|base| + 1..] == Decimal(start + k)
  {
    var ip := RangeTargets(base, start, end)[k];
    assert ip == (base + ".") + Decimal(start + k);
  }

  lemma OctetText(base: string, digits: string)
    ensures (base + "." + digits)[|base| + 1..] == digits
  {
  }

  /** Helper: the target at position k carries octet `start + k`. */
  lemma RangeTargetOctet(base: string, start: nat, end: int, k: nat, n: nat)
    requires k < |RangeTargets(base, start, end)|
    requires RangeTargets(base, start, end)[k] == base + "." + Decimal(n)
    ensures n == start + k
  {
    RangeTargetAt(base, start, end, k);
    OctetText(base, Decimal(n));
    DecimalInjective(start + k, n);
  }

  /** `base.N` is generated exactly when N lies in the range. */
  lemma RangeTargetsMembership(base: string, start: nat, end: int, n: nat)
    ensures base + "." + Decimal(n) in RangeTargets(base, start, end) <==> start <= n <= end
  {
    var ips := RangeTargets(base, start, end);
    var t := base + "." + Decimal(n);
    if start <= n <= end {
      assert ips[n - start] == t;
    }
    if t in ips {
      var k :| 0 <= k < |ips| && ips[k] == t;
      RangeTargetOctet(base, start, end, k, n);
    }
  }

  /** No target is generated twice. */
  lemma RangeTargetsDistinct(base: string, start: nat, end: int)
    ensures var ips := RangeTargets(base, start, end);
      forall i, j :: 0 <= i < |ips| && 0 <= j < |ips| && i != j ==> ips[i] != ips[j]
  {
    RangeTargetsNumbered(base, start, end);
  }

  // ----------------------------------------------------------- list mode

  /** A stripped line is kept when it is non-empty and not a `#` comment. */
  predicate IsTarget(t: string) {
    t != [] && t[0] != '#'
  }

  /** Keeps the stripped lines that are targets, in order. */
  function KeepTargets(stripped: seq<string>): (ips: seq<string>)
    ensures |ips| <= |stripped|
    ensures forall j :: 0 <= j < |ips| ==> IsTarget(ips[j])
    decreases |stripped|
  {
    if stripped == [] then []
    else (if IsTarget(stripped[0]) then [stripped[0]] else []) + KeepTargets(stripped[1..])
  }

  /** Every line, stripped. */
  function StripAll(lines: seq<string>): (r: seq<string>)
    ensures |r| == |lines|
    ensures forall k :: 0 <= k < |lines| ==> r[k] == Strip(lines[k])
    decreases |lines|
  {
    if lines == [] then [] else [Strip(lines[0])] + StripAll(lines[1..])
  }

  /** `[line.strip() for line in f if line.strip() and not
      line.strip().startswith('#')]`: strip every line, keep the targets. */
  function ParseLines(lines: seq<string>): (ips: seq<string>)
    ensures |ips| <= |lines|
    ensures forall j :: 0 <= j < |ips| ==> IsTarget(ips[j])
  {
    KeepTargets(StripAll(lines))
  }

  lemma {:induction false} KeepTargetsAppend(a: seq<string>, b: seq<string>)
    ensures KeepTargets(a + b) == KeepTargets(a) + KeepTargets(b)
    decreases |a|
  {
    if a == [] {
      assert a + b == b;
    } else {
      assert (a + b)[0] == a[0];
      assert (a + b)[1..] == a[1..] + b;
      KeepTargetsAppend(a[1..], b);
    }
  }

  lemma {:induction false} StripAllAppend(a: seq<string>, b: seq<string>)
    ensures StripAll(a + b) == StripAll(a) + StripAll(b)
    decreases |a|
  {
    if a == [] {
      assert a + b == b;
    } else {
      assert (a + b)[0] == a[0];
      assert (a + b)[1..] == a[1..] + b;
      StripAllAppend(a[1..], b);
    }
  }

  /** Parsing works line by line: parsing a concatenation concatenates. */
  lemma ParseLinesAppend(a: seq<string>, b: seq<string>)
    ensures ParseLines(a + b) == ParseLines(a) + ParseLines(b)
  {
    StripAllAppend(a, b);
    KeepTargetsAppend(StripAll(a), StripAll(b));
  }

  /** Every parsed target is already stripped. */
  lemma {:induction false} KeepTargetsOfStripped(stripped: seq<string>)
    requires forall k :: 0 <= k < |stripped| ==> Strip(stripped[k]) == stripped[k]
    ensures forall j :: 0 <= j < |KeepTargets(stripped)| ==>
              Strip(KeepTargets(stripped)[j]) == KeepTargets(stripped)[j]
    decreases |stripped|
  {
    if stripped != [] {
      KeepTargetsOfStripped(stripped[1..]);
    }
  }

  /** Stripping already-stripped lines changes nothing. */
  lemma StripAllFixed(lines: seq<string>)
    requires forall k :: 0 <= k < |lines| ==> Strip(lines[k]) == lines[k]
    ensures StripAll(lines) == lines
  {
  }

  /** Filtering twice is filtering once. */
  lemma {:induction false} KeepTargetsIdempotent(stripped: seq<string>)
    ensures KeepTargets(KeepTargets(stripped)) == KeepTargets(stripped)
    decreases |stripped|
  {
    if stripped != [] {
      var head := if IsTarget(stripped[0]) then [stripped[0]] else [];
      KeepTargetsAppend(head, KeepTargets(stripped[1..]));
      KeepTargetsIdempotent(stripped[1..]);
      assert KeepTargets(head) == head + KeepTargets([]);
    }
  }

  /** Parsing the parsed targets again changes nothing. */
  lemma ParseLinesIdempotent(lines: seq<string>)
    ensures ParseLines(ParseLines(lines)) == ParseLines(lines)
  {
    var stripped := StripAll(lines);
    forall k | 0 <= k < |stripped|
      ensures Strip(stripped[k]) == stripped[k]
    {
      StripIdempotent(lines[k]);
    }
    KeepTargetsOfStripped(stripped);
    StripAllFixed(KeepTargets(stripped));
    KeepTargetsIdempotent(stripped);
  }

  /** Counting through the filter: a target keeps all its occurrences,
      anything else loses all of them. */
  lemma {:induction false} KeepTargetsCount(stripped: seq<string>, t: string)
    ensures multiset(KeepTargets(stripped))[t] == if IsTarget(t) then multiset(stripped)[t] else 0
    decreases |stripped|
  {
    if stripped != [] {
      KeepTargetsCount(stripped[1..], t);
      var s := stripped[0];
      assert stripped == [s] + stripped[1..];
      assert multiset(stripped) == multiset{s} + multiset(stripped[1..]);
      var head := if IsTarget(s) then [s] else [];
      assert multiset(KeepTargets(stripped)) == multiset(head) + multiset(KeepTargets(stripped[1..]));
    }
  }

  /** Duplicates are kept: a target is produced as many times as there are
      lines that strip to it, and nothing that is not a target is produced. */
  lemma ParseLinesCount(lines: seq<string>, t: string)
    ensures multiset(ParseLines(lines))[t] ==
              if IsTarget(t) then multiset(StripAll(lines))[t] else 0
  {
    KeepTargetsCount(StripAll(lines), t);
  }

  /** Helper: filtering one more stripped line appends it if it is a target. */
  lemma KeepTargetsSnoc(stripped: seq<string>, i: nat)
    requires i < |stripped|
    ensures var t := stripped[i];
      KeepTargets(stripped[..i + 1]) == KeepTargets(stripped[..i]) + (if IsTarget(t) then [t] else [])
  {
    var t := stripped[i];
    assert stripped[..i + 1] == stripped[..i] + [t];
    KeepTargetsAppend(stripped[..i], [t]);
    assert KeepTargets([t]) == (if IsTarget(t) then [t] else []) + KeepTargets([]);
  }

  /** The filter as a loop that also records where each kept line was:
      targets appear in their original order, and a position contributes
      exactly when its line is a target. */
  method SelectTargets(stripped: seq<string>) returns (ips: seq<string>, origins: seq<nat>)
    ensures ips == KeepTargets(stripped)
    ensures |origins| == |ips|
    ensures forall j :: 0 <= j < |ips| ==> origins[j] < |stripped| && ips[j] == stripped[origins[j]]
    ensures forall j, j' :: 0 <= j < j' < |origins| ==> origins[j] < origins[j']
    ensures forall k :: 0 <= k < |stripped| ==> (IsTarget(stripped[k]) <==> k in origins)
  {
    ips, origins := [], [];
    var i := 0;
    while i < |stripped|
      invariant 0 <= i <= |stripped|
      invariant ips == KeepTargets(stripped[..i])
      invariant |origins| == |ips|
      invariant forall j :: 0 <= j < |ips| ==> origins[j] < i && ips[j] == stripped[origins[j]]
      invariant forall j, j' :: 0 <= j < j' < |origins| ==> origins[j] < origins[j']
      invariant forall k :: 0 <= k < i ==> (IsTarget(stripped[k]) <==> k in origins)
    {
      KeepTargetsSnoc(stripped, i);
      assert i !in origins;
      if IsTarget(stripped[i]) {
        var more := origins + [i];
        forall k | 0 <= k <= i
          ensures IsTarget(stripped[k]) <==> k in more
        {
          assert k in more <==> k in origins || k == i;
        }
        ips, origins := ips + [stripped[i]], more;
      }
      i := i + 1;
    }
    assert stripped[..|stripped|] == stripped;
  }

  /** The list parse with provenance: each target is the stripped text of
      the line recorded for it, lines contribute in file order, and a line
      contributes exactly when its stripped text is a target. */
  method ParseTargets(lines: seq<string>) returns (ips: seq<string>, origins: seq<nat>)
    ensures ips == ParseLines(lines)
    ensures |origins| == |ips|
    ensures forall j :: 0 <= j < |ips| ==> origins[j] < |lines| && ips[j] == Strip(lines[origins[j]])
    ensures forall j, j' :: 0 <= j < j' < |origins| ==> origins[j] < origins[j']
    ensures forall k :: 0 <= k < |lines| ==> (IsTarget(Strip(lines[k])) <==> k in origins)
  {
    var stripped := StripAll(lines);
    ips, origins := SelectTargets(stripped);
  }
}
