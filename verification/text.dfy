/** The parts of Python's `str` that the drivers rely on: `isspace`,
    `strip()`, `split()` with no argument, the `in` substring test and
    `str()` of an integer. Strings are sequences of characters. `Join` is
    not used by the drivers; it states the round trip of `split()`. */
module Text {

  /** Python's `str.isspace` for one character: the characters `strip()` and
      `split()` treat as whitespace. */
  predicate IsSpace(c: char) {
    || ('\U{0009}' <= c <= '\U{000D}')
    || ('\U{001C}' <= c <= '\U{001F}')
    || c == ' '
    || c == '\U{0085}'
    || c == '\U{00A0}'
    || c == '\U{1680}'
    || ('\U{2000}' <= c <= '\U{200A}')
    || c == '\U{2028}'
    || c == '\U{2029}'
    || c == '\U{202F}'
    || c == '\U{205F}'
    || c == '\U{3000}'
  }

  predicate AllSpace(s: string) {
    forall k :: 0 <= k < |s| ==> IsSpace(s[k])
  }

  predicate NoSpace(s: string) {
    forall k :: 0 <= k < |s| ==> !IsSpace(s[k])
  }

  // ---------------------------------------------------------------- strip

  /** `s.lstrip()`: drops the leading whitespace run. */
  function TrimLeft(s: string): (r: string)
    ensures |r| <= |s| && r == s[|s| - |r|..]
    ensures AllSpace(s[..|s| - |r|])
    ensures r != [] ==> !IsSpace(r[0])
    decreases |s|
  {
    if s != [] && IsSpace(s[0]) then
      var r := TrimLeft(s[1..]);
      var n := |s| - |r|;
      assert s[n..] == s[1..][n - 1..];
      forall k | 0 <= k < n
        ensures IsSpace(s[..n][k])
      {
        if k > 0 {
          assert s[..n][k] == s[1..][..n - 1][k - 1];
        }
      }
      r
    else s
  }

  /** `s.rstrip()`: drops the trailing whitespace run. */
  function TrimRight(s: string): (r: string)
    ensures |r| <= |s| && r == s[..|r|]
    ensures AllSpace(s[|r|..])
    ensures r != [] ==> !IsSpace(r[|r| - 1])
    decreases |s|
  {
    if s != [] && IsSpace(s[|s| - 1]) then
      var r := TrimRight(s[..|s| - 1]);
      assert s[|r|..] == s[..|s| - 1][|r|..] + [s[|s| - 1]];
      r
    else s
  }

  /** `s.strip()`. The contract below only bounds the result; the exact
      result (the unique slice with whitespace around it and non-whitespace
      at both ends) is StripIsSurroundingWhitespaceRemoved, and the empty
      case is StripEmpty. */
  function Strip(s: string): (r: string)
    ensures |r| <= |s|
    ensures r != [] ==> !IsSpace(r[0]) && !IsSpace(r[|r| - 1])
  {
    var t := TrimLeft(s);
    var r := TrimRight(t);
    assert r != [] ==> r[0] == t[0];
    r
  }

  /** `strip()` empties exactly the all-whitespace strings. */
  lemma StripEmpty(s: string)
    ensures Strip(s) == [] <==> AllSpace(s)
  {
    var t := TrimLeft(s);
    assert t == [] ==> s[..|s|] == s;
    assert t != [] ==> t[0] == s[|s| - |t|];
    var r := TrimRight(t);
    assert r == [] ==> t[|r|..] == t;
  }

  /** Strip removes exactly the whitespace around the slice `s[i..j]` when
      that slice is empty or has non-whitespace at both ends: the result is
      determined by that shape alone. */
  lemma {:induction false} StripIsSurroundingWhitespaceRemoved(s: string, i: nat, j: nat)
    requires i <= j <= |s|
    requires AllSpace(s[..i]) && AllSpace(s[j..])
    requires i < j ==> !IsSpace(s[i]) && !IsSpace(s[j - 1])
    ensures Strip(s) == s[i..j]
  {
    if i == j {
      AllSpaceSplit(s, i);
    } else {
      TrimLeftAt(s, i);
      TrimRightOfSlice(s, i, j);
      StripUnfold(s);
    }
  }

  lemma AllSpaceSplit(s: string, i: nat)
    requires i <= |s| && AllSpace(s[..i]) && AllSpace(s[i..])
    ensures AllSpace(s)
  {
    forall k | 0 <= k < |s|
      ensures IsSpace(s[k])
    {
      if k < i {
        assert s[..i][k] == s[k];
      } else {
        assert s[i..][k - i] == s[k];
      }
    }
  }

  lemma StripUnfold(s: string)
    ensures Strip(s) == TrimRight(TrimLeft(s))
  {
  }

  /** Helper: trimming the right of `s[i..]` stops at index `j`. */
  lemma TrimRightOfSlice(s: string, i: nat, j: nat)
    requires i < j <= |s| && AllSpace(s[j..]) && !IsSpace(s[j - 1])
    ensures TrimRight(s[i..]) == s[i..j]
  {
    var t := s[i..];
    assert t[j - i..] == s[j..];
    assert t[j - i - 1] == s[j - 1];
    TrimRightAt(t, j - i);
    assert t[..j - i] == s[i..j];
  }

  /** Helper: `TrimLeft` stops at the first non-whitespace character. */
  lemma {:induction false} TrimLeftAt(s: string, i: nat)
    requires i < |s| && AllSpace(s[..i]) && !IsSpace(s[i])
    ensures TrimLeft(s) == s[i..]
    decreases i
  {
    if i > 0 {
      assert s[..i][0] == s[0];
      assert s[1..][..i - 1] == s[..i][1..];
      TrimLeftAt(s[1..], i - 1);
      assert s[1..][i - 1..] == s[i..];
    }
  }

  /** Helper: `TrimRight` stops at the last non-whitespace character. */
  lemma {:induction false} TrimRightAt(s: string, j: nat)
    requires 0 < j <= |s| && AllSpace(s[j..]) && !IsSpace(s[j - 1])
    ensures TrimRight(s) == s[..j]
    decreases |s| - j
  {
    if j < |s| {
      assert s[j..][|s| - 1 - j] == s[|s| - 1];
      var s' := s[..|s| - 1];
      assert s'[j..] == s[j..][..|s| - 1 - j];
      TrimRightAt(s', j);
      assert s'[..j] == s[..j];
    }
  }

  /** `strip()` is idempotent. */
  lemma StripIdempotent(s: string)
    ensures Strip(Strip(s)) == Strip(s)
  {
    var r := Strip(s);
    assert r[..0] == [] && r[|r|..] == [];
    StripIsSurroundingWhitespaceRemoved(r, 0, |r|);
    assert r[0..|r|] == r;
  }

  // ---------------------------------------------------------------- split

  /** Length of the maximal whitespace-free prefix of `s`. */
  function WordLength(s: string): (n: nat)
    ensures n <= |s|
    ensures NoSpace(s[..n])
    ensures n < |s| ==> IsSpace(s[n])
    decreases |s|
  {
    if s == [] || IsSpace(s[0]) then 0 else 1 + WordLength(s[1..])
  }

  /** `s.split()` with no separator: the maximal whitespace-free runs of `s`,
      in order. The contract below only says what a word looks like; which
      words come out is pinned by SplitWord, SplitAtSpace, SplitJoin and
      SplitKeepsNonSpace. */
  function Split(s: string): (words: seq<string>)
    ensures WellFormedWords(words)
    decreases |s|
  {
    if s == [] then []
    else if IsSpace(s[0]) then Split(s[1..])
    else
      var n := WordLength(s);
      [s[..n]] + Split(s[n..])
  }

  /** `" ".join(words)`: a helper for stating the `split()` round trip. */
  function Join(words: seq<string>): (s: string)
    ensures |words| == 1 ==> s == words[0]
    decreases |words|
  {
    if |words| == 0 then []
    else if |words| == 1 then words[0]
    else words[0] + " " + Join(words[1..])
  }

  /** Words that `split()` can produce. */
  predicate WellFormedWords(words: seq<string>) {
    forall k :: 0 <= k < |words| ==> words[k] != [] && NoSpace(words[k])
  }

  /** The first whitespace character of `s`, if any, is at `n`. */
  lemma {:induction false} WordLengthAt(s: string, n: nat)
    requires n <= |s| && NoSpace(s[..n]) && (n < |s| ==> IsSpace(s[n]))
    ensures WordLength(s) == n
    decreases n
  {
    if n > 0 {
      assert s[..n][0] == s[0];
      assert s[1..][..n - 1] == s[..n][1..];
      WordLengthAt(s[1..], n - 1);
    }
  }

  /** A single word splits to itself. */
  lemma SplitWord(w: string)
    requires w != [] && NoSpace(w)
    ensures Split(w) == [w]
  {
    assert w[..|w|] == w;
    WordLengthAt(w, |w|);
    assert w[|w|..] == [];
  }

  /** Splitting undoes joining: `" ".join(ws).split() == ws` for words
      `split()` could have produced. */
  lemma {:induction false} SplitJoin(words: seq<string>)
    requires WellFormedWords(words)
    ensures Split(Join(words)) == words
    decreases |words|
  {
    if |words| == 1 {
      SplitWord(words[0]);
    } else if |words| > 1 {
      var w := words[0];
      var rest := Join(words[1..]);
      var s := w + " " + rest;
      assert s[..|w|] == w;
      WordLengthAt(s, |w|);
      assert s[|w|..][1..] == rest;
      SplitJoin(words[1..]);
      assert words == [w] + words[1..];
    }
  }

  /** Whitespace separates: splitting `a + [c] + b` at a whitespace `c`
      splits the two sides independently. */
  lemma {:induction false} SplitAtSpace(a: string, c: char, b: string)
    requires IsSpace(c)
    ensures Split(a + [c] + b) == Split(a) + Split(b)
    decreases |a|
  {
    var s := a + [c] + b;
    if a == [] {
      assert s[1..] == b;
    } else if IsSpace(a[0]) {
      assert s[1..] == a[1..] + [c] + b;
      SplitAtSpace(a[1..], c, b);
    } else {
      var n := WordLength(a);
      assert s[..n] == a[..n];
      assert n < |a| ==> s[n] == a[n];
      assert n == |a| ==> s[n] == c;
      WordLengthAt(s, n);
      assert s[n..] == a[n..] + [c] + b;
      SplitAtSpace(a[n..], c, b);
    }
  }

  /** The characters `split()` keeps are exactly the non-whitespace ones. */
  function NonSpaceChars(s: string): (r: string)
    ensures NoSpace(r)
    ensures |r| <= |s|
    decreases |s|
  {
    if s == [] then []
    else (if IsSpace(s[0]) then [] else [s[0]]) + NonSpaceChars(s[1..])
  }

  function Concat(words: seq<string>): string
    decreases |words|
  {
    if words == [] then [] else words[0] + Concat(words[1..])
  }

  lemma {:induction false} NonSpaceCharsAppend(a: string, b: string)
    ensures NonSpaceChars(a + b) == NonSpaceChars(a) + NonSpaceChars(b)
    decreases |a|
  {
    if a != [] {
      assert (a + b)[1..] == a[1..] + b;
      NonSpaceCharsAppend(a[1..], b);
    } else {
      assert a + b == b;
    }
  }

  lemma {:induction false} NonSpaceCharsOfWord(w: string)
    requires NoSpace(w)
    ensures NonSpaceChars(w) == w
    decreases |w|
  {
    if w != [] {
      NonSpaceCharsOfWord(w[1..]);
    }
  }

  /** `split()` loses only whitespace: the concatenated words are the
      non-whitespace characters of `s`, in order. */
  lemma {:induction false} SplitKeepsNonSpace(s: string)
    ensures Concat(Split(s)) == NonSpaceChars(s)
    decreases |s|
  {
    if s == [] {
    } else if IsSpace(s[0]) {
      SplitKeepsNonSpace(s[1..]);
    } else {
      var n := WordLength(s);
      SplitKeepsNonSpace(s[n..]);
      var words := [s[..n]] + Split(s[n..]);
      assert words[1..] == Split(s[n..]);
      NonSpaceCharsOfWord(s[..n]);
      NonSpaceCharsAppend(s[..n], s[n..]);
      assert s[..n] + s[n..] == s;
    }
  }

  // -------------------------------------------------------------- substring

  /** `sub` occurs in `s` starting at index `i`. */
  predicate OccursAt(s: string, sub: string, i: int) {
    0 <= i && i + |sub| <= |s| && s[i..i + |sub|] == sub
  }

  lemma OccursShift(s: string, sub: string)
    requires s != []
    ensures forall i :: 0 <= i ==> (OccursAt(s[1..], sub, i) <==> OccursAt(s, sub, i + 1))
  {
    forall i | 0 <= i
      ensures OccursAt(s[1..], sub, i) <==> OccursAt(s, sub, i + 1)
    {
      if 0 <= i && i + |sub| <= |s| - 1 {
        assert s[1..][i..i + |sub|] == s[i + 1..i + 1 + |sub|];
      }
    }
  }

  /** Python's `sub in s` on strings: a substring test, not a word test. */
  function Contains(s: string, sub: string): (r: bool)
    ensures r <==> exists i :: OccursAt(s, sub, i)
    decreases |s|
  {
    if |sub| > |s| then
      assert forall i :: !OccursAt(s, sub, i);
      false
    else if s[..|sub|] == sub then
      assert OccursAt(s, sub, 0);
      true
    else
      OccursShift(s, sub);
      assert forall i :: OccursAt(s, sub, i) ==> i == 0 || OccursAt(s[1..], sub, i - 1);
      Contains(s[1..], sub)
  }

  /** A string lacking one of the characters of `sub` does not contain it. */
  lemma NotContainedWithoutChar(s: string, sub: string, j: nat)
    requires j < |sub| && sub[j] !in s
    ensures !Contains(s, sub)
  {
    forall i
      ensures !OccursAt(s, sub, i)
    {
      if 0 <= i && i + |sub| <= |s| {
        assert s[i..i + |sub|][j] == s[i + j];
      }
    }
  }

  // ---------------------------------------------------------------- numbers

  predicate IsDigit(c: char) {
    '0' <= c <= '9'
  }

  predicate AllDigits(s: string) {
    forall k :: 0 <= k < |s| ==> IsDigit(s[k])
  }

  function DigitChar(d: nat): (c: char)
    requires d < 10
    ensures IsDigit(c)
  {
    (48 + d) as char
  }

  function DigitValue(c: char): int {
    c as int - 48
  }

  /** `str(n)` for a non-negative integer: decimal, no leading zeros. */
  function Decimal(n: nat): (s: string)
    ensures 1 <= |s| && AllDigits(s)
    ensures s[0] == '0' ==> n == 0 && s == "0"
    ensures n < 10 ==> |s| == 1
    ensures n < 100 ==> |s| <= 2
    ensures n < 1000 ==> |s| <= 3
    decreases n
  {
    if n < 10 then [DigitChar(n)] else Decimal(n / 10) + [DigitChar(n % 10)]
  }

  /** Reads a string of decimal digits back as a number. */
  function ParseDecimal(s: string): int
    decreases |s|
  {
    if s == [] then 0 else 10 * ParseDecimal(s[..|s| - 1]) + DigitValue(s[|s| - 1])
  }

  /** Reading `str(n)` back gives `n`. */
  lemma {:induction false} ParseDecimalOfDecimal(n: nat)
    ensures ParseDecimal(Decimal(n)) == n
    decreases n
  {
    if n >= 10 {
      var s := Decimal(n);
      assert s[..|s| - 1] == Decimal(n / 10);
      ParseDecimalOfDecimal(n / 10);
    }
  }

  /** Distinct numbers print differently. */
  lemma DecimalInjective(a: nat, b: nat)
    requires Decimal(a) == Decimal(b)
    ensures a == b
  {
    ParseDecimalOfDecimal(a);
    ParseDecimalOfDecimal(b);
  }

  /** `str(i)` for any integer, with a minus sign for negatives. */
  function IntToString(i: int): (s: string)
    ensures s != []
    ensures i >= 0 ==> s == Decimal(i)
    ensures i < 0 ==> s[0] == '-'
  {
    if i < 0 then "-" + Decimal(-i) else Decimal(i)
  }

  /** Distinct integers print differently: the sign and the digits can be
      read back. */
  lemma IntToStringInjective(a: int, b: int)
    requires IntToString(a) == IntToString(b)
    ensures a == b
  {
    if a < 0 && b < 0 {
      assert IntToString(a)[1..] == Decimal(-a) && IntToString(b)[1..] == Decimal(-b);
      DecimalInjective(-a, -b);
    } else if a >= 0 && b >= 0 {
      DecimalInjective(a, b);
    }
  }
}
