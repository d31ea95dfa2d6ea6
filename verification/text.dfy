/** Python `str` operations the crawler relies on, over `seq<char>`
    (Dafny's `char` is a Unicode scalar value, as a Python code point). */
module Text {
  import opened Wrappers

  /** `str.isspace()`, which is also what `\s` matches in a `str` pattern:
      the characters of bidirectional class WS, B or S or category Zs. */
  predicate IsSpace(c: char) {
    || ('\U{0009}' <= c <= '\U{000D}')
    || ('\U{001C}' <= c <= '\U{001F}')
    || c == ' ' || c == '\U{0085}' || c == '\U{00A0}' || c == '\U{1680}'
    || ('\U{2000}' <= c <= '\U{200A}')
    || c == '\U{2028}' || c == '\U{2029}' || c == '\U{202F}'
    || c == '\U{205F}' || c == '\U{3000}'
  }

  /** Python falsiness of a text that may be missing (`None` or `""`). */
  predicate Falsy(s: Option<string>) {
    s.None? || s.value == ""
  }

  /** `s.startswith(p)` */
  predicate StartsWith(s: string, p: string) {
    |p| <= |s| && s[..|p|] == p
  }

  /** `s.endswith(p)` */
  predicate EndsWith(s: string, p: string) {
    |p| <= |s| && s[|s| - |p|..] == p
  }

  /** `sub in s` */
  predicate Contains(s: string, sub: string)
    decreases |s|
  {
    StartsWith(s, sub) || (|s| > 0 && Contains(s[1..], sub))
  }

  /** The number of whitespace characters `s.lstrip()` removes. */
  function LeadingSpaces(s: string): (n: nat)
    ensures n <= |s|
    ensures forall i :: 0 <= i < n ==> IsSpace(s[i])
    ensures n < |s| ==> !IsSpace(s[n])
  {
    if |s| > 0 && IsSpace(s[0]) then 1 + LeadingSpaces(s[1..]) else 0
  }

  /** Where `s.rstrip()` cuts `s`: no whitespace at or after it, and the
      character just before it (if at or after `lo`) is not whitespace. */
  function TrailingCut(s: string, lo: nat): (n: nat)
    requires lo <= |s|
    ensures lo <= n <= |s|
    ensures forall i :: n <= i < |s| ==> IsSpace(s[i])
    ensures n > lo ==> !IsSpace(s[n - 1])
    decreases |s|
  {
    if |s| > lo && IsSpace(s[|s| - 1]) then
      var t := s[..|s| - 1];
      var n := TrailingCut(t, lo);
      assert forall i :: n <= i < |t| ==> s[i] == t[i];
      assert n > lo ==> s[n - 1] == t[n - 1];
      n
    else |s|
  }

  /** `s.strip()`: the slice of `s` between its leading and trailing
      whitespace. */
  function Strip(s: string): (r: string)
    ensures |r| <= |s|
    ensures |r| > 0 ==> !IsSpace(r[0]) && !IsSpace(r[|r| - 1])
    ensures r == s[LeadingSpaces(s)..TrailingCut(s, LeadingSpaces(s))]
  {
    s[LeadingSpaces(s)..TrailingCut(s, LeadingSpaces(s))]
  }

  /** `sep.join(parts)` */
  function Join(sep: string, parts: seq<string>): string {
    if |parts| == 0 then ""
    else if |parts| == 1 then parts[0]
    else parts[0] + sep + Join(sep, parts[1..])
  }

  /** `xs[:n]` with Python's slice rules: a negative `n` counts from the end,
      and `None` (no bound) keeps everything. */
  function SlicePrefix<T>(xs: seq<T>, n: Option<int>): (r: seq<T>)
    ensures |r| <= |xs| && r == xs[..|r|]
    ensures n.Some? && n.value >= 0 ==> |r| == if n.value < |xs| then n.value else |xs|
    ensures n.Some? && n.value < 0 ==> |r| == if |xs| + n.value > 0 then |xs| + n.value else 0
    ensures n.None? ==> r == xs
  {
    match n
    case None => xs
    case Some(k) =>
      if k >= 0 then (if k < |xs| then xs[..k] else xs)
      else (if |xs| + k > 0 then xs[..|xs| + k] else [])
  }

  lemma {:induction false} ContainsAt(s: string, sub: string, i: int)
    requires 0 <= i <= |s| - |sub| && s[i..i + |sub|] == sub
    ensures Contains(s, sub)
    decreases i
  {
    if i > 0 {
      assert s[1..][i - 1..i - 1 + |sub|] == sub;
      ContainsAt(s[1..], sub, i - 1);
    }
  }

  lemma {:induction false} ContainsAfter(pre: string, s: string, sub: string)
    requires Contains(s, sub)
    ensures Contains(pre + s, sub)
    decreases |pre|
  {
    if |pre| > 0 {
      assert (pre + s)[1..] == pre[1..] + s;
      ContainsAfter(pre[1..], s, sub);
    } else {
      assert pre + s == s;
    }
  }

  /** Every character of a contained substring occurs in the text. */
  lemma {:induction false} ContainedCharsOccur(s: string, sub: string, j: int)
    requires Contains(s, sub) && 0 <= j < |sub|
    ensures sub[j] in s
    decreases |s|
  {
    if StartsWith(s, sub) {
      assert s[j] == s[..|sub|][j];
    } else {
      ContainedCharsOccur(s[1..], sub, j);
      assert sub[j] in s[1..];
    }
  }

  /** A text lacking one character of `sub` does not contain `sub`. */
  lemma MissingCharNotContained(s: string, sub: string, j: int)
    requires 0 <= j < |sub| && sub[j] !in s
    ensures !Contains(s, sub)
  {
    if Contains(s, sub) {
      ContainedCharsOccur(s, sub, j);
    }
  }

  /** The position of the first `c` in `s`, or `|s|` if there is none. */
  function IndexOf(s: string, c: char): (k: nat)
    ensures k <= |s|
    ensures forall j :: 0 <= j < k ==> s[j] != c
    ensures k < |s| ==> s[k] == c
  {
    if |s| == 0 then 0
    else if s[0] == c then 0
    else 1 + IndexOf(s[1..], c)
  }

  /** The first `c` is at `k` when `s[k]` is `c` and no earlier character
      is. */
  lemma {:induction false} IndexOfAt(s: string, c: char, k: nat)
    requires k < |s| && s[k] == c
    requires forall j :: 0 <= j < k ==> s[j] != c
    ensures IndexOf(s, c) == k
    decreases k
  {
    if k > 0 {
      assert s[0] != c;
      var t := s[1..];
      assert forall j :: 0 <= j < k - 1 ==> t[j] == s[j + 1];
      IndexOfAt(t, c, k - 1);
    }
  }

  /** `s.split(c)` for a one-character separator: the pieces between the
      separators, empty ones included. */
  function Split(s: string, c: char): (r: seq<string>)
    ensures |r| >= 1
    decreases |s|
  {
    var k := IndexOf(s, c);
    if k == |s| then [s] else [s[..k]] + Split(s[k + 1..], c)
  }

  lemma JoinCons(sep: string, first: string, rest: seq<string>)
    requires |rest| >= 1
    ensures Join(sep, [first] + rest) == first + sep + Join(sep, rest)
  {
    assert ([first] + rest)[1..] == rest;
  }

  /** Splitting and joining again with the same separator gives the text
      back. */
  lemma {:induction false} JoinSplit(s: string, c: char)
    ensures Join([c], Split(s, c)) == s
    decreases |s|
  {
    var k := IndexOf(s, c);
    if k < |s| {
      var tail := s[k + 1..];
      var rest := Split(tail, c);
      assert Split(s, c) == [s[..k]] + rest;
      JoinSplit(tail, c);
      JoinCons([c], s[..k], rest);
      assert s == s[..k] + [c] + tail;
    } else {
      assert Split(s, c) == [s];
    }
  }

  /** A text whose every line is followed by a newline, as written one
      `write(line + "\n")` at a time. */
  function Terminated(lines: seq<string>): string {
    if |lines| == 0 then "" else lines[0] + "\n" + Terminated(lines[1..])
  }

  /** The lines of a text whose lines all end in a newline, as a reader of
      the file splits them. */
  function Lines(s: string): seq<string>
    decreases |s|
  {
    if |s| == 0 then []
    else
      var k := IndexOf(s, '\n');
      if k == |s| then [s] else [s[..k]] + Lines(s[k + 1..])
  }

  lemma LinesCons(x: string, rest: string)
    requires '\n' !in x
    ensures Lines(x + "\n" + rest) == [x] + Lines(rest)
  {
    var s := x + "\n" + rest;
    var k := IndexOf(s, '\n');
    forall j | 0 <= j < |x| ensures s[j] != '\n' {
      assert s[j] == x[j];
    }
    assert s[|x|] == '\n';
    assert k == |x|;
    assert s[..k] == x && s[k + 1..] == rest;
  }

  /** Writing lines that hold no newline and reading them back gives the
      same lines. */
  lemma {:induction false} LinesOfTerminated(lines: seq<string>)
    requires forall i :: 0 <= i < |lines| ==> '\n' !in lines[i]
    ensures Lines(Terminated(lines)) == lines
    decreases |lines|
  {
    if |lines| > 0 {
      assert forall i :: 0 <= i < |lines[1..]| ==> lines[1..][i] == lines[i + 1];
      LinesOfTerminated(lines[1..]);
      LinesCons(lines[0], Terminated(lines[1..]));
    }
  }

  /** Joining pieces that hold no separator and splitting again gives the
      pieces back. */
  lemma {:induction false} SplitJoin(parts: seq<string>, c: char)
    requires |parts| >= 1
    requires forall i :: 0 <= i < |parts| ==> c !in parts[i]
    ensures Split(Join([c], parts), c) == parts
    decreases |parts|
  {
    var s := Join([c], parts);
    var k := |parts[0]|;
    if |parts| == 1 {
      assert IndexOf(s, c) == k;
    } else {
      var rest := parts[1..];
      assert parts == [parts[0]] + rest;
      JoinCons([c], parts[0], rest);
      assert forall j :: 0 <= j < k ==> s[j] == parts[0][j];
      assert s[k] == c;
      assert IndexOf(s, c) == k;
      assert s[..k] == parts[0];
      assert s[k + 1..] == Join([c], rest);
      assert Split(s, c) == [parts[0]] + Split(Join([c], rest), c);
      assert forall i :: 0 <= i < |rest| ==> rest[i] == parts[i + 1];
      SplitJoin(rest, c);
    }
  }
}
