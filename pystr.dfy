/**
 * The Python string operations the scraper applies to scraped text:
 * `str.strip()`, `str.replace(c, rep)` for a one-character `c`, and
 * `str.split(sep)` (with the first-occurrence search it is built on).
 */
module PyStr {
  import opened Wrappers

  /** Python's `str.isspace()` for one character: the characters `str.strip()` removes. */
  predicate IsSpace(c: char) {
    var n := c as int;
    (0x09 <= n <= 0x0D) || (0x1C <= n <= 0x20) || n == 0x85 || n == 0xA0 || n == 0x1680
    || (0x2000 <= n <= 0x200A) || n == 0x2028 || n == 0x2029 || n == 0x202F
    || n == 0x205F || n == 0x3000
  }

  predicate AllSpace(s: string) {
    forall i :: 0 <= i < |s| ==> IsSpace(s[i])
  }

  /** Number of leading whitespace characters of `s`. */
  function LeadingSpaces(s: string): (n: nat)
    ensures n <= |s|
    ensures forall k :: 0 <= k < n ==> IsSpace(s[k])
    ensures n < |s| ==> !IsSpace(s[n])
  {
    if s == [] || !IsSpace(s[0]) then 0 else 1 + LeadingSpaces(s[1..])
  }

  /** Number of trailing whitespace characters of `s`. */
  function TrailingSpaces(s: string): (n: nat)
    ensures n <= |s|
    ensures forall k :: |s| - n <= k < |s| ==> IsSpace(s[k])
    ensures n < |s| ==> !IsSpace(s[|s| - 1 - n])
  {
    if s == [] || !IsSpace(s[|s| - 1]) then 0 else 1 + TrailingSpaces(s[..|s| - 1])
  }

  /** Neither begins nor ends with whitespace: what `Strip` gives. */
  predicate Trimmed(s: string) {
    s == [] || (!IsSpace(s[0]) && !IsSpace(s[|s| - 1]))
  }

  /** Python's `s.strip()`: `s` without its leading and trailing whitespace. */
  function Strip(s: string): (r: string)
    ensures |r| <= |s|
    ensures Trimmed(r)
  {
    var t := s[LeadingSpaces(s)..];
    t[..|t| - TrailingSpaces(t)]
  }

  /**
   * `Strip` is determined by its shape: if `s` is whitespace, then `s[i..j]`, then whitespace,
   * and `s[i..j]` is empty or neither begins nor ends with whitespace, then it is `Strip(s)`.
   */
  lemma StripUnique(s: string, i: nat, j: nat)
    requires i <= j <= |s|
    requires forall k :: 0 <= k < i ==> IsSpace(s[k])
    requires forall k :: j <= k < |s| ==> IsSpace(s[k])
    requires i == j || (!IsSpace(s[i]) && !IsSpace(s[j - 1]))
    ensures Strip(s) == s[i..j]
  {
    var n := LeadingSpaces(s);
    var t := s[n..];
    var m := TrailingSpaces(t);
    if i == j {
      assert n == |s|;
    } else {
      assert n == i;
      assert t[j - 1 - i] == s[j - 1];
      if m < |t| {
        assert t[|t| - 1 - m] == s[|s| - 1 - m];
      }
      assert m == |s| - j;
      assert t[..|t| - m] == s[i..j];
    }
  }

  /**
   * `Strip(s)` is a slice `s[i..j]` with nothing but whitespace around it.
   */
  lemma StripSlice(s: string) returns (i: nat, j: nat)
    ensures i <= j <= |s| && Strip(s) == s[i..j]
    ensures AllSpace(s[..i]) && AllSpace(s[j..])
  {
    i := LeadingSpaces(s);
    var t := s[i..];
    var m := TrailingSpaces(t);
    j := |s| - m;
    assert t[..|t| - m] == s[i..j];
    assert AllSpace(s[..i]);
    assert AllSpace(s[j..]) by {
      forall k | 0 <= k < |s| - j ensures IsSpace(s[j..][k]) {
        assert s[j..][k] == t[|t| - m + k];
      }
    }
  }

  /** Stripping twice is stripping once. */
  lemma StripIdempotent(s: string)
    ensures Strip(Strip(s)) == Strip(s)
  {
    var r := Strip(s);
    StripUnique(r, 0, |r|);
    assert r[0..|r|] == r;
  }

  /** Whitespace around a string does not change what `Strip` gives. */
  lemma StripPadded(left: string, x: string, right: string)
    requires AllSpace(left) && AllSpace(right)
    ensures Strip(left + x + right) == Strip(x)
  {
    StripPadRight(x, right);
    StripPadLeft(left, x + right);
    assert left + x + right == left + (x + right);
  }

  lemma StripPadLeft(left: string, x: string)
    requires AllSpace(left)
    ensures Strip(left + x) == Strip(x)
  {
    var s := left + x;
    var a, b := StripSlice(x);
    var i, j := |left| + a, |left| + b;
    forall k | 0 <= k < i ensures IsSpace(s[k]) {
      if k >= |left| {
        assert s[k] == x[..a][k - |left|];
      }
    }
    forall k | j <= k < |s| ensures IsSpace(s[k]) {
      assert s[k] == x[b..][k - j];
    }
    assert s[i..j] == x[a..b];
    StripUnique(s, i, j);
  }

  lemma StripPadRight(x: string, right: string)
    requires AllSpace(right)
    ensures Strip(x + right) == Strip(x)
  {
    var s := x + right;
    var a, b := StripSlice(x);
    forall k | 0 <= k < a ensures IsSpace(s[k]) {
      assert s[k] == x[..a][k];
    }
    forall k | b <= k < |s| ensures IsSpace(s[k]) {
      if k < |x| {
        assert s[k] == x[b..][k - b];
      }
    }
    assert s[a..b] == x[a..b];
    StripUnique(s, a, b);
  }

  /** Stripping only removes characters, so it never brings a character in. */
  lemma StripSubset(s: string, c: char)
    requires c in Strip(s)
    ensures c in s
  {
    var i, j := StripSlice(s);
    var k :| 0 <= k < j - i && s[i..j][k] == c;
    assert s[i + k] == c;
  }

  lemma StripKeepsOut(s: string, c: char)
    ensures c !in s ==> c !in Strip(s)
  {
    if c in Strip(s) {
      StripSubset(s, c);
    }
  }

  /** A string without surrounding whitespace is its own strip. */
  lemma StripNoop(s: string)
    requires Trimmed(s)
    ensures Strip(s) == s
  {
    StripUnique(s, 0, |s|);
    assert s[0..|s|] == s;
  }

  /** Python's `s.replace(c, rep)` for a one-character `c`: every `c` becomes `rep`. */
  function ReplaceChar(s: string, c: char, rep: string): (r: string)
  {
    if s == [] then [] else (if s[0] == c then rep else [s[0]]) + ReplaceChar(s[1..], c, rep)
  }

  /** `s.replace(c, "")` removes every `c` and keeps every other character as often as it occurs. */
  lemma {:induction false} RemoveChar(s: string, c: char)
    ensures c !in ReplaceChar(s, c, [])
    ensures forall x :: x != c ==> multiset(ReplaceChar(s, c, []))[x] == multiset(s)[x]
  {
    if s != [] {
      RemoveChar(s[1..], c);
      assert s == [s[0]] + s[1..];
    }
  }

  /** Replacing a character by one character keeps the length and maps position by position. */
  lemma {:induction false} ReplaceCharPointwise(s: string, c: char, d: char)
    ensures |ReplaceChar(s, c, [d])| == |s|
    ensures forall i :: 0 <= i < |s| ==> ReplaceChar(s, c, [d])[i] == if s[i] == c then d else s[i]
  {
    if s != [] {
      ReplaceCharPointwise(s[1..], c, d);
    }
  }

  /** Replacement works piece by piece on a concatenation. */
  lemma {:induction false} ReplaceCharConcat(a: string, b: string, c: char, rep: string)
    ensures ReplaceChar(a + b, c, rep) == ReplaceChar(a, c, rep) + ReplaceChar(b, c, rep)
  {
    if a != [] {
      ReplaceCharConcat(a[1..], b, c, rep);
      var head := if a[0] == c then rep else [a[0]];
      calc {
        ReplaceChar(a + b, c, rep);
        { assert (a + b)[0] == a[0]; assert (a + b)[1..] == a[1..] + b; }
        head + ReplaceChar(a[1..] + b, c, rep);
        head + (ReplaceChar(a[1..], c, rep) + ReplaceChar(b, c, rep));
        (head + ReplaceChar(a[1..], c, rep)) + ReplaceChar(b, c, rep);
      }
    } else {
      assert a + b == b;
    }
  }

  /** Replacing a character the string does not hold leaves it as it is. */
  lemma {:induction false} ReplaceCharAbsent(s: string, c: char, rep: string)
    requires c !in s
    ensures ReplaceChar(s, c, rep) == s
  {
    if s != [] {
      assert c !in s[1..];
      ReplaceCharAbsent(s[1..], c, rep);
    }
  }

  /** Replacing a non-whitespace character leaves a whitespace-only string as it is. */
  lemma {:induction false} ReplaceCharSpaces(s: string, c: char, rep: string)
    requires AllSpace(s) && !IsSpace(c)
    ensures ReplaceChar(s, c, rep) == s
  {
    if s != [] {
      ReplaceCharSpaces(s[1..], c, rep);
    }
  }

  /**
   * Removing a non-whitespace character before or after stripping gives the same text
   * once the result is stripped again: the two orders differ only in surrounding whitespace.
   */
  lemma ReplaceCommutesWithStrip(s: string, c: char, rep: string)
    requires !IsSpace(c)
    ensures Strip(ReplaceChar(Strip(s), c, rep)) == Strip(ReplaceChar(s, c, rep))
  {
    var i, j := StripSlice(s);
    assert s == s[..i] + s[i..j] + s[j..];
    ReplaceCharConcat(s[..i] + s[i..j], s[j..], c, rep);
    ReplaceCharConcat(s[..i], s[i..j], c, rep);
    ReplaceCharSpaces(s[..i], c, rep);
    ReplaceCharSpaces(s[j..], c, rep);
    StripPadded(s[..i], ReplaceChar(s[i..j], c, rep), s[j..]);
  }

  /** `p` occurs in `s` at index `i`. */
  predicate OccursAt(s: string, p: string, i: int) {
    0 <= i && i + |p| <= |s| && s[i..i + |p|] == p
  }

  predicate Contains(s: string, p: string) {
    exists i :: 0 <= i <= |s| && OccursAt(s, p, i)
  }

  /** What occurs in a slice of `s` occurs in `s`. */
  lemma ContainsSlice(s: string, p: string, a: nat, b: nat)
    requires a <= b <= |s| && Contains(s[a..b], p)
    ensures Contains(s, p)
  {
    var i :| 0 <= i <= |s[a..b]| && OccursAt(s[a..b], p, i);
    assert i + |p| <= b - a;
    forall k | 0 <= k < |p| ensures s[a + i..a + i + |p|][k] == p[k] {
      assert s[a..b][i..i + |p|][k] == s[a + i + k];
    }
    assert OccursAt(s, p, a + i);
  }

  /** The index of the first occurrence of `p` in `s`, the search `str.split` and `str.find` make. */
  function Find(s: string, p: string): (r: Option<nat>)
    ensures r.Some? ==> OccursAt(s, p, r.value)
    ensures r.Some? ==> forall k :: 0 <= k < r.value ==> !OccursAt(s, p, k)
    ensures r.None? ==> forall k :: !OccursAt(s, p, k)
  {
    if |s| < |p| then None
    else if s[..|p|] == p then Some(0)
    else
      match Find(s[1..], p)
      case None =>
        assert forall k :: OccursAt(s, p, k) ==> k == 0 || OccursAt(s[1..], p, k - 1);
        None
      case Some(k) =>
        assert forall m :: 0 < m <= k ==> (OccursAt(s, p, m) ==> OccursAt(s[1..], p, m - 1));
        Some(k + 1)
  }

  /** Python's `s.split(sep)` for a non-empty `sep` (Python refuses an empty one). */
  function Split(s: string, sep: string): (r: seq<string>)
    requires sep != []
    ensures |r| >= 1
    decreases |s|
  {
    match Find(s, sep)
    case None => [s]
    case Some(i) => [s[..i]] + Split(s[i + |sep|..], sep)
  }

  /** The text of `s` before the first `sep`, or all of `s` when there is none. */
  function Upto(s: string, sep: string): (r: string)
    requires sep != []
    ensures |r| <= |s| && r == s[..|r|]
    ensures Contains(s, sep) <==> |r| < |s|
    ensures !Contains(r, sep)
    ensures Find(s, sep).Some? ==> |r| == Find(s, sep).value
  {
    match Find(s, sep)
    case None => s
    case Some(i) =>
      assert !Contains(s[..i], sep) by {
        forall k | OccursAt(s[..i], sep, k) ensures OccursAt(s, sep, k) && k < i {
          assert s[..i][k..k + |sep|] == s[k..k + |sep|];
        }
      }
      s[..i]
  }

  /** The text of `s` after its first `sep`, if there is one. */
  function After(s: string, sep: string): (r: Option<string>)
    requires sep != []
    ensures r.Some? <==> Contains(s, sep)
    ensures r.Some? ==> |r.value| + |sep| <= |s| && r.value == s[|s| - |r.value|..]
    ensures r.Some? ==> s == Upto(s, sep) + sep + r.value
  {
    match Find(s, sep)
    case None => None
    case Some(i) =>
      assert s == s[..i] + s[i..i + |sep|] + s[i + |sep|..];
      Some(s[i + |sep|..])
  }

  /** `s.split(sep)[0]` is the text before the first `sep`. */
  lemma SplitFirst(s: string, sep: string)
    requires sep != []
    ensures Split(s, sep)[0] == Upto(s, sep)
  {
  }

  /**
   * `s.split(sep)[1]` exists exactly when `sep` occurs, and is the text after the first
   * `sep` up to the next one.
   */
  lemma SplitSecond(s: string, sep: string)
    requires sep != []
    ensures |Split(s, sep)| >= 2 <==> Contains(s, sep)
    ensures Contains(s, sep) ==> Split(s, sep)[1] == Upto(After(s, sep).value, sep)
  {
    match Find(s, sep)
    case None =>
    case Some(i) => SplitFirst(s[i + |sep|..], sep);
  }

  /**
   * `s.split(sep)` has exactly two parts, as a two-name unpacking demands, exactly when
   * `sep` occurs once; the parts are then the text before and after it.
   */
  lemma SplitPair(s: string, sep: string)
    requires sep != []
    ensures |Split(s, sep)| == 2 <==> Contains(s, sep) && !Contains(After(s, sep).value, sep)
    ensures |Split(s, sep)| == 2 ==> Split(s, sep) == [Upto(s, sep), After(s, sep).value]
  {
    match Find(s, sep)
    case None =>
    case Some(i) =>
      var rest := s[i + |sep|..];
      assert After(s, sep) == Some(rest);
      assert Split(s, sep) == [s[..i]] + Split(rest, sep);
      match Find(rest, sep)
      case None =>
        assert Split(rest, sep) == [rest];
        assert !Contains(rest, sep);
      case Some(k) =>
        assert OccursAt(rest, sep, k);
        assert |Split(rest, sep)| >= 2;
  }

  /** `parts` joined with `sep` between consecutive parts: Python's `sep.join(parts)`. */
  function Join(parts: seq<string>, sep: string): string
    requires parts != []
  {
    if |parts| == 1 then parts[0] else parts[0] + sep + Join(parts[1..], sep)
  }

  /** `split` loses nothing: joining the parts with the separator gives back the string. */
  lemma {:induction false} SplitJoin(s: string, sep: string)
    requires sep != []
    ensures Join(Split(s, sep), sep) == s
    decreases |s|
  {
    match Find(s, sep)
    case None =>
    case Some(i) =>
      var rest := s[i + |sep|..];
      var parts := Split(rest, sep);
      SplitJoin(rest, sep);
      assert Split(s, sep) == [s[..i]] + parts;
      assert ([s[..i]] + parts)[1..] == parts;
      assert Join(Split(s, sep), sep) == s[..i] + sep + rest;
      assert s[i..i + |sep|] == sep;
      assert s == s[..i] + s[i..i + |sep|] + rest;
  }

  /** No part of a split contains the separator. */
  lemma {:induction false} SplitPartsFree(s: string, sep: string)
    requires sep != []
    ensures forall k :: 0 <= k < |Split(s, sep)| ==> !Contains(Split(s, sep)[k], sep)
    decreases |s|
  {
    match Find(s, sep)
    case None =>
    case Some(i) =>
      var rest := s[i + |sep|..];
      SplitPartsFree(rest, sep);
      assert Upto(s, sep) == s[..i];
      var parts := Split(s, sep);
      assert parts == [s[..i]] + Split(rest, sep);
      forall k | 0 <= k < |parts| ensures !Contains(parts[k], sep) {
        if k > 0 {
          assert parts[k] == Split(rest, sep)[k - 1];
        }
      }
  }

  /** Python's slice `xs[:n]`: the first `n` elements, or all but the last `-n` when `n` is negative. */
  function SliceTo<T>(xs: seq<T>, n: int): (r: seq<T>)
    ensures n >= 0 ==> |r| == if n <= |xs| then n else |xs|
    ensures n < 0 ==> |r| == if -n <= |xs| then |xs| + n else 0
    ensures r == xs[..|r|]
  {
    if n >= 0 then (if n <= |xs| then xs[..n] else xs)
    else if -n <= |xs| then xs[..|xs| + n] else []
  }
}
