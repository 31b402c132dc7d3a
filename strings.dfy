/** Character classes and the Python string operations the model relies on:
    strip, split/join on one character, substring search, lower-casing,
    literal replacement and decimal numerals. Characters are compared by code
    point; whitespace, digits and letters are the ASCII ones. */
module Strings {

  /** Python's `str.isspace` / regex `\s` restricted to ASCII. */
  predicate IsSpace(c: char) {
    c == ' ' || c == '\t' || c == '\n' || c == '\r' || c == '\U{000B}' || c == '\U{000C}'
  }

  predicate IsDigit(c: char) { '0' <= c <= '9' }

  predicate IsUpper(c: char) { 'A' <= c <= 'Z' }

  predicate IsLower(c: char) { 'a' <= c <= 'z' }

  predicate AllDigits(s: string) { forall i | 0 <= i < |s| :: IsDigit(s[i]) }

  /** A non-empty run of decimal digits, what `\d+` matches. */
  predicate IsNumeral(s: string) { |s| > 0 && AllDigits(s) }

  /** Length of the run of decimal digits that starts at `i`. */
  function DigitRun(s: string, i: nat): (n: nat)
    requires i <= |s|
    ensures i + n <= |s|
    decreases |s| - i
  {
    if i < |s| && IsDigit(s[i]) then 1 + DigitRun(s, i + 1) else 0
  }

  /** A digit run holds digits only. */
  lemma {:induction false} DigitRunDigits(s: string, i: nat)
    requires i <= |s|
    ensures forall k | i <= k < i + DigitRun(s, i) :: IsDigit(s[k])
    ensures i + DigitRun(s, i) < |s| ==> !IsDigit(s[i + DigitRun(s, i)])
    decreases |s| - i
  {
    if i < |s| && IsDigit(s[i]) {
      DigitRunDigits(s, i + 1);
    }
  }

  /** A non-empty digit run is a numeral. */
  lemma DigitRunNumeral(s: string, i: nat)
    requires i <= |s| && DigitRun(s, i) > 0
    ensures IsNumeral(s[i..i + DigitRun(s, i)])
  {
    DigitRunDigits(s, i);
    var r := s[i..i + DigitRun(s, i)];
    assert forall k | 0 <= k < |r| :: r[k] == s[i + k];
  }

  /** Length of the run of whitespace that starts at `i` (what `\s*` takes). */
  function SpaceRun(s: string, i: nat): (n: nat)
    requires i <= |s|
    ensures i + n <= |s|
    decreases |s| - i
  {
    if i < |s| && IsSpace(s[i]) then 1 + SpaceRun(s, i + 1) else 0
  }

  /** A whitespace run holds whitespace only, hence no digit. */
  lemma {:induction false} SpaceRunSpaces(s: string, i: nat)
    requires i <= |s|
    ensures forall k | i <= k < i + SpaceRun(s, i) :: IsSpace(s[k]) && !IsDigit(s[k])
    ensures i + SpaceRun(s, i) < |s| ==> !IsSpace(s[i + SpaceRun(s, i)])
    decreases |s| - i
  {
    if i < |s| && IsSpace(s[i]) {
      SpaceRunSpaces(s, i + 1);
    }
  }

  /** Length of the run of `c` characters that starts at `i`. */
  function CharRun(s: string, i: nat, c: char): (n: nat)
    requires i <= |s|
    ensures i + n <= |s|
    decreases |s| - i
  {
    if i < |s| && s[i] == c then 1 + CharRun(s, i + 1, c) else 0
  }

  lemma {:induction false} CharRunChars(s: string, i: nat, c: char)
    requires i <= |s|
    ensures forall k | i <= k < i + CharRun(s, i, c) :: s[k] == c
    ensures i + CharRun(s, i, c) < |s| ==> s[i + CharRun(s, i, c)] != c
    decreases |s| - i
  {
    if i < |s| && s[i] == c {
      CharRunChars(s, i + 1, c);
    }
  }

  /** The digit run from `i` is exactly `d` long when `d` digits follow `i`
      and the next character is not a digit. */
  lemma {:induction false} DigitRunExact(s: string, i: nat, d: nat)
    requires i + d <= |s|
    requires forall k | i <= k < i + d :: IsDigit(s[k])
    requires i + d < |s| ==> !IsDigit(s[i + d])
    ensures DigitRun(s, i) == d
    decreases d
  {
    if d > 0 {
      DigitRunExact(s, i + 1, d - 1);
    }
  }

  /** True when `not s.strip()` holds in Python. */
  predicate IsBlank(s: string) { forall i | 0 <= i < |s| :: IsSpace(s[i]) }

  // ---------------------------------------------------------------- strip

  /** Number of leading whitespace characters. */
  function LeadingSpaces(s: string): (n: nat)
    ensures n <= |s|
    ensures forall i | 0 <= i < n :: IsSpace(s[i])
    ensures n < |s| ==> !IsSpace(s[n])
  {
    if |s| == 0 || !IsSpace(s[0]) then 0 else 1 + LeadingSpaces(s[1..])
  }

  /** Number of trailing whitespace characters. */
  function TrailingSpaces(s: string): (n: nat)
    ensures n <= |s|
    ensures forall i | |s| - n <= i < |s| :: IsSpace(s[i])
    ensures n < |s| ==> !IsSpace(s[|s| - 1 - n])
  {
    if |s| == 0 || !IsSpace(s[|s| - 1]) then 0 else 1 + TrailingSpaces(s[..|s| - 1])
  }

  function StripStart(s: string): nat { LeadingSpaces(s) }

  function StripEnd(s: string): (e: nat)
    ensures StripStart(s) <= e <= |s|
  {
    |s| - TrailingSpaces(s[LeadingSpaces(s)..])
  }

  /** Python's `str.strip()`: the slice of `s` between its leading and its
      trailing whitespace. */
  function Strip(s: string): (r: string)
    ensures r == s[StripStart(s)..StripEnd(s)]
    ensures forall i | 0 <= i < StripStart(s) :: IsSpace(s[i])
    ensures forall i | StripEnd(s) <= i < |s| :: IsSpace(s[i])
    ensures r != [] ==> !IsSpace(r[0]) && !IsSpace(r[|r| - 1])
    ensures r == [] <==> IsBlank(s)
  {
    var t := s[LeadingSpaces(s)..];
    var r := t[..|t| - TrailingSpaces(t)];
    assert r == s[StripStart(s)..StripEnd(s)];
    assert r == [] ==> StripStart(s) == |s| || StripEnd(s) == StripStart(s);
    r
  }

  /** A string that stripping leaves alone starts and ends with ink. */
  lemma StrippedEnds(s: string)
    requires s != [] && s == Strip(s)
    ensures !IsSpace(s[0]) && !IsSpace(s[|s| - 1])
  {
    var a := LeadingSpaces(s);
    var t := s[a..];
    var b := TrailingSpaces(t);
    assert |Strip(s)| == |t| - b;
    assert a == 0 && b == 0;
  }

  /** Stripping a string that has no whitespace at either end changes nothing. */
  lemma StripUnpadded(s: string)
    requires s == [] || (!IsSpace(s[0]) && !IsSpace(s[|s| - 1]))
    ensures Strip(s) == s
  {
  }

  /** Stripping removes exactly the whitespace framing a string whose own
      ends are not whitespace. */
  lemma StripFramed(u: string, x: string, w: string)
    requires IsBlank(u) && IsBlank(w)
    requires x == [] || (!IsSpace(x[0]) && !IsSpace(x[|x| - 1]))
    ensures Strip(u + x + w) == x
  {
    var s := u + x + w;
    if x == [] {
      assert IsBlank(s);
    } else {
      var a := LeadingSpaces(s);
      assert s[|u|] == x[0];
      assert a == |u|;
      var t := s[a..];
      assert t == x + w;
      var b := TrailingSpaces(t);
      assert t[|x| - 1] == x[|x| - 1];
      assert b == |w|;
      assert Strip(s) == t[..|t| - b];
      assert t[..|t| - b] == x;
    }
  }

  /** Python's `str.strip(chars)` for a single character `c`. */
  function StripChar(s: string, c: char): (r: string)
    ensures |r| <= |s|
    ensures r != [] ==> r[0] != c && r[|r| - 1] != c
    ensures forall k | 0 <= k < |r| :: r[k] in s
    decreases |s|
  {
    if |s| > 0 && s[0] == c then StripChar(s[1..], c)
    else if |s| > 0 && s[|s| - 1] == c then StripChar(s[..|s| - 1], c)
    else s
  }

  /** `StripChar` removes exactly the leading and trailing runs of `c`: a
      string framed by one `c` on each side whose inner ends are not `c` loses
      just those two characters. */
  lemma {:induction false} StripCharFramed(inner: string, c: char)
    requires inner != [] && inner[0] != c && inner[|inner| - 1] != c
    ensures StripChar([c] + inner + [c], c) == inner
  {
    var s := [c] + inner + [c];
    assert s[1..] == inner + [c];
    var t := inner + [c];
    assert t[0] != c;
    assert t[..|t| - 1] == inner;
    assert StripChar(inner, c) == inner;
    assert StripChar(t, c) == StripChar(inner, c);
  }

  // ---------------------------------------------------------------- search

  predicate StartsWith(s: string, prefix: string) {
    |prefix| <= |s| && s[..|prefix|] == prefix
  }

  predicate EndsWith(s: string, suffix: string) {
    |suffix| <= |s| && s[|s| - |suffix|..] == suffix
  }

  /** `sub` occurs in `s` starting at index `i`. */
  predicate OccursAt(s: string, sub: string, i: nat) {
    i + |sub| <= |s| && s[i..i + |sub|] == sub
  }

  /** Python's `sub in s`. */
  predicate Contains(s: string, sub: string) {
    exists i: nat | i <= |s| :: OccursAt(s, sub, i)
  }

  /** Python's `s.find(sub, start)`: the first occurrence at or after `start`,
      or -1. */
  function Find(s: string, sub: string, start: nat): (r: int)
    ensures r == -1 || (start <= r && OccursAt(s, sub, r))
    ensures r == -1 ==> forall i: nat | start <= i :: !OccursAt(s, sub, i)
    ensures r >= 0 ==> forall i: nat | start <= i < r :: !OccursAt(s, sub, i)
    decreases |s| + 1 - start
  {
    if start + |sub| > |s| then -1
    else if s[start..start + |sub|] == sub then start
    else Find(s, sub, start + 1)
  }

  /** The search never passes over an occurrence: if `sub` occurs at `k >= start`,
      `Find` returns an occurrence no later than `k`. */
  lemma FindBefore(s: string, sub: string, start: nat, k: nat)
    requires start <= k && OccursAt(s, sub, k)
    ensures 0 <= Find(s, sub, start) <= k
  {
  }

  // ---------------------------------------------------------------- case

  function LowerChar(c: char): char {
    if IsUpper(c) then (c as int + 32) as char else c
  }

  /** Python's `str.lower()` on ASCII letters. */
  function Lower(s: string): (r: string)
    ensures |r| == |s|
    ensures forall i | 0 <= i < |s| :: r[i] == LowerChar(s[i])
  {
    seq(|s|, i requires 0 <= i < |s| => LowerChar(s[i]))
  }

  // ---------------------------------------------------------------- join / split

  /** The concatenation of a sequence of sequences, Python's `"".join`. */
  function Concat<T>(xs: seq<seq<T>>): seq<T> {
    if |xs| == 0 then [] else xs[0] + Concat(xs[1..])
  }

  /** A slice of a slice is a slice. */
  lemma SliceOfSlice<T>(s: seq<T>, a: nat, e: nat, x: nat, y: nat)
    requires a <= e <= |s| && x <= y <= e - a
    ensures s[a..e][x..y] == s[a + x..a + y]
  {
    var t := s[a..e];
    forall i | 0 <= i < y - x ensures t[x..y][i] == s[a + x..a + y][i] {
      assert t[x..y][i] == t[x + i] == s[a + x + i];
    }
  }

  lemma AppendAssoc<T>(a: seq<T>, b: seq<T>, c: seq<T>)
    ensures (a + b) + c == a + (b + c)
  {
  }

  lemma ConcatCons<T>(x: seq<T>, xs: seq<seq<T>>)
    ensures Concat([x] + xs) == x + Concat(xs)
  {
    assert ([x] + xs)[1..] == xs;
  }

  /** An element of the flattened list lies in one of the lists. */
  lemma {:induction false} InConcat<T>(x: T, xs: seq<seq<T>>)
    ensures x in Concat(xs) <==> exists i | 0 <= i < |xs| :: x in xs[i]
  {
    if |xs| > 0 {
      InConcat(x, xs[1..]);
      if x in Concat(xs[1..]) {
        var i :| 0 <= i < |xs[1..]| && x in xs[1..][i];
        assert x in xs[i + 1];
      }
      if exists i | 0 <= i < |xs| :: x in xs[i] {
        var i :| 0 <= i < |xs| && x in xs[i];
        if i > 0 { assert x in xs[1..][i - 1]; }
      }
    }
  }

  /** Python's `sep.join(parts)`. */
  function Join(sep: string, parts: seq<string>): string
  {
    if |parts| == 0 then ""
    else if |parts| == 1 then parts[0]
    else parts[0] + sep + Join(sep, parts[1..])
  }

  lemma JoinAppend(sep: string, parts: seq<string>, p: string)
    ensures Join(sep, parts + [p]) == if parts == [] then p else Join(sep, parts) + sep + p
  {
    if |parts| > 1 {
      assert (parts + [p])[1..] == parts[1..] + [p];
      JoinAppend(sep, parts[1..], p);
    } else if |parts| == 1 {
      assert (parts + [p])[1..] == [p];
    }
  }

  /** Index of the first `c` in `s`, or `|s|` when there is none. */
  function IndexOf(s: string, c: char): (i: nat)
    ensures i <= |s|
    ensures i < |s| ==> s[i] == c
    ensures forall k | 0 <= k < i :: s[k] != c
  {
    if |s| == 0 then 0 else if s[0] == c then 0 else 1 + IndexOf(s[1..], c)
  }

  /** Python's `s.split(c)` for a one-character separator. */
  function Split(s: string, c: char): (parts: seq<string>)
    ensures |parts| >= 1
    ensures forall k | 0 <= k < |parts| :: c !in parts[k]
    decreases |s|
  {
    var i := IndexOf(s, c);
    if i == |s| then [s] else [s[..i]] + Split(s[i + 1..], c)
  }

  /** Joining the pieces of a split with the separator gives back the string. */
  lemma {:induction false} JoinSplit(s: string, c: char)
    ensures Join([c], Split(s, c)) == s
    decreases |s|
  {
    var i := IndexOf(s, c);
    if i < |s| {
      JoinSplit(s[i + 1..], c);
      var rest := Split(s[i + 1..], c);
      assert Split(s, c) == [s[..i]] + rest;
      assert ([s[..i]] + rest)[1..] == rest;
      assert s == s[..i] + [c] + s[i + 1..];
    }
  }

  /** Splitting a join whose parts do not contain the separator gives back the parts. */
  lemma {:induction false} SplitJoin(parts: seq<string>, c: char)
    requires |parts| >= 1
    requires forall k | 0 <= k < |parts| :: c !in parts[k]
    ensures Split(Join([c], parts), c) == parts
  {
    if |parts| == 1 {
      assert IndexOf(parts[0], c) == |parts[0]|;
    } else {
      var s := Join([c], parts);
      assert s == parts[0] + [c] + Join([c], parts[1..]);
      assert IndexOf(s, c) == |parts[0]| by {
        assert s[|parts[0]|] == c;
        assert forall k | 0 <= k < |parts[0]| :: s[k] == parts[0][k];
        IndexOfFirst(s, c, |parts[0]|);
      }
      assert s[..|parts[0]|] == parts[0];
      assert s[|parts[0]| + 1..] == Join([c], parts[1..]);
      SplitJoin(parts[1..], c);
    }
  }

  lemma IndexOfFirst(s: string, c: char, i: nat)
    requires i < |s| && s[i] == c
    requires forall k | 0 <= k < i :: s[k] != c
    ensures IndexOf(s, c) == i
  {
    if i > 0 {
      assert s[0] != c;
      IndexOfFirst(s[1..], c, i - 1);
    }
  }

  // ---------------------------------------------------------------- replace

  /** Python's `s.replace(pat, rep)` for a non-empty `pat`: every
      non-overlapping occurrence, left to right. */
  function ReplaceAll(s: string, pat: string, rep: string): string
    requires |pat| > 0
    decreases |s|
  {
    if |s| == 0 then ""
    else if StartsWith(s, pat) then rep + ReplaceAll(s[|pat|..], pat, rep)
    else [s[0]] + ReplaceAll(s[1..], pat, rep)
  }

  /** Python's `s.replace(str(c), "")`: every `c` deleted. */
  function DeleteChar(s: string, c: char): (r: string)
    ensures c !in r
    ensures |r| <= |s|
  {
    if |s| == 0 then "" else if s[0] == c then DeleteChar(s[1..], c) else [s[0]] + DeleteChar(s[1..], c)
  }

  lemma {:induction false} DeleteCharIsReplace(s: string, c: char)
    ensures DeleteChar(s, c) == ReplaceAll(s, [c], "")
  {
    if |s| > 0 {
      DeleteCharIsReplace(s[1..], c);
      assert StartsWith(s, [c]) <==> s[0] == c;
      assert s[|[c]|..] == s[1..];
    }
  }

  /** Replacing a string that does not occur changes nothing. */
  lemma {:induction false} ReplaceAbsent(s: string, pat: string, rep: string)
    requires |pat| > 0
    requires forall i: nat | i < |s| :: !OccursAt(s, pat, i)
    ensures ReplaceAll(s, pat, rep) == s
    decreases |s|
  {
    if |s| > 0 {
      assert !OccursAt(s, pat, 0);
      assert !StartsWith(s, pat);
      forall i: nat | i < |s[1..]| ensures !OccursAt(s[1..], pat, i) {
        assert !OccursAt(s, pat, i + 1);
        assert i + |pat| <= |s[1..]| ==> s[1..][i..i + |pat|] == s[i + 1..i + 1 + |pat|];
      }
      ReplaceAbsent(s[1..], pat, rep);
    }
  }

  /** A character that occurs neither in the string nor in the replacement
      does not occur in the result. */
  lemma {:induction false} ReplaceAllAvoids(s: string, pat: string, rep: string, c: char)
    requires |pat| > 0
    requires c !in s && c !in rep
    ensures c !in ReplaceAll(s, pat, rep)
    decreases |s|
  {
    if |s| > 0 {
      if StartsWith(s, pat) {
        assert forall k | 0 <= k < |s[|pat|..]| :: s[|pat|..][k] == s[|pat| + k];
        ReplaceAllAvoids(s[|pat|..], pat, rep, c);
      } else {
        assert forall k | 0 <= k < |s[1..]| :: s[1..][k] == s[1 + k];
        ReplaceAllAvoids(s[1..], pat, rep, c);
      }
    }
  }

  // ---------------------------------------------------------------- numerals

  function DigitValue(c: char): nat
    requires IsDigit(c)
  {
    c as int - '0' as int
  }

  function DigitChar(d: nat): (c: char)
    requires d < 10
    ensures IsDigit(c) && DigitValue(c) == d
  {
    ('0' as int + d) as char
  }

  /** Python's `int(s)` on a string of decimal digits (leading zeros allowed). */
  function ParseNat(s: string): nat
    requires AllDigits(s)
  {
    if |s| == 0 then 0 else ParseNat(s[..|s| - 1]) * 10 + DigitValue(s[|s| - 1])
  }

  /** Python's `str(n)` for a natural number. */
  function NatToString(n: nat): (r: string)
    ensures IsNumeral(r)
    ensures r[0] != '0' || n == 0
  {
    if n < 10 then [DigitChar(n)] else NatToString(n / 10) + [DigitChar(n % 10)]
  }

  /** `int(str(n)) == n`. */
  lemma {:induction false} ParseNatToString(n: nat)
    ensures ParseNat(NatToString(n)) == n
  {
    var r := NatToString(n);
    if n >= 10 {
      ParseNatToString(n / 10);
      assert r[..|r| - 1] == NatToString(n / 10);
    }
  }

  /** `str` is injective on the naturals. */
  lemma NatToStringInjective(m: nat, n: nat)
    requires NatToString(m) == NatToString(n)
    ensures m == n
  {
    ParseNatToString(m);
    ParseNatToString(n);
  }
}
