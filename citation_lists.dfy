/** `convert_citations`: every bracket holding two or more comma-separated
    numbers, such as `[1, 2,3]`, becomes one bracket per number, `[1][2][3]`.
    The pattern `\[(\d+(?:\s*,\s*\d+)+)\]` is matched by a deterministic
    scan: its character classes follow each other without overlap, so the
    greedy reading is the only one. */
module CitationLists {
  import opened Wrappers
  import opened Strings

  /** The item `\s*,\s*\d+` at `j`, if there is one: where its number
      starts and how many digits it has. */
  function NextItem(s: string, j: nat): (r: Option<(nat, nat)>)
    requires j <= |s|
    ensures r.Some? ==> j < r.value.0 && 0 < r.value.1 && r.value.0 + r.value.1 <= |s|
  {
    var a := j + SpaceRun(s, j);
    if a < |s| && s[a] == ',' then
      var b := a + 1 + SpaceRun(s, a + 1);
      var d := DigitRun(s, b);
      if d > 0 then Some((b, d)) else None
    else None
  }

  /** What an item spans: no digit before its number, digits up to its end,
      and no digit right after it. */
  lemma NextItemSpan(s: string, j: nat)
    requires j <= |s| && NextItem(s, j).Some?
    ensures forall k | j <= k < NextItem(s, j).value.0 :: !IsDigit(s[k])
    ensures forall k | NextItem(s, j).value.0 <= k < NextItem(s, j).value.0 + NextItem(s, j).value.1 :: IsDigit(s[k])
    ensures NextItem(s, j).value.0 + NextItem(s, j).value.1 < |s| ==> !IsDigit(s[NextItem(s, j).value.0 + NextItem(s, j).value.1])
  {
    var a := j + SpaceRun(s, j);
    SpaceRunSpaces(s, j);
    SpaceRunSpaces(s, a + 1);
    DigitRunDigits(s, a + 1 + SpaceRun(s, a + 1));
  }

  /** The items that follow a number ending at `j`, as many as there are,
      and the position after the last one. */
  function MoreNumbers(s: string, j: nat): (r: (seq<string>, nat))
    requires j <= |s|
    ensures j <= r.1 <= |s|
    ensures |r.0| == 0 <==> r.1 == j
    decreases |s| - j
  {
    match NextItem(s, j)
    case Some((b, d)) =>
      var rest := MoreNumbers(s, b + d);
      ([s[b..b + d]] + rest.0, rest.1)
    case None => ([], j)
  }

  /** The list matched at `i`: its numbers and the position after its `]`,
      or `None` when the pattern does not match there. */
  function ListAt(s: string, i: nat): (r: Option<(seq<string>, nat)>)
    requires i <= |s|
    ensures r.Some? ==> i < r.value.1 <= |s| && |r.value.0| >= 2
  {
    if i < |s| && s[i] == '[' then
      var d := DigitRun(s, i + 1);
      if d > 0 then
        var more := MoreNumbers(s, i + 1 + d);
        if |more.0| > 0 && more.1 < |s| && s[more.1] == ']' then Some(([s[i + 1..i + 1 + d]] + more.0, more.1 + 1))
        else None
      else None
    else None
  }

  /** Every item after a number is itself a number. */
  lemma {:induction false} MoreNumerals(s: string, j: nat)
    requires j <= |s|
    ensures forall k | 0 <= k < |MoreNumbers(s, j).0| :: IsNumeral(MoreNumbers(s, j).0[k])
    decreases |s| - j
  {
    match NextItem(s, j)
    case Some((b, d)) =>
      NextItemSpan(s, j);
      MoreNumerals(s, b + d);
    case None =>
  }

  /** A matched list holds numbers only. */
  lemma ListNumerals(s: string, i: nat)
    requires i <= |s| && ListAt(s, i).Some?
    ensures forall k | 0 <= k < |ListAt(s, i).value.0| :: IsNumeral(ListAt(s, i).value.0[k])
  {
    DigitRunDigits(s, i + 1);
    MoreNumerals(s, i + 1 + DigitRun(s, i + 1));
  }

  /** `"".join(f"[{num}]" for num in numbers)`. */
  function Render(numbers: seq<string>): string {
    if |numbers| == 0 then "" else "[" + numbers[0] + "]" + Render(numbers[1..])
  }

  /** `re.sub(pattern, replacement, s[i:])`: left to right, each match
      replaced and the scan resumed after it. */
  function ConvertFrom(s: string, i: nat): string
    requires i <= |s|
    decreases |s| - i
  {
    if i == |s| then ""
    else
      match ListAt(s, i)
      case Some(m) => Render(m.0) + ConvertFrom(s, m.1)
      case None => [s[i]] + ConvertFrom(s, i + 1)
  }

  function ConvertCitations(text: string): string {
    ConvertFrom(text, 0)
  }

  /** A bracket holding a single number is not a match. */
  lemma SingleNumberKept(s: string, i: nat, d: nat)
    requires i + d + 2 <= |s| && s[i] == '[' && d > 0
    requires forall k | i < k <= i + d :: IsDigit(s[k])
    requires s[i + d + 1] == ']'
    ensures ListAt(s, i).None?
  {
    DigitRunExact(s, i + 1, d);
  }

  /** Text without a bracket list is left as it is. */
  lemma {:induction false} ConvertUnchanged(s: string, i: nat)
    requires i <= |s|
    requires forall p | i <= p < |s| :: ListAt(s, p).None?
    ensures ConvertFrom(s, i) == s[i..]
    decreases |s| - i
  {
    if i < |s| {
      ConvertUnchanged(s, i + 1);
      assert s[i..] == [s[i]] + s[i + 1..];
    }
  }

  // ---------------------------------------------------------------- the numbers are kept

  /** The digits of a string, in order. */
  function Digits(s: string): (r: string)
    ensures |r| <= |s|
  {
    if |s| == 0 then "" else (if IsDigit(s[0]) then [s[0]] else "") + Digits(s[1..])
  }

  lemma {:induction false} DigitsAppend(a: string, b: string)
    ensures Digits(a + b) == Digits(a) + Digits(b)
  {
    if a != [] {
      assert (a + b)[1..] == a[1..] + b;
      DigitsAppend(a[1..], b);
    } else {
      assert a + b == b;
    }
  }

  lemma {:induction false} DigitsOfNumeral(s: string)
    requires AllDigits(s)
    ensures Digits(s) == s
  {
    if s != [] {
      DigitsOfNumeral(s[1..]);
      assert s == [s[0]] + s[1..];
    }
  }

  lemma {:induction false} DigitsOfOther(s: string)
    requires forall k | 0 <= k < |s| :: !IsDigit(s[k])
    ensures Digits(s) == ""
  {
    if s != [] {
      DigitsOfOther(s[1..]);
    }
  }

  lemma {:induction false} DigitsOfRender(numbers: seq<string>)
    requires forall k | 0 <= k < |numbers| :: IsNumeral(numbers[k])
    ensures Digits(Render(numbers)) == Concat(numbers)
  {
    if numbers != [] {
      var x := numbers[0];
      var rest := numbers[1..];
      assert IsNumeral(x);
      DigitsOfRender(rest);
      DigitsOfBracketed(x);
      DigitsAppend("[" + x + "]", Render(rest));
    }
  }

  /** The digits of `[x]` for a number `x` are `x`. */
  lemma DigitsOfBracketed(x: string)
    requires IsNumeral(x)
    ensures Digits("[" + x + "]") == x
  {
    DigitsAppend("[" + x, "]");
    DigitsAppend("[", x);
    DigitsOfNumeral(x);
    DigitsOfOther("[");
    DigitsOfOther("]");
  }

  /** The digits of `s[a..b]`, in order. */
  function DigitsIn(s: string, a: nat, b: nat): string
    requires a <= b <= |s|
    decreases b - a
  {
    if a == b then "" else (if IsDigit(s[a]) then [s[a]] else "") + DigitsIn(s, a + 1, b)
  }

  lemma {:induction false} DigitsSplit(s: string, a: nat, b: nat, c: nat)
    requires a <= b <= c <= |s|
    ensures DigitsIn(s, a, c) == DigitsIn(s, a, b) + DigitsIn(s, b, c)
    decreases b - a
  {
    if a < b {
      DigitsSplit(s, a + 1, b, c);
    }
  }

  lemma {:induction false} DigitsNone(s: string, a: nat, b: nat)
    requires a <= b <= |s|
    requires forall k | a <= k < b :: !IsDigit(s[k])
    ensures DigitsIn(s, a, b) == ""
    decreases b - a
  {
    if a < b {
      DigitsNone(s, a + 1, b);
    }
  }

  lemma {:induction false} DigitsAll(s: string, a: nat, b: nat)
    requires a <= b <= |s|
    requires forall k | a <= k < b :: IsDigit(s[k])
    ensures DigitsIn(s, a, b) == s[a..b]
    decreases b - a
  {
    if a < b {
      DigitsAll(s, a + 1, b);
      assert s[a..b] == [s[a]] + s[a + 1..b];
    }
  }

  lemma {:induction false} DigitsInWhole(s: string)
    ensures DigitsIn(s, 0, |s|) == Digits(s)
  {
    if s != [] {
      DigitsInWhole(s[1..]);
      DigitsShift(s, 1, |s|);
    }
  }

  lemma {:induction false} DigitsShift(s: string, a: nat, b: nat)
    requires 1 <= a <= b <= |s|
    ensures DigitsIn(s, a, b) == DigitsIn(s[1..], a - 1, b - 1)
    decreases b - a
  {
    if a < b {
      DigitsShift(s, a + 1, b);
    }
  }

  /** The digits the items after a number span are exactly their numbers. */
  lemma {:induction false} DigitsOfMore(s: string, j: nat)
    requires j <= |s|
    ensures DigitsIn(s, j, MoreNumbers(s, j).1) == Concat(MoreNumbers(s, j).0)
    decreases |s| - j
  {
    match NextItem(s, j)
    case Some((b, d)) =>
      DigitsOfMore(s, b + d);
      MoreNumbersCons(s, j);
      NextItemSpan(s, j);
      DigitsOfItemParts(s, j, b, b + d, MoreNumbers(s, b + d), MoreNumbers(s, j));
    case None =>
      NoMoreNumbers(s, j);
  }

  lemma NoMoreNumbers(s: string, j: nat)
    requires j <= |s| && NextItem(s, j).None?
    ensures DigitsIn(s, j, MoreNumbers(s, j).1) == Concat(MoreNumbers(s, j).0)
  {
    assert MoreNumbers(s, j) == ([], j);
  }

  /** How the items after `j` continue when there is one at `j`. */
  lemma MoreNumbersCons(s: string, j: nat)
    requires j <= |s| && NextItem(s, j).Some?
    ensures MoreNumbers(s, j).0
      == [s[NextItem(s, j).value.0..NextItem(s, j).value.0 + NextItem(s, j).value.1]]
         + MoreNumbers(s, NextItem(s, j).value.0 + NextItem(s, j).value.1).0
    ensures MoreNumbers(s, j).1 == MoreNumbers(s, NextItem(s, j).value.0 + NextItem(s, j).value.1).1
  {
  }

  /** One item, then the rest: the digits are its number, then theirs. */
  lemma DigitsOfItemParts(s: string, j: nat, b: nat, n: nat, rest: (seq<string>, nat), list: (seq<string>, nat))
    requires j <= b <= n <= rest.1 <= |s|
    requires forall k | j <= k < b :: !IsDigit(s[k])
    requires forall k | b <= k < n :: IsDigit(s[k])
    requires DigitsIn(s, n, rest.1) == Concat(rest.0)
    requires list.0 == [s[b..n]] + rest.0 && list.1 == rest.1
    ensures DigitsIn(s, j, list.1) == Concat(list.0)
  {
    DigitsOfItem(s, j, b, n, rest.1);
    ConcatCons(s[b..n], rest.0);
  }

  /** The digits from `j` to `e`, when `s[j..b]` holds none and `s[b..n]` only digits. */
  lemma DigitsOfItem(s: string, j: nat, b: nat, n: nat, e: nat)
    requires j <= b <= n <= e <= |s|
    requires forall k | j <= k < b :: !IsDigit(s[k])
    requires forall k | b <= k < n :: IsDigit(s[k])
    ensures DigitsIn(s, j, e) == s[b..n] + DigitsIn(s, n, e)
  {
    DigitsSplit(s, j, b, e);
    DigitsNone(s, j, b);
    assert DigitsIn(s, j, e) == DigitsIn(s, b, e);
    DigitsSplit(s, b, n, e);
    DigitsAll(s, b, n);
  }

  lemma DigitsOfList(s: string, i: nat)
    requires i <= |s| && ListAt(s, i).Some?
    ensures DigitsIn(s, i, ListAt(s, i).value.1) == Concat(ListAt(s, i).value.0)
  {
    var n := i + 1 + DigitRun(s, i + 1);
    var more := MoreNumbers(s, n);
    var list := ListAt(s, i).value;
    ListAtParts(s, i);
    DigitsOfMore(s, n);
    DigitsOfParts(s, i, n, more.1, more.0, list);
  }

  /** The digits of `[` number items `]`, given those of the items. */
  lemma DigitsOfParts(s: string, i: nat, n: nat, m: nat, rest: seq<string>, list: (seq<string>, nat))
    requires i < n <= m < |s| && s[i] == '[' && s[m] == ']'
    requires forall k | i + 1 <= k < n :: IsDigit(s[k])
    requires DigitsIn(s, n, m) == Concat(rest)
    requires list.0 == [s[i + 1..n]] + rest && list.1 == m + 1
    ensures DigitsIn(s, i, list.1) == Concat(list.0)
  {
    DigitsOfBracket(s, i, n, m);
    ConcatCons(s[i + 1..n], rest);
  }

  /** What a match is made of: `[`, a number, the items after it and `]`. */
  lemma ListAtParts(s: string, i: nat)
    requires i <= |s| && ListAt(s, i).Some?
    ensures i < |s| && s[i] == '['
    ensures i + 1 + DigitRun(s, i + 1) <= MoreNumbers(s, i + 1 + DigitRun(s, i + 1)).1 < |s|
    ensures s[MoreNumbers(s, i + 1 + DigitRun(s, i + 1)).1] == ']'
    ensures forall k | i + 1 <= k < i + 1 + DigitRun(s, i + 1) :: IsDigit(s[k])
    ensures ListAt(s, i).value.0 == [s[i + 1..i + 1 + DigitRun(s, i + 1)]] + MoreNumbers(s, i + 1 + DigitRun(s, i + 1)).0
    ensures ListAt(s, i).value.1 == MoreNumbers(s, i + 1 + DigitRun(s, i + 1)).1 + 1
  {
    DigitRunDigits(s, i + 1);
  }

  /** The digits of `[` number items `]` are those of the number and the items. */
  lemma DigitsOfBracket(s: string, i: nat, n: nat, m: nat)
    requires i < n <= m < |s| && s[i] == '[' && s[m] == ']'
    requires forall k | i + 1 <= k < n :: IsDigit(s[k])
    ensures DigitsIn(s, i, m + 1) == s[i + 1..n] + DigitsIn(s, n, m)
  {
    DigitsSplit(s, i, i + 1, m + 1);
    DigitsNone(s, i, i + 1);
    assert DigitsIn(s, i, m + 1) == DigitsIn(s, i + 1, m + 1);
    DigitsSplit(s, i + 1, m, m + 1);
    DigitsNone(s, m, m + 1);
    assert DigitsIn(s, i + 1, m + 1) == DigitsIn(s, i + 1, m) + "";
    DigitsSplit(s, i + 1, n, m);
    DigitsAll(s, i + 1, n);
  }

  /** The conversion keeps every number, in order: the digits of the result
      are the digits of the input. */
  lemma {:induction false} ConvertKeepsDigitsFrom(s: string, i: nat)
    requires i <= |s|
    ensures Digits(ConvertFrom(s, i)) == DigitsIn(s, i, |s|)
    decreases |s| - i
  {
    if i < |s| {
      if ListAt(s, i).Some? {
        ConvertKeepsDigitsFrom(s, ListAt(s, i).value.1);
        DigitsAfterMatch(s, i);
      } else {
        ConvertKeepsDigitsFrom(s, i + 1);
        DigitsAfterPlain(s, i);
      }
    }
  }

  /** The step of the conversion over a list. */
  lemma DigitsAfterMatch(s: string, i: nat)
    requires i < |s| && ListAt(s, i).Some?
    requires Digits(ConvertFrom(s, ListAt(s, i).value.1)) == DigitsIn(s, ListAt(s, i).value.1, |s|)
    ensures Digits(ConvertFrom(s, i)) == DigitsIn(s, i, |s|)
  {
    var m := ListAt(s, i).value;
    var rest := ConvertFrom(s, m.1);
    assert ConvertFrom(s, i) == Render(m.0) + rest;
    DigitsAppend(Render(m.0), rest);
    DigitsOfMatch(s, i);
    DigitsSplit(s, i, m.1, |s|);
  }

  /** The step of the conversion over a character that starts no list. */
  lemma DigitsAfterPlain(s: string, i: nat)
    requires i < |s| && ListAt(s, i).None?
    requires Digits(ConvertFrom(s, i + 1)) == DigitsIn(s, i + 1, |s|)
    ensures Digits(ConvertFrom(s, i)) == DigitsIn(s, i, |s|)
  {
    assert ConvertFrom(s, i) == [s[i]] + ConvertFrom(s, i + 1);
    DigitsAppend([s[i]], ConvertFrom(s, i + 1));
    DigitsInStep(s, i);
  }

  /** One replaced list contributes the digits it replaced. */
  lemma DigitsOfMatch(s: string, i: nat)
    requires i <= |s| && ListAt(s, i).Some?
    ensures Digits(Render(ListAt(s, i).value.0)) == DigitsIn(s, i, ListAt(s, i).value.1)
  {
    ListNumerals(s, i);
    DigitsOfRender(ListAt(s, i).value.0);
    DigitsOfList(s, i);
  }

  lemma DigitsInStep(s: string, i: nat)
    requires i < |s|
    ensures DigitsIn(s, i, |s|) == Digits([s[i]]) + DigitsIn(s, i + 1, |s|)
  {
  }

  lemma ConvertKeepsDigits(s: string)
    ensures Digits(ConvertCitations(s)) == Digits(s)
  {
    ConvertKeepsDigitsFrom(s, 0);
    DigitsInWhole(s);
  }
}
