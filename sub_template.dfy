/** The replacement strings of Python's `re.sub` when the pattern has no
    capture group: a string replacement is a template, not literal text.
    Backslash escapes of control characters are translated, `\g<0>` and
    its zero-valued spellings stand for the whole match, a three-digit
    octal escape gives its character, and every other escape of an ASCII
    letter or digit raises `re.error` (a bad escape, or a reference to a
    group the pattern does not have). Any other escaped character is kept
    with its backslash. */
module SubTemplate {
  import opened Wrappers
  import opened Strings

  predicate IsOctal(c: char) { '0' <= c <= '7' }

  predicate IsAsciiLetter(c: char) { IsUpper(c) || IsLower(c) }

  /** The one-letter escapes the template translates: `\a \b \f \n \r \t
      \v` and `\\`. */
  function EscapeChar(c: char): (e: Option<char>)
    ensures e.Some? ==> c == '\\' || IsLower(c)
  {
    match c
    case 'a' => Some(7 as char)
    case 'b' => Some(8 as char)
    case 'f' => Some(12 as char)
    case 'n' => Some('\n')
    case 'r' => Some('\r')
    case 't' => Some('\t')
    case 'v' => Some(11 as char)
    case '\\' => Some('\\')
    case _ => None
  }

  function Pow8(n: nat): nat {
    if n == 0 then 1 else 8 * Pow8(n - 1)
  }

  /** The value of a string of octal digits. */
  function OctalValue(s: string): (v: nat)
    requires forall k | 0 <= k < |s| :: IsOctal(s[k])
    ensures v < Pow8(|s|)
  {
    if |s| == 0 then 0
    else
      assert IsOctal(s[|s| - 1]);
      var d := s[|s| - 1] as int - '0' as int;
      OctalValue(s[..|s| - 1]) * 8 + d
  }

  /** How many octal digits, at most `max`, follow position `i`. */
  function OctalRun(t: string, i: nat, max: nat): (n: nat)
    requires i <= |t|
    ensures n <= max && i + n <= |t|
    ensures forall k | i <= k < i + n :: IsOctal(t[k])
    decreases max
  {
    if max == 0 || i == |t| || !IsOctal(t[i]) then 0 else 1 + OctalRun(t, i + 1, max - 1)
  }

  /** A group name that names the whole match: ASCII digits whose value
      is zero. */
  predicate NamesWholeMatch(name: string) {
    |name| > 0 && forall k | 0 <= k < |name| :: name[k] == '0'
  }

  /** A successful expansion with `p` in front. */
  function Prefixed(p: string, r: Result<string>): (q: Result<string>)
    ensures q.Success? <==> r.Success?
    ensures q.Success? ==> q.value == p + r.value
  {
    if r.Success? then Success(p + r.value) else r
  }

  lemma PrefixedTwice(a: string, b: string, r: Result<string>)
    ensures Prefixed(a, Prefixed(b, r)) == Prefixed(a + b, r)
  {
    if r.Success? {
      assert a + (b + r.value) == (a + b) + r.value;
    }
  }

  /** The expansion of template `t` for a match whose text is `whole`,
      read left to right as the template parser reads it. */
  function Expand(t: string, whole: string): (r: Result<string>)
    decreases |t|
  {
    if |t| == 0 then Success("")
    else if t[0] != '\\' then Prefixed([t[0]], Expand(t[1..], whole))
    else if |t| == 1 then Failure("bad escape (end of pattern)")
    else
      var c := t[1];
      if c == 'g' then
        if |t| == 2 || t[2] != '<' then Failure("missing <")
        else
          var close := 3 + IndexOf(t[3..], '>');
          if close == |t| then Failure("missing >, unterminated name")
          else if NamesWholeMatch(t[3..close]) then Prefixed(whole, Expand(t[close + 1..], whole))
          else Failure("invalid group reference")
      else if c == '0' then
        var n := OctalRun(t, 2, 2);
        assert Pow8(2) == 64;
        Prefixed([OctalValue(t[2..2 + n]) as char], Expand(t[2 + n..], whole))
      else if IsDigit(c) then
        if 4 <= |t| && IsOctal(c) && IsOctal(t[2]) && IsOctal(t[3]) then
          var v := OctalValue(t[1..4]);
          if v > 255 then Failure("octal escape value outside of range 0-0o377")
          else Prefixed([v as char], Expand(t[4..], whole))
        else Failure("invalid group reference")
      else if EscapeChar(c).Some? then Prefixed([EscapeChar(c).value], Expand(t[2..], whole))
      else if IsAsciiLetter(c) then Failure("bad escape")
      else Prefixed(t[..2], Expand(t[2..], whole))
  }

  /** Text without a backslash is copied through: expanding `p + t` puts
      `p` in front of the expansion of `t`. */
  lemma {:induction false} ExpandLiteralPrefix(p: string, t: string, whole: string)
    requires '\\' !in p
    ensures Expand(p + t, whole) == Prefixed(p, Expand(t, whole))
  {
    if |p| > 0 {
      assert (p + t)[0] == p[0];
      assert (p + t)[1..] == p[1..] + t;
      ExpandLiteralPrefix(p[1..], t, whole);
      PrefixedTwice([p[0]], p[1..], Expand(t, whole));
      assert [p[0]] + p[1..] == p;
    } else {
      assert p + t == t;
      if Expand(t, whole).Success? {
        assert p + Expand(t, whole).value == Expand(t, whole).value;
      }
    }
  }

  /** A replacement without a backslash is taken literally. */
  lemma LiteralTemplate(t: string, whole: string)
    requires '\\' !in t
    ensures Expand(t, whole) == Success(t)
  {
    ExpandLiteralPrefix(t, "", whole);
    assert t + "" == t;
  }

  /** A translated escape after literal text becomes its character. */
  lemma TranslatedEscape(p: string, c: char, u: string, whole: string)
    requires '\\' !in p && EscapeChar(c).Some?
    ensures Expand(p + ['\\', c] + u, whole) == Prefixed(p + [EscapeChar(c).value], Expand(u, whole))
  {
    ExpandLiteralPrefix(p, ['\\', c] + u, whole);
    assert p + ['\\', c] + u == p + (['\\', c] + u);
    assert (['\\', c] + u)[2..] == u;
    PrefixedTwice(p, [EscapeChar(c).value], Expand(u, whole));
  }

  /** An escape of an ASCII letter that is neither translated nor `\g`
      makes the whole template fail, whatever follows. */
  lemma BadEscapeFails(p: string, c: char, u: string, whole: string)
    requires '\\' !in p && IsAsciiLetter(c) && c != 'g' && EscapeChar(c).None?
    ensures Expand(p + ['\\', c] + u, whole).Failure?
  {
    ExpandLiteralPrefix(p, ['\\', c] + u, whole);
    assert p + ['\\', c] + u == p + (['\\', c] + u);
  }

  /** A reference to a numbered group other than 0 fails: the pattern
      has no groups. `\1` to `\9` not starting a three-digit octal escape
      are such references. */
  lemma GroupReferenceFails(p: string, c: char, u: string, whole: string)
    requires '\\' !in p && '1' <= c <= '9'
    requires !(2 <= |u| && IsOctal(c) && IsOctal(u[0]) && IsOctal(u[1]))
    ensures Expand(p + ['\\', c] + u, whole).Failure?
  {
    ExpandLiteralPrefix(p, ['\\', c] + u, whole);
    assert p + ['\\', c] + u == p + (['\\', c] + u);
    var t := ['\\', c] + u;
    assert 4 <= |t| ==> t[2] == u[0] && t[3] == u[1];
  }

  /** `\g<0>` inserts the whole match. */
  lemma WholeMatchReference(p: string, u: string, whole: string)
    requires '\\' !in p
    ensures Expand(p + "\\g<0>" + u, whole) == Prefixed(p + whole, Expand(u, whole))
  {
    ExpandLiteralPrefix(p, "\\g<0>" + u, whole);
    assert p + "\\g<0>" + u == p + ("\\g<0>" + u);
    var t := "\\g<0>" + u;
    assert t[3..] == "0>" + u;
    assert IndexOf(t[3..], '>') == 1;
    assert t[3..4] == "0";
    assert t[5..] == u;
    PrefixedTwice(p, whole, Expand(u, whole));
  }

  /** A backslash before any other character that is neither a letter
      nor a digit is kept together with that character. */
  lemma KeptEscape(p: string, c: char, u: string, whole: string)
    requires '\\' !in p && c != '\\' && !IsAsciiLetter(c) && !IsDigit(c)
    ensures Expand(p + ['\\', c] + u, whole) == Prefixed(p + ['\\', c], Expand(u, whole))
  {
    ExpandLiteralPrefix(p, ['\\', c] + u, whole);
    assert p + ['\\', c] + u == p + (['\\', c] + u);
    assert (['\\', c] + u)[2..] == u;
    assert (['\\', c] + u)[..2] == ['\\', c];
    PrefixedTwice(p, ['\\', c], Expand(u, whole));
  }

  /** A lone backslash at the end fails. */
  lemma TrailingBackslashFails(p: string, whole: string)
    requires '\\' !in p
    ensures Expand(p + "\\", whole).Failure?
  {
    ExpandLiteralPrefix(p, "\\", whole);
  }
}
