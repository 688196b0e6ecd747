/**
 * Python's `int(text, base)` on the texts the luna16 tools hand it, for the
 * bases 2, 4, 10 and 16 they use.  Surrounding whitespace is stripped, one
 * sign may follow, then (in base 2, 8 or 16) an optional `0b`, `0o` or `0x`
 * prefix, then digits of the base with single underscores between them.
 * Used by the literal converter of the lexer and by `parse_num` of the
 * 8-register assembler.  `Show` writes a natural number in a base and is
 * the inverse that the round-trip lemmas use.
 */
module Numerals {
  import opened Common

  /** The value of one digit character, letters in either case. */
  function DigitValue(c: char): Option<nat> {
    if '0' <= c <= '9' then Some(c as int - '0' as int)
    else if 'a' <= c <= 'z' then Some(c as int - 'a' as int + 10)
    else if 'A' <= c <= 'Z' then Some(c as int - 'A' as int + 10)
    else None
  }

  /**
   * The ASCII whitespace `int()` strips: tab to carriage return, and space.
   * The separators 28..31, for which `str.isspace` also holds, are not
   * stripped and make the text a ValueError.
   */
  predicate IsSpace(c: char) {
    c == ' ' || 9 <= c as int <= 13
  }

  /** The text without its leading whitespace. */
  function TrimStart(s: string): string
    decreases |s|
  {
    if |s| > 0 && IsSpace(s[0]) then TrimStart(s[1..]) else s
  }

  /** The text without its trailing whitespace. */
  function TrimEnd(s: string): string
    decreases |s|
  {
    if |s| > 0 && IsSpace(s[|s| - 1]) then TrimEnd(s[..|s| - 1]) else s
  }

  /** The value of a run of digits, all below `base`, single underscores between them. */
  function DigitsValue(s: string, base: nat): Option<nat>
    decreases |s|
  {
    if s == [] then None
    else
      var d := DigitValue(s[|s| - 1]);
      if d.None? || d.value >= base then None
      else if |s| == 1 then Some(d.value)
      else
        var rest := if s[|s| - 2] == '_' then s[..|s| - 2] else s[..|s| - 1];
        match DigitsValue(rest, base)
        case None => None
        case Some(v) => Some(v * base + d.value)
  }

  /** Whether the text starts with the base's prefix: `0b`, `0o` or `0x`, in either case. */
  predicate HasPrefix(s: string, base: nat) {
    |s| >= 2 && s[0] == '0' &&
    ((base == 2 && (s[1] == 'b' || s[1] == 'B')) ||
     (base == 8 && (s[1] == 'o' || s[1] == 'O')) ||
     (base == 16 && (s[1] == 'x' || s[1] == 'X')))
  }

  /** The unsigned part: a prefix may be followed by one underscore before the digits. */
  function Magnitude(s: string, base: nat): Option<nat> {
    if HasPrefix(s, base) then
      var rest := s[2..];
      DigitsValue(if |rest| > 0 && rest[0] == '_' then rest[1..] else rest, base)
    else DigitsValue(s, base)
  }

  /** The text with the whitespace `int()` strips at both ends removed. */
  function Stripped(s: string): string {
    TrimEnd(TrimStart(s))
  }

  /** The stripped text: one optional sign, then the magnitude. */
  function SignedValue(t: string, base: nat): Option<int> {
    if |t| > 0 && t[0] == '-' then
      match Magnitude(t[1..], base)
      case None => None
      case Some(v) => Some(0 - v as int)
    else if |t| > 0 && t[0] == '+' then
      match Magnitude(t[1..], base)
      case None => None
      case Some(v) => Some(v)
    else
      match Magnitude(t, base)
      case None => None
      case Some(v) => Some(v)
  }

  /** `int(s, base)`: `None` where Python raises ValueError. */
  function ParseInt(s: string, base: nat): Option<int> {
    SignedValue(Stripped(s), base)
  }

  function DigitChar(d: nat): (c: char)
    requires d < 16
    ensures DigitValue(c) == Some(d)
  {
    if d < 10 then ('0' as int + d) as char else ('a' as int + d - 10) as char
  }

  /** `n` written in `base` with lower-case digits and no leading zeros. */
  function Show(n: nat, base: nat): (s: string)
    requires 2 <= base <= 16
    ensures |s| > 0 && '0' <= s[0] <= 'f'
    ensures forall i :: 0 <= i < |s| ==> DigitValue(s[i]).Some? && DigitValue(s[i]).value < base
    decreases n
  {
    if n < base then [DigitChar(n)]
    else
      DivMod(n, base);
      Show(n / base, base) + [DigitChar(n % base)]
  }

  lemma DigitsValueSnoc(t: string, c: char, base: nat, v: nat, d: nat)
    requires t != [] && DigitsValue(t, base) == Some(v)
    requires DigitValue(c) == Some(d) && d < base
    ensures DigitsValue(t + [c], base) == Some(v * base + d)
  {
    assert (t + [c])[..|t|] == t;
    assert (t + [c])[|t| - 1] == t[|t| - 1];
  }

  lemma DivMod(n: nat, base: nat)
    requires 2 <= base <= n
    ensures n / base < n && n % base < base
    ensures (n / base) * base + n % base == n
  {
  }

  /** Reading back what `Show` wrote gives the number again. */
  lemma {:induction false} DigitsOfShow(n: nat, base: nat)
    requires 2 <= base <= 16
    ensures DigitsValue(Show(n, base), base) == Some(n)
    decreases n
  {
    if n >= base {
      DivMod(n, base);
      var q, r := n / base, n % base;
      DigitsOfShow(q, base);
      DigitsValueSnoc(Show(q, base), DigitChar(r), base, q, r);
      assert Show(n, base) == Show(q, base) + [DigitChar(r)];
    }
  }

  /** Text that neither starts nor ends with whitespace is left as it is. */
  lemma Unspaced(s: string, base: nat)
    requires |s| > 0 && !IsSpace(s[0]) && !IsSpace(s[|s| - 1])
    ensures Stripped(s) == s
    ensures ParseInt(s, base) == SignedValue(s, base)
  {
    assert TrimStart(s) == s;
    assert TrimEnd(s) == s;
  }

  /** The digits of `Show` carry no prefix: their second character is a digit of the base. */
  lemma ShowMagnitude(n: nat, base: nat)
    requires 2 <= base <= 16
    ensures Magnitude(Show(n, base), base) == Some(n)
  {
    var s := Show(n, base);
    DigitsOfShow(n, base);
    if |s| >= 2 {
      assert DigitValue(s[1]).value < base;
    }
  }

  lemma ParseShow(n: nat, base: nat)
    requires 2 <= base <= 16
    ensures ParseInt(Show(n, base), base) == Some(n)
    ensures ParseInt("-" + Show(n, base), base) == Some(0 - n as int)
  {
    var s := Show(n, base);
    ShowMagnitude(n, base);
    assert DigitValue(s[|s| - 1]).Some?;
    Unspaced(s, base);
    var m := "-" + s;
    assert m[1..] == s && m[|m| - 1] == s[|s| - 1];
    Unspaced(m, base);
  }

  /** Whitespace around the digits is stripped. */
  lemma SpacedShow(n: nat, base: nat)
    requires 2 <= base <= 16
    ensures ParseInt(" " + Show(n, base) + " ", base) == Some(n)
  {
    var s := Show(n, base);
    ShowMagnitude(n, base);
    var u := " " + s + " ";
    assert u[1..] == s + " ";
    var v := s + " ";
    assert v[0] == s[0] && v[..|v| - 1] == s;
    assert TrimStart(u) == v;
    assert DigitValue(s[|s| - 1]).Some?;
    assert TrimEnd(v) == s;
  }

  /** A `+` sign is accepted and changes nothing. */
  lemma PlusShow(n: nat, base: nat)
    requires 2 <= base <= 16
    ensures ParseInt("+" + Show(n, base), base) == Some(n)
  {
    var s := Show(n, base);
    ShowMagnitude(n, base);
    assert DigitValue(s[|s| - 1]).Some?;
    var p := "+" + s;
    assert p[1..] == s && p[|p| - 1] == s[|s| - 1];
    Unspaced(p, base);
  }

  /** `0x` before hexadecimal digits, with or without one underscore after it. */
  lemma HexPrefix(p: string, s: string, v: nat)
    requires p == "0x" || p == "0x_"
    requires s != [] && s[0] != '_' && DigitsValue(s, 16) == Some(v)
    ensures ParseInt(p + s, 16) == Some(v)
  {
    assert DigitValue(s[|s| - 1]).Some?;
    var x := p + s;
    assert x[|x| - 1] == s[|s| - 1] && x[0] == '0';
    Unspaced(x, 16);
    assert HasPrefix(x, 16);
    if p == "0x" {
      assert x[2..] == s;
    } else {
      assert x[2..] == "_" + s && ("_" + s)[1..] == s;
    }
  }

  /** In base 16 the digits may follow `0x`, and one underscore may follow that. */
  lemma HexPrefixShow(n: nat)
    ensures ParseInt("0x" + Show(n, 16), 16) == Some(n)
    ensures ParseInt("0x_" + Show(n, 16), 16) == Some(n)
  {
    DigitsOfShow(n, 16);
    HexPrefix("0x", Show(n, 16), n);
    HexPrefix("0x_", Show(n, 16), n);
  }

  lemma DigitsValueGroup(t: string, c: char, base: nat, v: nat, d: nat)
    requires t != [] && DigitsValue(t, base) == Some(v)
    requires DigitValue(c) == Some(d) && d < base
    ensures DigitsValue(t + "_" + [c], base) == Some(v * base + d)
  {
    var g := t + "_" + [c];
    assert g[..|g| - 2] == t && g[|g| - 2] == '_' && g[|g| - 1] == c;
  }

  /** An underscore may stand between two digits. */
  lemma GroupedShow(n: nat, base: nat, d: nat)
    requires 2 <= base <= 16 && d < base
    ensures ParseInt(Show(n, base) + "_" + [DigitChar(d)], base) == Some(n * base + d)
  {
    var s := Show(n, base);
    DigitsOfShow(n, base);
    var g := s + "_" + [DigitChar(d)];
    DigitsValueGroup(s, DigitChar(d), base, n, d);
    assert g[0] == s[0] && g[|g| - 1] == DigitChar(d);
    Unspaced(g, base);
    if |s| >= 2 {
      assert g[1] == s[1] && DigitValue(s[1]).value < base;
    } else {
      assert g[1] == '_';
    }
    assert !HasPrefix(g, base);
  }

  /** Text ending in a character that is no digit of the base has no magnitude. */
  lemma MagnitudeRejects(x: string, base: nat, c: char)
    requires DigitValue(c).None? || DigitValue(c).value >= base
    requires x == [] || x[|x| - 1] == c
    ensures Magnitude(x, base).None?
  {
    if HasPrefix(x, base) {
      var rest := x[2..];
      if |rest| > 0 {
        assert rest[|rest| - 1] == c;
      }
      if |rest| > 1 && rest[0] == '_' {
        assert rest[1..][|rest| - 2] == c;
      }
    }
  }

  /** Stripping the front leaves a last character that is not whitespace in place. */
  lemma {:induction false} TrimStartKeepsLast(s: string)
    requires |s| > 0 && !IsSpace(s[|s| - 1])
    ensures |TrimStart(s)| > 0 && TrimStart(s)[|TrimStart(s)| - 1] == s[|s| - 1]
    decreases |s|
  {
    if IsSpace(s[0]) {
      assert |s| > 1;
      assert s[1..][|s| - 2] == s[|s| - 1];
      TrimStartKeepsLast(s[1..]);
    }
  }

  /**
   * `int()` refuses text whose last character is not whitespace and not a
   * digit of the base: nothing it strips or skips reaches that character.
   */
  lemma ParseIntRejects(s: string, base: nat)
    requires |s| > 0 && !IsSpace(s[|s| - 1])
    requires DigitValue(s[|s| - 1]).None? || DigitValue(s[|s| - 1]).value >= base
    ensures ParseInt(s, base).None?
  {
    var c := s[|s| - 1];
    var u := TrimStart(s);
    TrimStartKeepsLast(s);
    var t := TrimEnd(u);
    assert t == u == Stripped(s);
    MagnitudeRejects(t, base, c);
    if |t| > 1 {
      assert t[1..][|t| - 2] == c;
    }
    MagnitudeRejects(t[1..], base, c);
  }
}
