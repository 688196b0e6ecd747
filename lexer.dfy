/**
 * `assemlex.py`: the token values of the assembler's lexer.  The regular
 * expressions and the matching engine belong to ply; what the module itself
 * computes is the value of a NUMBER token from its matched text (a sign and
 * four radices), whether a NAME is a register, the text of a STRING token,
 * and the line counter that each newline advances.
 */
module Lexer {
  import opened Common
  import opened Numerals

  /** `t_NUMBER`'s conversion as written; `None` where `int()` raises ValueError. */
  function NumberValue(text: string): Option<int> {
    var nega := |text| > 0 && text[0] == '-';
    var body := if nega then text[1..] else text;
    match Unsigned(body)
    case None => None
    case Some(x) => Some(if nega then 0 - x else x)
  }

  /**
   * The prefix test of `t_NUMBER` once the sign is off: how many characters
   * the prefix takes, and the base it selects.
   */
  function Radix(body: string): (r: (nat, nat))
    ensures r.0 <= |body|
  {
    if |body| >= 1 && body[0] == '$' then (1, 16)
    else if |body| >= 2 && body[..2] == "0x" then (2, 16)
    else if |body| >= 2 && body[..2] == "0b" then (2, 2)
    else if |body| >= 2 && body[..2] == "0q" then (2, 4)
    else (0, 10)
  }

  /** The value of the text after the sign: `int()` of the rest in the chosen base (which may see a sign of its own). */
  function Unsigned(body: string): Option<int> {
    var (skip, base) := Radix(body);
    ParseInt(body[skip..], base)
  }

  /** The prefixes `t_NUMBER` recognises, with their bases. */
  function Prefix(base: nat): string
    requires base in {2, 4, 10, 16}
  {
    if base == 16 then "0x" else if base == 2 then "0b" else if base == 4 then "0q" else ""
  }

  /** A leading minus sign negates whatever the rest reads as. */
  lemma Signed(body: string, v: int)
    requires |body| > 0 && body[0] != '-' && Unsigned(body) == Some(v)
    ensures NumberValue(body) == Some(v)
    ensures NumberValue("-" + body) == Some(0 - v)
  {
    assert ("-" + body)[1..] == body;
  }

  /** Decimal digits carry no prefix: they start with a digit and have no x, b or q second. */
  lemma DecimalShow(n: nat)
    ensures Unsigned(Show(n, 10)) == Some(n)
  {
    var s := Show(n, 10);
    assert Radix(s) == (0, 10) by {
      if |s| >= 2 {
        assert DigitValue(s[1]).value < 10;
        assert s[..2][1] == s[1];
      }
    }
    assert s[0..] == s;
    ParseShow(n, 10);
  }

  /** The prefixed radices. */
  lemma PrefixedShow(n: nat, base: nat)
    requires base in {2, 4, 16}
    ensures Unsigned(Prefix(base) + Show(n, base)) == Some(n)
  {
    var s := Show(n, base);
    ParseShow(n, base);
    var t := Prefix(base) + s;
    assert t[..2] == Prefix(base) && t[2..] == s;
  }

  /** `$` is the other hexadecimal prefix. */
  lemma DollarShow(n: nat)
    ensures Unsigned("$" + Show(n, 16)) == Some(n)
  {
    var s := Show(n, 16);
    ParseShow(n, 16);
    assert ("$" + s)[1..] == s;
  }

  /**
   * Every number comes back from its text: in each of the four radices with
   * its prefix (and hexadecimal with `$` as well), with or without a
   * leading minus sign.
   */
  lemma NumberShow(n: nat, base: nat)
    requires base in {2, 4, 10, 16}
    ensures NumberValue(Prefix(base) + Show(n, base)) == Some(n)
    ensures NumberValue("-" + Prefix(base) + Show(n, base)) == Some(0 - n as int)
    ensures base == 16 ==> NumberValue("$" + Show(n, 16)) == Some(n)
    ensures base == 16 ==> NumberValue("-$" + Show(n, 16)) == Some(0 - n as int)
  {
    var t := Prefix(base) + Show(n, base);
    if base == 10 {
      DecimalShow(n);
      assert t == Show(n, 10);
    } else {
      PrefixedShow(n, base);
    }
    Signed(t, n);
    assert "-" + Prefix(base) + Show(n, base) == "-" + t;
    if base == 16 {
      DollarShow(n);
      Signed("$" + Show(n, 16), n);
      assert "-$" + Show(n, 16) == "-" + ("$" + Show(n, 16));
    }
  }

  /** After `$`, `int()` takes a minus sign of its own. */
  lemma DollarMinus(n: nat)
    ensures Unsigned("$-" + Show(n, 16)) == Some(0 - n as int)
  {
    var s := Show(n, 16);
    ParseShow(n, 16);
    var u := "$-" + s;
    assert Radix(u) == (1, 16);
    assert u[1..] == "-" + s;
  }

  /**
   * The `$` form of the NUMBER pattern allows a second sign after the
   * prefix: `int()` takes it, and the leading minus then negates the
   * negative value.
   */
  lemma DoubleNegative(n: nat)
    ensures NumberValue("$-" + Show(n, 16)) == Some(0 - n as int)
    ensures NumberValue("-$-" + Show(n, 16)) == Some(n)
  {
    var s := Show(n, 16);
    var u := "$-" + s;
    DollarMinus(n);
    Signed(u, 0 - n as int);
    assert "-$-" + s == "-" + u;
  }

  /**
   * Text that is not digits of its radix is a ValueError: the matched text
   * holds no whitespace, so a last character that is no digit is refused.
   */
  lemma NumberRejects(text: string)
    requires |text| > 0 && DigitValue(text[|text| - 1]).None? && !IsSpace(text[|text| - 1])
    ensures NumberValue(text).None?
  {
    var c := text[|text| - 1];
    var body := if text[0] == '-' then text[1..] else text;
    forall k, base | 0 <= k <= 2 && k <= |body|
      ensures ParseInt(body[k..], base).None?
    {
      if k < |body| {
        assert body[k..][|body[k..]| - 1] == c;
        ParseIntRejects(body[k..], base);
      } else {
        assert body[k..] == [];
        assert Stripped([]) == [];
      }
    }
    assert body[0..] == body;
    assert Unsigned(body).None?;
  }

  /** Whether `t_NAME` makes a REG or a NAME token. */
  datatype NameKind = Reg | Name

  /**
   * The `registers` literal as written: `'sp' 'pc'` without a comma between
   * them is one string, `"sppc"`.
   */
  const RegistersAsWritten: set<string> :=
    {"a", "b", "c", "d", "e", "f", "g", "h", "i", "j", "k", "l", "m", "sppc"}

  /**
   * The register names the assembler's own `reg_table` numbers: the
   * fourteen letters a..n and the two named ones, `sp` and `pc`.
   */
  const Registers: set<string> :=
    {"a", "b", "c", "d", "e", "f", "g", "h", "i", "j", "k", "l", "m", "n", "sp", "pc"}

  /** `t_NAME` as written. */
  function ClassifyAsWritten(text: string): NameKind {
    if Lower(text) in RegistersAsWritten then Reg else Name
  }

  /** `t_NAME` with the register set the literal evidently meant. */
  function Classify(text: string): NameKind {
    if Lower(text) in Registers then Reg else Name
  }

  /** The register names, spelt out: one letter from a to n, or sp, or pc. */
  predicate RegisterName(s: string) {
    (|s| == 1 && 'a' <= s[0] <= 'n') || s == "sp" || s == "pc"
  }

  /** The single letters are a..n in the corrected set and a..m in the literal. */
  lemma LetterRegisters(s: string)
    requires |s| == 1
    ensures s in Registers <==> 'a' <= s[0] <= 'n'
    ensures s in RegistersAsWritten <==> 'a' <= s[0] <= 'm'
  {
    if 'a' <= s[0] <= 'n' {
      assert s == [s[0]];
    }
  }

  /**
   * The corrected classification: REG exactly for the register names, in
   * any mix of letter case.
   */
  lemma ClassifyRegisters(text: string)
    ensures Classify(text) == Reg <==> RegisterName(Lower(text))
  {
    var s := Lower(text);
    if |s| == 1 {
      LetterRegisters(s);
    } else {
      assert s in Registers <==> s == "sp" || s == "pc";
    }
  }

  /** Upper-case names classify as their lower-case spelling. */
  lemma ClassifyIgnoresCase(text: string)
    ensures Classify(text) == Classify(Lower(text))
    ensures ClassifyAsWritten(text) == ClassifyAsWritten(Lower(text))
  {
    assert Lower(Lower(text)) == Lower(text);
  }

  /**
   * As written, `sp` and `pc` lex as NAME while the made-up `sppc` (in any
   * case) lexes as REG, and the literal has no `n` although `reg_table`
   * numbers it 13.
   */
  lemma MissingComma()
    ensures ClassifyAsWritten("sp") == Name && ClassifyAsWritten("pc") == Name
    ensures ClassifyAsWritten("SpPc") == Reg
    ensures ClassifyAsWritten("n") == Name
    ensures Classify("sp") == Reg && Classify("PC") == Reg && Classify("sppc") == Name
    ensures Classify("n") == Reg
  {
    AsWrittenSamples();
    CorrectedSamples();
  }

  lemma AsWrittenSamples()
    ensures ClassifyAsWritten("sp") == Name && ClassifyAsWritten("pc") == Name
    ensures ClassifyAsWritten("SpPc") == Reg
    ensures ClassifyAsWritten("n") == Name
  {
    assert Lower("sp") == "sp" && Lower("pc") == "pc" && Lower("n") == "n";
    assert Lower("SpPc") == "sppc";
  }

  lemma CorrectedSamples()
    ensures Classify("sp") == Reg && Classify("PC") == Reg && Classify("sppc") == Name
    ensures Classify("n") == Reg
  {
    assert Lower("sp") == "sp" && Lower("n") == "n";
    assert Lower("PC") == "pc" && Lower("sppc") == "sppc";
  }

  /** `t_STRING`: `value[1:len(value)-1]`, the text between the quotes. */
  function StringValue(text: string): string {
    if |text| < 2 then "" else text[1..|text| - 1]
  }

  /** The quotes come off and everything between them, escapes included, stays. */
  lemma StringQuotes(s: string)
    ensures StringValue("\"" + s + "\"") == s
  {
    var t := "\"" + s + "\"";
    assert t[1..|t| - 1] == s;
  }

  /** The part of ply's lexer state that `t_EOL` touches. */
  class LexerState {
    var lineno: nat

    /** ply starts counting lines at 1. */
    constructor ()
      ensures lineno == 1
    {
      lineno := 1;
    }

    /** `t_EOL`: each newline token moves the line counter on by one. */
    method Eol()
      modifies this
      ensures lineno == old(lineno) + 1
    {
      lineno := lineno + 1;
    }
  }
}
