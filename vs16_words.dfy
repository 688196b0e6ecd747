/**
 * What each `inst_*` function of `assemble.py` returns for a source line:
 * the two bytes, family by family, in terms of the operand text.  `Words`
 * is `instr_table[m](*args)` as bytes; the jump record it may append is
 * `Interpret(...).value.jump`.
 */
module Vs16Words {
  import opened Common
  import Numerals
  import opened Vs16

  /** The bytes a source line assembles to; they always read back. */
  function Words(m: string, args: seq<string>, position: int, indirect: string -> (int, RegId))
    : (r: Result<seq<byte>>)
    ensures r.Ok? <==> Interpret(m, args, position, indirect).Ok?
    ensures r.Ok? ==> |r.value| == 2 && Decode(r.value) == Some(Interpret(m, args, position, indirect).value.instr)
  {
    match Interpret(m, args, position, indirect)
    case Err(f) => Err(f)
    case Ok(e) =>
      DecodeEncode(e.instr);
      Ok(Encode(e.instr))
  }

  /** `reg_table` names the eight registers 0..7 in order; other names give 0. */
  lemma RegisterTable(name: string)
    ensures forall r: RegId :: GetReg(RegNames[r]) == r
    ensures name in RegNames ==> RegNames[GetReg(name)] == name
    ensures name !in RegNames ==> GetReg(name) == 0
  {
  }

  /** `parse_num` reads back `$`-prefixed hexadecimal and signed decimal. */
  lemma ParseNumShow(n: nat)
    ensures ParseNum("$" + Numerals.Show(n, 16)) == Some(n)
    ensures ParseNum(Numerals.Show(n, 10)) == Some(n)
    ensures ParseNum("-" + Numerals.Show(n, 10)) == Some(0 - n as int)
  {
    var hex := Numerals.Show(n, 16);
    assert ("$" + hex)[1..] == hex;
    Numerals.ParseShow(n, 16);
    Numerals.ParseShow(n, 10);
  }

  /**
   * `parse_num` hands the operand to `int()` unchanged, so whatever `int()`
   * accepts is a number: underscores between digits, whitespace after `$`,
   * and a `0x` prefix after `$`.  Without `$` the base is 10 and `0x` is
   * refused, and so are a doubled underscore, a space after the sign and
   * the separator 0x1C, which `int()` does not strip.
   */
  lemma ParseNumForms()
    ensures ParseNum("1_0") == Some(10)
    ensures ParseNum("$0x10") == Some(16)
    ensures ParseNum("$ 5") == Some(5)
    ensures ParseNum("0x10").None?
    ensures ParseNum("1__0").None?
    ensures ParseNum("- 5").None?
    ensures ParseNum("$\U{1c}5").None?
  {
    ParseNumGrouped();
    ParseNumHexPrefix();
    ParseNumSpaced();
    ParseNumRefused();
    ParseNumSeparator();
  }

  lemma ParseNumGrouped()
    ensures ParseNum("1_0") == Some(10)
  {
    assert Numerals.Show(1, 10) == "1" && Numerals.DigitChar(0) == '0';
    Numerals.GroupedShow(1, 10, 0);
    assert "1" + "_" + ['0'] == "1_0";
  }

  lemma ParseNumHexPrefix()
    ensures ParseNum("$0x10") == Some(16)
  {
    assert Numerals.Show(1, 16) == "1";
    assert Numerals.Show(16, 16) == "10";
    Numerals.HexPrefixShow(16);
    assert "$0x10"[1..] == "0x" + "10";
  }

  lemma ParseNumSpaced()
    ensures ParseNum("$ 5") == Some(5)
  {
    assert "$ 5"[1..] == " 5";
    assert Numerals.TrimStart(" 5") == "5" by {
      assert " 5"[1..] == "5";
    }
    assert Numerals.Stripped(" 5") == "5";
    assert Numerals.DigitsValue("5", 16) == Some(5);
  }

  lemma ParseNumRefused()
    ensures ParseNum("0x10").None?
    ensures ParseNum("1__0").None?
    ensures ParseNum("- 5").None?
  {
    Numerals.Unspaced("0x10", 10);
    assert "0x10"[..3] == "0x1" && "0x1"[..2] == "0x";
    assert Numerals.DigitsValue("0x", 10).None?;
    assert Numerals.DigitsValue("0x1", 10).None?;
    Numerals.Unspaced("1__0", 10);
    assert "1__0"[..2] == "1_";
    assert Numerals.DigitsValue("1_", 10).None?;
    Numerals.Unspaced("- 5", 10);
    assert "- 5"[1..] == " 5";
    assert Numerals.DigitsValue(" 5"[..1], 10).None?;
    assert Numerals.DigitsValue(" 5", 10).None?;
  }

  lemma ParseNumSeparator()
    ensures ParseNum("$\U{1c}5").None?
  {
    var f := "\U{1c}5";
    assert "$\U{1c}5"[1..] == f;
    Numerals.Unspaced(f, 16);
    assert f[..1] == "\U{1c}";
    assert Numerals.DigitsValue(f[..1], 16).None?;
  }

  /**
   * Every name of every family's list is registered under that family and
   * position, so the lists have no name in common and no repeats.
   */
  lemma LookupNames(f: Family, k: nat)
    requires k < |Names(f)|
    ensures Lookup(Names(f)[k]) == Some(Entry(f, k))
  {
    match f
    case FixedOp => LookupFixed(k);
    case StackOp => LookupStack(k);
    case AluOp => LookupAlu(k);
    case ImmOp => LookupImmediate(k);
    case BitOp => LookupBitImmediate(k);
    case LoadOp => LookupLoad(k);
    case StoreOp => LookupStore(k);
    case MoveOp => LookupMove(k);
    case JumpOp => LookupJump(k);
  }

  lemma LookupFixed(k: nat)
    requires k < |FixedNames|
    ensures Lookup(FixedNames[k]) == Some(Entry(FixedOp, k))
  {
    if k == 0 {
    } else if k == 1 {
    } else if k == 2 {
    }
  }

  lemma LookupStack(k: nat)
    requires k < |StackNames|
    ensures Lookup(StackNames[k]) == Some(Entry(StackOp, k))
  {
    if k == 0 {
    } else if k == 1 {
    } else if k == 2 {
    }
  }

  lemma LookupAlu(k: nat)
    requires k < |AluNames|
    ensures Lookup(AluNames[k]) == Some(Entry(AluOp, k))
  {
    if k < 9 {
      LookupAluLow(k);
    } else {
      LookupAluHigh(k);
    }
  }

  lemma LookupAluLow(k: nat)
    requires k < 9
    ensures Lookup(AluNames[k]) == Some(Entry(AluOp, k))
  {
    if k == 0 {
    } else if k == 1 {
    } else if k == 2 {
    } else if k == 3 {
    } else if k == 4 {
    } else if k == 5 {
    } else if k == 6 {
    } else if k == 7 {
    } else if k == 8 {
    }
  }

  lemma LookupAluHigh(k: nat)
    requires 9 <= k < |AluNames|
    ensures Lookup(AluNames[k]) == Some(Entry(AluOp, k))
  {
    if k == 9 {
    } else if k == 10 {
    } else if k == 11 {
    } else if k == 12 {
    } else if k == 13 {
    } else if k == 14 {
    } else if k == 15 {
    } else if k == 16 {
    }
  }

  lemma LookupImmediate(k: nat)
    requires k < |ImmNames|
    ensures Lookup(ImmNames[k]) == Some(Entry(ImmOp, k))
  {
    if k == 0 {
    } else if k == 1 {
    } else if k == 2 {
    } else if k == 3 {
    } else if k == 4 {
    } else if k == 5 {
    } else if k == 6 {
    } else if k == 7 {
    }
  }

  lemma LookupBitImmediate(k: nat)
    requires k < |BitNames|
    ensures Lookup(BitNames[k]) == Some(Entry(BitOp, k))
  {
    if k == 0 {
    } else if k == 1 {
    } else if k == 2 {
    } else if k == 3 {
    } else if k == 4 {
    } else if k == 5 {
    }
  }

  lemma LookupLoad(k: nat)
    requires k < |LoadNames|
    ensures Lookup(LoadNames[k]) == Some(Entry(LoadOp, k))
  {
    if k == 0 {
    } else if k == 1 {
    } else if k == 2 {
    } else if k == 3 {
    }
  }

  lemma LookupStore(k: nat)
    requires k < |StoreNames|
    ensures Lookup(StoreNames[k]) == Some(Entry(StoreOp, k))
  {
    if k == 0 {
    } else if k == 1 {
    } else if k == 2 {
    } else if k == 3 {
    }
  }

  lemma LookupMove(k: nat)
    requires k < |MoveNames|
    ensures Lookup(MoveNames[k]) == Some(Entry(MoveOp, k))
  {
    if k == 0 {
    } else if k == 1 {
    } else if k == 2 {
    } else if k == 3 {
    } else if k == 4 {
    } else if k == 5 {
    }
  }

  lemma LookupJump(k: nat)
    requires k < |JumpNames|
    ensures Lookup(JumpNames[k]) == Some(Entry(JumpOp, k))
  {
    if k == 0 {
    } else if k == 1 {
    } else if k == 2 {
    } else if k == 3 {
    } else if k == 4 {
    } else if k == 5 {
    }
  }

  /** Once the entry and the operand count are known, the entry's function runs. */
  lemma InterpretEntry(e: Entry, m: string, args: seq<string>, position: int, indirect: string -> (int, RegId))
    requires Lookup(m) == Some(e) && |args| == Arity(e)
    ensures Interpret(m, args, position, indirect) == Dispatch(e, m, args, position, indirect)
  {
  }

  lemma WordsOf(m: string, args: seq<string>, position: int, indirect: string -> (int, RegId), e: Emitted)
    requires Interpret(m, args, position, indirect) == Ok(e)
    ensures Words(m, args, position, indirect) == Ok(Encode(e.instr))
  {
  }

  // The words of each family, as the `inst_*` functions pack them.

  /** `stop`, `ret`, `nop`: `00 ff`, `00 aa`, `00 01`. */
  lemma FixedWords(k: nat, position: int, indirect: string -> (int, RegId))
    requires k < |FixedNames|
    ensures Words(FixedNames[k], [], position, indirect) == Ok([0, FixedCodes[k]])
  {
    var m, args := FixedNames[k], [];
    LookupNames(FixedOp, k);
    InterpretEntry(Entry(FixedOp, k), m, args, position, indirect);
    WordsOf(m, args, position, indirect, Emitted(Fixed(k), None));
  }

  /** `push`, `pop`, `jr`: the code, then the register in the top three bits. */
  lemma StackWords(k: nat, reg: string, position: int, indirect: string -> (int, RegId))
    requires k < |StackNames|
    ensures Words(StackNames[k], [reg], position, indirect) == Ok([StackCodes[k], 32 * GetReg(reg)])
  {
    var m, args := StackNames[k], [reg];
    LookupNames(StackOp, k);
    InterpretEntry(Entry(StackOp, k), m, args, position, indirect);
    WordsOf(m, args, position, indirect, Emitted(Stack(k, GetReg(reg)), None));
  }

  /** A two-register ALU operation: `[0x08 | r1, r2 << 5 | k]`. */
  lemma AluWords(k: nat, a: string, b: string, position: int, indirect: string -> (int, RegId))
    requires k < |AluNames| && !IsUnary(k)
    ensures Words(AluNames[k], [a, b], position, indirect) == Ok([0x08 + GetReg(a), 32 * GetReg(b) + k])
  {
    var m, args := AluNames[k], [a, b];
    LookupNames(AluOp, k);
    InterpretEntry(Entry(AluOp, k), m, args, position, indirect);
    WordsOf(m, args, position, indirect, Emitted(Alu(k, GetReg(a), GetReg(b)), None));
    AluLayout(k, GetReg(a), GetReg(b));
  }

  /** `not`, `neg`, `inc`, `dec` take one register: `[0x08 | r1, k]`. */
  lemma AluUnaryWords(k: nat, a: string, position: int, indirect: string -> (int, RegId))
    requires k < |AluNames| && IsUnary(k)
    ensures Words(AluNames[k], [a], position, indirect) == Ok([0x08 + GetReg(a), k])
  {
    var m, args := AluNames[k], [a];
    LookupNames(AluOp, k);
    InterpretEntry(Entry(AluOp, k), m, args, position, indirect);
    WordsOf(m, args, position, indirect, Emitted(Alu(k, GetReg(a), 0), None));
    AluLayout(k, GetReg(a), 0);
  }

  /**
   * The 8-bit immediates: the register in the low bits of the family's
   * base, then the value's low byte.  A value that does not parse, or a
   * negative one, stops the assembler.
   */
  lemma ImmediateWords(k: nat, reg: string, num: string, position: int, indirect: string -> (int, RegId))
    requires k < |ImmNames|
    ensures Words(ImmNames[k], [reg, num], position, indirect).Ok? <==> ParseNum(num).Some? && ParseNum(num).value >= 0
    ensures Words(ImmNames[k], [reg, num], position, indirect).Ok? ==>
      Words(ImmNames[k], [reg, num], position, indirect).value == [ImmBases[k] + GetReg(reg), ParseNum(num).value % 256]
  {
    var m, args, p := ImmNames[k], [reg, num], ParseNum(num);
    LookupNames(ImmOp, k);
    InterpretEntry(Entry(ImmOp, k), m, args, position, indirect);
    assert Interpret(m, args, position, indirect) == InterpretImmediate(k, reg, num);
    if p.Some? && p.value >= 0 {
      var i := Immediate(k, GetReg(reg), p.value % 256);
      WordsOf(m, args, position, indirect, Emitted(i, None));
      ImmediateLayout(k, GetReg(reg), p.value % 256);
    }
  }

  /**
   * The 4-bit immediates: `[0x78 | r, sel | v]` with the selector 0x80,
   * 0x90, ... in the high nibble and the value's low nibble.
   */
  lemma BitImmediateWords(k: nat, reg: string, num: string, position: int, indirect: string -> (int, RegId))
    requires k < |BitNames|
    ensures Words(BitNames[k], [reg, num], position, indirect).Ok? <==> ParseNum(num).Some? && ParseNum(num).value >= 0
    ensures Words(BitNames[k], [reg, num], position, indirect).Ok? ==>
      Words(BitNames[k], [reg, num], position, indirect).value == [0x78 + GetReg(reg), 0x80 + 16 * k + ParseNum(num).value % 16]
  {
    var m, args, p := BitNames[k], [reg, num], ParseNum(num);
    LookupNames(BitOp, k);
    InterpretEntry(Entry(BitOp, k), m, args, position, indirect);
    assert Interpret(m, args, position, indirect) == InterpretBitImmediate(k, reg, num);
    if p.Some? && p.value >= 0 {
      var v := p.value % 16;
      var i := BitImmediate(k, GetReg(reg), v);
      WordsOf(m, args, position, indirect, Emitted(i, None));
      BitImmediateLayout(k, GetReg(reg), v);
      TableEntry(k);
      assert Encode(i) == [0x78 + GetReg(reg), 0x80 + 16 * k + v];
    }
  }

  /**
   * Loads: `[0x10 | dest, base << 5 | width | offset]`, the width selector
   * being `8 * k` and the offset field the offset modulo 8 when it is within
   * -3..4, and 0 otherwise.
   */
  lemma LoadWords(k: nat, reg: string, mem: string, position: int, indirect: string -> (int, RegId))
    requires k < |LoadNames|
    ensures var (offset, base) := indirect(mem);
      Words(LoadNames[k], [reg, mem], position, indirect) ==
        Ok([0x10 + GetReg(reg), 32 * base + 8 * k + OffsetField(offset)])
  {
    var m, args := LoadNames[k], [reg, mem];
    var (offset, base) := indirect(mem);
    LookupNames(LoadOp, k);
    InterpretEntry(Entry(LoadOp, k), m, args, position, indirect);
    var i := Load(k, GetReg(reg), base, OffsetField(offset));
    assert Dispatch(Entry(LoadOp, k), m, args, position, indirect) == Ok(Emitted(i, None));
    WordsOf(m, args, position, indirect, Emitted(i, None));
    LoadLayout(k, GetReg(reg), base, OffsetField(offset));
  }

  /** Stores: `[0x18 | base, src << 5 | width | offset]`; the memory operand comes first. */
  lemma StoreWords(k: nat, mem: string, reg: string, position: int, indirect: string -> (int, RegId))
    requires k < |StoreNames|
    ensures var (offset, base) := indirect(mem);
      Words(StoreNames[k], [mem, reg], position, indirect) ==
        Ok([0x18 + base, 32 * GetReg(reg) + 8 * k + OffsetField(offset)])
  {
    var m, args := StoreNames[k], [mem, reg];
    var (offset, base) := indirect(mem);
    LookupNames(StoreOp, k);
    InterpretEntry(Entry(StoreOp, k), m, args, position, indirect);
    var i := Store(k, base, GetReg(reg), OffsetField(offset));
    assert Dispatch(Entry(StoreOp, k), m, args, position, indirect) == Ok(Emitted(i, None));
    WordsOf(m, args, position, indirect, Emitted(i, None));
    StoreLayout(k, base, GetReg(reg), OffsetField(offset));
  }

  /** The mov family: `[0x20 | dest, src << 5 | k]`. */
  lemma MoveWords(k: nat, a: string, b: string, position: int, indirect: string -> (int, RegId))
    requires k < |MoveNames|
    ensures Words(MoveNames[k], [a, b], position, indirect) == Ok([0x20 + GetReg(a), 32 * GetReg(b) + k])
  {
    var m, args := MoveNames[k], [a, b];
    LookupNames(MoveOp, k);
    InterpretEntry(Entry(MoveOp, k), m, args, position, indirect);
    WordsOf(m, args, position, indirect, Emitted(Move(k, GetReg(a), GetReg(b)), None));
    MoveLayout(k, GetReg(a), GetReg(b));
  }

  /**
   * A jump leaves two zero bytes and records where it stands, which jump it
   * is and its target.
   */
  lemma JumpWords(k: nat, target: string, position: int, indirect: string -> (int, RegId))
    requires k < |JumpNames|
    ensures Interpret(JumpNames[k], [target], position, indirect) ==
      Ok(Emitted(JumpSlot, Some(Jump(position, JumpNames[k], target))))
    ensures Words(JumpNames[k], [target], position, indirect) == Ok([0, 0])
  {
    var m, args := JumpNames[k], [target];
    LookupNames(JumpOp, k);
    InterpretEntry(Entry(JumpOp, k), m, args, position, indirect);
    WordsOf(m, args, position, indirect, Emitted(JumpSlot, Some(Jump(position, m, target))));
  }

  /** A name outside every family, or a wrong operand count, stops the assembler. */
  lemma Unassembled(m: string, args: seq<string>, position: int, indirect: string -> (int, RegId))
    requires (forall f :: m !in Names(f)) || (Lookup(m).Some? && |args| != Arity(Lookup(m).value))
    ensures Words(m, args, position, indirect).Err?
  {
    if Lookup(m).Some? {
      var e := Lookup(m).value;
      assert m == Names(e.family)[e.k];
    }
  }
}
