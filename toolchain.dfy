/**
 * The 8-register assembler (`assemble.py`) and the interpreter (`main.c`)
 * side by side: what `do_instr` makes of the two bytes each assembler
 * mnemonic produces.  The interpreter only knows STOP and the immediate
 * family, so most words it meets either stop it or halt it as unknown
 * opcodes; the lemmas say which, mnemonic by mnemonic.
 */
module Toolchain {
  import opened Common
  import opened Vs16
  import opened Vs16Words
  import Machine

  /** The word `do_instr` fetches when `w` sits at a word address. */
  function WordOf(w: seq<byte>): u16
    requires |w| == 2
  {
    (w[0] as int) * 256 + w[1] as int
  }

  /** Both programs number the registers a, b, c, d, e, s, p, f as 0..7. */
  function MachineReg(r: RegId): Machine.Register {
    Machine.RegOf(r).value
  }

  /** Registers 0..5 are neither `p` nor `f`. */
  lemma GeneralRegister(r: RegId)
    requires r < 6
    ensures MachineReg(r) != Machine.P && MachineReg(r) != Machine.F
  {
  }

  /**
   * The operation the interpreter carries out for each 8-bit immediate
   * mnemonic: `li` loads, `addi` adds, `muli` multiplies, `subi`
   * subtracts; `andi`, `ori` and `xori` land in the second half of the
   * immediate family and run as load, add and multiply; `lui` (0x30) is
   * not an immediate to the interpreter.
   */
  const ImmExecutes: seq<Option<nat>> :=
    [Some(0), None, Some(1), Some(2), Some(3), Some(0), Some(1), Some(2)]

  /** The register tables agree: `reg_table[name]` names `get_reg`'s register. */
  lemma SameRegisters(name: string)
    requires name in RegNames
    ensures Machine.IdOf(MachineReg(GetReg(name))) == GetReg(name)
    ensures RegNames == ["a", "b", "c", "d", "e", "s", "p", "f"]
    ensures MachineReg(0) == Machine.A && MachineReg(5) == Machine.S
    ensures MachineReg(6) == Machine.P && MachineReg(7) == Machine.F
  {
    Machine.RegOfIdOf(Machine.A, GetReg(name));
  }

  /** The first byte of an 8-bit immediate selects the interpreter's operation. */
  lemma ImmediateByte(k: nat, r: RegId, v: byte, word: u16)
    requires k < |ImmNames| && word == (ImmBases[k] + r) * 256 + v
    ensures Machine.DecodeWord(word) ==
      if ImmExecutes[k].Some? then Machine.Immediate(ImmExecutes[k].value, MachineReg(r), v)
      else Machine.Unknown
  {
    var q := ImmBases[k] / 8;
    assert ImmBases[k] == 8 * q && 6 <= q < 16 by {
      if k == 0 {} else if k == 1 {} else if k == 2 {} else if k == 3 {}
      else if k == 4 {} else if k == 5 {} else if k == 6 {} else {}
    }
    var b0 := 8 * q + r;
    assert b0 / 8 == q && b0 % 8 == r;
    assert word == b0 * 256 + v;
    Machine.ImmediateBytes(b0, v);
    if k == 1 {
      Machine.StopBytes(b0, v);
    } else {
      assert q % 4 == ImmExecutes[k].value && 8 <= q by {
        if k == 0 {} else if k == 2 {} else if k == 3 {} else if k == 4 {}
        else if k == 5 {} else if k == 6 {} else {}
      }
    }
  }

  /** `ImmediateWords` for a line known to assemble to `w`. */
  lemma ImmediateText(k: nat, reg: string, num: string, position: int, indirect: string -> (int, RegId), w: seq<byte>)
    returns (r: RegId, v: byte)
    requires k < |ImmNames|
    requires Words(ImmNames[k], [reg, num], position, indirect) == Ok(w)
    ensures ParseNum(num).Some? && ParseNum(num).value >= 0
    ensures r == GetReg(reg) && v == ParseNum(num).value % 256
    ensures |w| == 2 && w[0] == ImmBases[k] + r && w[1] == v
  {
    ImmediateWords(k, reg, num, position, indirect);
    r, v := GetReg(reg), ParseNum(num).value % 256;
  }

  /** `BitImmediateWords` for a line known to assemble to `w`. */
  lemma BitImmediateText(k: nat, reg: string, num: string, position: int, indirect: string -> (int, RegId), w: seq<byte>)
    returns (r: RegId, n: nat)
    requires k < |BitNames|
    requires Words(BitNames[k], [reg, num], position, indirect) == Ok(w)
    ensures ParseNum(num).Some? && ParseNum(num).value >= 0
    ensures r == GetReg(reg) && n == ParseNum(num).value % 16
    ensures |w| == 2 && w[0] == 0x78 + r && w[1] == 0x80 + 16 * k + n
  {
    BitImmediateWords(k, reg, num, position, indirect);
    r, n := GetReg(reg), ParseNum(num).value % 16;
  }

  /**
   * An 8-bit immediate, once assembled, is decoded by `do_instr` as the
   * operation `ImmExecutes[k]` on the same register with the value's low
   * byte, or as an unknown opcode for `lui`.
   */
  lemma ImmediateDecodes(k: nat, reg: string, num: string, position: int, indirect: string -> (int, RegId), w: seq<byte>)
    requires k < |ImmNames|
    requires Words(ImmNames[k], [reg, num], position, indirect) == Ok(w)
    ensures |w| == 2 && ParseNum(num).Some? && ParseNum(num).value >= 0
    ensures ImmExecutes[k].Some? ==>
      Machine.DecodeWord(WordOf(w)) ==
        Machine.Immediate(ImmExecutes[k].value, MachineReg(GetReg(reg)), ParseNum(num).value % 256)
    ensures ImmExecutes[k].None? ==> Machine.DecodeWord(WordOf(w)) == Machine.Unknown
  {
    var r, v := ImmediateText(k, reg, num, position, indirect, w);
    ImmediateByte(k, r, v, WordOf(w));
  }

  /** The first byte 0x78 | r is the subtraction on register r. */
  lemma BitImmediateByte(k: nat, r: RegId, n: nat, word: u16)
    requires k < |BitNames| && n < 16 && word == (0x78 + r) * 256 + (0x80 + 16 * k + n)
    ensures Machine.DecodeWord(word) ==
      Machine.Immediate(3, MachineReg(r), 0x80 + 16 * k + n)
  {
    Machine.ImmediateBytes(0x78 + r, 0x80 + 16 * k + n);
  }

  /**
   * The 4-bit immediates share the first byte 0x78 | r, which the
   * interpreter runs as a subtraction of the whole second byte (selector
   * and nibble) from the register.
   */
  lemma BitImmediateDecodes(k: nat, reg: string, num: string, position: int, indirect: string -> (int, RegId), w: seq<byte>)
    requires k < |BitNames|
    requires Words(BitNames[k], [reg, num], position, indirect) == Ok(w)
    ensures |w| == 2 && ParseNum(num).Some? && ParseNum(num).value >= 0
    ensures Machine.DecodeWord(WordOf(w)) ==
      Machine.Immediate(3, MachineReg(GetReg(reg)), 0x80 + 16 * k + ParseNum(num).value % 16)
  {
    var r, n := BitImmediateText(k, reg, num, position, indirect, w);
    BitImmediateByte(k, r, n, WordOf(w));
  }

  /**
   * `stop`, `ret` and `nop` assemble to `00 ff`, `00 aa` and `00 01`: the
   * interpreter's STOP is `00 00` or `00 80`, so all three are unknown
   * opcodes to it and halt it without moving `p`.
   */
  lemma FixedDecodes(k: nat, position: int, indirect: string -> (int, RegId), w: seq<byte>)
    requires k < |FixedNames|
    requires Words(FixedNames[k], [], position, indirect) == Ok(w)
    ensures |w| == 2 && Machine.DecodeWord(WordOf(w)) == Machine.Unknown
  {
    FixedWords(k, position, indirect);
    Machine.StopBytes(w[0], w[1]);
    Machine.ImmediateBytes(w[0], w[1]);
  }

  /**
   * `push`, `pop` and `jr` on register `a` or `e` assemble to `0k 00` or
   * `0k 80` (e is register 4, and 4 << 5 is 0x80), which the interpreter
   * takes for STOP; on any other register they are unknown.
   */
  lemma StackDecodes(k: nat, reg: string, position: int, indirect: string -> (int, RegId), w: seq<byte>)
    requires k < |StackNames|
    requires Words(StackNames[k], [reg], position, indirect) == Ok(w)
    ensures |w| == 2
    ensures Machine.DecodeWord(WordOf(w)) == if GetReg(reg) % 4 == 0 then Machine.Stop else Machine.Unknown
  {
    StackWords(k, reg, position, indirect);
    Machine.StopBytes(w[0], w[1]);
    Machine.ImmediateBytes(w[0], w[1]);
  }

  /** The placeholder a jump leaves, `00 00`, is STOP to the interpreter. */
  lemma JumpDecodes(k: nat, target: string, position: int, indirect: string -> (int, RegId), w: seq<byte>)
    requires k < |JumpNames|
    requires Words(JumpNames[k], [target], position, indirect) == Ok(w)
    ensures |w| == 2 && Machine.DecodeWord(WordOf(w)) == Machine.Stop
  {
    JumpWords(k, target, position, indirect);
    Machine.StopBytes(0, 0);
  }

  /**
   * The register-to-register families (ALU, loads, stores, moves) have
   * first bytes 0x08..0x27, outside both STOP and the immediate family.
   */
  lemma RegisterFormsUnknown(b0: byte, b1: byte)
    requires 0x08 <= b0 < 0x28
    ensures Machine.DecodeWord(b0 * 256 + b1) == Machine.Unknown
  {
    Machine.StopBytes(b0, b1);
    Machine.ImmediateBytes(b0, b1);
  }

  /** An ALU instruction is an unknown opcode to the interpreter. */
  lemma AluDecodes(k: nat, a: string, b: string, position: int, indirect: string -> (int, RegId), w: seq<byte>)
    requires k < |AluNames| && !IsUnary(k)
    requires Words(AluNames[k], [a, b], position, indirect) == Ok(w)
    ensures |w| == 2 && Machine.DecodeWord(WordOf(w)) == Machine.Unknown
  {
    AluWords(k, a, b, position, indirect);
    RegisterFormsUnknown(w[0], w[1]);
  }

  /** A move is an unknown opcode to the interpreter. */
  lemma MoveDecodes(k: nat, a: string, b: string, position: int, indirect: string -> (int, RegId), w: seq<byte>)
    requires k < |MoveNames|
    requires Words(MoveNames[k], [a, b], position, indirect) == Ok(w)
    ensures |w| == 2 && Machine.DecodeWord(WordOf(w)) == Machine.Unknown
  {
    MoveWords(k, a, b, position, indirect);
    RegisterFormsUnknown(w[0], w[1]);
  }

  /**
   * `addi r, v` (and the other executed immediates) placed at `p`: one
   * `do_instr` leaves the exact result modulo 65536 in the register, sets
   * the carry bit exactly when that result left 16 bits, and moves on to
   * the next word, for any register other than `f` and `p`.
   */
  lemma ImmediateRuns(k: nat, reg: string, num: string, position: int, indirect: string -> (int, RegId),
                      w: seq<byte>, cpu: Machine.Cpu, ram: seq<byte>)
    requires k < |ImmNames| && ImmExecutes[k].Some?
    requires Words(ImmNames[k], [reg, num], position, indirect) == Ok(w)
    requires |ram| == Machine.RamSize && |w| == 2
    requires ram[2 * cpu.p] == w[0] && ram[2 * cpu.p + 1] == w[1]
    requires GetReg(reg) < 6
    ensures ParseNum(num).Some? && ParseNum(num).value >= 0
    ensures var r := MachineReg(GetReg(reg));
      var x := Machine.Exact(ImmExecutes[k].value, Machine.Read(cpu, r), ParseNum(num).value % 256);
      var next := Machine.Step(cpu, ram);
      Machine.Read(next, r) == x % 65536 &&
      next.f % 2 == (if Machine.Overflows(x) then 1 else 0) &&
      next.p == (cpu.p + 1) % 65536 && next.flags == cpu.flags
  {
    ImmediateDecodes(k, reg, num, position, indirect, w);
    assert Machine.Fetch(ram, cpu.p) == WordOf(w);
    var r := MachineReg(GetReg(reg));
    GeneralRegister(GetReg(reg));
    Machine.ImmediateEffect(cpu, ram, ImmExecutes[k].value, r, ParseNum(num).value % 256);
  }
}
