/**
 * `main.c`: the interpreter of the 8-register machine.  `do_instr` fetches
 * a big-endian word at `p`, recognises STOP and the immediate family, and
 * otherwise stops the machine as an unknown opcode; `insert_string` copies
 * a C string into the RAM.
 *
 * `Step` is the specification of one `do_instr` call on the values of the
 * machine; `Interp.DoInstr` is the C procedure, field by field, proved to
 * agree with it.  The lemmas then say what `Step` means: which words stop
 * the machine, what the immediate instructions compute, and when the carry
 * bit is set.
 */
module Machine {
  import opened Common
  import Bits

  /** `uint8_t ram[1 << 17]`: 65536 words of two bytes. */
  const RamSize: nat := 131072

  datatype Register = A | B | C | D | E | S | P | F

  /** `get_reg`: the register with id 0..7; any other id is an internal error (NULL). */
  function RegOf(id: int): (r: Option<Register>)
    ensures r.Some? <==> 0 <= id < 8
  {
    if id == 0 then Some(A)
    else if id == 1 then Some(B)
    else if id == 2 then Some(C)
    else if id == 3 then Some(D)
    else if id == 4 then Some(E)
    else if id == 5 then Some(S)
    else if id == 6 then Some(P)
    else if id == 7 then Some(F)
    else None
  }

  /** The id `get_reg` takes for each register. */
  function IdOf(r: Register): nat {
    match r
    case A => 0
    case B => 1
    case C => 2
    case D => 3
    case E => 4
    case S => 5
    case P => 6
    case F => 7
  }

  /** `get_reg` is a one-to-one map between the ids 0..7 and the registers. */
  lemma RegOfIdOf(r: Register, id: int)
    ensures RegOf(IdOf(r)) == Some(r)
    ensures RegOf(id).Some? ==> IdOf(RegOf(id).value) == id
  {
  }

  /** The registers and flags of `struct interp`, without the RAM. */
  datatype Cpu = Cpu(a: u16, b: u16, c: u16, d: u16, e: u16, f: u16, s: u16, p: u16, flags: byte)

  /** `*get_reg(I, id)` read. */
  function Read(cpu: Cpu, r: Register): u16 {
    match r
    case A => cpu.a
    case B => cpu.b
    case C => cpu.c
    case D => cpu.d
    case E => cpu.e
    case S => cpu.s
    case P => cpu.p
    case F => cpu.f
  }

  /** `*get_reg(I, id) = v`. */
  function Write(cpu: Cpu, r: Register, v: u16): (cpu': Cpu)
    ensures cpu'.flags == cpu.flags
  {
    match r
    case A => cpu.(a := v)
    case B => cpu.(b := v)
    case C => cpu.(c := v)
    case D => cpu.(d := v)
    case E => cpu.(e := v)
    case S => cpu.(s := v)
    case P => cpu.(p := v)
    case F => cpu.(f := v)
  }

  /** A write through the address `get_reg` returns changes that register and no other. */
  lemma ReadWrite(cpu: Cpu, r: Register, v: u16, q: Register)
    ensures Read(Write(cpu, r, v), q) == if q == r then v else Read(cpu, q)
  {
  }

  /** `x &= ~1`: bit 0 cleared. */
  function ClearLow(x: nat): nat {
    x - x % 2
  }

  /** `x |= 1`: bit 0 set. */
  function SetLow(x: nat): nat {
    x - x % 2 + 1
  }

  /** The two flag updates are the bitwise operators on bit 0. */
  lemma LowBit(x: nat)
    ensures Bits.Or(x, 1) == SetLow(x)
    ensures ClearLow(x) % 2 == 0 && SetLow(x) % 2 == 1
    ensures ClearLow(x) / 2 == x / 2 && SetLow(x) / 2 == x / 2
  {
    if x != 0 {
      assert Bits.Or(x / 2, 0) == x / 2;
    }
  }

  /**
   * The fetch: `ram[p * 2] << 8 | ram[p * 2 + 1]`.  With `p` a 16-bit value
   * both indices are below 131072.
   */
  function Fetch(ram: seq<byte>, p: u16): u16
    requires |ram| == RamSize
  {
    (ram[2 * p] as int) * 256 + ram[2 * p + 1] as int
  }

  /** The word is big-endian: its high byte is the one at the lower address. */
  lemma FetchBigEndian(ram: seq<byte>, p: u16)
    requires |ram| == RamSize
    ensures 2 * p + 1 < RamSize
    ensures Fetch(ram, p) / 256 == ram[2 * p] && Fetch(ram, p) % 256 == ram[2 * p + 1]
  {
  }

  /** What `do_instr` makes of a word. */
  datatype Action = Stop | Immediate(op: nat, reg: Register, val: byte) | Unknown

  /**
   * `instrtype = (instr >> 11) & 0x1f`; 0 with `instr & 0x7f == 0` is STOP;
   * `(instrtype & ~7) == 8` is the immediate family, whose operation is
   * `instrtype & 3`, whose register is `(instr >> 8) & 7` and whose value is
   * the low byte.
   */
  function DecodeWord(instr: u16): Action {
    var instrtype := instr / 2048;
    if instrtype == 0 then
      if instr % 128 == 0 then Stop else Unknown
    else if instrtype - instrtype % 8 == 8 then
      Immediate(instrtype % 4, RegOf((instr / 256) % 8).value, instr % 256)
    else Unknown
  }

  /** The exact result of an immediate operation, before it is stored in 16 bits. */
  function Exact(op: nat, x: u16, val: byte): int {
    if op == 0 then val
    else if op == 1 then x + val
    else if op == 2 then x * val
    else x - val
  }

  /** The carry conditions of `do_instr`, one per operation (load sets none). */
  predicate Carries(op: nat, x: u16, val: byte) {
    if op == 0 then false
    else if op == 1 then x + val > 0xFFFF
    else if op == 2 then x * val > 0xFFFF
    else x - val < 0
  }

  /**
   * The immediate operation on a machine whose carry bit is already clear:
   * the carry is set from the register's value, then the operation reads
   * the register again, so a result in `f` sees the carry just written.
   */
  function Execute(cpu: Cpu, op: nat, r: Register, val: byte): Cpu {
    var x := Read(cpu, r);
    if op == 0 then Write(cpu, r, val)
    else
      var cpu' := if Carries(op, x, val) then cpu.(f := SetLow(cpu.f)) else cpu;
      Write(cpu', r, Exact(op, Read(cpu', r), val) % 65536)
  }

  /** `I->p ++` on a 16-bit counter. */
  function Advance(cpu: Cpu): Cpu {
    cpu.(p := (cpu.p + 1) % 65536)
  }

  /** One call of `do_instr`. */
  function Step(cpu: Cpu, ram: seq<byte>): Cpu
    requires |ram| == RamSize
  {
    match DecodeWord(Fetch(ram, cpu.p))
    case Stop => Advance(cpu.(flags := ClearLow(cpu.flags)))
    case Immediate(op, r, val) => Advance(Execute(cpu.(f := ClearLow(cpu.f)), op, r, val))
    case Unknown => cpu.(flags := ClearLow(cpu.flags))
  }

  // What `Step` means.

  /** The STOP words: a first byte below 8 and a second byte 0x00 or 0x80. */
  lemma StopBytes(b0: byte, b1: byte)
    ensures DecodeWord(b0 * 256 + b1) == Stop <==> b0 < 8 && (b1 == 0 || b1 == 0x80)
  {
    var instr := b0 * 256 + b1;
    assert instr / 2048 == b0 / 8;
    assert instr % 128 == b1 % 128 by {
      assert instr == 128 * (2 * b0) + b1;
    }
  }

  /**
   * The immediate words: first bytes 0x40..0x7f.  Bits 3-4 of the first
   * byte select load, add, multiply or subtract, bits 0-2 the register, and
   * the second byte is the value.
   */
  lemma ImmediateBytes(b0: byte, b1: byte)
    ensures DecodeWord(b0 * 256 + b1).Immediate? <==> 0x40 <= b0 < 0x80
    ensures 0x40 <= b0 < 0x80 ==>
      DecodeWord(b0 * 256 + b1) == Immediate((b0 / 8) % 4, RegOf(b0 % 8).value, b1)
  {
    var instr := b0 * 256 + b1;
    assert instr / 2048 == b0 / 8;
    assert instr / 256 == b0 && instr % 256 == b1;
  }

  /** Instruction types 12..15 behave as 8..11: the operation is `instrtype & 3`. */
  lemma OpcodeAlias(b0: byte, b1: byte)
    requires 0x60 <= b0 < 0x80
    ensures DecodeWord(b0 * 256 + b1) == DecodeWord((b0 - 0x20) * 256 + b1)
  {
    ImmediateBytes(b0, b1);
    ImmediateBytes(b0 - 0x20, b1);
  }

  /**
   * An instruction `do_instr` knows (STOP included) moves `p` on by one and
   * keeps running unless it is STOP; an unknown word clears RUN_FLAG and
   * changes nothing else.
   */
  lemma StepProgress(cpu: Cpu, ram: seq<byte>)
    requires |ram| == RamSize
    ensures var act := DecodeWord(Fetch(ram, cpu.p));
      var next := Step(cpu, ram);
      (act.Unknown? ==> next == cpu.(flags := ClearLow(cpu.flags))) &&
      (act.Stop? ==> next == cpu.(flags := ClearLow(cpu.flags), p := (cpu.p + 1) % 65536)) &&
      (act.Immediate? && act.reg != P ==> next.p == (cpu.p + 1) % 65536 && next.flags == cpu.flags) &&
      (next.flags % 2 == 0 <==> !act.Immediate? || cpu.flags % 2 == 0)
  {
    match DecodeWord(Fetch(ram, cpu.p))
    case Stop =>
    case Unknown =>
    case Immediate(op, r, val) =>
      var cleared := cpu.(f := ClearLow(cpu.f));
      assert Execute(cleared, op, r, val).flags == cpu.flags;
      if r != P {
        ExecuteKeeps(cleared, op, r, val, P);
      }
  }

  /** Only the target register and the carry bit of `f` are touched. */
  lemma ExecuteKeeps(cpu: Cpu, op: nat, r: Register, val: byte, q: Register)
    requires q != r && q != F
    ensures Read(Execute(cpu, op, r, val), q) == Read(cpu, q)
    ensures Execute(cpu, op, r, val).flags == cpu.flags
  {
    var x := Read(cpu, r);
    if op != 0 {
      var cpu' := if Carries(op, x, val) then cpu.(f := SetLow(cpu.f)) else cpu;
      ReadWrite(cpu', r, Exact(op, Read(cpu', r), val) % 65536, q);
    } else {
      ReadWrite(cpu, r, val, q);
    }
  }

  /** A result that does not fit 16 bits. */
  predicate Overflows(v: int) {
    v < 0 || v > 0xFFFF
  }

  /**
   * An immediate instruction on a register other than `f` and `p`: the
   * register gets the exact result modulo 65536, the carry bit says whether
   * the exact result left the 16-bit range, the other bits of `f` and the
   * other registers keep their values, and `p` moves on by one.
   */
  lemma ImmediateEffect(cpu: Cpu, ram: seq<byte>, op: nat, r: Register, val: byte)
    requires |ram| == RamSize && DecodeWord(Fetch(ram, cpu.p)) == Immediate(op, r, val)
    requires r != F && r != P
    ensures var next := Step(cpu, ram);
      Read(next, r) == Exact(op, Read(cpu, r), val) % 65536 &&
      next.f % 2 == (if Overflows(Exact(op, Read(cpu, r), val)) then 1 else 0) &&
      next.f / 2 == cpu.f / 2 &&
      next.p == (cpu.p + 1) % 65536 && next.flags == cpu.flags
    ensures forall q :: q != r && q != F && q != P ==> Read(Step(cpu, ram), q) == Read(cpu, q)
  {
    var cleared := cpu.(f := ClearLow(cpu.f));
    var x := Read(cpu, r);
    assert Read(cleared, r) == x;
    LowBit(cpu.f);
    LowBit(ClearLow(cpu.f));
    ExecuteCarry(cleared, op, r, val);
    forall q | q != r && q != F && q != P
      ensures Read(Step(cpu, ram), q) == Read(cpu, q)
    {
      ExecuteKeeps(cleared, op, r, val, q);
    }
  }

  /** Each carry condition is the test that the exact result leaves 16 bits. */
  lemma CarriesOverflow(op: nat, x: u16, val: byte)
    ensures Carries(op, x, val) <==> op != 0 && Overflows(Exact(op, x, val))
  {
  }

  /** `Execute` on a register other than `f`, with the carry bit clear. */
  lemma ExecuteCarry(cpu: Cpu, op: nat, r: Register, val: byte)
    requires r != F && cpu.f % 2 == 0
    ensures Read(Execute(cpu, op, r, val), r) == Exact(op, Read(cpu, r), val) % 65536
    ensures Execute(cpu, op, r, val).f == cpu.f + (if Overflows(Exact(op, Read(cpu, r), val)) then 1 else 0)
  {
    var x := Read(cpu, r);
    CarriesOverflow(op, x, val);
    if op == 0 {
      ReadWrite(cpu, r, val, r);
      ReadWrite(cpu, r, val, F);
    } else {
      var cpu' := if Carries(op, x, val) then cpu.(f := SetLow(cpu.f)) else cpu;
      assert Read(cpu', r) == x;
      ReadWrite(cpu', r, Exact(op, x, val) % 65536, r);
      ReadWrite(cpu', r, Exact(op, x, val) % 65536, F);
    }
  }

  /**
   * An immediate instruction on `p`: the result is written to `p`, and the
   * increment that ends every known instruction then applies to it.
   */
  lemma ImmediateOnCounter(cpu: Cpu, ram: seq<byte>, op: nat, val: byte)
    requires |ram| == RamSize && DecodeWord(Fetch(ram, cpu.p)) == Immediate(op, P, val)
    ensures Step(cpu, ram).p == (Exact(op, cpu.p, val) % 65536 + 1) % 65536
  {
    var cleared := cpu.(f := ClearLow(cpu.f));
    LowBit(cpu.f);
    ExecuteCarry(cleared, op, P, val);
  }

  /**
   * An immediate instruction on `f`: the carry is written into `f` first and
   * the operation then reads `f` with that carry, so the carry is part of
   * the operand and is overwritten by the result.
   */
  lemma ImmediateOnFlags(cpu: Cpu, ram: seq<byte>, op: nat, val: byte)
    requires |ram| == RamSize && DecodeWord(Fetch(ram, cpu.p)) == Immediate(op, F, val)
    ensures var x := ClearLow(cpu.f);
      var carry := if op != 0 && Overflows(Exact(op, x, val)) then 1 else 0;
      Step(cpu, ram).f == Exact(op, x + carry, val) % 65536
  {
    var x := ClearLow(cpu.f);
    LowBit(cpu.f);
    CarriesOverflow(op, x, val);
    var cleared := cpu.(f := x);
    if op != 0 && Carries(op, x, val) {
      assert Read(cleared.(f := SetLow(x)), F) == x + 1;
    }
  }

  /**
   * `addi f, 2` with `f == 0xfffe`: the sum overflows, the carry makes `f`
   * 0xffff, and the stored result is 1 rather than the 0 that 16-bit
   * addition of the original operands gives.
   */
  lemma CarryFeedsFlagsResult(cpu: Cpu, ram: seq<byte>)
    requires |ram| == RamSize && cpu.f == 0xfffe
    requires DecodeWord(Fetch(ram, cpu.p)) == Immediate(1, F, 2)
    ensures Step(cpu, ram).f == 1
    ensures (cpu.f + 2) % 65536 == 0
  {
    ImmediateOnFlags(cpu, ram, 1, 2);
  }

  /** `struct interp` with its 128 KiB of RAM. */
  class Interp {
    var a: u16
    var b: u16
    var c: u16
    var d: u16
    var e: u16
    var f: u16
    var s: u16
    var p: u16
    var flags: byte
    var ram: array<byte>

    function State(): Cpu
      reads this
    {
      Cpu(a, b, c, d, e, f, s, p, flags)
    }

    predicate Valid()
      reads this
    {
      ram.Length == RamSize
    }

    /** A machine with the given registers and RAM contents. */
    constructor (init: Cpu, memory: seq<byte>)
      requires |memory| == RamSize
      ensures Valid() && State() == init && ram[..] == memory && fresh(ram)
    {
      a, b, c, d, e := init.a, init.b, init.c, init.d, init.e;
      f, s, p, flags := init.f, init.s, init.p, init.flags;
      ram := new byte[RamSize](i requires 0 <= i < RamSize => memory[i]);
    }

    /** `*get_reg(I, id)`. */
    method ReadReg(r: Register) returns (v: u16)
      ensures v == Read(State(), r)
    {
      match r
      case A => v := a;
      case B => v := b;
      case C => v := c;
      case D => v := d;
      case E => v := e;
      case S => v := s;
      case P => v := p;
      case F => v := f;
    }

    /** `*get_reg(I, id) = v`. */
    method WriteReg(r: Register, v: u16)
      modifies this
      ensures State() == Write(old(State()), r, v) && ram == old(ram)
    {
      match r
      case A => a := v;
      case B => b := v;
      case C => c := v;
      case D => d := v;
      case E => e := v;
      case S => s := v;
      case P => p := v;
      case F => f := v;
    }

    /**
     * The body of the immediate branch once the carry is clear: the carry
     * test reads the register, the update reads it again.
     */
    method ExecuteImmediate(op: nat, r: Register, val: byte)
      modifies this
      ensures ram == old(ram)
      ensures State() == Execute(old(State()), op, r, val)
    {
      var x := ReadReg(r);
      if op == 0 {
        WriteReg(r, val);
      } else {
        if op == 1 {
          if x + val > 0xFFFF {
            f := SetLow(f);
          }
        } else if op == 2 {
          if x * val > 0xFFFF {
            f := SetLow(f);
          }
        } else {
          if x - val < 0 {
            f := SetLow(f);
          }
        }
        x := ReadReg(r);
        WriteReg(r, Exact(op, x, val) % 65536);
      }
    }

    /** `do_instr(I)`. */
    method DoInstr()
      requires Valid()
      modifies this
      ensures Valid() && ram == old(ram)
      ensures State() == Step(old(State()), ram[..])
    {
      ghost var cpu := State();
      var instr: u16 := (ram[p * 2] as int) * 256 + ram[p * 2 + 1] as int;
      assert instr == Fetch(ram[..], cpu.p);
      var instrtype := instr / 2048;
      var ok := false;
      if instrtype == 0 {
        var rest := instr % 128;
        if rest == 0 {
          flags := ClearLow(flags);
          ok := true;
        }
      } else if instrtype - instrtype % 8 == 8 {
        f := ClearLow(f);
        var op := instrtype % 4;
        var reg := (instr / 256) % 8;
        var val: byte := instr % 256;
        ExecuteImmediate(op, RegOf(reg).value, val);
        ok := true;
      }
      if !ok {
        flags := ClearLow(flags);
      } else {
        p := (p + 1) % 65536;
      }
    }
  }

  /** The length of a C string: the bytes before its first NUL. */
  function CStrLen(str: seq<byte>): (n: nat)
    requires 0 in str
    ensures n < |str| && str[n] == 0
    ensures forall i :: 0 <= i < n ==> str[i] != 0
  {
    if str[0] == 0 then 0 else 1 + CStrLen(str[1..])
  }

  /**
   * `insert_string(ram, offset, str)`: the bytes of `str` before its NUL
   * land at `ram[offset * 2 ..]`, and nothing else in the RAM changes.
   */
  method InsertString(ram: array<byte>, offset: u16, str: seq<byte>)
    requires 0 in str && 2 * offset + CStrLen(str) <= ram.Length
    modifies ram
    ensures forall j :: 0 <= j < ram.Length ==>
      ram[j] == if 2 * offset <= j < 2 * offset + CStrLen(str) then str[j - 2 * offset] else old(ram[j])
  {
    var i := 0;
    while str[i] != 0
      invariant 0 <= i <= CStrLen(str)
      invariant forall j :: 0 <= j < ram.Length ==>
        ram[j] == if 2 * offset <= j < 2 * offset + i then str[j - 2 * offset] else old(ram[j])
      decreases CStrLen(str) - i
    {
      ram[offset * 2 + i] := str[i];
      i := i + 1;
    }
  }
}
