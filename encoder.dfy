/**
 * The instruction encoder of the 16-register assembler (assem.py): the
 * register table, the table of mnemonics, and one encoding rule per family.
 * Each rule turns an operand list into a short byte string and at most one
 * label use, which the caller records as a pending relocation of the two
 * bytes at offset 2 of the instruction.
 */
module Encoder {
  import opened Common
  import opened Operands
  import Bits

  // Messages of the exceptions the encoder raises.
  const WrongArity := "wrong number of arguments"
  const Unassigned := "local variable 'yyyyyy' referenced before assignment"
  const BadByte := "bytes must be in range(0, 256)"
  const OnlyRegister := " can accept only a register as an argument"
  const NotMemory := " must be a memory location"
  const NotRegister := " must be a register"
  const OperandOf := " operand of "
  const NoSuchRegister := ": no such register"

  /** The register names in index order. */
  const RegNames: seq<string> :=
    ["a", "b", "c", "d", "e", "f", "g", "h", "i", "j", "k", "l", "m", "n", "sp", "pc"]

  /**
   * The dictionary lookup inside `get_reg`, on an already lower-cased name:
   * `reg_table` maps each name to its position in `RegNames`, the single
   * letters a..n to 0..13.
   */
  function LookupReg(name: string): (r: Result<nat>)
    ensures r.Ok? ==> r.value < 16 && RegNames[r.value] == name
  {
    if |name| == 1 && 'a' <= name[0] <= 'n' then
      assert name == [name[0]];
      Ok((name[0] - 'a') as nat)
    else if name == "sp" then Ok(14)
    else if name == "pc" then Ok(15)
    else Err(Reject(name + NoSuchRegister))
  }

  /** `get_reg(r)`: the register named by `r[1].lower()`. */
  function GetReg(op: Operand): Result<nat> {
    match SubscriptOne(op)
    case Err(f) => Err(f)
    case Ok(name) => LookupReg(name)
  }

  /** The table maps exactly the sixteen names, case-insensitively, onto 0..15. */
  lemma RegisterTable(name: string, i: nat)
    ensures GetReg(Reg(name)) == Ok(i) <==> i < 16 && Lower(name) == RegNames[i]
    ensures GetReg(Reg(name)).Err? <==> Lower(name) !in RegNames
    ensures GetReg(Reg(name)).Err? ==> GetReg(Reg(name)).fault == Reject(Lower(name) + NoSuchRegister)
  {
    assert forall j :: 0 <= j < 16 ==> LookupReg(RegNames[j]) == Ok(j);
  }

  /** What one rule produces: the bytes and, if the operands use a label, that use. */
  datatype Encoded = Encoded(bytes: seq<byte>, reloc: Option<Operand>)

  type AluCode = c: nat | c < 32
  type Condition = c: nat | c < 16
  type MemCode = c: nat | c <= 0x38

  datatype Rule =
    | Fixed(second: byte)
    | Data
    | OneReg(opcode: byte, mnemonic: string)
    | Swap
    | Arith(code: AluCode)
    | ArithUnary(code: AluCode)
    | LoadStore(name: string, base: MemCode, isLoad: bool)
    | Jump(cond: Condition)

  /** `instr_table` as the decorators and assignments leave it. */
  const InstrTable: map<string, Rule> := map[
    "stop" := Fixed(0xFF), "nop" := Fixed(0x01), "halt" := Fixed(0x02),
    "ret" := Fixed(0xaa), "reti" := Fixed(0xab), "di" := Fixed(0xdd), "ei" := Fixed(0xee),
    "data" := Data,
    "push" := OneReg(0x01, "PUSH"), "pop" := OneReg(0x02, "POP"), "jr" := OneReg(0x03, "JR"),
    "swap" := Swap,
    "mov" := Arith(0x00), "add" := Arith(0x01), "sub" := Arith(0x02), "mul" := Arith(0x03),
    "muls" := Arith(0x04), "div" := Arith(0x05), "divs" := Arith(0x06), "mod" := Arith(0x07),
    "mods" := Arith(0x08), "and" := Arith(0x09), "or" := Arith(0x0a), "xor" := Arith(0x0b),
    "cpl" := ArithUnary(0x0c), "neg" := ArithUnary(0x0d),
    "inc" := ArithUnary(0x0e), "dec" := ArithUnary(0x0f),
    "sll" := Arith(0x10), "srl" := Arith(0x11), "sra" := Arith(0x12), "rbl" := Arith(0x13),
    "rbr" := Arith(0x14), "bit" := Arith(0x15), "addc" := Arith(0x16), "subc" := Arith(0x17),
    "mulc" := Arith(0x18), "cmp" := Arith(0x1e), "cmps" := Arith(0x1f),
    "lw" := LoadStore("lw", 0x20, true), "lb" := LoadStore("lb", 0x28, true),
    "sw" := LoadStore("sw", 0x30, false), "sb" := LoadStore("sb", 0x38, false),
    "jmp" := Jump(0), "je" := Jump(1), "jz" := Jump(1), "jne" := Jump(2), "jnz" := Jump(2),
    "jlt" := Jump(3), "jc" := Jump(3), "jge" := Jump(4), "jnc" := Jump(4),
    "jle" := Jump(5), "jgt" := Jump(6), "jsr" := Jump(15)]

  // ---------------------------------------------------------------------
  // Immediate operands

  /**
   * The value `while src < 0: src += 65536` leaves: a negative integer is
   * raised into [0, 65536), anything else is kept as it is.
   */
  function Normalized(v: int): (w: int)
    ensures w >= 0 && w % 65536 == v % 65536
    ensures v < 0 ==> w < 65536
    ensures v >= 0 ==> w == v
  {
    if v < 0 then v % 65536 else v
  }

  /** The loop of gen_arith that raises a negative immediate. */
  method RaiseNegative(v: int) returns (w: int)
    ensures w == Normalized(v)
  {
    w := v;
    while w < 0
      invariant w % 65536 == v % 65536
      invariant v < 0 ==> w < 65536
      invariant v >= 0 ==> w == v
      decreases -w
    {
      w := w + 65536;
    }
  }

  /** The exponent `k` in 4..15 with `2^k == w`, if there is one. */
  function BigPowerFrom(w: int, k: nat): Option<nat>
    decreases 16 - k
  {
    if k > 15 then None else if Bits.Pow2(k) == w then Some(k) else BigPowerFrom(w, k + 1)
  }

  /**
   * Membership in `{16, 32, ..., 32768}` together with `int(log(src, 2))`,
   * which is exact on these twelve values.
   */
  function BigPower(w: int): Option<nat> {
    BigPowerFrom(w, 4)
  }

  lemma {:induction false} BigPowerFromSound(w: int, k: nat)
    ensures BigPowerFrom(w, k).Some? ==>
      k <= BigPowerFrom(w, k).value <= 15 && Bits.Pow2(BigPowerFrom(w, k).value) == w
    ensures (exists j :: k <= j <= 15 && Bits.Pow2(j) == w) ==> BigPowerFrom(w, k).Some?
    decreases 16 - k
  {
    if k <= 15 && Bits.Pow2(k) != w {
      BigPowerFromSound(w, k + 1);
      if exists j :: k <= j <= 15 && Bits.Pow2(j) == w {
        var j :| k <= j <= 15 && Bits.Pow2(j) == w;
        assert j != k;
      }
    }
  }

  /** `BigPower` recognises exactly the powers of two from 16 to 32768. */
  lemma BigPowerExact(w: int, k: nat)
    ensures BigPower(w) == Some(k) <==> 4 <= k <= 15 && Bits.Pow2(k) == w
  {
    BigPowerFromSound(w, 4);
    if 4 <= k <= 15 && Bits.Pow2(k) == w {
      var r := BigPower(w).value;
      if r != k {
        PowInjective(r, k);
      }
    }
  }

  lemma {:induction false} PowInjective(i: nat, j: nat)
    requires Bits.Pow2(i) == Bits.Pow2(j)
    ensures i == j
  {
    if i > 0 && j > 0 {
      PowInjective(i - 1, j - 1);
    }
  }

  /** The source field of an instruction: its 6-bit code, trailing value and label use. */
  datatype Source = Source(code: nat, imm: int, reloc: Option<Operand>)

  /**
   * The source field of a non-negative immediate (assem.py:128-140): a
   * constant 0..15, a power of two 16..32768 by its exponent, 0xFFFF, or
   * the marker of a trailing word.
   */
  function ImmediateCode(w: nat): nat {
    if w <= 15 then 0x10 + w
    else if BigPower(w).Some? then 0x20 + BigPower(w).value
    else if w == 0xFFFF then 0x21
    else 0x20
  }

  /** The polymorphic source operand of the binary ALU family (assem.py:121-145). */
  function ClassifySource(src: Operand): Result<Source> {
    match src
    case Reg(name) =>
      (match LookupReg(Lower(name))
       case Err(f) => Err(f)
       case Ok(x) => Ok(Source(x, 0, None)))
    case Num(v) =>
      var w := Normalized(v);
      Ok(Source(ImmediateCode(w), w, None))
    case Name(_) => Ok(Source(0x20, 0, Some(src)))
    case _ => Err(Crash(Unassigned))
  }

  // ---------------------------------------------------------------------
  // The encoding rules

  function DataBytes(args: seq<Operand>): Option<seq<byte>> {
    if args == [] then Some([])
    else if args[0].Num? && 0 <= args[0].value < 256 then
      match DataBytes(args[1..])
      case None => None
      case Some(rest) => Some([args[0].value as byte] + rest)
    else None
  }

  const DestNotRegister := "destination operand for arithmetic operation must be a register"

  function EncodeArith(code: AluCode, args: seq<Operand>): Result<Encoded> {
    if |args| != 2 then Err(Crash(WrongArity))
    else if !IsReg(args[0]) then Err(Reject(DestNotRegister))
    else
      match LookupReg(Lower(args[0].name))
      case Err(f) => Err(f)
      case Ok(x) =>
        match ClassifySource(args[1])
        case Err(f) => Err(f)
        case Ok(s) =>
          assert s.code < 64 by { assert x < 16 && Normalized(0) == 0; ClassifyRange(args[1]); }
          var head := [0x80 + code * 4 + x / 4, (x % 4) * 64 + s.code];
          Ok(Encoded(head + (if s.code == 0x20 then Word(s.imm) else []), s.reloc))
  }

  lemma ClassifyRange(src: Operand)
    ensures ClassifySource(src).Ok? ==> ClassifySource(src).value.code < 0x30
  {
    if src.Num? {
      var w := Normalized(src.value);
      if BigPower(w).Some? { BigPowerExact(w, BigPower(w).value); }
    }
  }

  function EncodeUnary(code: AluCode, args: seq<Operand>): Result<Encoded> {
    if |args| != 1 then Err(Crash(WrongArity))
    else if !IsReg(args[0]) then Err(Reject(DestNotRegister))
    else
      match LookupReg(Lower(args[0].name))
      case Err(f) => Err(f)
      case Ok(x) =>
        RegIndexRange(args[0].name);
        Ok(Encoded([0x80 + code * 4 + x / 4, (x % 4) * 64], None))
  }

  lemma RegIndexRange(name: string)
    ensures LookupReg(Lower(name)).Ok? ==> LookupReg(Lower(name)).value < 16
  {
  }

  /** The address field of a load or store (assem.py:232-253). */
  function Address(name: string, origin: Operand, offset: Operand): Result<Source> {
    match origin
    case Reg(base) =>
      (match offset
       case Num(o) =>
         (match LookupReg(Lower(base))
          case Err(f) => Err(f)
          case Ok(b) => Ok(Source(if o != 0 then b + 0x10 else b, o, None)))
       case Name(_) =>
         (match LookupReg(Lower(base))
          case Err(f) => Err(f)
          case Ok(b) => Ok(Source(b + 0x10, -1, Some(offset))))
       case _ => Err(Crash(Unassigned)))
    case Num(v) => Ok(Source(0x20, v, None))
    case Name(_) => Ok(Source(0x20, -1, Some(origin)))
    case _ => Err(Reject("Unknown parameter to " + Upper(name) + ":"))
  }

  lemma AddressRange(name: string, origin: Operand, offset: Operand)
    ensures Address(name, origin, offset).Ok? ==> Address(name, origin, offset).value.code <= 0x20
  {
    if origin.Reg? { RegIndexRange(origin.name); }
  }

  function MemoryRole(isLoad: bool): string { if isLoad then "source" else "destination" }
  function RegisterRole(isLoad: bool): string { if isLoad then "destination" else "source" }

  function EncodeLoadStore(name: string, base: MemCode, isLoad: bool, args: seq<Operand>): Result<Encoded> {
    if |args| != 2 then Err(Crash(WrongArity))
    else
      var reg := if isLoad then args[0] else args[1];
      var mem := if isLoad then args[1] else args[0];
      if !IsMem(mem) then
        Err(Reject(MemoryRole(isLoad) + OperandOf + Upper(name) + NotMemory))
      else if !IsReg(reg) then
        Err(Reject(RegisterRole(isLoad) + OperandOf + Upper(name) + NotRegister))
      else
        match LookupReg(Lower(reg.name))
        case Err(f) => Err(f)
        case Ok(x) =>
          match Address(name, mem.origin, mem.offset)
          case Err(f) => Err(f)
          case Ok(a) =>
            RegIndexRange(reg.name);
            AddressRange(name, mem.origin, mem.offset);
            var head := [base + x / 2, (x % 2) * 128 + a.code];
            Ok(Encoded(head + (if a.imm != 0 then Word(a.imm) else []), a.reloc))
  }

  /**
   * One rule applied to its operands.  A rule that uses a label always
   * produces four bytes, so the relocation at offset 2 covers its last two.
   */
  function Encode(rule: Rule, args: seq<Operand>): (r: Result<Encoded>)
    ensures r.Ok? && r.value.reloc.Some? ==>
      |r.value.bytes| == 4 && r.value.bytes[2] == r.value.bytes[3] && r.value.bytes[2] in {0, 0xFF}
  {
    match rule
    case Fixed(second) =>
      if |args| != 0 then Err(Crash(WrongArity)) else Ok(Encoded([0x00, second], None))
    case Data =>
      (match DataBytes(args)
       case None => Err(Crash(BadByte))
       case Some(b) => Ok(Encoded(b, None)))
    case OneReg(opcode, mnemonic) =>
      if |args| != 1 then Err(Crash(WrongArity))
      else if !IsReg(args[0]) then Err(Reject(mnemonic + OnlyRegister))
      else
        (match LookupReg(Lower(args[0].name))
         case Err(f) => Err(f)
         case Ok(x) => RegIndexRange(args[0].name); Ok(Encoded([opcode, x * 16], None)))
    case Swap =>
      if |args| != 2 then Err(Crash(WrongArity))
      else
        (match GetReg(args[0])
         case Err(f) => Err(f)
         case Ok(r1) =>
           match GetReg(args[1])
           case Err(f) => Err(f)
           case Ok(r2) =>
             assert r1 < 16 && r2 < 16 by { GetRegRange(args[0]); GetRegRange(args[1]); }
             Ok(Encoded([0x04, r1 * 16 + r2], None)))
    case Arith(code) => ArithReloc(code, args); EncodeArith(code, args)
    case ArithUnary(code) => EncodeUnary(code, args)
    case LoadStore(name, base, isLoad) => LoadStoreReloc(name, base, isLoad, args); EncodeLoadStore(name, base, isLoad, args)
    case Jump(cond) =>
      if |args| != 1 then Err(Crash(WrongArity))
      else Ok(Encoded([0x40 + cond * 4, 0x00, 0x00, 0x00], Some(args[0])))
  }

  lemma GetRegRange(op: Operand)
    ensures GetReg(op).Ok? ==> GetReg(op).value < 16
  {
  }

  lemma ArithReloc(code: AluCode, args: seq<Operand>)
    ensures EncodeArith(code, args).Ok? && EncodeArith(code, args).value.reloc.Some? ==>
      EncodeArith(code, args).value.bytes[2..] == [0, 0] && |EncodeArith(code, args).value.bytes| == 4
  {
  }

  lemma LoadStoreReloc(name: string, base: MemCode, isLoad: bool, args: seq<Operand>)
    ensures EncodeLoadStore(name, base, isLoad, args).Ok? && EncodeLoadStore(name, base, isLoad, args).value.reloc.Some? ==>
      EncodeLoadStore(name, base, isLoad, args).value.bytes[2..] == [0xFF, 0xFF] &&
      |EncodeLoadStore(name, base, isLoad, args).value.bytes| == 4
  {
  }

  /** The dispatch through `instr_table[instr.lower()]` (assem.py:424-427). */
  function EncodeInstruction(mnemonic: string, args: seq<Operand>): (r: Result<Encoded>)
    ensures r.Ok? && r.value.reloc.Some? ==> |r.value.bytes| == 4
  {
    var key := Lower(mnemonic);
    if key in InstrTable then Encode(InstrTable[key], args)
    else Err(Reject("unknown instruction '" + mnemonic + "'"))
  }

  // ---------------------------------------------------------------------
  // Reading an encoding back

  /** The fields of the first two bytes of an ALU instruction. */
  datatype AluWord = AluWord(code: nat, dest: nat, src: nat)

  function DecodeAlu(b0: byte, b1: byte): AluWord
    requires b0 >= 0x80
  {
    AluWord((b0 - 0x80) / 4, (b0 % 4) * 4 + b1 / 64, b1 % 64)
  }

  function WordValue(b: seq<byte>): int
    requires |b| == 2
  {
    (b[0] as int) * 256 + b[1] as int
  }

  /**
   * The value an immediate source field stands for, given the bytes that
   * follow the first two: a small constant, a power of two, 0xFFFF, or the
   * trailing word.  Register fields (below 0x10) and 0x22, 0x23 stand for none.
   */
  function ImmediateValue(src: nat, trailing: seq<byte>): Option<int> {
    if 0x10 <= src <= 0x1F then Some(src - 0x10)
    else if src == 0x20 then (if |trailing| == 2 then Some(WordValue(trailing)) else None)
    else if src == 0x21 then Some(0xFFFF)
    else if 0x24 <= src <= 0x2F then Some(Bits.Pow2(src - 0x20))
    else None
  }

  lemma {:induction false} Pow2Monotone(k: nat, m: nat)
    requires k <= m
    ensures Bits.Pow2(k) <= Bits.Pow2(m)
    decreases m
  {
    if k < m {
      Pow2Monotone(k, m - 1);
    }
  }

  /**
   * A binary ALU instruction decodes to its operation code and destination
   * register; a register source decodes to that register, an integer source
   * to the integer modulo 2^16 whichever short form the encoder chose, and a
   * label source to a trailing placeholder word that a relocation will fill.
   */
  lemma ArithRoundTrip(code: AluCode, dest: string, src: Operand, e: Encoded)
    requires EncodeArith(code, [Reg(dest), src]) == Ok(e)
    ensures |e.bytes| >= 2 && e.bytes[0] >= 0x80
    ensures DecodeAlu(e.bytes[0], e.bytes[1]).code == code
    ensures LookupReg(Lower(dest)) == Ok(DecodeAlu(e.bytes[0], e.bytes[1]).dest)
    ensures src.Reg? ==> LookupReg(Lower(src.name)) == Ok(DecodeAlu(e.bytes[0], e.bytes[1]).src) && |e.bytes| == 2
    ensures src.Num? ==>
      ImmediateValue(DecodeAlu(e.bytes[0], e.bytes[1]).src, e.bytes[2..]) == Some(src.value % 65536) && e.reloc.None?
    ensures src.Name? ==>
      DecodeAlu(e.bytes[0], e.bytes[1]).src == 0x20 && e.bytes[2..] == [0, 0] && e.reloc == Some(src)
    ensures src.Ref? || src.Str? ==> false
  {
    var x, s := ArithShape(code, dest, src, e);
    SourceShape(src, s);
    AluRead(code, x, s.code, if s.code == 0x20 then Word(s.imm) else [], e.bytes);
    if src.Num? {
      ImmediateRoundTrip(src.value);
    }
  }

  /** The fields `EncodeArith` packs, once it has succeeded. */
  lemma ArithShape(code: AluCode, dest: string, src: Operand, e: Encoded) returns (x: nat, s: Source)
    requires EncodeArith(code, [Reg(dest), src]) == Ok(e)
    ensures x < 16 && s.code < 0x30
    ensures LookupReg(Lower(dest)) == Ok(x) && ClassifySource(src) == Ok(s)
    ensures e.bytes == [0x80 + code * 4 + x / 4, (x % 4) * 64 + s.code] + (if s.code == 0x20 then Word(s.imm) else [])
    ensures e.reloc == s.reloc
  {
    x := LookupReg(Lower(dest)).value;
    s := ClassifySource(src).value;
    RegIndexRange(dest);
    ClassifyRange(src);
  }

  /** What each kind of source operand makes of the source field. */
  lemma SourceShape(src: Operand, s: Source)
    requires ClassifySource(src) == Ok(s)
    ensures src.Reg? ==> LookupReg(Lower(src.name)) == Ok(s.code) && s.code != 0x20 && s.reloc.None?
    ensures src.Num? ==> s.reloc.None? && ClassifySource(Num(src.value)) == Ok(s)
    ensures src.Name? ==> s == Source(0x20, 0, Some(src)) && Word(s.imm) == [0, 0]
    ensures !src.Ref? && !src.Str?
  {
    if src.Reg? { RegIndexRange(src.name); }
  }

  /** Whichever form the encoder picks, the immediate reads back as the integer modulo 2^16. */
  lemma ImmediateRoundTrip(v: int)
    ensures ClassifySource(Num(v)).Ok?
    ensures ImmediateValue(ClassifySource(Num(v)).value.code,
                           if ClassifySource(Num(v)).value.code == 0x20 then Word(ClassifySource(Num(v)).value.imm) else [])
            == Some(v % 65536)
  {
    var w := Normalized(v);
    assert ClassifySource(Num(v)) == Ok(Source(ImmediateCode(w), w, None));
    ImmediateCodeValue(w);
  }

  /** Each short form of a non-negative immediate reads back as the value modulo 2^16. */
  lemma ImmediateCodeValue(w: nat)
    ensures ImmediateValue(ImmediateCode(w), if ImmediateCode(w) == 0x20 then Word(w) else []) == Some(w % 65536)
  {
    if w <= 15 {
      assert ImmediateCode(w) == 0x10 + w;
      Short(w);
    } else if BigPower(w).Some? {
      var k := BigPower(w).value;
      BigPowerExact(w, k);
      Pow2Monotone(k, 15);
      assert Bits.Pow2(15) == 32768;
      assert ImmediateCode(w) == 0x20 + k;
      assert ImmediateValue(0x20 + k, []) == Some(w);
      Short(w);
    } else if w == 0xFFFF {
      assert ImmediateCode(w) == 0x21;
      Short(w);
    } else {
      assert ImmediateCode(w) == 0x20;
      assert WordValue(Word(w)) == w % 65536;
    }
  }

  lemma Short(w: nat)
    requires w < 65536
    ensures w % 65536 == w
  {
  }

  lemma AluRead(code: AluCode, x: nat, src: nat, tail: seq<byte>, bytes: seq<byte>)
    requires x < 16 && src < 64
    requires bytes == [0x80 + code * 4 + x / 4, (x % 4) * 64 + src] + tail
    ensures |bytes| >= 2 && bytes[0] >= 0x80 && bytes[2..] == tail
    ensures DecodeAlu(bytes[0], bytes[1]) == AluWord(code, x, src)
  {
    AluFields(code, x, src);
    assert bytes[0] == 0x80 + code * 4 + x / 4 && bytes[1] == (x % 4) * 64 + src;
  }

  lemma AluFields(code: AluCode, x: nat, src: nat)
    requires x < 16 && src < 64
    ensures 0x80 + code * 4 + x / 4 < 256 && (x % 4) * 64 + src < 256
    ensures DecodeAlu(0x80 + code * 4 + x / 4, (x % 4) * 64 + src) == AluWord(code, x, src)
  {
  }

  lemma MemFields(base: MemCode, x: nat, mode: nat)
    requires base % 8 == 0 && x < 16 && mode < 128
    ensures base + x / 2 < 256 && (x % 2) * 128 + mode < 256
    ensures DecodeMem(base + x / 2, (x % 2) * 128 + mode) == MemWord(base, x, mode)
  {
  }

  lemma MemRead(base: MemCode, x: nat, mode: nat, bytes: seq<byte>)
    requires base % 8 == 0 && x < 16 && mode < 128
    requires |bytes| >= 2 && bytes[0] == base + x / 2 && bytes[1] == (x % 2) * 128 + mode
    ensures DecodeMem(bytes[0], bytes[1]) == MemWord(base, x, mode)
  {
    MemFields(base, x, mode);
  }

  /** The fields of the first two bytes of a load or store. */
  datatype MemWord = MemWord(opcode: nat, reg: nat, mode: nat)

  function DecodeMem(b0: byte, b1: byte): MemWord {
    MemWord(b0 / 8 * 8, (b0 % 8) * 2 + b1 / 128, b1 % 128)
  }

  /** How a load or store reaches memory. */
  datatype Addressing = Indirect(reg: nat, displacement: int) | Absolute(address: int)

  /** The address a load or store encoding names, read from its own bytes. */
  function DecodeAddress(b1: byte, trailing: seq<byte>): Option<Addressing> {
    var mode := b1 % 128;
    if mode < 0x10 && trailing == [] then Some(Indirect(mode, 0))
    else if 0x10 <= mode < 0x20 && |trailing| == 2 then Some(Indirect(mode - 0x10, WordValue(trailing)))
    else if mode == 0x20 && trailing == [] then Some(Absolute(0))
    else if mode == 0x20 && |trailing| == 2 then Some(Absolute(WordValue(trailing)))
    else None
  }

  /**
   * A load or store decodes to its opcode and its data register, and it
   * leaves a relocation behind exactly when a label names the address.
   */
  lemma LoadStoreRoundTrip(name: string, base: MemCode, isLoad: bool, reg: string,
                           origin: Operand, offset: Operand, e: Encoded)
    requires base % 8 == 0
    requires EncodeLoadStore(name, base, isLoad, if isLoad then [Reg(reg), Ref(origin, offset)]
                                              else [Ref(origin, offset), Reg(reg)]) == Ok(e)
    ensures |e.bytes| >= 2 && DecodeMem(e.bytes[0], e.bytes[1]).opcode == base
    ensures LookupReg(Lower(reg)) == Ok(DecodeMem(e.bytes[0], e.bytes[1]).reg)
    ensures e.reloc.None? <==> !(origin.Name? || (origin.Reg? && offset.Name?))
  {
    var x, a := LoadStoreShape(name, base, isLoad, reg, origin, offset, e);
    MemRead(base, x, a.code, e.bytes);
    AddressRoundTrip(name, origin, offset, x % 2);
  }

  /**
   * The address of a load or store reads back as a register with a
   * displacement taken modulo 2^16, or as an absolute address modulo 2^16;
   * a label in the address leaves the placeholder 0xFFFF and a relocation.
   */
  lemma LoadStoreAddressing(name: string, base: MemCode, isLoad: bool, reg: string,
                            origin: Operand, offset: Operand, e: Encoded)
    requires base % 8 == 0
    requires EncodeLoadStore(name, base, isLoad, if isLoad then [Reg(reg), Ref(origin, offset)]
                                              else [Ref(origin, offset), Reg(reg)]) == Ok(e)
    ensures |e.bytes| >= 2
    ensures origin.Reg? && offset.Num? ==>
      LookupReg(Lower(origin.name)).Ok? &&
      DecodeAddress(e.bytes[1], e.bytes[2..]) ==
        Some(Indirect(LookupReg(Lower(origin.name)).value, offset.value % 65536))
    ensures origin.Num? ==>
      DecodeAddress(e.bytes[1], e.bytes[2..]) == Some(Absolute(origin.value % 65536))
    ensures origin.Reg? && offset.Name? ==>
      LookupReg(Lower(origin.name)).Ok? &&
      DecodeMem(e.bytes[0], e.bytes[1]).mode == 0x10 + LookupReg(Lower(origin.name)).value &&
      e.bytes[2..] == [0xFF, 0xFF] && e.reloc == Some(offset)
    ensures origin.Name? ==>
      DecodeMem(e.bytes[0], e.bytes[1]).mode == 0x20 && e.bytes[2..] == [0xFF, 0xFF] && e.reloc == Some(origin)
  {
    var x, a := LoadStoreShape(name, base, isLoad, reg, origin, offset, e);
    MemRead(base, x, a.code, e.bytes);
    AddressRoundTrip(name, origin, offset, x % 2);
  }

  /** The fields `EncodeLoadStore` packs, once it has succeeded. */
  lemma LoadStoreShape(name: string, base: MemCode, isLoad: bool, reg: string,
                       origin: Operand, offset: Operand, e: Encoded) returns (x: nat, a: Source)
    requires base % 8 == 0
    requires EncodeLoadStore(name, base, isLoad, if isLoad then [Reg(reg), Ref(origin, offset)]
                                              else [Ref(origin, offset), Reg(reg)]) == Ok(e)
    ensures LookupReg(Lower(reg)) == Ok(x) && x < 16
    ensures Address(name, origin, offset) == Ok(a) && a.code <= 0x20
    ensures |e.bytes| >= 2 && e.bytes[0] == base + x / 2 && e.bytes[1] == (x % 2) * 128 + a.code
    ensures e.bytes[2..] == (if a.imm != 0 then Word(a.imm) else []) && e.reloc == a.reloc
  {
    var args := if isLoad then [Reg(reg), Ref(origin, offset)] else [Ref(origin, offset), Reg(reg)];
    assert (if isLoad then args[0] else args[1]) == Reg(reg);
    assert (if isLoad then args[1] else args[0]) == Ref(origin, offset);
    x := LookupReg(Lower(reg)).value;
    a := Address(name, origin, offset).value;
    AddressRange(name, origin, offset);
    var tail := if a.imm != 0 then Word(a.imm) else [];
    assert e.bytes == [base + x / 2, (x % 2) * 128 + a.code] + tail;
    assert e.bytes[2..] == tail;
  }

  lemma AddressRoundTrip(name: string, origin: Operand, offset: Operand, hi: nat)
    requires hi < 2 && Address(name, origin, offset).Ok?
    ensures Address(name, origin, offset).value.code <= 0x20
    ensures var a := Address(name, origin, offset).value;
      var b1 := hi * 128 + a.code;
      var tail := if a.imm != 0 then Word(a.imm) else [];
      b1 < 256 && b1 % 128 == a.code &&
      (origin.Reg? && offset.Num? ==>
        LookupReg(Lower(origin.name)).Ok? &&
        DecodeAddress(b1, tail) == Some(Indirect(LookupReg(Lower(origin.name)).value, offset.value % 65536))) &&
      (origin.Num? ==> DecodeAddress(b1, tail) == Some(Absolute(origin.value % 65536))) &&
      (origin.Reg? && offset.Name? ==>
        LookupReg(Lower(origin.name)).Ok? && a.code == 0x10 + LookupReg(Lower(origin.name)).value &&
        tail == [0xFF, 0xFF] && a.reloc == Some(offset)) &&
      (origin.Name? ==> a.code == 0x20 && tail == [0xFF, 0xFF] && a.reloc == Some(origin)) &&
      (a.reloc.None? <==> !(origin.Name? || (origin.Reg? && offset.Name?)))
  {
    AddressRange(name, origin, offset);
    if origin.Reg? { RegIndexRange(origin.name); }
    var a := Address(name, origin, offset).value;
    assert (hi * 128 + a.code) % 128 == a.code;
  }

  /** Mnemonics are looked up case-insensitively. */
  lemma LowerIdempotent(s: string)
    ensures Lower(Lower(s)) == Lower(s)
  {
  }

  lemma MnemonicCase(mnemonic: string, args: seq<Operand>)
    ensures EncodeInstruction(mnemonic, args).Ok? <==> EncodeInstruction(Lower(mnemonic), args).Ok?
    ensures EncodeInstruction(mnemonic, args).Ok? ==>
      EncodeInstruction(mnemonic, args) == EncodeInstruction(Lower(mnemonic), args)
  {
    LowerIdempotent(mnemonic);
  }

  /** Every instruction but `data` is two or four bytes long. */
  lemma EncodedLength(rule: Rule, args: seq<Operand>)
    requires !rule.Data? && Encode(rule, args).Ok?
    ensures |Encode(rule, args).value.bytes| in {2, 4}
  {
  }

  /** A jump is four bytes: its condition in the first and the target word last. */
  lemma JumpLayout(mnemonic: string, target: Operand)
    requires Lower(mnemonic) in InstrTable && InstrTable[Lower(mnemonic)].Jump?
    ensures EncodeInstruction(mnemonic, [target]).Ok?
    ensures EncodeInstruction(mnemonic, [target]).value.bytes ==
      [0x40 + InstrTable[Lower(mnemonic)].cond * 4, 0, 0, 0]
    ensures EncodeInstruction(mnemonic, [target]).value.reloc == Some(target)
  {
  }

  /**
   * The refusals of a load or store.  The memory operand is checked first:
   * for a load it is the second operand, the "source", and for a store the
   * first, the "destination".  The other operand must then be a register.
   * Any other number of operands is the TypeError of the call.
   */
  lemma LoadStoreRefusals(name: string, base: MemCode, isLoad: bool, reg: Operand, mem: Operand)
    ensures var r := Encode(LoadStore(name, base, isLoad), if isLoad then [reg, mem] else [mem, reg]);
      !IsMem(mem) ==>
        r == Err(Reject((if isLoad then "source" else "destination") + " operand of " + Upper(name) +
                        " must be a memory location"))
    ensures var r := Encode(LoadStore(name, base, isLoad), if isLoad then [reg, mem] else [mem, reg]);
      IsMem(mem) && !IsReg(reg) ==>
        r == Err(Reject((if isLoad then "destination" else "source") + " operand of " + Upper(name) +
                        " must be a register"))
    ensures forall args :: |args| != 2 ==> Encode(LoadStore(name, base, isLoad), args) == Err(Crash(WrongArity))
  {
    var args := if isLoad then [reg, mem] else [mem, reg];
    assert Encode(LoadStore(name, base, isLoad), args) == EncodeLoadStore(name, base, isLoad, args);
    assert args[if isLoad then 1 else 0] == mem && args[if isLoad then 0 else 1] == reg;
    forall other | |other| != 2
      ensures Encode(LoadStore(name, base, isLoad), other) == Err(Crash(WrongArity))
    {
      assert Encode(LoadStore(name, base, isLoad), other) == EncodeLoadStore(name, base, isLoad, other);
    }
  }

  /**
   * `push`, `pop` and `jr` put the register index in the high nibble of the
   * second byte; anything but a register operand is refused.
   */
  lemma OneRegLayout(opcode: byte, mnemonic: string, op: Operand)
    ensures IsReg(op) && Encode(OneReg(opcode, mnemonic), [op]).Ok? ==>
      var b := Encode(OneReg(opcode, mnemonic), [op]).value.bytes;
      |b| == 2 && b[0] == opcode && b[1] % 16 == 0 && LookupReg(Lower(op.name)) == Ok(b[1] / 16)
    ensures IsReg(op) ==> (Encode(OneReg(opcode, mnemonic), [op]).Ok? <==> Lower(op.name) in RegNames)
    ensures !IsReg(op) ==>
      Encode(OneReg(opcode, mnemonic), [op]) == Err(Reject(mnemonic + OnlyRegister))
  {
    if IsReg(op) { RegIndexRange(op.name); }
  }

  /** `swap` packs its two register indices into the high and low nibble. */
  lemma SwapLayout(first: Operand, second: Operand)
    ensures Encode(Swap, [first, second]).Ok? <==> GetReg(first).Ok? && GetReg(second).Ok?
    ensures Encode(Swap, [first, second]).Ok? ==>
      var b := Encode(Swap, [first, second]).value.bytes;
      |b| == 2 && b[0] == 0x04 && GetReg(first) == Ok(b[1] / 16) && GetReg(second) == Ok(b[1] % 16)
  {
    GetRegRange(first);
    GetRegRange(second);
    if GetReg(first).Ok? && GetReg(second).Ok? {
      var r1, r2 := GetReg(first).value, GetReg(second).value;
      assert Encode(Swap, [first, second]).value.bytes == [0x04, r1 * 16 + r2];
      Nibbles(r1, r2);
    }
  }

  lemma Nibbles(hi: nat, lo: nat)
    requires hi < 16 && lo < 16
    ensures (hi * 16 + lo) / 16 == hi && (hi * 16 + lo) % 16 == lo
  {
  }

  /**
   * A unary ALU instruction is two bytes whose source field is zero; a
   * destination that is not a register is refused, by the binary forms too.
   */
  lemma UnaryLayout(code: AluCode, dest: Operand)
    ensures EncodeUnary(code, [dest]).Ok? ==>
      var b := EncodeUnary(code, [dest]).value.bytes;
      |b| == 2 && b[0] >= 0x80 && b[1] % 64 == 0 &&
      DecodeAlu(b[0], b[1]).code == code && LookupReg(Lower(dest.name)) == Ok(DecodeAlu(b[0], b[1]).dest)
    ensures !IsReg(dest) ==> EncodeUnary(code, [dest]) == Err(Reject(DestNotRegister))
    ensures forall src :: !IsReg(dest) ==> EncodeArith(code, [dest, src]) == Err(Reject(DestNotRegister))
  {
    if EncodeUnary(code, [dest]).Ok? {
      var x := LookupReg(Lower(dest.name)).value;
      RegIndexRange(dest.name);
      AluFields(code, x, 0);
    }
  }
}
