/**
 * The instruction encoders of `assemble.py`, the assembler of the older
 * 8-register machine.  Every `inst_*` function looks its register operands
 * up in `reg_table` (an unknown name prints a message and yields register
 * 0), parses an immediate with `parse_num`, reduces it to the width of its
 * field, and packs the result into a two-byte word with `|` and `<<`.
 *
 * The model splits that work in two.  `Interpret` does the operand handling
 * of a source line and yields an `Instr` (which entry of which family, which
 * registers, which field values); `Encode` is the bit packing.  `Decode` is
 * the inverse of `Encode`, and the lemmas show the two are exact inverses,
 * so no two distinct instructions share an encoding.
 */
module Vs16 {
  import opened Common
  import Numerals
  import opened Bits

  type RegId = r: nat | r < 8

  /** `reg_table`: register name to number. */
  const RegNames: seq<string> := ["a", "b", "c", "d", "e", "s", "p", "f"]

  /** `get_reg`: the number `reg_table` gives the name; 0 for any other name. */
  function GetReg(name: string): RegId {
    match name
    case "a" => 0
    case "b" => 1
    case "c" => 2
    case "d" => 3
    case "e" => 4
    case "s" => 5
    case "p" => 6
    case "f" => 7
    case _ => 0
  }

  /** `parse_num`: `$` selects hexadecimal, anything else is decimal. */
  function ParseNum(num: string): Option<int> {
    if |num| > 0 && num[0] == '$' then Numerals.ParseInt(num[1..], 16)
    else Numerals.ParseInt(num, 10)
  }

  // The instruction table, family by family; an entry's position in its
  // family's list selects its code.

  const FixedNames: seq<string> := ["stop", "ret", "nop"]
  const FixedCodes: seq<byte> := [0xff, 0xaa, 0x01]

  const StackNames: seq<string> := ["push", "pop", "jr"]
  const StackCodes: seq<byte> := [0x01, 0x02, 0x03]

  /** Two-register ALU operations; the unary ones (6..9) take one register. */
  const AluNames: seq<string> :=
    ["add", "sub", "mul", "and", "or", "xor", "not", "neg", "inc", "dec",
     "sl", "srl", "sra", "cmp", "brl", "brr", "bit"]

  predicate IsUnary(k: nat) {
    6 <= k <= 9
  }

  /** Immediates in the low byte. */
  const ImmNames: seq<string> := ["li", "lui", "addi", "muli", "subi", "andi", "ori", "xori"]
  const ImmBases: seq<byte> := [0x40, 0x30, 0x48, 0x50, 0x58, 0x60, 0x68, 0x70]

  /** Immediates in the low nibble, behind a selector in the high nibble. */
  const BitNames: seq<string> := ["sli", "srli", "srai", "brli", "brri", "biti"]
  const BitSelectors: seq<byte> := [0x80, 0x90, 0xa0, 0xb0, 0xc0, 0xd0]

  /** Loads and stores, by access width. */
  const LoadNames: seq<string> := ["lw", "llo", "lhl", "lhh"]
  const StoreNames: seq<string> := ["sw", "slo", "slh", "shh"]
  const WidthSelectors: seq<byte> := [0x00, 0x08, 0x10, 0x18]

  const MoveNames: seq<string> := ["mov", "movhl", "movlh", "movhh", "movll", "xchg"]

  const JumpNames: seq<string> := ["j", "je", "jne", "jl", "jg", "call"]

  /** An instruction once its operands are resolved; `k` selects the entry. */
  datatype Instr =
    | Fixed(k: nat)
    | Stack(k: nat, r: RegId)
    | Alu(k: nat, r1: RegId, r2: RegId)
    | Immediate(k: nat, r: RegId, v: byte)
    | BitImmediate(k: nat, r: RegId, n: nat)
    | Load(k: nat, dest: RegId, addr: RegId, offset: nat)
    | Store(k: nat, addr: RegId, src: RegId, offset: nat)
    | Move(k: nat, dest: RegId, src: RegId)
    | JumpSlot

  predicate WellFormed(i: Instr) {
    match i
    case Fixed(k) => k < 3
    case Stack(k, _) => k < 3
    case Alu(k, _, r2) => k < 17 && (IsUnary(k) ==> r2 == 0)
    case Immediate(k, _, _) => k < 8
    case BitImmediate(k, _, n) => k < 6 && n < 16
    case Load(k, _, _, offset) => k < 4 && offset < 8
    case Store(k, _, _, offset) => k < 4 && offset < 8
    case Move(k, _, _) => k < 6
    case JumpSlot => true
  }

  /** The mnemonic that a disassembler would print; jumps all share one word. */
  function Mnemonic(i: Instr): Option<string>
    requires WellFormed(i)
  {
    match i
    case Fixed(k) => Some(FixedNames[k])
    case Stack(k, _) => Some(StackNames[k])
    case Alu(k, _, _) => Some(AluNames[k])
    case Immediate(k, _, _) => Some(ImmNames[k])
    case BitImmediate(k, _, _) => Some(BitNames[k])
    case Load(k, _, _, _) => Some(LoadNames[k])
    case Store(k, _, _, _) => Some(StoreNames[k])
    case Move(k, _, _) => Some(MoveNames[k])
    case JumpSlot => None
  }

  /**
   * The two bytes each `inst_*` function returns, packed with `|`; a
   * register shifted into the top three bits (`r << 5`) is `r * 32`.
   */
  function Encode(i: Instr): (w: seq<byte>)
    requires WellFormed(i)
    ensures |w| == 2
  {
    match i
    case Fixed(k) => [0x00, FixedCodes[k]]
    case Stack(k, r) => [StackCodes[k], r * 32]
    case Alu(k, r1, r2) =>
      OrFields3(0x08, r1);
      OrFields5(r2 * 32, k);
      [Or(0x08, r1), Or(r2 * 32, k)]
    case Immediate(k, r, v) =>
      OrFields3(ImmBases[k], r);
      [Or(ImmBases[k], r), v]
    case BitImmediate(k, r, n) =>
      OrFields3(0x78, r);
      OrFields4(BitSelectors[k], n);
      [Or(0x78, r), Or(BitSelectors[k], n)]
    case Load(k, dest, addr, offset) =>
      OrFields3(0x10, dest);
      [Or(0x10, dest), Field(addr, k, offset)]
    case Store(k, addr, src, offset) =>
      OrFields3(0x18, addr);
      [Or(0x18, addr), Field(src, k, offset)]
    case Move(k, dest, src) =>
      OrFields3(0x20, dest);
      OrFields5(src * 32, k);
      [Or(0x20, dest), Or(src * 32, k)]
    case JumpSlot => [0, 0]
  }

  /** The second byte of a load or store: `reg << 5 | width | offset`. */
  function Field(reg: RegId, k: nat, offset: nat): (b: byte)
    requires k < 4 && offset < 8
    ensures b == reg * 32 + WidthSelectors[k] + offset
  {
    FieldPacking(reg, k, offset);
    Or(Or(reg * 32, WidthSelectors[k]), offset)
  }

  lemma FieldPacking(reg: RegId, k: nat, offset: nat)
    requires k < 4 && offset < 8
    ensures WidthSelectors[k] == 8 * k
    ensures Or(Or(reg * 32, WidthSelectors[k]), offset) == reg * 32 + 8 * k + offset
  {
    TableEntry(k);
    OrFields5(reg * 32, 8 * k);
    var q := 4 * reg + k;
    assert reg * 32 + 8 * k == Shl(q, 3) by {
      assert Pow2(3) == 8;
    }
    OrDisjoint(q, offset, 3);
  }

  lemma OrFields3(hi: nat, lo: nat)
    requires hi % 8 == 0 && lo < 8
    ensures Or(hi, lo) == hi + lo
  {
    assert Pow2(3) == 8;
    OrFields(hi, lo, 3);
  }

  lemma OrFields4(hi: nat, lo: nat)
    requires hi % 16 == 0 && lo < 16
    ensures Or(hi, lo) == hi + lo
  {
    assert Pow2(4) == 16;
    OrFields(hi, lo, 4);
  }

  lemma OrFields5(hi: nat, lo: nat)
    requires hi % 32 == 0 && lo < 32
    ensures Or(hi, lo) == hi + lo
  {
    assert Pow2(5) == 32;
    OrFields(hi, lo, 5);
  }

  /**
   * Reads a word back.  The first byte holds a five-bit group and a
   * register; the second a register in its top three bits and a code below.
   */
  function Decode(w: seq<byte>): (r: Option<Instr>)
    requires |w| == 2
    ensures r.Some? ==> WellFormed(r.value)
  {
    if w[0] < 8 then DecodeSpecial(w[0], w[1])
    else DecodeGroup(w[0] / 8, w[0] % 8, w[1])
  }

  /** First bytes 0..7: the fixed words, the jump slot and the stack group. */
  function DecodeSpecial(b0: byte, b1: byte): (r: Option<Instr>)
    requires b0 < 8
    ensures r.Some? ==> WellFormed(r.value)
  {
    if b0 == 0 then
      if b1 == 0xff then Some(Fixed(0))
      else if b1 == 0xaa then Some(Fixed(1))
      else if b1 == 0x01 then Some(Fixed(2))
      else if b1 == 0 then Some(JumpSlot)
      else None
    else if b0 <= 3 && b1 % 32 == 0 then Some(Stack(b0 - 1, b1 / 32))
    else None
  }

  /** First bytes 8..255: a group number above 0 and a register. */
  function DecodeGroup(group: nat, reg: RegId, b1: byte): (r: Option<Instr>)
    ensures r.Some? ==> WellFormed(r.value)
  {
    var hi, lo := b1 / 32, b1 % 32;
    if group == 1 then
      if lo < 17 && (IsUnary(lo) ==> hi == 0) then Some(Alu(lo, reg, hi)) else None
    else if group == 2 then Some(Load(lo / 8, reg, hi, lo % 8))
    else if group == 3 then Some(Store(lo / 8, reg, hi, lo % 8))
    else if group == 4 then
      if lo < 6 then Some(Move(lo, reg, hi)) else None
    else if group == 6 then Some(Immediate(1, reg, b1))
    else if group == 8 then Some(Immediate(0, reg, b1))
    else if 9 <= group <= 14 then Some(Immediate(group - 7, reg, b1))
    else if group == 15 && 8 <= b1 / 16 <= 13 then Some(BitImmediate(b1 / 16 - 8, reg, b1 % 16))
    else None
  }

  lemma TableEntry(k: nat)
    ensures k < 4 ==> WidthSelectors[k] == 8 * k
    ensures k < 8 ==> ImmBases[k] == (if k == 0 then 0x40 else if k == 1 then 0x30 else 0x38 + 8 * k)
    ensures k < 6 ==> BitSelectors[k] == 0x80 + 16 * k
  {
  }

  // Because the fields of each word occupy disjoint bits, every `|` in
  // `Encode` adds: the layout of each family as plain arithmetic.

  lemma AluLayout(k: nat, r1: RegId, r2: RegId)
    requires WellFormed(Alu(k, r1, r2))
    ensures Encode(Alu(k, r1, r2)) == [0x08 + r1, 32 * r2 + k]
  {
    OrFields3(0x08, r1);
    OrFields5(r2 * 32, k);
  }

  lemma ImmediateLayout(k: nat, r: RegId, v: byte)
    requires k < 8
    ensures Encode(Immediate(k, r, v)) == [ImmBases[k] + r, v]
  {
    TableEntry(k);
    OrFields3(ImmBases[k], r);
  }

  lemma BitImmediateLayout(k: nat, r: RegId, n: nat)
    requires k < 6 && n < 16
    ensures Encode(BitImmediate(k, r, n)) == [0x78 + r, BitSelectors[k] + n]
  {
    TableEntry(k);
    OrFields3(0x78, r);
    OrFields4(BitSelectors[k], n);
  }

  lemma LoadLayout(k: nat, dest: RegId, addr: RegId, offset: nat)
    requires k < 4 && offset < 8
    ensures Encode(Load(k, dest, addr, offset)) == [0x10 + dest, 32 * addr + 8 * k + offset]
  {
    TableEntry(k);
    OrFields3(0x10, dest);
  }

  lemma StoreLayout(k: nat, addr: RegId, src: RegId, offset: nat)
    requires k < 4 && offset < 8
    ensures Encode(Store(k, addr, src, offset)) == [0x18 + addr, 32 * src + 8 * k + offset]
  {
    TableEntry(k);
    OrFields3(0x18, addr);
  }

  lemma MoveLayout(k: nat, dest: RegId, src: RegId)
    requires k < 6
    ensures Encode(Move(k, dest, src)) == [0x20 + dest, 32 * src + k]
  {
    OrFields3(0x20, dest);
    OrFields5(src * 32, k);
  }

  /** Every instruction reads back from its encoding. */
  lemma DecodeEncode(i: Instr)
    requires WellFormed(i)
    ensures Decode(Encode(i)) == Some(i)
  {
    match i
    case Fixed(k) =>
    case Stack(k, r) =>
    case Alu(k, r1, r2) => DecodeAlu(k, r1, r2);
    case Immediate(k, r, v) => DecodeImmediate(k, r, v);
    case BitImmediate(k, r, n) => DecodeBitImmediate(k, r, n);
    case Load(k, dest, addr, offset) => DecodeLoad(k, dest, addr, offset);
    case Store(k, addr, src, offset) => DecodeStore(k, addr, src, offset);
    case Move(k, dest, src) => DecodeMove(k, dest, src);
    case JumpSlot =>
  }

  lemma DecodeAlu(k: nat, r1: RegId, r2: RegId)
    requires WellFormed(Alu(k, r1, r2))
    ensures Decode(Encode(Alu(k, r1, r2))) == Some(Alu(k, r1, r2))
  {
    AluLayout(k, r1, r2);
    DecodeRegisterForm(1, r1, r2, k);
  }

  lemma DecodeImmediate(k: nat, r: RegId, v: byte)
    requires k < 8
    ensures Decode(Encode(Immediate(k, r, v))) == Some(Immediate(k, r, v))
  {
    ImmediateLayout(k, r, v);
    TableEntry(k);
    DecodeRegisterForm(ImmBases[k] / 8, r, 0, 0);
  }

  lemma DecodeBitImmediate(k: nat, r: RegId, n: nat)
    requires k < 6 && n < 16
    ensures Decode(Encode(BitImmediate(k, r, n))) == Some(BitImmediate(k, r, n))
  {
    BitImmediateLayout(k, r, n);
    TableEntry(k);
    DecodeRegisterForm(15, r, 0, 0);
    var b1 := 16 * (8 + k) + n;
    assert BitSelectors[k] + n == b1;
    SplitNibble(8 + k, n);
    assert DecodeGroup(15, r, b1) == Some(BitImmediate(k, r, n));
  }

  lemma SplitNibble(q: nat, n: nat)
    requires n < 16
    ensures (16 * q + n) / 16 == q && (16 * q + n) % 16 == n
  {
  }

  lemma DecodeLoad(k: nat, dest: RegId, addr: RegId, offset: nat)
    requires k < 4 && offset < 8
    ensures Decode(Encode(Load(k, dest, addr, offset))) == Some(Load(k, dest, addr, offset))
  {
    LoadLayout(k, dest, addr, offset);
    DecodeRegisterForm(2, dest, addr, 8 * k + offset);
  }

  lemma DecodeStore(k: nat, addr: RegId, src: RegId, offset: nat)
    requires k < 4 && offset < 8
    ensures Decode(Encode(Store(k, addr, src, offset))) == Some(Store(k, addr, src, offset))
  {
    StoreLayout(k, addr, src, offset);
    DecodeRegisterForm(3, addr, src, 8 * k + offset);
  }

  lemma DecodeMove(k: nat, dest: RegId, src: RegId)
    requires k < 6
    ensures Decode(Encode(Move(k, dest, src))) == Some(Move(k, dest, src))
  {
    MoveLayout(k, dest, src);
    DecodeRegisterForm(4, dest, src, k);
  }

  /** The fields of a word `[group << 3 | r1, r2 << 5 | lo]`. */
  lemma DecodeRegisterForm(group: nat, r1: RegId, r2: RegId, lo: nat)
    requires 1 <= group < 32 && lo < 32
    ensures 8 * group + r1 >= 8
    ensures (8 * group + r1) / 8 == group && (8 * group + r1) % 8 == r1
    ensures (32 * r2 + lo) / 32 == r2 && (32 * r2 + lo) % 32 == lo
    ensures lo / 8 < 4 && (lo / 8) * 8 + lo % 8 == lo
  {
  }

  /** Every word that reads back is the encoding of what it reads as. */
  lemma EncodeDecode(w: seq<byte>)
    requires |w| == 2 && Decode(w).Some?
    ensures Encode(Decode(w).value) == w
  {
    if w[0] < 8 {
      EncodeDecodeSpecial(w[0], w[1]);
    } else {
      EncodeDecodeGroup(w[0] / 8, w[0] % 8, w[1]);
    }
  }

  lemma EncodeDecodeSpecial(b0: byte, b1: byte)
    requires b0 < 8 && DecodeSpecial(b0, b1).Some?
    ensures Encode(DecodeSpecial(b0, b1).value) == [b0, b1]
  {
    if b0 != 0 {
      assert b1 == 32 * (b1 / 32);
    }
  }

  lemma EncodeDecodeGroup(group: nat, reg: RegId, b1: byte)
    requires 1 <= group < 32 && DecodeGroup(group, reg, b1).Some?
    ensures Encode(DecodeGroup(group, reg, b1).value) == [8 * group + reg, b1]
  {
    var hi, lo := b1 / 32, b1 % 32;
    assert b1 == 32 * hi + lo;
    if group == 1 {
      AluLayout(lo, reg, hi);
    } else if group == 2 {
      LoadLayout(lo / 8, reg, hi, lo % 8);
    } else if group == 3 {
      StoreLayout(lo / 8, reg, hi, lo % 8);
    } else if group == 4 {
      MoveLayout(lo, reg, hi);
    } else if group == 6 || 8 <= group <= 14 {
      EncodeDecodeImmediate(group, reg, b1);
    } else {
      var k := b1 / 16 - 8;
      BitImmediateLayout(k, reg, b1 % 16);
      TableEntry(k);
    }
  }

  lemma EncodeDecodeImmediate(group: nat, reg: RegId, b1: byte)
    requires group == 6 || 8 <= group <= 14
    ensures DecodeGroup(group, reg, b1).Some?
    ensures Encode(DecodeGroup(group, reg, b1).value) == [8 * group + reg, b1]
  {
    var k := if group == 6 then 1 else group - 8 + (if group == 8 then 0 else 1);
    assert DecodeGroup(group, reg, b1) == Some(Immediate(k, reg, b1));
    ImmediateLayout(k, reg, b1);
    TableEntry(k);
  }

  // Operand handling of the `inst_*` functions.

  /**
   * The 8-bit immediate: `if v > 0xff: v = v & 0xff`.  A negative value is
   * left alone, and `bytes` then rejects it.
   */
  function LowByte(v: int): (r: Option<byte>)
    ensures r.Some? <==> v >= 0
    ensures r.Some? ==> r.value == v % 256
  {
    if v > 0xff then
      MaskByte(v);
      Some(And(v, 0xff))
    else if v < 0 then None
    else Some(v)
  }

  /**
   * The 4-bit immediate: `if v > 0xf: v = v & 0xf`.  For a negative value
   * `sel | v` is negative too, and `bytes` rejects it.
   */
  function LowNibble(v: int): (r: Option<nat>)
    ensures r.Some? <==> v >= 0
    ensures r.Some? ==> r.value == v % 16
  {
    if v > 0xf then
      MaskNibble(v);
      Some(And(v, 0xf))
    else if v < 0 then None
    else Some(v)
  }

  lemma MaskByte(v: nat)
    ensures And(v, 0xff) == v % 256
  {
    assert Pow2(8) == 256;
    var q := AndMask(v, 8);
  }

  lemma MaskNibble(v: nat)
    ensures And(v, 0xf) == v % 16
  {
    assert Pow2(4) == 16;
    var q := AndMask(v, 4);
  }

  /**
   * The three-bit offset field of a load or store: an offset outside -3..4
   * is replaced by 0, and a negative one is stored as `offset + 8`.
   */
  function OffsetField(offset: int): (f: nat)
    ensures f < 8
  {
    var o := if offset > 4 || offset < -3 then 0 else offset;
    if o < 0 then o + 8 else o
  }

  /** How the machine reads the field back: 5..7 stand for -3..-1. */
  function SignedOffset(f: nat): int {
    if f >= 5 then f - 8 else f
  }

  /** The offsets that fit survive the field; every other one becomes 0. */
  lemma OffsetRoundTrip(offset: int)
    ensures -3 <= offset <= 4 ==> SignedOffset(OffsetField(offset)) == offset
    ensures !(-3 <= offset <= 4) ==> OffsetField(offset) == 0
    ensures OffsetField(offset) == (if -3 <= offset <= 4 then offset % 8 else 0)
  {
  }

  /**
   * The offset normalisation as written: the message for an offset out of
   * range formats the operand text with `%d`, which raises TypeError, so
   * the replacement by 0 is never reached.
   */
  function OffsetFieldAsWritten(offset: int): (r: Result<nat>)
    ensures r.Ok? ==> r.value == OffsetField(offset)
  {
    if offset > 4 || offset < -3 then Err(Crash("TypeError: %d format: a real number is required, not str"))
    else Ok(OffsetField(offset))
  }

  /**
   * An offset of 5 stops the assembler instead of being replaced by 0.  As
   * written no such offset arrives: `get_indirect` raises AttributeError on
   * every `[reg]` operand and gives offset 0 for any other, so the TypeError
   * is reached only once `get_indirect` returns the offset it parsed.
   */
  lemma OffsetCounterexample()
    ensures OffsetFieldAsWritten(5).Err?
    ensures OffsetField(5) == 0
  {
  }

  /** The families of the instruction table. */
  datatype Family = FixedOp | StackOp | AluOp | ImmOp | BitOp | LoadOp | StoreOp | MoveOp | JumpOp

  /** An entry of `instr_table`: its family and its position in the family's list. */
  datatype Entry = Entry(family: Family, k: nat)

  function Names(f: Family): seq<string> {
    match f
    case FixedOp => FixedNames
    case StackOp => StackNames
    case AluOp => AluNames
    case ImmOp => ImmNames
    case BitOp => BitNames
    case LoadOp => LoadNames
    case StoreOp => StoreNames
    case MoveOp => MoveNames
    case JumpOp => JumpNames
  }

  /** `instr_table[m]`: the entry registered under the name, if any. */
  function Lookup(m: string): (r: Option<Entry>)
    ensures r.Some? ==> r.value.k < |Names(r.value.family)| && Names(r.value.family)[r.value.k] == m
  {
    match m
    case "stop" => Some(Entry(FixedOp, 0))
    case "ret" => Some(Entry(FixedOp, 1))
    case "nop" => Some(Entry(FixedOp, 2))
    case "push" => Some(Entry(StackOp, 0))
    case "pop" => Some(Entry(StackOp, 1))
    case "jr" => Some(Entry(StackOp, 2))
    case "add" => Some(Entry(AluOp, 0))
    case "sub" => Some(Entry(AluOp, 1))
    case "mul" => Some(Entry(AluOp, 2))
    case "and" => Some(Entry(AluOp, 3))
    case "or" => Some(Entry(AluOp, 4))
    case "xor" => Some(Entry(AluOp, 5))
    case "not" => Some(Entry(AluOp, 6))
    case "neg" => Some(Entry(AluOp, 7))
    case "inc" => Some(Entry(AluOp, 8))
    case "dec" => Some(Entry(AluOp, 9))
    case "sl" => Some(Entry(AluOp, 10))
    case "srl" => Some(Entry(AluOp, 11))
    case "sra" => Some(Entry(AluOp, 12))
    case "cmp" => Some(Entry(AluOp, 13))
    case "brl" => Some(Entry(AluOp, 14))
    case "brr" => Some(Entry(AluOp, 15))
    case "bit" => Some(Entry(AluOp, 16))
    case "li" => Some(Entry(ImmOp, 0))
    case "lui" => Some(Entry(ImmOp, 1))
    case "addi" => Some(Entry(ImmOp, 2))
    case "muli" => Some(Entry(ImmOp, 3))
    case "subi" => Some(Entry(ImmOp, 4))
    case "andi" => Some(Entry(ImmOp, 5))
    case "ori" => Some(Entry(ImmOp, 6))
    case "xori" => Some(Entry(ImmOp, 7))
    case "sli" => Some(Entry(BitOp, 0))
    case "srli" => Some(Entry(BitOp, 1))
    case "srai" => Some(Entry(BitOp, 2))
    case "brli" => Some(Entry(BitOp, 3))
    case "brri" => Some(Entry(BitOp, 4))
    case "biti" => Some(Entry(BitOp, 5))
    case "lw" => Some(Entry(LoadOp, 0))
    case "llo" => Some(Entry(LoadOp, 1))
    case "lhl" => Some(Entry(LoadOp, 2))
    case "lhh" => Some(Entry(LoadOp, 3))
    case "sw" => Some(Entry(StoreOp, 0))
    case "slo" => Some(Entry(StoreOp, 1))
    case "slh" => Some(Entry(StoreOp, 2))
    case "shh" => Some(Entry(StoreOp, 3))
    case "mov" => Some(Entry(MoveOp, 0))
    case "movhl" => Some(Entry(MoveOp, 1))
    case "movlh" => Some(Entry(MoveOp, 2))
    case "movhh" => Some(Entry(MoveOp, 3))
    case "movll" => Some(Entry(MoveOp, 4))
    case "xchg" => Some(Entry(MoveOp, 5))
    case "j" => Some(Entry(JumpOp, 0))
    case "je" => Some(Entry(JumpOp, 1))
    case "jne" => Some(Entry(JumpOp, 2))
    case "jl" => Some(Entry(JumpOp, 3))
    case "jg" => Some(Entry(JumpOp, 4))
    case "call" => Some(Entry(JumpOp, 5))
    case _ => None
  }

  /** The number of operands each entry's Python function takes. */
  function Arity(e: Entry): nat {
    match e.family
    case FixedOp => 0
    case StackOp => 1
    case JumpOp => 1
    case AluOp => if IsUnary(e.k) then 1 else 2
    case _ => 2
  }

  /** A jump the assembler remembers: `(current_position, mnemonic, label)`. */
  datatype Jump = Jump(location: int, kind: string, target: string)

  /** What one call of an `inst_*` function yields: a word and at most one jump. */
  datatype Emitted = Emitted(instr: Instr, jump: Option<Jump>)

  /**
   * What an entry other than a jump promises: a well-formed instruction for
   * which a disassembler prints the entry's own name, and no jump record.
   */
  predicate Plain(m: string, e: Emitted) {
    WellFormed(e.instr) && Mnemonic(e.instr) == Some(m) && e.jump.None?
  }

  /**
   * What every entry of the table promises: a plain instruction, or for a
   * jump a placeholder word and a record of where and to what it jumps.
   */
  predicate Faithful(m: string, args: seq<string>, position: int, e: Emitted) {
    if e.jump.None? then Plain(m, e)
    else
      e.instr == JumpSlot && Lookup(m).Some? && Lookup(m).value.family == JumpOp &&
      |args| == 1 && e.jump.value == Jump(position, m, args[0])
  }

  /**
   * `instr_table[m](*args)` at `current_position == position`.  A name not
   * in the table raises KeyError and a wrong operand count TypeError; both
   * stop the assembler.  `indirect` stands for `get_indirect`: the offset
   * and base register of a memory operand.
   */
  function Interpret(m: string, args: seq<string>, position: int, indirect: string -> (int, RegId))
    : (r: Result<Emitted>)
    ensures r.Ok? ==> Lookup(m).Some? && |args| == Arity(Lookup(m).value)
    ensures r.Ok? ==> Faithful(m, args, position, r.value)
  {
    match Lookup(m)
    case None => Err(Crash("KeyError: " + m))
    case Some(e) =>
      if |args| != Arity(e) then Err(Crash("TypeError: wrong number of operands"))
      else Dispatch(e, m, args, position, indirect)
  }

  /** The call of the entry's function once the operand count is right. */
  function Dispatch(e: Entry, m: string, args: seq<string>, position: int, indirect: string -> (int, RegId))
    : (r: Result<Emitted>)
    requires Lookup(m) == Some(e) && |args| == Arity(e)
    ensures r.Ok? ==> Faithful(m, args, position, r.value)
  {
    var k := e.k;
    match e.family
    case FixedOp => Ok(Emitted(Fixed(k), None))
    case StackOp => Ok(Emitted(Stack(k, GetReg(args[0])), None))
    case AluOp => Ok(Emitted(Alu(k, GetReg(args[0]), if IsUnary(k) then 0 else GetReg(args[1])), None))
    case ImmOp => InterpretImmediate(k, args[0], args[1])
    case BitOp => InterpretBitImmediate(k, args[0], args[1])
    case LoadOp =>
      var (offset, src) := indirect(args[1]);
      Ok(Emitted(Load(k, GetReg(args[0]), src, OffsetField(offset)), None))
    case StoreOp =>
      var (offset, dest) := indirect(args[0]);
      Ok(Emitted(Store(k, dest, GetReg(args[1]), OffsetField(offset)), None))
    case MoveOp => Ok(Emitted(Move(k, GetReg(args[0]), GetReg(args[1])), None))
    case JumpOp => Ok(Emitted(JumpSlot, Some(Jump(position, m, args[0]))))
  }

  /**
   * `li`, `addi`, ...: a register and a number, of which the low byte is
   * kept; a text that is not a number, or a negative value, raises ValueError.
   */
  function InterpretImmediate(k: nat, reg: string, num: string): (r: Result<Emitted>)
    requires k < |ImmNames|
    ensures r.Ok? <==> ParseNum(num).Some? && ParseNum(num).value >= 0
    ensures r.Ok? ==> r.value == Emitted(Immediate(k, GetReg(reg), ParseNum(num).value % 256), None)
  {
    match ParseNum(num)
    case None => Err(Crash("ValueError: invalid literal for int()"))
    case Some(v) =>
      match LowByte(v)
      case None => Err(Crash("ValueError: bytes must be in range(0, 256)"))
      case Some(b) => Ok(Emitted(Immediate(k, GetReg(reg), b), None))
  }

  /** `sli`, `srli`, ...: a register and a number, of which the low nibble is kept. */
  function InterpretBitImmediate(k: nat, reg: string, num: string): (r: Result<Emitted>)
    requires k < |BitNames|
    ensures r.Ok? <==> ParseNum(num).Some? && ParseNum(num).value >= 0
    ensures r.Ok? ==> r.value == Emitted(BitImmediate(k, GetReg(reg), ParseNum(num).value % 16), None)
  {
    match ParseNum(num)
    case None => Err(Crash("ValueError: invalid literal for int()"))
    case Some(v) =>
      match LowNibble(v)
      case None => Err(Crash("ValueError: bytes must be in range(0, 256)"))
      case Some(n) => Ok(Emitted(BitImmediate(k, GetReg(reg), n), None))
  }
}
