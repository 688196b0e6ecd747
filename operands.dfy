/**
 * The operand values the assembler's grammar builds (assemparse.py):
 * a bare integer, a bare name (a label), `('reg', name)`,
 * `('ref', origin, offset)` for a bracketed memory operand and
 * `('str', text)` for a quoted directive argument.
 */
module Operands {
  import opened Common

  datatype Operand =
    | Num(value: int)
    | Name(ident: string)
    | Reg(name: string)
    | Ref(origin: Operand, offset: Operand)
    | Str(text: string)

  /**
   * Python's `r[1]` followed by `.lower()`, on an operand that the encoder
   * takes for a register without checking its shape: the name of a
   * `('reg', name)`, the second character of a bare label, the origin of a
   * `('ref', origin, offset)` when that origin is a label, the text of a
   * `('str', text)`.  Anything else raises a Python error.
   */
  function SubscriptOne(op: Operand): Result<string> {
    match op
    case Reg(name) => Ok(Lower(name))
    case Str(text) => Ok(Lower(text))
    case Name(ident) =>
      if |ident| >= 2 then Ok(Lower([ident[1]])) else Err(Crash("string index out of range"))
    case Ref(origin, _) =>
      if origin.Name? then Ok(Lower(origin.ident)) else Err(Crash("tuple has no lower()"))
    case Num(_) => Err(Crash("int is not subscriptable"))
  }

  /** `is_reg` as evidently intended: a `('reg', name)` tuple. */
  predicate IsReg(op: Operand) {
    op.Reg?
  }

  /** `is_mem` as evidently intended: a `('ref', origin, offset)` tuple. */
  predicate IsMem(op: Operand) {
    op.Ref?
  }

  /**
   * `is_reg` and `is_mem` as written call `typeof`, a name Python does not
   * define, so every call raises NameError whatever the operand.
   */
  function IsRegAsWritten(op: Operand): Result<bool> {
    Err(Crash("name 'typeof' is not defined"))
  }

  function IsMemAsWritten(op: Operand): Result<bool> {
    Err(Crash("name 'typeof' is not defined"))
  }

  /** A register operand that the intended test accepts makes the written test raise. */
  lemma TypeofCounterexample()
    ensures IsReg(Reg("a")) && IsRegAsWritten(Reg("a")).Err?
    ensures IsMem(Ref(Num(0), Num(0))) && IsMemAsWritten(Ref(Num(0), Num(0))).Err?
  {
  }
}
