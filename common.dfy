/**
 * Values shared by the models of the luna16 tools: bytes, 16-bit words,
 * optional values, and the two ways a Python step of the assembler can fail.
 */
module Common {

  type byte = x: int | 0 <= x < 256
  type u16 = x: int | 0 <= x < 65536

  datatype Option<T> = None | Some(value: T)

  /**
   * `Reject` is an `AssembleError`: the per-line handler of the assembler
   * prints it and counts it.  `Crash` is any other Python exception
   * (TypeError, ValueError, IndexError, an unbound local, a missing file):
   * nothing catches it and the whole run stops.
   */
  datatype Fault = Reject(message: string) | Crash(reason: string)

  datatype Result<T> = Ok(value: T) | Err(fault: Fault)

  /** ASCII case folding, as Python's `str.lower` does on ASCII text. */
  function LowerChar(c: char): char {
    if 'A' <= c <= 'Z' then (c as int + 32) as char else c
  }

  function UpperChar(c: char): char {
    if 'a' <= c <= 'z' then (c as int - 32) as char else c
  }

  function Lower(s: string): (r: string)
    ensures |r| == |s|
    ensures forall i :: 0 <= i < |s| ==> r[i] == LowerChar(s[i])
  {
    if s == [] then [] else [LowerChar(s[0])] + Lower(s[1..])
  }

  function Upper(s: string): (r: string)
    ensures |r| == |s|
    ensures forall i :: 0 <= i < |s| ==> r[i] == UpperChar(s[i])
  {
    if s == [] then [] else [UpperChar(s[0])] + Upper(s[1..])
  }

  /**
   * The two bytes Python builds as `[(v & 0xff00) >> 8, v & 0xff]`:
   * the big-endian 16-bit word of `v` taken modulo 65536 (Python's `&` on a
   * negative integer sees its two's complement, which is what `%` gives here).
   */
  function Word(v: int): (r: seq<byte>)
    ensures |r| == 2 && (r[0] as int) * 256 + r[1] as int == v % 65536
  {
    var w := v % 65536;
    [w / 256, w % 256]
  }

  function Zeros(n: nat): (r: seq<byte>)
    ensures |r| == n && forall i :: 0 <= i < n ==> r[i] == 0
  {
    if n == 0 then [] else Zeros(n - 1) + [0]
  }
}
