/** BPF instructions, as far as control flow is concerned. */
module Bpf {

  type U8 = x: int | 0 <= x < 256
  type S16 = x: int | -0x8000 <= x < 0x8000

  /** `srcReg` tells a pseudo call from a helper call; `off` and `imm` are the two signed displacements. */
  datatype Insn = Insn(code: U8, srcReg: nat, off: S16, imm: int)

  type Program = seq<Insn>

  const BPF_JMP := 0x05
  const BPF_JMP32 := 0x06
  const BPF_JA := 0x00
  const BPF_CALL := 0x80
  const BPF_EXIT := 0x90
  const BPF_PSEUDO_CALL := 1

  /** BPF_CLASS: the low three bits of the opcode. */
  function Class(code: U8): int { code % 8 }

  /** BPF_OP: the high four bits of the opcode. */
  function Op(code: U8): int { code / 16 * 16 }

  predicate IsJmp(insn: Insn) {
    Class(insn.code) == BPF_JMP || Class(insn.code) == BPF_JMP32
  }

  predicate IsExit(insn: Insn) { IsJmp(insn) && Op(insn.code) == BPF_EXIT }
  predicate IsCall(insn: Insn) { IsJmp(insn) && Op(insn.code) == BPF_CALL }
  predicate IsGoto(insn: Insn) { IsJmp(insn) && Op(insn.code) == BPF_JA }

  /** A jump with a target of its own: not an exit and not a call. */
  predicate IsBranch(insn: Insn) { IsJmp(insn) && !IsExit(insn) && !IsCall(insn) }

  predicate IsPseudoCall(insn: Insn) {
    insn.code == BPF_JMP + BPF_CALL && insn.srcReg == BPF_PSEUDO_CALL
  }

  /** The opcodes of RFC 9669, section 4.3, in both classes: 0x05 is goto, 0x85 call and 0x95 exit. */
  lemma Opcodes(insn: Insn)
    ensures IsGoto(insn) <==> insn.code in {0x05, 0x06, 0x0d, 0x0e}
    ensures IsCall(insn) <==> insn.code in {0x85, 0x86, 0x8d, 0x8e}
    ensures IsExit(insn) <==> insn.code in {0x95, 0x96, 0x9d, 0x9e}
    ensures IsBranch(insn) <==> insn.code % 8 in {5, 6} && insn.code / 16 !in {8, 9}
    ensures IsPseudoCall(insn) <==> insn.code == 0x85 && insn.srcReg == 1
  {
  }

  /** Where the displacement `off` of instruction `i` leads. */
  function Target(p: Program, i: int): int
    requires 0 <= i < |p|
  {
    i + p[i].off + 1
  }

  /**
   * One step of execution inside a function, which runs callees to completion.
   * A 32-bit goto takes its displacement from `imm`; a 32-bit call or exit does not exist.
   * The second slot of a 64-bit immediate load counts as an instruction that falls through.
   */
  predicate Step(p: Program, i: int, j: int)
    requires 0 <= i < |p|
  {
    var insn := p[i];
    if !IsJmp(insn) then j == i + 1
    else if Class(insn.code) == BPF_JMP32 && !(IsBranch(insn) && !IsGoto(insn)) then
      IsGoto(insn) && j == i + insn.imm + 1
    else if IsExit(insn) then false
    else if IsCall(insn) then j == i + 1
    else if IsGoto(insn) then j == Target(p, i)
    else j == i + 1 || j == Target(p, i)
  }

  /** `t` is an execution that starts at `entry`. */
  ghost predicate IsExecution(p: Program, entry: int, t: seq<int>) {
    && |t| > 0 && t[0] == entry
    && (forall k :: 0 <= k < |t| ==> 0 <= t[k] < |p|)
    && forall k :: 0 <= k < |t| - 1 ==> Step(p, t[k], t[k + 1])
  }
}
