/** The guest-side trace macros: what each expands to, as the sequence
    of 32-bit instruction words it places in the program. */
module RevMacros {
  import opened Tracer

  /** `xori x0, x0, imm`: OP-IMM with funct3 4 and rd = rs1 = x0. */
  function Xori(imm: bv32): (w: bv32)
    requires imm < 0x800
    ensures Opcode(w) == 0x13 && Funct3(w) == 4 && Rd(w) == 0 && Rs1(w) == 0 && Imm(w) == imm
  {
    (imm << 20) | 0x00004013
  }

  /** The word of the `TRACE_…` macro for a command: the command's index
      as the immediate of the `xori` HINT. */
  function TraceWord(c: TrcCmd): (w: bv32)
    ensures Imm(w) == CmdIdx(c) && Rd(w) == 0
  {
    Xori(CmdIdx(c))
  }

  /** `nop`, which the assembler writes as `addi x0, x0, 0`. */
  const NOP_WORD: bv32 := 0x00000013

  /** The macros of the header.  `Assert(holds)` is `assert(x)` with `x`
      already evaluated. */
  datatype Macro = Nop | Trace(cmd: TrcCmd) | Assert(holds: bool)

  /** The instruction words a macro expands to; with `NO_REV_MACROS`
      defined every macro except `NOP` expands to nothing. */
  function Expand(m: Macro, noRevMacros: bool): (ws: seq<bv32>)
    ensures m.Nop? ==> ws == [NOP_WORD]
    ensures noRevMacros && !m.Nop? ==> ws == []
    ensures !noRevMacros && m.Trace? ==> ws == [TraceWord(m.cmd)]
    ensures !noRevMacros && m.Assert? ==>
      && |ws| >= 2
      && ws[0] == TraceWord(TracePushOn)
      && ws[|ws| - 1] == TraceWord(TracePushOff)
      && (|ws| == 3 <==> !m.holds)
      && (!m.holds ==> ws[1] == 0)
  {
    match m
    case Nop => [NOP_WORD]
    case Trace(cmd) => if noRevMacros then [] else [TraceWord(cmd)]
    case Assert(holds) =>
      if noRevMacros then []
      else [TraceWord(TracePushOn)] + (if holds then [] else [0]) + [TraceWord(TracePushOff)]
  }

  /** The trace macros use immediates 0..4 in the order of `TRC_CMD_IDX`,
      and their words are the ones the header's comments give. */
  lemma TraceWords()
    ensures Expand(Trace(TraceOff), false) == [0x00004013]
    ensures Expand(Trace(TraceOn), false) == [0x00104013]
    ensures Expand(Trace(TracePushOff), false) == [0x00204013]
    ensures Expand(Trace(TracePushOn), false) == [0x00304013]
    ensures Expand(Trace(TracePop), false) == [0x00404013]
  {
  }

  /** A trace macro's word tells the command back, so the five macros
      are five different instructions. */
  lemma TraceWordsDistinct(a: TrcCmd, b: TrcCmd)
    requires Expand(Trace(a), false) == Expand(Trace(b), false)
    ensures a == b
  {
    CmdIdxBijective(a, 0);
    CmdIdxBijective(b, 0);
  }

  /** `xori` is not among the tracer's base instructions: the macros'
      words have funct3 4, which no base word of `s2op` has, so none of
      them is a control word the tracer builds from `s2op`. */
  lemma MacrosOutsideS2op(c: TrcCmd, op: string, d: TrcCmd)
    requires op in S2op
    ensures "xori" !in S2op
    ensures Expand(Trace(c), false)[0] != Tracer.Nop(op, d)
  {
    S2opAreHints();
    NopIsHint(op, d);
  }
}
