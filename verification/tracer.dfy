/** The constants of `RevTracer`: the per-cycle event word, the HINT
    instructions a guest uses to switch tracing, and the characters the
    trace shows for events.  The tracer's run-time behaviour lives in
    `RevTracer.cc`, which is not part of this model. */
module Tracer {

  // ---------------------------------------------------------------------
  // `TraceEvents_t`: one 64-bit word, or six bit fields

  /** The bit fields of `TraceEvents_t`, lowest first. */
  datatype Events = Events(stall: bv64, stallSources: bv64, flush: bv64,
                           flushSources: bv64, spare: bv64, trcCtl: bv64)

  /** Each field fits its width: 1, 15, 1, 15, 31 and 1 bits. */
  predicate Fits(e: Events) {
    e.stall < 2 && e.stallSources < 0x8000 && e.flush < 2 && e.flushSources < 0x8000
    && e.spare < 0x8000_0000 && e.trcCtl < 2
  }

  /** The fields read out of the word `v`: stall [0], stall_sources
      [15:1], flush [16], flush_sources [31:17], spare [62:32], trc_ctl
      [63]. */
  function Fields(v: bv64): (e: Events)
    ensures Fits(e)
  {
    Events(v & 1, (v >> 1) & 0x7fff, (v >> 16) & 1, (v >> 17) & 0x7fff,
           (v >> 32) & 0x7fff_ffff, v >> 63)
  }

  /** The word the fields make up. */
  function Word(e: Events): bv64 {
    e.stall | (e.stallSources << 1) | (e.flush << 16) | (e.flushSources << 17)
    | (e.spare << 32) | (e.trcCtl << 63)
  }

  /** The six fields tile the word exactly: reading the fields of a word
      and putting them back gives the word, and fields that fit are read
      back unchanged. */
  lemma FieldsWordRoundTrip(v: bv64, e: Events)
    ensures Word(Fields(v)) == v
    ensures Fits(e) ==> Fields(Word(e)) == e
  {
  }

  /** The union starts as `v = 0`: no event of any kind. */
  lemma DefaultIsQuiet()
    ensures Fields(0) == Events(0, 0, 0, 0, 0, 0)
  {
  }

  // ---------------------------------------------------------------------
  // Trace-control HINTs

  /** The base instruction words, by mnemonic, the tracer can use for its
      controls: register-immediate instructions with rd = x0. */
  const S2op: map<string, bv32> := map[
    "slti" := 0x00002013,
    "sltiu" := 0x00003013,
    "slli" := 0x00001013,
    "srli" := 0x00005013,
    "srai" := 0x40005013
  ]

  const TRC_OP_DEFAULT: string := "slli"
  const TRC_OP_POS: bv32 := 20

  // The fields of a 32-bit I-type instruction word.
  function Opcode(w: bv32): bv32 { w & 0x7f }
  function Rd(w: bv32): bv32 { (w >> 7) & 0x1f }
  function Funct3(w: bv32): bv32 { (w >> 12) & 0x7 }
  function Rs1(w: bv32): bv32 { (w >> 15) & 0x1f }
  function Imm(w: bv32): bv32 { w >> 20 }

  /** Every base word is an OP-IMM instruction writing x0 from x0 — a
      HINT in section 2.9 of the RISC-V Unprivileged ISA — with immediate
      0, except `srai`, whose immediate holds the funct7 0b0100000 that
      tells it from `srli`; the funct3 values are slti 2, sltiu 3, slli 1,
      srli 5, srai 5; and `srai` is `srli` with bit 30 set. */
  lemma S2opAreHints()
    ensures forall op :: op in S2op ==> Opcode(S2op[op]) == 0x13 && Rd(S2op[op]) == 0 && Rs1(S2op[op]) == 0
    ensures forall op :: op in S2op && op != "srai" ==> Imm(S2op[op]) == 0
    ensures Imm(S2op["srai"]) == 0x400
    ensures Funct3(S2op["slti"]) == 2 && Funct3(S2op["sltiu"]) == 3 && Funct3(S2op["slli"]) == 1
    ensures Funct3(S2op["srli"]) == 5 && Funct3(S2op["srai"]) == 5
    ensures S2op["srai"] == S2op["srli"] | (1 << 30)
    ensures TRC_OP_DEFAULT in S2op
  {
  }

  /** `TRC_CMD_IDX`: the trace commands, by their position in the
      tracer's `nops` array. */
  datatype TrcCmd = TraceOff | TraceOn | TracePushOff | TracePushOn | TracePop

  function CmdIdx(c: TrcCmd): (i: bv32)
    ensures i < NOP_COUNT
  {
    match c
    case TraceOff => 0
    case TraceOn => 1
    case TracePushOff => 2
    case TracePushOn => 3
    case TracePop => 4
  }

  const NOP_COUNT: bv32 := 5   // TRACE_POP + 1

  /** The command in slot `i` of `nops`. */
  function CmdAt(i: bv32): TrcCmd
    requires i < NOP_COUNT
  {
    if i == 0 then TraceOff else if i == 1 then TraceOn else if i == 2 then TracePushOff
    else if i == 3 then TracePushOn else TracePop
  }

  /** The indices are 0..4, one per command: the `nops` array of
      `NOP_COUNT` words has exactly one slot per command. */
  lemma CmdIdxBijective(c: TrcCmd, i: bv32)
    requires i < NOP_COUNT
    ensures CmdAt(CmdIdx(c)) == c
    ensures CmdIdx(CmdAt(i)) == i
    ensures NOP_COUNT == CmdIdx(TracePop) + 1
  {
  }

  /** The control word for command `c` built on base `op`, following the
      encoding column of the comment table above `s2op`: the command
      index placed at bit `TRC_OP_POS`. */
  function Nop(op: string, c: TrcCmd): (w: bv32)
    requires op in S2op
  {
    S2op[op] | (CmdIdx(c) << TRC_OP_POS)
  }

  /** A control word is still a HINT of the same instruction, and the
      command is readable from its immediate. */
  lemma NopIsHint(op: string, c: TrcCmd)
    requires op in S2op
    ensures Opcode(Nop(op, c)) == 0x13 && Rd(Nop(op, c)) == 0 && Rs1(Nop(op, c)) == 0
    ensures Funct3(Nop(op, c)) == Funct3(S2op[op])
    ensures Imm(Nop(op, c)) & 0x1f == CmdIdx(c)
  {
    var base := S2op[op];
    assert Opcode(base) == 0x13 && Rd(base) == 0 && Rs1(base) == 0 && Imm(base) & 0x1f == 0 by {
      S2opAreHints();
    }
    OrImmFields(base, CmdIdx(c));
  }

  /** Different commands give different control words. */
  lemma NopsDistinct(op: string, c: TrcCmd, d: TrcCmd)
    requires op in S2op && c != d
    ensures Nop(op, c) != Nop(op, d)
  {
    NopIsHint(op, c);
    NopIsHint(op, d);
    CmdIdxBijective(c, 0);
    CmdIdxBijective(d, 0);
  }

  /** Or-ing a small value into the immediate of a HINT whose low
      immediate bits are clear touches nothing else. */
  lemma OrImmFields(base: bv32, k: bv32)
    requires k < 32 && (Imm(base) & 0x1f) == 0
    ensures Opcode(base | (k << TRC_OP_POS)) == Opcode(base)
    ensures Rd(base | (k << TRC_OP_POS)) == Rd(base)
    ensures Rs1(base | (k << TRC_OP_POS)) == Rs1(base)
    ensures Funct3(base | (k << TRC_OP_POS)) == Funct3(base)
    ensures Imm(base | (k << TRC_OP_POS)) & 0x1f == k
  {
  }

  // ---------------------------------------------------------------------
  // Events shown in the trace

  /** `EVENT_SYMBOL`. */
  datatype EventSymbol = Ok | Stall | Flush | TrcOn | TrcOff

  function EventCode(e: EventSymbol): nat {
    match e
    case Ok => 0x0
    case Stall => 0x1
    case Flush => 0x2
    case TrcOn => 0x100
    case TrcOff => 0x102
  }

  /** `event2char`. */
  function Event2Char(e: EventSymbol): char {
    match e
    case Ok => ' '
    case Stall => '#'
    case Flush => '!'
    case TrcOn => '+'
    case TrcOff => '-'
  }

  /** Every event has its own code and its own character, so a trace
      character names the event unambiguously. */
  lemma EventsDistinguishable(a: EventSymbol, b: EventSymbol)
    ensures EventCode(a) == EventCode(b) ==> a == b
    ensures Event2Char(a) == Event2Char(b) ==> a == b
  {
  }
}
