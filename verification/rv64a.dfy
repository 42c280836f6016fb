/** The RV64A extension: `lr.d`, `sc.d` and the nine doubleword atomic
    memory operations.  Each implementation hands one request to the
    memory model, advances the PC, and (for the AMOs) charges a random
    cost; the memory model's own behaviour is not part of this module. */
module RV64A {
  import opened Common
  import opened RevExt

  /** The operation an AMO asks memory to perform. */
  datatype AmoOp = Swap | Add | Xor | And | Or | Min | Max | MinU | MaxU

  /** The `RevFlag` values the handlers pass; the flag word is modelled as
      the set of flags it holds (their bit values live in `RevMem.h`, which
      is not part of this model). */
  datatype Flag = AmoFlag(op: AmoOp) | AQ | RL | SEXT64

  /** The three implementations: `lr.d`, `sc.d`, and an AMO. */
  datatype Op = LrD | ScD | Amo(op: AmoOp)

  /** The fields of a decoded `RevInst` the handlers read. */
  datatype Inst = Inst(rd: nat, rs1: nat, rs2: nat, aq: bool, rl: bool, hazard: nat, instSize: nat)

  /** The hart a `RevFeature` belongs to, and its cost bounds. */
  datatype Feature = Feature(hart: nat, minCost: nat, maxCost: nat)

  /** The part of `RevRegFile` the handlers touch: the 32 integer
      registers, the 64-bit PC, and the accumulated cost. */
  datatype RegFile = RegFile(rv64: seq<bv64>, pc: nat, cost: nat)

  predicate Valid(r: RegFile, i: Inst) {
    |r.rv64| == 32 && r.pc < TWO64 && i.rd < 32 && i.rs1 < 32 && i.rs2 < 32
  }

  /** The request handed to `RevMem`.  Register operands are named by
      index: `target` receives the loaded value or result, `data` supplies
      the stored value. */
  datatype MemReq =
    | LR(hart: nat, addr: bv64, target: nat, aq: bool, rl: bool, hazard: nat, flags: set<Flag>)
    | SC(hart: nat, addr: bv64, data: nat, target: nat, aq: bool, rl: bool, flags: set<Flag>)
    | AMOVal(hart: nat, addr: bv64, data: nat, target: nat, hazard: nat, flags: set<Flag>)

  /** What one implementation does. */
  datatype Effect = Effect(ret: bool, regs: RegFile, req: MemReq)

  /** The ordering bits an AMO adds to its flags, by the source's
      `if (aq && rl) … else if (aq) … else if (rl)` chain. */
  function AqRlFlags(aq: bool, rl: bool): (fs: set<Flag>)
    ensures AQ in fs <==> aq
    ensures RL in fs <==> rl
    ensures fs <= {AQ, RL}
  {
    if aq && rl then {AQ, RL}
    else if aq then {AQ}
    else if rl then {RL}
    else {}
  }

  /** The chain sets each ordering bit independently of the other. */
  lemma AqRlFlagsIndependent(aq: bool, rl: bool)
    ensures AqRlFlags(aq, rl) == (if aq then {AQ} else {}) + (if rl then {RL} else {})
  {
  }

  /** An AMO's flag word: its operation and the ordering bits. */
  function AmoFlags(op: AmoOp, aq: bool, rl: bool): (fs: set<Flag>)
    ensures AmoFlag(op) in fs && SEXT64 !in fs
    ensures forall o :: AmoFlag(o) in fs ==> o == op
    ensures fs - {AmoFlag(op)} == AqRlFlags(aq, rl)
  {
    {AmoFlag(op)} + AqRlFlags(aq, rl)
  }

  /** `R->RV64_PC += Inst.instSize` on a 64-bit PC. */
  function NextPc(pc: nat, instSize: nat): (r: nat)
    ensures r < TWO64
    ensures pc + instSize < TWO64 ==> r == pc + instSize
    ensures (pc + instSize - r) % TWO64 == 0
  {
    (pc + instSize) % TWO64
  }

  /** One implementation; `randCost` is `M->RandCost`. */
  function Handler(op: Op, f: Feature, r: RegFile, i: Inst, randCost: (nat, nat) -> nat): (e: Effect)
    requires Valid(r, i)
    ensures e.ret
    ensures e.regs.rv64 == r.rv64 && e.regs.pc == NextPc(r.pc, i.instSize)
    ensures e.regs.cost == r.cost + (if op.Amo? then randCost(f.minCost, f.maxCost) else 0)
    ensures e.req.hart == f.hart && e.req.addr == r.rv64[i.rs1] && e.req.target == i.rd
    ensures op == LrD <==> e.req.LR?
    ensures op == ScD <==> e.req.SC?
    ensures !e.req.AMOVal? ==> e.req.flags == {SEXT64} && e.req.aq == i.aq && e.req.rl == i.rl
    ensures !e.req.LR? ==> e.req.data == i.rs2
    ensures !e.req.SC? ==> e.req.hazard == i.hazard
    ensures op.Amo? ==> e.req.flags == AmoFlags(op.op, i.aq, i.rl)
  {
    var addr := r.rv64[i.rs1];
    var regs := r.(pc := NextPc(r.pc, i.instSize));
    match op
    case LrD =>
      Effect(true, regs, LR(f.hart, addr, i.rd, i.aq, i.rl, i.hazard, {SEXT64}))
    case ScD =>
      Effect(true, regs, SC(f.hart, addr, i.rs2, i.rd, i.aq, i.rl, {SEXT64}))
    case Amo(o) =>
      Effect(true, regs.(cost := r.cost + randCost(f.minCost, f.maxCost)),
             AMOVal(f.hart, addr, i.rs2, i.rd, i.hazard, AmoFlags(o, i.aq, i.rl)))
  }

  /** Two different implementations never hand memory the same request:
      the request's kind and flags tell which one ran. */
  lemma HandlerRequestsDistinct(a: Op, b: Op, f: Feature, r: RegFile, i: Inst, randCost: (nat, nat) -> nat)
    requires Valid(r, i) && a != b
    ensures Handler(a, f, r, i, randCost).req != Handler(b, f, r, i, randCost).req
  {
    var ra := Handler(a, f, r, i, randCost).req;
    var rb := Handler(b, f, r, i, randCost).req;
    if a.Amo? && b.Amo? {
      assert AmoFlag(a.op) in ra.flags;
      assert AmoFlag(a.op) !in rb.flags;
    }
  }

  // ---------------------------------------------------------------------
  // The instruction table

  const OPCODE: nat := 0x2f   // 0b0101111
  const FUNCT3: nat := 3      // 0b011

  function Entry(mnemonic: string, funct7: nat, rs1Class: RegClass, op: Op): InstEntry<Op> {
    InstEntry(mnemonic, OPCODE, FUNCT3, funct7, rs1Class, RegUNKNOWN, Some(op))
  }

  /** `RV64ATable`, in the source's order. */
  const Table: seq<InstEntry<Op>> := [
    Entry("lr.d %rd, (%rs1)", 0x02, RegUNKNOWN, LrD),
    Entry("sc.d %rd, %rs1, %rs2", 0x03, Default, ScD),
    Entry("amoswap.d %rd, %rs1, %rs2", 0x01, Default, Amo(Swap)),
    Entry("amoadd.d %rd, %rs1, %rs2", 0x00, Default, Amo(Add)),
    Entry("amoxor.d %rd, %rs1, %rs2", 0x04, Default, Amo(Xor)),
    Entry("amoand.d %rd, %rs1, %rs2", 0x0c, Default, Amo(And)),
    Entry("amoor.d %rd, %rs1, %rs2", 0x08, Default, Amo(Or)),
    Entry("amomin.d %rd, %rs1, %rs2", 0x10, Default, Amo(Min)),
    Entry("amomax.d %rd, %rs1, %rs2", 0x14, Default, Amo(Max)),
    Entry("amominu.d %rd, %rs1, %rs2", 0x18, Default, Amo(MinU)),
    Entry("amomaxu.d %rd, %rs1, %rs2", 0x1c, Default, Amo(MaxU))
  ]

  /** Every entry shares the opcode, funct3 and unknown rs2 class of
      `Rev64AInstDefaults` and has an implementation; only `lr.d`
      overrides rs1's class; the funct7 values and the implementations
      are pairwise different, so decoding by funct7 is unambiguous. */
  lemma TableWellFormed()
    ensures |Table| == 11
    ensures forall k :: 0 <= k < |Table| ==>
      Table[k].opcode == OPCODE && Table[k].funct3 == FUNCT3 && Table[k].rs2Class == RegUNKNOWN
      && Table[k].func.Some? && Table[k].funct7 < 32
    ensures forall k :: 0 <= k < |Table| ==> (Table[k].rs1Class == RegUNKNOWN <==> k == 0)
    ensures forall j, k :: 0 <= j < k < |Table| ==>
      Table[j].funct7 != Table[k].funct7 && Table[j].func != Table[k].func
  {
  }

  /** Every implementation of the extension appears in the table. */
  lemma TableCoversOps(op: Op)
    ensures exists k :: 0 <= k < |Table| && Table[k].func == Some(op)
  {
    match op
    case LrD => assert Table[0].func == Some(op);
    case ScD => assert Table[1].func == Some(op);
    case Amo(o) =>
      match o
      case Swap => assert Table[2].func == Some(op);
      case Add => assert Table[3].func == Some(op);
      case Xor => assert Table[4].func == Some(op);
      case And => assert Table[5].func == Some(op);
      case Or => assert Table[6].func == Some(op);
      case Min => assert Table[7].func == Some(op);
      case Max => assert Table[8].func == Some(op);
      case MinU => assert Table[9].func == Some(op);
      case MaxU => assert Table[10].func == Some(op);
  }

  /** The constructor: an extension named "RV64A" whose standard table
      is `RV64ATable`. */
  function New(regFile: nat): (e: Ext<Op>)
    ensures GetName(e) == "RV64A" && e.regFile == regFile
    ensures GetInstTable(e) == Table && |GetCInstTable(e)| == 0 && |GetOInstTable(e)| == 0
  {
    SetTable(NewExt("RV64A", regFile), Table)
  }

  /** Dispatching an uncompressed index below 11 on a freshly built RV64A
      always reaches the table's implementation and returns its result;
      any other index, and any compressed instruction, is the
      missing-instruction fatal error. */
  lemma DispatchReachesTable(rf: nat, inst: nat, p: Payload, frm: FRMode, pc: nat,
                             resync: bool, exec: Exec<Op>, s: RevFenv.FpState)
    requires !p.raisefpe
    ensures var r := Execute(New(rf), inst, p, frm, pc, false, resync, exec, s);
      && (!p.compressed && inst < 11 ==>
            r.Ran? && r.value.0 == exec(Table[inst].func.value, s.host.round).0)
      && (p.compressed || inst >= 11 ==> r == Stop(NoInstruction(inst, "RV64A")))
  {
    TableWellFormed();
  }
}
