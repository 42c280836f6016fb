/** `RevExt`: an ISA extension's instruction tables and the dispatch of
    one decoded instruction to its implementation, wrapped in the
    floating-point guard when the instruction can raise host
    exceptions. */
module RevExt {
  import opened Common
  import opened RevFenv

  /** A register class of an entry.  `Default` stands for the class
      `RevInstDefaults` supplies; `RevInstTable.h` is not part of this
      model. */
  datatype RegClass = Default | RegUNKNOWN

  /** The fields of a `RevInstEntry` the extensions in this model set;
      `func` is the implementation, `None` for a null pointer. */
  datatype InstEntry<H> = InstEntry(
    mnemonic: string, opcode: nat, funct3: nat, funct7: nat,
    rs1Class: RegClass, rs2Class: RegClass, func: Option<H>)

  /** An extension: its name, the three tables, and the register file
      (an identifier) it operates on. */
  datatype Ext<H> = Ext(name: string, table: seq<InstEntry<H>>, ctable: seq<InstEntry<H>>,
                        otable: seq<InstEntry<H>>, regFile: nat)

  /** The rounding modes an encoding or the `frm` register can name;
      `NoMode` is `FRMode::None`, `Other` any other code. */
  datatype FRMode = RNE | RTZ | RDN | RUP | RMM | DYN | NoMode | Other(code: nat)

  /** The fields of `RevInst` the dispatch reads. */
  datatype Payload = Payload(compressed: bool, raisefpe: bool, rm: FRMode)

  /** Why dispatch stops the simulation. */
  datatype ExtError =
    | RmmNotImplemented(pc: nat)   // "Round to nearest Max Magnitude not implemented"
    | BadRoundingMode(pc: nat)     // "Illegal instruction: Bad FP rounding mode"
    | NoInstruction(index: nat, ext: string)  // "instruction at index=… does not exist"
    | FenvUnavailable              // the guard's constructor threw

  datatype Outcome<T> = Ran(value: T) | Stop(err: ExtError)

  /** The constructor: a name and a register file, all tables empty. */
  function NewExt<H>(name: string, regFile: nat): (e: Ext<H>)
    ensures e.name == name && e.regFile == regFile
    ensures |e.table| == 0 && |e.ctable| == 0 && |e.otable| == 0
  {
    Ext(name, [], [], [], regFile)
  }

  /** `SetTable`, `SetCTable`, `SetOTable` and `SetRegFile` each replace
      one field, which the matching getter then returns. */
  function SetTable<H>(e: Ext<H>, t: seq<InstEntry<H>>): (e': Ext<H>)
    ensures GetInstTable(e') == t
    ensures e'.name == e.name && e'.ctable == e.ctable && e'.otable == e.otable && e'.regFile == e.regFile
  {
    e.(table := t)
  }

  function SetCTable<H>(e: Ext<H>, t: seq<InstEntry<H>>): (e': Ext<H>)
    ensures GetCInstTable(e') == t
    ensures e'.name == e.name && e'.table == e.table && e'.otable == e.otable && e'.regFile == e.regFile
  {
    e.(ctable := t)
  }

  function SetOTable<H>(e: Ext<H>, t: seq<InstEntry<H>>): (e': Ext<H>)
    ensures GetOInstTable(e') == t
    ensures e'.name == e.name && e'.table == e.table && e'.ctable == e.ctable && e'.regFile == e.regFile
  {
    e.(otable := t)
  }

  function SetRegFile<H>(e: Ext<H>, regFile: nat): (e': Ext<H>)
    ensures e'.regFile == regFile
    ensures e'.name == e.name && e'.table == e.table && e'.ctable == e.ctable && e'.otable == e.otable
  {
    e.(regFile := regFile)
  }

  function GetName<H>(e: Ext<H>): string { e.name }
  function GetInstTable<H>(e: Ext<H>): seq<InstEntry<H>> { e.table }
  function GetCInstTable<H>(e: Ext<H>): seq<InstEntry<H>> { e.ctable }
  function GetOInstTable<H>(e: Ext<H>): seq<InstEntry<H>> { e.otable }

  /** No setter changes the name the constructor gave. */
  lemma NameSurvivesSetters<H>(name: string, rf: nat, t: seq<InstEntry<H>>, c: seq<InstEntry<H>>,
                               o: seq<InstEntry<H>>, rf2: nat)
    ensures GetName(SetRegFile(SetOTable(SetCTable(SetTable(NewExt<H>(name, rf), t), c), o), rf2)) == name
  {
  }

  /** The `<cfenv>` constant a rounding mode selects, if any. */
  function HostMode(m: FRMode): (r: Option<int>)
    ensures r.Some? ==> ValidRound(r.value)
    ensures r.Some? <==> m in {RNE, RTZ, RDN, RUP}
  {
    match m
    case RNE => Some(FE_TONEAREST)
    case RTZ => Some(FE_TOWARDZERO)
    case RDN => Some(FE_DOWNWARD)
    case RUP => Some(FE_UPWARD)
    case _ => None
  }

  /** The four modes the host supports select four different host
      constants. */
  lemma HostModeInjective(a: FRMode, b: FRMode)
    requires HostMode(a).Some? && HostMode(a) == HostMode(b)
    ensures a == b
  {
  }

  /** `SetRoundingMode(rm, regFile)`: `DYN` defers to the `frm` register;
      `None` leaves the host alone; the four supported modes go through
      the thread's cached `SetRoundingMode` (its return code ignored);
      `RMM` and every other code stop the simulation, reporting `pc`. */
  function SetRoundingMode(rm: FRMode, frm: FRMode, pc: nat, s: FpState): (r: Outcome<FpState>)
    ensures var m := if rm == DYN then frm else rm;
      && (m == NoMode ==> r == Ran(s))
      && (HostMode(m).Some? ==> r == Ran(RevFenv.SetRoundingMode(s, HostMode(m).value).0))
      && (m == RMM ==> r == Stop(RmmNotImplemented(pc)))
      && (m != NoMode && m != RMM && HostMode(m).None? ==> r == Stop(BadRoundingMode(pc)))
  {
    var m := if rm == DYN then frm else rm;
    match m
    case NoMode => Ran(s)
    case RNE => Ran(RevFenv.SetRoundingMode(s, FE_TONEAREST).0)
    case RTZ => Ran(RevFenv.SetRoundingMode(s, FE_TOWARDZERO).0)
    case RDN => Ran(RevFenv.SetRoundingMode(s, FE_DOWNWARD).0)
    case RUP => Ran(RevFenv.SetRoundingMode(s, FE_UPWARD).0)
    case RMM => Stop(RmmNotImplemented(pc))
    case _ => Stop(BadRoundingMode(pc))
  }

  /** With a coherent cache, a mode the host supports is in force after
      `SetRoundingMode`, and the FCSR and raised flags are untouched. */
  lemma SetRoundingModeInstalls(rm: FRMode, frm: FRMode, pc: nat, s: FpState)
    requires Coherent(s)
    ensures var m := if rm == DYN then frm else rm;
      HostMode(m).Some? ==>
        && SetRoundingMode(rm, frm, pc, s).Ran?
        && SetRoundingMode(rm, frm, pc, s).value.host.round == HostMode(m).value
        && SetRoundingMode(rm, frm, pc, s).value.fcsr == s.fcsr
        && Coherent(SetRoundingMode(rm, frm, pc, s).value)
  {
    var m := if rm == DYN then frm else rm;
    if HostMode(m).Some? {
      SetRoundingModeTakesEffect(s, HostMode(m).value);
    }
  }

  /** The implementation `Execute` dispatches to: the compressed table
      for a compressed instruction, the standard one otherwise, `None`
      past the end or at a null entry. */
  function Lookup<H>(e: Ext<H>, inst: nat, compressed: bool): (r: Option<H>)
    ensures var t := if compressed then e.ctable else e.table;
      r.Some? <==> inst < |t| && t[inst].func.Some?
    ensures r.Some? ==> r.value == (if compressed then e.ctable else e.table)[inst].func.value
  {
    var t := if compressed then e.ctable else e.table;
    if inst < |t| then t[inst].func else None
  }

  /** An implementation run: given the host rounding mode in force, it
      returns the handler's boolean and the host exceptions it raised.
      The handlers' effects on registers and memory are not part of the
      dispatch (see `RV64A` for those of one extension). */
  type Exec<!H> = (H, int) -> (bool, set<HostExc>)

  /** `Execute`: look the instruction up; a missing implementation is
      fatal.  An instruction that cannot raise FP exceptions runs in the
      current environment.  Otherwise the guard is taken, the encoded
      rounding mode (when not `None`) installed, the handler run, and the
      guard released, accruing the raised exceptions into the FCSR.
      `resync` selects the release: `false` is the destructor as written,
      `true` the corrected one that re-synchronises the cached mode. */
  function Execute<H>(e: Ext<H>, inst: nat, p: Payload, frm: FRMode, pc: nat,
                      holdFails: bool, resync: bool, exec: Exec<H>, s: FpState): (r: Outcome<(bool, FpState)>)
    ensures Lookup(e, inst, p.compressed).None? <==> r == Stop(NoInstruction(inst, e.name))
    ensures r.Stop? ==> r.err in {NoInstruction(inst, e.name), FenvUnavailable,
                                  RmmNotImplemented(pc), BadRoundingMode(pc)}
    ensures r.Ran? && !p.raisefpe ==>
      var res := exec(Lookup(e, inst, p.compressed).value, s.host.round);
      r.value == (res.0, s.(host := s.host.(raised := s.host.raised + res.1)))
    ensures r.Ran? && p.raisefpe ==>
      && r.value.1.host == s.host
      && FlagsWithin(s.fcsr, r.value.1.fcsr)
    ensures r.Ran? && p.raisefpe && resync ==> r.value.1.cache == Some(s.host.round)
    ensures p.raisefpe && Lookup(e, inst, p.compressed).Some? ==> (holdFails <==> r == Stop(FenvUnavailable))
    ensures var m := if p.rm == DYN then frm else p.rm;
      p.raisefpe && Lookup(e, inst, p.compressed).Some? && !holdFails && p.rm != NoMode ==>
        && (m == RMM ==> r == Stop(RmmNotImplemented(pc)))
        && (m != NoMode && m != RMM && HostMode(m).None? ==> r == Stop(BadRoundingMode(pc)))
    ensures var m := if p.rm == DYN then frm else p.rm;
      r.Ran? && p.raisefpe && !resync && m == NoMode ==> r.value.1.cache == s.cache
  {
    match Lookup(e, inst, p.compressed)
    case None => Stop(NoInstruction(inst, e.name))
    case Some(h) =>
      if !p.raisefpe then
        var res := exec(h, s.host.round);
        Ran((res.0, s.(host := s.host.(raised := s.host.raised + res.1))))
      else
        match Acquire(s, holdFails)
        case Fatal(_) => Stop(FenvUnavailable)
        case Undefined => Stop(FenvUnavailable)
        case Ok((g, s1)) =>
          var set_ := if p.rm != NoMode then SetRoundingMode(p.rm, frm, pc, s1) else Ran(s1);
          match set_
          case Stop(err) => Stop(err)
          case Ran(s2) =>
            var res := exec(h, s2.host.round);
            var s3 := s2.(host := s2.host.(raised := s2.host.raised + res.1));
            AccrueSticky(s3.fcsr, s3.host.raised);
            Ran((res.0, if resync then ReleaseResync(s3, g) else Release(s3, g)))
  }

  /** The optional table is never consulted, and only the table the
      compression bit selects matters. */
  lemma ExecuteIgnoresOtherTables<H>(e: Ext<H>, inst: nat, p: Payload, frm: FRMode, pc: nat,
                                     holdFails: bool, resync: bool, exec: Exec<H>, s: FpState, t: seq<InstEntry<H>>)
    ensures Execute(e.(otable := t), inst, p, frm, pc, holdFails, resync, exec, s)
         == Execute(e, inst, p, frm, pc, holdFails, resync, exec, s)
    ensures p.compressed ==>
      Execute(e.(table := t), inst, p, frm, pc, holdFails, resync, exec, s) == Execute(e, inst, p, frm, pc, holdFails, resync, exec, s)
    ensures !p.compressed ==>
      Execute(e.(ctable := t), inst, p, frm, pc, holdFails, resync, exec, s) == Execute(e, inst, p, frm, pc, holdFails, resync, exec, s)
  {
  }

  /** Under the guard, the handler's result is returned unchanged; every
      exception it raises lands in the FCSR, which keeps its earlier
      flags; afterwards the host environment is the one before the
      instruction.  The handler runs in the mode the encoding selects (or
      the host's current mode for `None`), except when the cache already
      holds that mode while the host is in another one: then `fesetround`
      is skipped and the handler runs in the host's mode.  A coherent
      cache never does that.  Only the corrected release leaves the cache
      agreeing with the host: as written, an installed mode stays in the
      cache after the host has gone back to its old mode. */
  lemma GuardedExecute<H>(e: Ext<H>, inst: nat, p: Payload, frm: FRMode, pc: nat,
                          resync: bool, exec: Exec<H>, s: FpState)
    requires p.raisefpe
    requires Lookup(e, inst, p.compressed).Some?
    requires var m := if p.rm == DYN then frm else p.rm; m == NoMode || HostMode(m).Some?
    ensures var h := Lookup(e, inst, p.compressed).value;
      var m := if p.rm == DYN then frm else p.rm;
      var want := if m == NoMode then s.host.round else HostMode(m).value;
      var round := if m != NoMode && s.cache == Some(want) then s.host.round else want;
      var r := Execute(e, inst, p, frm, pc, false, resync, exec, s);
      && r.Ran?
      && r.value.0 == exec(h, round).0
      && r.value.1.fcsr == Accrue(s.fcsr, exec(h, round).1)
      && r.value.1.host == s.host
      && (Coherent(s) ==> round == want)
      && (resync ==> Coherent(r.value.1))
      && (!resync && m != NoMode ==> r.value.1.cache == Some(want))
      && (!resync && m != NoMode ==> (Coherent(r.value.1) <==> want == s.host.round))
  {
    var h := Lookup(e, inst, p.compressed).value;
    var m := if p.rm == DYN then frm else p.rm;
    var want := if m == NoMode then s.host.round else HostMode(m).value;
    var g := Guard(s.host);
    var s1 := s.(host := HostEnv({}, s.host.round));
    assert Acquire(s, false) == Ok((g, s1));
    var s2 := if m == NoMode then s1 else RevFenv.SetRoundingMode(s1, want).0;
    assert (if p.rm != NoMode then SetRoundingMode(p.rm, frm, pc, s1) else Ran(s1)) == Ran(s2);
    if m != NoMode {
      SetRoundingModeInForce(s1, want);
    }
    var res := exec(h, s2.host.round);
    var s3 := s2.(host := s2.host.(raised := s2.host.raised + res.1));
    assert Execute(e, inst, p, frm, pc, false, resync, exec, s)
        == Ran((res.0, if resync then ReleaseResync(s3, g) else Release(s3, g)));
  }
}
