/** `RevFenv`: the guard around an instruction that may raise host
    floating-point exceptions.  Three pieces of state are kept apart: the
    host's floating-point environment, the thread-local cached rounding
    mode behind `roundingMode()`, and the five sticky flags of the
    guest's FCSR. */
module RevFenv {
  import opened Common

  /** The host exceptions `fetestexcept` can report. */
  datatype HostExc = DivByZero | Inexact | Invalid | Overflow | Underflow

  /** The host's floating-point environment: the raised exception flags
      and the rounding mode (a `<cfenv>` constant). */
  datatype HostEnv = HostEnv(raised: set<HostExc>, round: int)

  /** The accrued-exception flags of the guest's FCSR. */
  datatype Fcsr = Fcsr(nv: bool, dz: bool, of: bool, uf: bool, nx: bool)

  /** The host environment, the thread-local cache (`None` until the
      first call of `roundingMode()`), and the FCSR the guard is bound
      to. */
  datatype FpState = FpState(host: HostEnv, cache: Option<int>, fcsr: Fcsr)

  /** A live guard: the environment `feholdexcept` saved. */
  datatype Guard = Guard(saved: HostEnv)

  // The rounding-mode constants of `<cfenv>`, with the values of the
  // x86-64 GNU C library.
  const FE_TONEAREST: int := 0
  const FE_DOWNWARD: int := 0x400
  const FE_UPWARD: int := 0x800
  const FE_TOWARDZERO: int := 0xc00

  predicate ValidRound(mode: int) {
    mode == FE_TONEAREST || mode == FE_DOWNWARD || mode == FE_UPWARD || mode == FE_TOWARDZERO
  }

  /** `fesetround(mode)`: 0 and the new mode installed for a valid
      constant, a non-zero code and the environment untouched otherwise. */
  function Fesetround(h: HostEnv, mode: int): (r: (HostEnv, int))
    ensures r.1 == 0 <==> ValidRound(mode)
    ensures r.1 == 0 ==> r.0 == h.(round := mode)
    ensures r.1 != 0 ==> r.0 == h
  {
    if ValidRound(mode) then (h.(round := mode), 0) else (h, 1)
  }

  const MsgHold := "Getting floating-point environment with feholdexcept() is not working."

  /** The constructor: `feholdexcept` saves the environment and clears
      the raised flags, leaving the rounding mode alone; when it fails the
      constructor throws.  The host's answer is the parameter
      `holdFails`. */
  function Acquire(s: FpState, holdFails: bool): (r: Result<(Guard, FpState)>)
    ensures holdFails <==> r == Fatal(MsgHold)
    ensures r.Ok? ==> r.value.0.saved == s.host
    ensures r.Ok? ==> r.value.1 == s.(host := HostEnv({}, s.host.round))
  {
    if holdFails then Fatal(MsgHold)
    else Ok((Guard(s.host), s.(host := HostEnv({}, s.host.round))))
  }

  /** The five `if(except & FE_…)` tests of the destructor: each raised
      host exception sets its flag, and no flag is ever cleared. */
  function Accrue(f: Fcsr, raised: set<HostExc>): (f': Fcsr)
    ensures f'.dz <==> f.dz || DivByZero in raised
    ensures f'.nx <==> f.nx || Inexact in raised
    ensures f'.nv <==> f.nv || Invalid in raised
    ensures f'.of <==> f.of || Overflow in raised
    ensures f'.uf <==> f.uf || Underflow in raised
  {
    Fcsr(f.nv || Invalid in raised, f.dz || DivByZero in raised, f.of || Overflow in raised,
         f.uf || Underflow in raised, f.nx || Inexact in raised)
  }

  /** Every flag set in `f` is set in `g`. */
  predicate FlagsWithin(f: Fcsr, g: Fcsr) {
    (f.nv ==> g.nv) && (f.dz ==> g.dz) && (f.of ==> g.of) && (f.uf ==> g.uf) && (f.nx ==> g.nx)
  }

  /** The flags are sticky, and accruing the same exceptions twice adds
      nothing. */
  lemma AccrueSticky(f: Fcsr, raised: set<HostExc>)
    ensures FlagsWithin(f, Accrue(f, raised))
    ensures Accrue(Accrue(f, raised), raised) == Accrue(f, raised)
  {
  }

  /** The destructor as written: flags accrued into the FCSR, the saved
      host environment restored, the cached mode left as it was. */
  function Release(s: FpState, g: Guard): (s': FpState)
    ensures s'.host == g.saved && s'.cache == s.cache
    ensures s'.fcsr == Accrue(s.fcsr, s.host.raised)
  {
    FpState(g.saved, s.cache, Accrue(s.fcsr, s.host.raised))
  }

  /** The destructor with the cache brought back in line with the
      restored host mode, as `roundingMode()` is meant to mirror it. */
  function ReleaseResync(s: FpState, g: Guard): (s': FpState)
    ensures s'.host == g.saved && s'.cache == Some(g.saved.round)
    ensures s'.fcsr == Accrue(s.fcsr, s.host.raised)
  {
    Release(s, g).(cache := Some(g.saved.round))
  }

  /** `roundingMode()`: the cached mode, set from `fegetround()` on the
      first use in the thread. */
  function RoundingMode(s: FpState): (r: (FpState, int))
    ensures s.cache.Some? ==> r == (s, s.cache.value)
    ensures s.cache.None? ==> r == (s.(cache := Some(s.host.round)), s.host.round)
    ensures r.0.cache == Some(r.1) && r.0.host == s.host && r.0.fcsr == s.fcsr
  {
    match s.cache
    case Some(m) => (s, m)
    case None => (s.(cache := Some(s.host.round)), s.host.round)
  }

  /** `GetRoundingMode()`. */
  function GetRoundingMode(s: FpState): (r: (FpState, int))
    ensures r == RoundingMode(s)
  {
    RoundingMode(s)
  }

  /** `SetRoundingMode(mode)`: `fesetround` only when the mode differs
      from the cached one, and the cache updated only when it succeeds. */
  function SetRoundingMode(s: FpState, mode: int): (r: (FpState, int))
    ensures r.0.fcsr == s.fcsr && r.0.host.raised == s.host.raised
    ensures RoundingMode(s).1 == mode ==> r == (RoundingMode(s).0, 0)
    ensures RoundingMode(s).1 != mode && ValidRound(mode) ==>
      r == (s.(host := s.host.(round := mode), cache := Some(mode)), 0)
    ensures RoundingMode(s).1 != mode && !ValidRound(mode) ==> r.1 != 0 && r.0 == RoundingMode(s).0
  {
    var (s1, cur) := RoundingMode(s);
    if mode != cur then
      var (h, rc) := Fesetround(s1.host, mode);
      if rc == 0 then (s1.(host := h, cache := Some(mode)), 0) else (s1, rc)
    else (s1, 0)
  }

  /** A repeated `SetRoundingMode` with the same mode is a no-op. */
  lemma SetRoundingModeIdempotent(s: FpState, mode: int)
    requires SetRoundingMode(s, mode).1 == 0
    ensures SetRoundingMode(SetRoundingMode(s, mode).0, mode) == SetRoundingMode(s, mode)
  {
  }

  // ---------------------------------------------------------------------
  // Keeping the cache coherent with the host

  /** The cache mirrors the host's rounding mode (or is not yet set). */
  predicate Coherent(s: FpState) {
    s.cache.Some? ==> s.cache.value == s.host.round
  }

  /** While the cache is coherent, a successful `SetRoundingMode` leaves
      the host in the requested mode, and the cache stays coherent. */
  lemma SetRoundingModeTakesEffect(s: FpState, mode: int)
    requires Coherent(s)
    ensures Coherent(SetRoundingMode(s, mode).0)
    ensures SetRoundingMode(s, mode).1 == 0 <==> RoundingMode(s).1 == mode || ValidRound(mode)
    ensures SetRoundingMode(s, mode).1 == 0 ==> SetRoundingMode(s, mode).0.host.round == mode
  {
  }

  /** Whatever the cache holds, a supported mode is cached afterwards; the
      host is in that mode unless the cache already claimed it, in which
      case `fesetround` is skipped and the host keeps its own mode. */
  lemma SetRoundingModeInForce(s: FpState, mode: int)
    requires ValidRound(mode)
    ensures SetRoundingMode(s, mode).0.cache == Some(mode)
    ensures SetRoundingMode(s, mode).0.host.round == (if s.cache == Some(mode) then s.host.round else mode)
    ensures SetRoundingMode(s, mode).0.host.raised == s.host.raised
    ensures SetRoundingMode(s, mode).0.fcsr == s.fcsr
  {
  }

  /** The constructor keeps the cache coherent, and so does the corrected
      destructor, whatever happened inside the guard. */
  lemma ResyncKeepsCoherent(s: FpState, holdFails: bool, inner: FpState)
    requires Coherent(s) && Acquire(s, holdFails).Ok?
    ensures Coherent(Acquire(s, holdFails).value.1)
    ensures Coherent(ReleaseResync(inner, Acquire(s, holdFails).value.0))
  {
  }

  /** One guarded execution: the guard, the rounding change the encoding
      asks for, a body that runs under the host mode and raises
      `raised`, then the destructor (`resync` selects the corrected one).
      The result carries the mode the body ran under. */
  function Guarded(s: FpState, mode: int, raised: set<HostExc>, resync: bool): (r: (FpState, int))
    ensures r.0.host == s.host
  {
    var g := Guard(s.host);
    var s1 := s.(host := HostEnv({}, s.host.round));
    var s2 := SetRoundingMode(s1, mode).0;
    var s3 := s2.(host := s2.host.(raised := s2.host.raised + raised));
    var ran := s2.host.round;
    (if resync then ReleaseResync(s3, g) else Release(s3, g), ran)
  }

  /** As written, the destructor leaves the cache claiming the mode set
      inside the guard while the host is back in the old mode: the next
      guarded execution asking for the same mode skips `fesetround` and
      runs under the old mode. */
  lemma StaleCacheSkipsRoundingChange()
    ensures var s0 := FpState(HostEnv({}, FE_TONEAREST), None, Fcsr(false, false, false, false, false));
      var (s1, ran1) := Guarded(s0, FE_TOWARDZERO, {}, false);
      var (s2, ran2) := Guarded(s1, FE_TOWARDZERO, {}, false);
      ran1 == FE_TOWARDZERO && !Coherent(s1) && ran2 == FE_TONEAREST
  {
  }

  /** With the corrected destructor every guarded execution runs under the
      mode it asked for, whatever ran before it. */
  lemma ResyncedRoundingApplies(s: FpState, mode: int, raised: set<HostExc>)
    requires Coherent(s) && ValidRound(mode)
    ensures Guarded(s, mode, raised, true).1 == mode
    ensures Coherent(Guarded(s, mode, raised, true).0)
  {
    var s1 := s.(host := HostEnv({}, s.host.round));
    SetRoundingModeTakesEffect(s1, mode);
  }
}
