/** `RevThreadCtx`: a software thread's identity, state, children and
    file descriptors.  The register file each context owns is left out
    here (see `RV64A.RegFile` for the part of it the atomics use). */
module ThreadCtx {
  import opened Common

  /** `ThreadState`; the simulator does not yet act on it. */
  datatype ThreadState = Running | Waiting | Sleeping | Dead

  /** The 32-bit PIDs are kept below 2^32 by every operation. */
  type Pid = x: nat | x < TWO32

  datatype Ctx = Ctx(pid: Pid, parentPid: Pid, state: ThreadState,
                     childrenPids: seq<Pid>, fildes: seq<int>)

  /** The constructor: the given PIDs, state `Waiting`, no children, and
      the three standard descriptors 0, 1 and 2. */
  function New(pid: Pid, parentPid: Pid): (c: Ctx)
    ensures GetPID(c) == pid && GetParentPID(c) == parentPid
    ensures GetState(c) == Waiting && IsWaiting(c) && !IsRunning(c) && !IsDead(c)
    ensures c.childrenPids == [] && GetFildes(c) == [0, 1, 2]
  {
    Ctx(pid, parentPid, Waiting, [], [0, 1, 2])
  }

  function GetPID(c: Ctx): Pid { c.pid }
  function GetParentPID(c: Ctx): Pid { c.parentPid }
  function GetState(c: Ctx): ThreadState { c.state }
  function GetFildes(c: Ctx): seq<int> { c.fildes }

  /** Each setter changes its own field only, and the getter returns
      what was set. */
  function SetPID(c: Ctx, pid: Pid): (c': Ctx)
    ensures GetPID(c') == pid
    ensures c'.parentPid == c.parentPid && c'.state == c.state
    ensures c'.childrenPids == c.childrenPids && c'.fildes == c.fildes
  {
    c.(pid := pid)
  }

  function SetParentPID(c: Ctx, parentPid: Pid): (c': Ctx)
    ensures GetParentPID(c') == parentPid
    ensures c'.pid == c.pid && c'.state == c.state
    ensures c'.childrenPids == c.childrenPids && c'.fildes == c.fildes
  {
    c.(parentPid := parentPid)
  }

  function SetState(c: Ctx, s: ThreadState): (c': Ctx)
    ensures GetState(c') == s
    ensures c'.pid == c.pid && c'.parentPid == c.parentPid
    ensures c'.childrenPids == c.childrenPids && c'.fildes == c.fildes
  {
    c.(state := s)
  }

  predicate IsRunning(c: Ctx) { c.state == Running }
  predicate IsWaiting(c: Ctx) { c.state == Waiting }
  predicate IsDead(c: Ctx) { c.state == Dead }

  /** At most one of the three state tests holds, and a `Sleeping`
      context passes none of them. */
  lemma StateTestsExclusive(c: Ctx)
    ensures !(IsRunning(c) && IsWaiting(c)) && !(IsRunning(c) && IsDead(c)) && !(IsWaiting(c) && IsDead(c))
    ensures c.state == Sleeping <==> !IsRunning(c) && !IsWaiting(c) && !IsDead(c)
  {
  }

  /** After `SetState(s)` exactly the test named after `s` holds. */
  lemma SetStateTests(c: Ctx, s: ThreadState)
    ensures IsRunning(SetState(c, s)) <==> s == Running
    ensures IsWaiting(SetState(c, s)) <==> s == Waiting
    ensures IsDead(SetState(c, s)) <==> s == Dead
  {
  }

  /** Setting a field to the value it already holds changes nothing, and
      setting it twice keeps only the second value. */
  lemma SettersOverwrite(c: Ctx, p: Pid, q: Pid, s: ThreadState, t: ThreadState)
    ensures SetPID(c, GetPID(c)) == c && SetPID(SetPID(c, p), q) == SetPID(c, q)
    ensures SetParentPID(c, GetParentPID(c)) == c && SetParentPID(SetParentPID(c, p), q) == SetParentPID(c, q)
    ensures SetState(c, GetState(c)) == c && SetState(SetState(c, s), t) == SetState(c, t)
  {
  }
}
