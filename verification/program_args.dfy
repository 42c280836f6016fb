/** Program arguments: `splitStr`, `GetArgv`, and the pushes of
    `LoadProgramArgs` that place each NUL-terminated argument on the
    stack, 16-byte aligned as the RISC-V ELF psABI's integer calling
    convention requires of the stack pointer. */
module ProgramArgs {
  import opened Common
  import opened RevMem

  const SPACE: byte := 32

  /** `s.find(c, from)`: the first position at or after `from` holding
      `c`, or `None` for `npos`. */
  function Find(s: seq<byte>, c: byte, from: nat): (r: Option<nat>)
    ensures r.Some? ==> from <= r.value < |s| && s[r.value] == c
    ensures r.Some? ==> forall k :: from <= k < r.value ==> s[k] != c
    ensures r.None? ==> forall k :: from <= k < |s| ==> s[k] != c
    decreases |s| - from
  {
    if from >= |s| then None
    else if s[from] == c then Some(from)
    else Find(s, c, from + 1)
  }

  /** The tokens of `s` between spaces, empty ones included: a string
      with `k` spaces has `k + 1` of them. */
  function Split(s: seq<byte>): (ts: seq<seq<byte>>)
    ensures |ts| >= 1
    decreases |s|
  {
    match Find(s, SPACE, 0)
    case None => [s]
    case Some(j) => [s[..j]] + Split(s[j + 1..])
  }

  /** The tokens joined back with single spaces. */
  function Join(ts: seq<seq<byte>>): seq<byte>
    requires |ts| >= 1
  {
    if |ts| == 1 then ts[0] else ts[0] + [SPACE] + Join(ts[1..])
  }

  function Count(s: seq<byte>, c: byte): nat {
    if s == [] then 0 else (if s[0] == c then 1 else 0) + Count(s[1..], c)
  }

  lemma {:induction false} CountAppend(a: seq<byte>, b: seq<byte>, c: byte)
    ensures Count(a + b, c) == Count(a, c) + Count(b, c)
  {
    if a == [] {
      assert a + b == b;
    } else {
      assert (a + b)[1..] == a[1..] + b;
      CountAppend(a[1..], b, c);
    }
  }

  lemma {:induction false} CountNone(s: seq<byte>, c: byte)
    requires forall k :: 0 <= k < |s| ==> s[k] != c
    ensures Count(s, c) == 0
  {
    if s != [] {
      CountNone(s[1..], c);
    }
  }

  /** A token is a maximal run without spaces. */
  predicate SpaceFree(t: seq<byte>) {
    forall k :: 0 <= k < |t| ==> t[k] != SPACE
  }

  /** `Split` takes the token before the first space and splits the
      rest. */
  lemma SplitUnfold(s: seq<byte>, j: nat)
    requires Find(s, SPACE, 0) == Some(j)
    ensures Split(s) == [s[..j]] + Split(s[j + 1..])
  {
  }

  /** Splitting is undone by joining. */
  lemma {:induction false} SplitJoin(s: seq<byte>)
    ensures Join(Split(s)) == s
    decreases |s|
  {
    match Find(s, SPACE, 0)
    case None =>
    case Some(j) =>
      var rest := s[j + 1..];
      SplitJoin(rest);
      SplitUnfold(s, j);
      var ts := Split(s);
      assert ts[1..] == Split(rest);
      assert Join(ts) == s[..j] + [SPACE] + rest;
      assert s == s[..j] + [SPACE] + rest;
  }

  /** A string with `k` spaces splits into `k + 1` tokens. */
  lemma {:induction false} SplitCount(s: seq<byte>)
    ensures |Split(s)| == Count(s, SPACE) + 1
    decreases |s|
  {
    match Find(s, SPACE, 0)
    case None =>
      CountNone(s, SPACE);
    case Some(j) =>
      var rest := s[j + 1..];
      SplitCount(rest);
      SplitUnfold(s, j);
      assert s == s[..j] + [SPACE] + rest;
      CountAppend(s[..j] + [SPACE], rest, SPACE);
      CountAppend(s[..j], [SPACE], SPACE);
      CountNone(s[..j], SPACE);
  }

  /** No token holds a space. */
  lemma {:induction false} SplitSpaceFree(s: seq<byte>)
    ensures forall i :: 0 <= i < |Split(s)| ==> SpaceFree(Split(s)[i])
    decreases |s|
  {
    match Find(s, SPACE, 0)
    case None =>
    case Some(j) =>
      var rest := s[j + 1..];
      SplitSpaceFree(rest);
      SplitUnfold(s, j);
      var ts := Split(s);
      forall i | 0 <= i < |ts|
        ensures SpaceFree(ts[i])
      {
        if i > 0 {
          assert ts[i] == Split(rest)[i - 1];
        }
      }
  }

  /** Joining space-free tokens is undone by splitting. */
  lemma {:induction false} JoinSplit(ts: seq<seq<byte>>)
    requires |ts| >= 1
    requires forall i :: 0 <= i < |ts| ==> SpaceFree(ts[i])
    ensures Split(Join(ts)) == ts
    decreases |ts|
  {
    var s := Join(ts);
    if |ts| == 1 {
      assert Find(s, SPACE, 0).None?;
    } else {
      var t := ts[0];
      var rest := Join(ts[1..]);
      assert s == t + [SPACE] + rest;
      assert s[|t|] == SPACE;
      assert Find(s, SPACE, 0) == Some(|t|) by {
        assert forall k :: 0 <= k < |t| ==> s[k] == t[k];
      }
      assert s[..|t|] == t;
      assert s[|t| + 1..] == rest;
      JoinSplit(ts[1..]);
    }
  }

  /** What `splitStr(s, ' ', v)` appends to `v`: nothing when `s` has no
      space (a lone token is dropped), otherwise every token. */
  function SplitStrTokens(s: seq<byte>): (ts: seq<seq<byte>>)
    ensures SPACE !in s ==> ts == []
    ensures SPACE in s ==> |ts| == Count(s, SPACE) + 1 && Join(ts) == s
  {
    SplitJoin(s);
    SplitCount(s);
    if SPACE in s then Split(s) else []
  }

  /** `find` from `i` is `find` on the suffix from `i`, shifted. */
  lemma FindShift(s: seq<byte>, c: byte, i: nat)
    requires i <= |s|
    ensures Find(s, c, i).None? <==> Find(s[i..], c, 0).None?
    ensures Find(s, c, i).Some? ==> Find(s, c, i).value == Find(s[i..], c, 0).value + i
  {
    var r1 := Find(s, c, i);
    var r2 := Find(s[i..], c, 0);
    if r2.Some? {
      assert s[r2.value + i] == s[i..][r2.value];
    }
  }

  /** One iteration of the `splitStr` loop takes the token before the
      space found; the tokens taken so far and those of the rest still
      make up the whole split. */
  lemma SplitStep(s: seq<byte>, v: seq<seq<byte>>, i: nat, j: nat)
    requires i <= j < |s| && Find(s, SPACE, i) == Some(j)
    requires v + Split(s[i..]) == Split(s)
    ensures (v + [s[i..j]]) + Split(s[j + 1..]) == Split(s)
  {
    var t := s[i..];
    FindShift(s, SPACE, i);
    assert t[..j - i] == s[i..j];
    assert t[j - i + 1..] == s[j + 1..];
    SplitUnfold(t, j - i);
    assert v + Split(t) == v + ([s[i..j]] + Split(s[j + 1..]));
  }

  /** After the last space the rest of the string is the last token. */
  lemma SplitLast(s: seq<byte>, v: seq<seq<byte>>, i: nat)
    requires i <= |s| && Find(s, SPACE, i).None?
    requires v + Split(s[i..]) == Split(s)
    ensures v + [s[i..]] == Split(s)
  {
    FindShift(s, SPACE, i);
  }

  /** The `while` loop of `splitStr`. */
  method SplitStr(s: seq<byte>) returns (v: seq<seq<byte>>)
    ensures v == SplitStrTokens(s)
  {
    v := [];
    var i: nat := 0;
    var j := Find(s, SPACE, 0);
    if j.None? {
      return;
    }
    assert s[j.value] == SPACE;
    assert s[0..] == s;
    while j.Some?
      invariant i <= |s|
      invariant j.Some? ==> j == Find(s, SPACE, i) && v + Split(s[i..]) == Split(s)
      invariant j.None? ==> v == Split(s)
      decreases |s| - i
    {
      var jv := j.value;
      SplitStep(s, v, i, jv);
      v := v + [s[i..jv]];
      i := jv + 1;
      j := Find(s, SPACE, i);
      if j.None? {
        SplitLast(s, v, i);
        v := v + [s[i..]];
      }
    }
  }

  /** A string without a space contributes no argument at all, even when
      it is not empty. */
  lemma LoneTokenDropped(s: seq<byte>)
    requires s != [] && SPACE !in s
    ensures SplitStrTokens(s) == [] && Split(s) == [s]
  {
    assert Find(s, SPACE, 0).None?;
  }

  /** `argv` after `LoadProgramArgs` has run `push_back(exe)` and
      `splitStr(args, ' ', argv)`: never empty, so the fatal error for an
      empty `argv` cannot occur. */
  function Argv(exe: seq<byte>, args: seq<byte>): (argv: seq<seq<byte>>)
    ensures |argv| >= 1 && argv[0] == exe
    ensures argv[1..] == SplitStrTokens(args)
  {
    [exe] + SplitStrTokens(args)
  }

  /** `GetArgv(entry)`.  With `argv` empty, `argv.size() - 1` wraps to the
      largest `size_t`, so the vector is indexed out of range. */
  function GetArgv(argv: seq<seq<byte>>, entry: nat): (r: Result<seq<byte>>)
    ensures argv == [] <==> r.Undefined?
    ensures argv != [] && entry < |argv| ==> r == Ok(argv[entry])
    ensures argv != [] && entry >= |argv| ==> r == Ok([])
  {
    if argv == [] then Undefined
    else if entry > |argv| - 1 then Ok([])
    else Ok(argv[entry])
  }

  /** `sp &= ~0xF` on a 64-bit stack pointer. */
  function AlignDown16(sp: bv64): bv64 {
    sp & 0xFFFF_FFFF_FFFF_FFF0
  }

  /** Clearing the low four bits rounds down to a multiple of 16. */
  lemma AlignDown16Rounds(sp: bv64)
    ensures AlignDown16(sp) == sp - sp % 16
    ensures AlignDown16(sp) % 16 == 0
    ensures AlignDown16(sp) <= sp && sp - AlignDown16(sp) < 16
  {
  }

  /** The stack pointer for one argument of `len` bytes: the old top less
      `len` in 64-bit arithmetic, rounded down to 16 bytes (the rounding
      `AlignDown16Rounds` shows the mask performs). */
  function ArgTop(top: nat, len: nat): (sp: nat)
    ensures sp < TWO64 && sp % 16 == 0
    ensures len <= top < TWO64 ==> sp <= top - len < sp + 16
  {
    var t := Wrap(top - len, TWO64);
    t - t % 16
  }

  /** One iteration of the `LoadProgramArgs` loop: lower the stack top,
      then write the argument and its terminating NUL there. */
  function PushArg(env: MemEnv, m: Mem, arg: seq<byte>): (r: Result<Mem>)
    ensures !r.Undefined?
    ensures r.Fatal? ==> r.msg == MsgLineWrite
    ensures r.Ok? ==> r.value.stackTop == ArgTop(m.stackTop, |arg| + 1)
    ensures r.Ok? ==>
      r.value.log == m.log + [SetStackTop(r.value.stackTop)] + Stores(env.reportedLineSize, r.value.stackTop, arg + [0])
    ensures r.Ok? ==> |r.value.log| > |m.log| && r.value.log[..|m.log| + 1] == m.log + [SetStackTop(r.value.stackTop)]
    ensures r.Ok? ==> Payload(r.value.log[|m.log| + 1..]) == arg + [0]
  {
    var sp := ArgTop(m.stackTop, |arg| + 1);
    var m1 := SetTop(m, sp);
    var w :- WriteCacheLine(env, m1, m1.stackTop, arg + [0]);
    WriteCacheLineStoresData(env, m1, sp, arg + [0]);
    assert w.1.log[..|m1.log|] == m1.log;
    assert w.1.log[..|m.log| + 1] == m1.log;
    Ok(w.1)
  }

  /** The stack top after pushing every argument of `argv` from `top`. */
  function ArgsTop(top: nat, argv: seq<seq<byte>>): nat
    decreases |argv|
  {
    if argv == [] then top else ArgsTop(ArgTop(top, |argv[0]| + 1), argv[1..])
  }

  /** The calls the pushes of `argv` issue from stack top `top`: for each
      argument in turn, the stack top lowered for it, then the argument
      and its NUL stored at that new top. */
  function ArgWrites(reported: nat, top: nat, argv: seq<seq<byte>>): seq<MemCall>
    decreases |argv|
  {
    if argv == [] then []
    else
      var sp := ArgTop(top, |argv[0]| + 1);
      [SetStackTop(sp)] + Stores(reported, sp, argv[0] + [0]) + ArgWrites(reported, sp, argv[1..])
  }

  /** The `for` loop of `LoadProgramArgs`, from `argv[i]` on. */
  function PushArgs(env: MemEnv, m: Mem, argv: seq<seq<byte>>): (r: Result<Mem>)
    ensures !r.Undefined?
    ensures r.Fatal? ==> r.msg == MsgLineWrite
    ensures argv == [] ==> r == Ok(m)
    ensures r.Ok? ==>
      r.value == Mem(ArgsTop(m.stackTop, argv), m.log + ArgWrites(env.reportedLineSize, m.stackTop, argv))
    ensures r.Ok? ==> |r.value.log| >= |m.log| && r.value.log[..|m.log|] == m.log
    decreases |argv|
  {
    if argv == [] then Ok(m)
    else
      var m1 :- PushArg(env, m, argv[0]);
      var r := PushArgs(env, m1, argv[1..]);
      assert r.Ok? ==> r.value.log[..|m.log|] == r.value.log[..|m1.log|][..|m.log|];
      if r.Ok? then
        ArgWritesCons(env.reportedLineSize, m.log, m.stackTop, argv);
        r
      else r
  }

  /** Unfolding `ArgWrites` once, appended to an earlier log. */
  lemma ArgWritesCons(reported: nat, log: seq<MemCall>, top: nat, argv: seq<seq<byte>>)
    requires argv != []
    ensures var sp := ArgTop(top, |argv[0]| + 1);
      log + ArgWrites(reported, top, argv)
        == (log + [SetStackTop(sp)] + Stores(reported, sp, argv[0] + [0])) + ArgWrites(reported, sp, argv[1..])
  {
    var sp := ArgTop(top, |argv[0]| + 1);
    var a, b, c := [SetStackTop(sp)], Stores(reported, sp, argv[0] + [0]), ArgWrites(reported, sp, argv[1..]);
    assert ArgWrites(reported, top, argv) == a + b + c;
    assert log + (a + b + c) == (log + a + b) + c;
  }

  /** The bytes of all arguments, each followed by its NUL. */
  function ArgBytes(argv: seq<seq<byte>>): (bs: seq<byte>)
    ensures |bs| == TotalLen(argv)
  {
    if argv == [] then [] else argv[0] + [0] + ArgBytes(argv[1..])
  }

  /** The stack space the arguments take before alignment. */
  function TotalLen(argv: seq<seq<byte>>): nat {
    if argv == [] then 0 else |argv[0]| + 1 + TotalLen(argv[1..])
  }

  /** One push stores the argument and its NUL and nothing else. */
  lemma PushArgPayload(env: MemEnv, m: Mem, arg: seq<byte>)
    requires PushArg(env, m, arg).Ok?
    ensures Payload(PushArg(env, m, arg).value.log[|m.log|..]) == arg + [0]
  {
    var log := PushArg(env, m, arg).value.log;
    assert log[|m.log|..] == [log[|m.log|]] + log[|m.log| + 1..];
    assert log[|m.log|] == (m.log + [SetStackTop(PushArg(env, m, arg).value.stackTop)])[|m.log|];
    PayloadAppend([log[|m.log|]], log[|m.log| + 1..]);
    assert Payload([log[|m.log|]]) == [];
  }

  /** The pushes store every argument and its NUL, in `argv` order; the
      stack-top updates between them carry no data. */
  lemma {:induction false} PushArgsImage(env: MemEnv, m: Mem, argv: seq<seq<byte>>)
    requires PushArgs(env, m, argv).Ok?
    ensures Payload(PushArgs(env, m, argv).value.log[|m.log|..]) == ArgBytes(argv)
    decreases |argv|
  {
    var r := PushArgs(env, m, argv).value;
    if argv == [] {
      assert r.log[|m.log|..] == [];
    } else {
      var m1 := PushArg(env, m, argv[0]).value;
      assert r == PushArgs(env, m1, argv[1..]).value;
      PushArgsImage(env, m1, argv[1..]);
      PushArgPayload(env, m, argv[0]);
      PayloadExtend(m.log, m1.log, r.log);
    }
  }

  /** With room on the stack for every argument and its alignment, the
      pushes lower the stack top by at least the arguments' total length
      and by at most 15 more bytes per argument, leaving it 16-byte
      aligned. */
  lemma {:induction false} PushArgsStack(env: MemEnv, m: Mem, argv: seq<seq<byte>>)
    requires PushArgs(env, m, argv).Ok?
    requires TotalLen(argv) + 16 * |argv| <= m.stackTop < TWO64
    ensures var top := PushArgs(env, m, argv).value.stackTop;
      top + TotalLen(argv) <= m.stackTop <= top + TotalLen(argv) + 15 * |argv|
    ensures argv != [] ==> PushArgs(env, m, argv).value.stackTop % 16 == 0
    decreases |argv|
  {
    if argv != [] {
      var m1 := PushArg(env, m, argv[0]).value;
      assert PushArgs(env, m, argv).value == PushArgs(env, m1, argv[1..]).value;
      var sp := m1.stackTop;
      assert sp <= m.stackTop - (|argv[0]| + 1) < sp + 16;
      PushArgsStack(env, m1, argv[1..]);
    }
  }
}
