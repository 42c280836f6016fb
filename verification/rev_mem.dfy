/** The loader's view of `RevMem`: the calls it makes are recorded in a
    log, the stack top is the one piece of memory state it reads back, and
    the answer of `WriteMem` is an uninterpreted oracle. */
module RevMem {
  import opened Common
  import CacheLine

  datatype MemCall =
    | AddMemSeg(base: nat, size: nat, writable: bool)
    | WriteMem(hart: nat, addr: nat, data: seq<byte>)
    | SetStackTop(top: nat)
    | InitHeap(end: nat)
    | FenceMem(hart: nat)

  /** What the loader cannot see inside `RevMem`: the line size its
      `getLineSize` reports and whether a `WriteMem(addr, len)` succeeds. */
  datatype MemEnv = MemEnv(reportedLineSize: nat, accepts: (nat, nat) -> bool)

  datatype Mem = Mem(stackTop: nat, log: seq<MemCall>)

  /** Records a call that does not change the stack top. */
  function Call(m: Mem, c: MemCall): (m': Mem)
    requires !c.SetStackTop?
    ensures m'.stackTop == m.stackTop && m'.log == m.log + [c]
  {
    m.(log := m.log + [c])
  }

  /** `mem->SetStackTop(top)`: a later `GetStackTop` returns `top`. */
  function SetTop(m: Mem, top: nat): (m': Mem)
    ensures m'.stackTop == top && m'.log == m.log + [SetStackTop(top)]
  {
    Mem(top, m.log + [SetStackTop(top)])
  }

  const MsgLineWrite := "Error: Failed to perform cache line write\n"

  /** Every chunk lies inside a buffer of `n` bytes. */
  predicate Within(cs: seq<CacheLine.Chunk>, n: nat) {
    forall k :: 0 <= k < |cs| ==> cs[k].off + cs[k].len <= n
  }

  lemma {:induction false} RemainderWithin(ls: nat, tmpAddr: nat, total: nat, len: nat)
    requires 0 < ls && total <= len && tmpAddr < TWO64
    ensures Within(CacheLine.Remainder(ls, tmpAddr, total, len), len)
    decreases len - total
  {
    CacheLine.RemainderStep(ls, tmpAddr, total, len);
    var cs := CacheLine.Remainder(ls, tmpAddr, total, len);
    var size := if len - total > ls then ls else len - total;
    if total + size < len {
      var next := Wrap(tmpAddr + size, TWO64);
      RemainderWithin(ls, next, total + size, len);
      forall k | 0 <= k < |cs|
        ensures cs[k].off + cs[k].len <= len
      {
        if k > 0 {
          assert cs[k] == cs[1..][k - 1];
        }
      }
    }
  }

  /** The chunks of a cache-line write never reach past its buffer. */
  lemma ChunksWithin(reported: nat, addr: nat, len: nat)
    requires addr < TWO64
    ensures Within(CacheLine.Chunks(reported, addr, len), len)
  {
    var ls := CacheLine.LineSize(reported);
    if len >= ls {
      var first := CacheLine.FirstLen(addr, ls);
      RemainderWithin(ls, Wrap(addr + first, TWO64), first, len);
      var cs := CacheLine.Chunks(reported, addr, len);
      var rest := CacheLine.Remainder(ls, Wrap(addr + first, TWO64), first, len);
      assert cs == [CacheLine.Chunk(addr, 0, first)] + rest;
      forall k | 0 <= k < |cs|
        ensures cs[k].off + cs[k].len <= len
      {
        if k > 0 {
          assert cs[k] == rest[k - 1];
        }
      }
    }
  }

  lemma WithinTail(cs: seq<CacheLine.Chunk>, n: nat)
    requires |cs| > 0 && Within(cs, n)
    ensures Within(cs[1..], n)
  {
    forall k | 0 <= k < |cs[1..]|
      ensures cs[1..][k].off + cs[1..][k].len <= n
    {
      assert cs[1..][k] == cs[k + 1];
    }
  }

  /** The bytes chunk `ch` carries: the run of `data` at its offset.  A
      chunk reaching past the data carries nothing; the chunks of a
      cache-line write never do (`ChunksWithin`). */
  function Run(ch: CacheLine.Chunk, data: seq<byte>): seq<byte> {
    if ch.off + ch.len <= |data| then data[ch.off..ch.off + ch.len] else []
  }

  /** The `WriteMem` calls that issue `cs` from `data`, on hart 0. */
  function Writes(cs: seq<CacheLine.Chunk>, data: seq<byte>): (ws: seq<MemCall>)
    ensures |ws| == |cs|
  {
    if |cs| == 0 then []
    else
      [WriteMem(0, cs[0].addr, Run(cs[0], data))] + Writes(cs[1..], data)
  }

  /** The `k`-th write stores chunk `k` of the data at the chunk's address. */
  lemma {:induction false} WritesAt(cs: seq<CacheLine.Chunk>, data: seq<byte>, k: nat)
    requires Within(cs, |data|) && k < |cs|
    ensures Writes(cs, data)[k] == WriteMem(0, cs[k].addr, data[cs[k].off..cs[k].off + cs[k].len])
  {
    if k > 0 {
      WithinTail(cs, |data|);
      WritesAt(cs[1..], data, k - 1);
      assert cs[1..][k - 1] == cs[k];
    }
  }

  /** The `WriteMem` calls a successful `WriteCacheLine(addr, |data|, data)`
      issues: one per chunk, each at its own address. */
  function Stores(reported: nat, addr: nat, data: seq<byte>): seq<MemCall>
    requires addr < TWO64
  {
    Writes(CacheLine.Chunks(reported, addr, |data|), data)
  }

  /** Where the bytes go: store `k` is a `WriteMem` on hart 0 of the run
      of the data at its chunk's offset, at `addr` advanced by that offset
      modulo 2^64; the first run starts at offset 0, and nothing is stored
      for empty data. */
  lemma StoresAt(reported: nat, addr: nat, data: seq<byte>, k: nat)
    requires addr < TWO64 && k < |Stores(reported, addr, data)|
    ensures var c := CacheLine.Chunks(reported, addr, |data|)[k];
      && c.off + c.len <= |data|
      && Stores(reported, addr, data)[k] == WriteMem(0, Wrap(addr + c.off, TWO64), data[c.off..c.off + c.len])
      && (k == 0 ==> c.off == 0)
    ensures data == [] ==> Stores(reported, addr, data) == []
  {
    var cs := CacheLine.Chunks(reported, addr, |data|);
    ChunksWithin(reported, addr, |data|);
    assert Stores(reported, addr, data) == Writes(cs, data);
    assert cs[k].off + cs[k].len <= |data| &&
      Writes(cs, data)[k] == WriteMem(0, Wrap(addr + cs[k].off, TWO64), data[cs[k].off..cs[k].off + cs[k].len]) by {
      CacheLine.ChunksAddrs(reported, addr, |data|);
      WritesPlaced(cs, data, addr, k);
    }
  }

  lemma WritesPlaced(cs: seq<CacheLine.Chunk>, data: seq<byte>, base: nat, k: nat)
    requires Within(cs, |data|) && CacheLine.AddrsFrom(cs, base, 0) && k < |cs|
    ensures cs[k].off + cs[k].len <= |data|
    ensures Writes(cs, data)[k] == WriteMem(0, Wrap(base + cs[k].off, TWO64), data[cs[k].off..cs[k].off + cs[k].len])
  {
    WritesAt(cs, data, k);
  }

  /** The runs of consecutive stores are adjacent in the data, and the
      last one ends at its end: together with `StoresAt`, byte `j` of the
      data is stored at `addr + j` modulo 2^64. */
  lemma StoresTile(reported: nat, addr: nat, data: seq<byte>, k: nat)
    requires addr < TWO64 && k < |CacheLine.Chunks(reported, addr, |data|)|
    ensures var cs := CacheLine.Chunks(reported, addr, |data|);
      && (k + 1 < |cs| ==> cs[k + 1].off == cs[k].off + cs[k].len)
      && (k + 1 == |cs| ==> cs[k].off + cs[k].len == |data|)
  {
    var cs := CacheLine.Chunks(reported, addr, |data|);
    CacheLine.ChunksContiguous(reported, addr, |data|);
    if k + 1 < |cs| {
      CacheLine.ContiguousAt(cs, k);
    } else {
      assert cs[k] == CacheLine.Last(cs);
    }
  }

  /** Read in order, the stores carry exactly the data. */
  lemma StoresPayload(reported: nat, addr: nat, data: seq<byte>)
    requires addr < TWO64
    ensures Payload(Stores(reported, addr, data)) == data
  {
    WritesCarryData(reported, addr, data);
  }

  /** Every chunk is accepted by `WriteMem`. */
  predicate AllAccepted(env: MemEnv, cs: seq<CacheLine.Chunk>) {
    forall k :: 0 <= k < |cs| ==> env.accepts(cs[k].addr, cs[k].len)
  }

  lemma AcceptedTail(env: MemEnv, cs: seq<CacheLine.Chunk>)
    requires |cs| > 0
    ensures AllAccepted(env, cs) <==> env.accepts(cs[0].addr, cs[0].len) && AllAccepted(env, cs[1..])
  {
    if env.accepts(cs[0].addr, cs[0].len) && AllAccepted(env, cs[1..]) {
      forall k | 0 <= k < |cs|
        ensures env.accepts(cs[k].addr, cs[k].len)
      {
        if k > 0 {
          assert cs[k] == cs[1..][k - 1];
        }
      }
    }
    if AllAccepted(env, cs) {
      forall k | 0 <= k < |cs[1..]|
        ensures env.accepts(cs[1..][k].addr, cs[1..][k].len)
      {
        assert cs[1..][k] == cs[k + 1];
      }
    }
  }

  /** The `do … while` of `WriteCacheLine` together with its first write:
      each chunk is written in order, and a refused one is fatal. */
  function IssueChunks(env: MemEnv, m: Mem, cs: seq<CacheLine.Chunk>, data: seq<byte>): (r: Result<Mem>)
    requires Within(cs, |data|)
    ensures r.Ok? <==> AllAccepted(env, cs)
    ensures !r.Ok? ==> r == Fatal(MsgLineWrite)
    ensures r.Ok? ==> r.value == Mem(m.stackTop, m.log + Writes(cs, data))
    decreases |cs|
  {
    if cs == [] then Ok(m)
    else
      var c := cs[0];
      WithinTail(cs, |data|);
      AcceptedTail(env, cs);
      if !env.accepts(c.addr, c.len) then Fatal(MsgLineWrite)
      else
        var w := WriteMem(0, c.addr, data[c.off..c.off + c.len]);
        var r := IssueChunks(env, Call(m, w), cs[1..], data);
        assert Writes(cs, data) == [w] + Writes(cs[1..], data);
        assert m.log + [w] + Writes(cs[1..], data) == m.log + Writes(cs, data);
        r
  }

  /** `RevLoader::WriteCacheLine(Addr, Len, Data)` at the level of memory
      calls.  The boolean is its return value, which every loader caller
      ignores; a refused write inside a multi-line write is fatal. */
  function WriteCacheLine(env: MemEnv, m: Mem, addr: nat, data: seq<byte>): (r: Result<(bool, Mem)>)
    requires addr < TWO64
    ensures !r.Undefined?
    ensures |data| == 0 ==> r == Ok((true, m))
    ensures 0 < |data| < CacheLine.LineSize(env.reportedLineSize) ==>
      r == Ok((env.accepts(addr, |data|), Call(m, WriteMem(0, addr, data))))
    ensures |data| >= CacheLine.LineSize(env.reportedLineSize) ==>
      (r.Ok? <==> AllAccepted(env, CacheLine.Chunks(env.reportedLineSize, addr, |data|)))
    ensures r.Fatal? ==> r.msg == MsgLineWrite
    ensures r.Ok? ==> (Within(CacheLine.Chunks(env.reportedLineSize, addr, |data|), |data|) &&
      r.value.1 == Mem(m.stackTop, m.log + Stores(env.reportedLineSize, addr, data)))
  {
    var len := |data|;
    var cs := CacheLine.Chunks(env.reportedLineSize, addr, len);
    ChunksWithin(env.reportedLineSize, addr, len);
    if len == 0 then Ok((true, m))
    else if len < CacheLine.LineSize(env.reportedLineSize) then
      assert data[0..len] == data;
      Ok((env.accepts(addr, len), Call(m, WriteMem(0, addr, data))))
    else
      var m' :- IssueChunks(env, m, cs, data);
      Ok((true, m'))
  }

  /** The payloads of the issued writes. */
  function Payload(ws: seq<MemCall>): seq<byte> {
    if ws == [] then []
    else (if ws[0].WriteMem? then ws[0].data else []) + Payload(ws[1..])
  }

  lemma {:induction false} PayloadAppend(a: seq<MemCall>, b: seq<MemCall>)
    ensures Payload(a + b) == Payload(a) + Payload(b)
  {
    if a == [] {
      assert a + b == b;
    } else {
      assert (a + b)[1..] == a[1..] + b;
      PayloadAppend(a[1..], b);
    }
  }

  lemma AppendAssoc(log: seq<MemCall>, a: seq<MemCall>, b: seq<MemCall>)
    ensures log + a + b == log + (a + b)
  {
  }

  /** A prefix of a prefix is a prefix. */
  lemma PrefixTrans(a: seq<MemCall>, b: seq<MemCall>, c: seq<MemCall>)
    requires |a| <= |b| <= |c| && b[..|a|] == a && c[..|b|] == b
    ensures c[..|a|] == a
  {
    assert c[..|a|] == c[..|b|][..|a|];
  }

  /** Two logs appended one after the other carry the payloads of both,
      in order. */
  lemma PayloadExtend(a: seq<MemCall>, b: seq<MemCall>, c: seq<MemCall>)
    requires |a| <= |b| <= |c| && b[..|a|] == a && c[..|b|] == b
    ensures Payload(c[|a|..]) == Payload(b[|a|..]) + Payload(c[|b|..])
  {
    assert c[|a|..] == b[|a|..] + c[|b|..];
    PayloadAppend(b[|a|..], c[|b|..]);
  }

  /** Contiguous chunks starting at offset `from` carry exactly the data
      from `from` to the end of the last chunk. */
  lemma {:induction false} PayloadContiguous(cs: seq<CacheLine.Chunk>, data: seq<byte>, from: nat)
    requires |cs| >= 1 && cs[0].off == from && CacheLine.Contiguous(cs) && Within(cs, |data|)
    ensures from + CacheLine.SumLens(cs) <= |data|
    ensures Payload(Writes(cs, data)) == data[from..from + CacheLine.SumLens(cs)]
  {
    var ws := Writes(cs, data);
    var c := cs[0];
    if |cs| == 1 {
      assert ws[1..] == [];
      assert CacheLine.SumLens(cs[1..]) == 0;
    } else {
      WithinTail(cs, |data|);
      PayloadContiguous(cs[1..], data, c.off + c.len);
      assert ws[1..] == Writes(cs[1..], data);
      var mid := from + c.len;
      var end := mid + CacheLine.SumLens(cs[1..]);
      assert data[from..mid] + data[mid..end] == data[from..end];
    }
  }

  /** Issued in order, the writes of a cache-line write carry exactly
      its data. */
  lemma WritesCarryData(reported: nat, addr: nat, data: seq<byte>)
    requires addr < TWO64
    ensures Within(CacheLine.Chunks(reported, addr, |data|), |data|)
    ensures Payload(Writes(CacheLine.Chunks(reported, addr, |data|), data)) == data
  {
    var cs := CacheLine.Chunks(reported, addr, |data|);
    ChunksWithin(reported, addr, |data|);
    if |data| > 0 {
      CacheLine.ChunksContiguous(reported, addr, |data|);
      CacheLine.ChunkLengthsSum(reported, addr, |data|);
      PayloadContiguous(cs, data, 0);
      assert data[0..|data|] == data;
    }
  }

  /** A successful cache-line write stores exactly `data`: it appends to
      the log writes whose payloads, in order, are `data`, and leaves the
      stack top alone. */
  lemma WriteCacheLineStoresData(env: MemEnv, m: Mem, addr: nat, data: seq<byte>)
    requires addr < TWO64
    ensures var r := WriteCacheLine(env, m, addr, data);
      r.Ok? ==> (r.value.1.stackTop == m.stackTop &&
        |r.value.1.log| >= |m.log| && r.value.1.log[..|m.log|] == m.log &&
        Payload(r.value.1.log[|m.log|..]) == data)
  {
    var r := WriteCacheLine(env, m, addr, data);
    WritesCarryData(env.reportedLineSize, addr, data);
    if r.Ok? {
      var ws := Writes(CacheLine.Chunks(env.reportedLineSize, addr, |data|), data);
      var m' := r.value.1;
      assert m'.log == m.log + ws;
      assert m'.log[|m.log|..] == ws;
      assert m'.log[..|m.log|] == m.log;
    }
  }
}
