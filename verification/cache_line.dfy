/** `RevLoader::WriteCacheLine`: how one loader write of `len` bytes at
    `addr` is broken into `WriteMem` calls no longer than a cache line.
    A write is a `Chunk`: the call `WriteMem(0, addr, len, Data + off)`. */
module CacheLine {
  import opened Common

  datatype Chunk = Chunk(addr: nat, off: nat, len: nat)

  /** `getLineSize()` as used: a reported size of 0 means 64-byte lines. */
  function LineSize(reported: nat): nat {
    if reported == 0 then 64 else reported
  }

  function Last(cs: seq<Chunk>): Chunk
    requires |cs| > 0
  {
    cs[|cs| - 1]
  }

  lemma WrapAdd(a: int, b: int)
    ensures Wrap(Wrap(a, TWO64) + b, TWO64) == Wrap(a + b, TWO64)
  {
  }

  /** Each write starts where the previous one ended in the data. */
  predicate Contiguous(cs: seq<Chunk>) {
    |cs| <= 1 || (cs[1].off == cs[0].off + cs[0].len && Contiguous(cs[1..]))
  }

  lemma {:induction false} ContiguousAt(cs: seq<Chunk>, k: nat)
    requires Contiguous(cs) && k + 1 < |cs|
    ensures cs[k + 1].off == cs[k].off + cs[k].len
    decreases k
  {
    if k > 0 {
      ContiguousAt(cs[1..], k - 1);
    }
  }

  predicate AtMost(cs: seq<Chunk>, ls: nat) {
    forall k :: 0 <= k < |cs| ==> cs[k].len <= ls
  }

  /** The do-while loop of WriteCacheLine: one write per iteration, the
      first one unconditionally, then while `total < len`. */
  function Remainder(ls: nat, tmpAddr: nat, total: nat, len: nat): (cs: seq<Chunk>)
    requires 0 < ls && total <= len && tmpAddr < TWO64
    ensures |cs| >= 1 && cs[0] == Chunk(tmpAddr, total, cs[0].len)
    decreases len - total
  {
    var size := if len - total > ls then ls else len - total;
    var c := Chunk(tmpAddr, total, size);
    if total + size < len then
      [c] + Remainder(ls, Wrap(tmpAddr + size, TWO64), total + size, len)
    else
      [c]
  }

  /** One iteration of the do-while loop: a write of at most a line, then
      either the rest of the loop or its end. */
  lemma RemainderStep(ls: nat, tmpAddr: nat, total: nat, len: nat)
    requires 0 < ls && total <= len && tmpAddr < TWO64
    ensures var size := if len - total > ls then ls else len - total;
      var cs := Remainder(ls, tmpAddr, total, len);
      && cs[0] == Chunk(tmpAddr, total, size)
      && (total + size < len ==> cs[1..] == Remainder(ls, Wrap(tmpAddr + size, TWO64), total + size, len))
      && (total + size >= len ==> |cs| == 1)
  {
  }

  /** The do-while loop ends with the write that reaches `len`; that write
      is empty exactly when the loop was entered with nothing left. */
  lemma {:induction false} RemainderEnd(ls: nat, tmpAddr: nat, total: nat, len: nat)
    requires 0 < ls && total <= len && tmpAddr < TWO64
    ensures var cs := Remainder(ls, tmpAddr, total, len);
      && Last(cs).off + Last(cs).len == len
      && (Last(cs).len == 0 <==> total == len)
      && (total == len ==> |cs| == 1)
    decreases len - total
  {
    var size := if len - total > ls then ls else len - total;
    var cs := Remainder(ls, tmpAddr, total, len);
    RemainderStep(ls, tmpAddr, total, len);
    if total + size < len {
      RemainderEnd(ls, Wrap(tmpAddr + size, TWO64), total + size, len);
      assert Last(cs) == Last(cs[1..]);
    }
  }

  /** The writes of the do-while loop are contiguous in the data. */
  lemma {:induction false} RemainderContiguous(ls: nat, tmpAddr: nat, total: nat, len: nat)
    requires 0 < ls && total <= len && tmpAddr < TWO64
    ensures Contiguous(Remainder(ls, tmpAddr, total, len))
    decreases len - total
  {
    var size := if len - total > ls then ls else len - total;
    RemainderStep(ls, tmpAddr, total, len);
    if total + size < len {
      RemainderContiguous(ls, Wrap(tmpAddr + size, TWO64), total + size, len);
    }
  }

  /** Every write of the do-while loop but the last is a full line, and
      none is longer. */
  lemma {:induction false} RemainderFull(ls: nat, tmpAddr: nat, total: nat, len: nat)
    requires 0 < ls && total <= len && tmpAddr < TWO64
    ensures var cs := Remainder(ls, tmpAddr, total, len);
      && (forall k :: 0 <= k < |cs| - 1 ==> cs[k].len == ls)
      && AtMost(cs, ls)
    decreases len - total
  {
    var size := if len - total > ls then ls else len - total;
    var cs := Remainder(ls, tmpAddr, total, len);
    RemainderStep(ls, tmpAddr, total, len);
    if total + size < len {
      RemainderFull(ls, Wrap(tmpAddr + size, TWO64), total + size, len);
      var rest := cs[1..];
      forall k | 0 < k < |cs|
        ensures cs[k] == rest[k - 1]
      {
      }
    }
  }

  /** The writes of the do-while loop are contiguous, end at `len`, and
      all but the last are full lines. */
  lemma RemainderShape(ls: nat, tmpAddr: nat, total: nat, len: nat)
    requires 0 < ls && total <= len && tmpAddr < TWO64
    ensures var cs := Remainder(ls, tmpAddr, total, len);
      && Last(cs).off + Last(cs).len == len
      && Contiguous(cs)
      && (forall k :: 0 <= k < |cs| - 1 ==> cs[k].len == ls)
      && AtMost(cs, ls)
      && (Last(cs).len == 0 <==> total == len)
      && (total == len ==> |cs| == 1)
  {
    RemainderEnd(ls, tmpAddr, total, len);
    RemainderContiguous(ls, tmpAddr, total, len);
    RemainderFull(ls, tmpAddr, total, len);
  }

  /** Each write in `cs` goes to `base` advanced by its offset past `from`,
      modulo 2^64. */
  predicate AddrsFrom(cs: seq<Chunk>, base: nat, from: nat) {
    forall k :: 0 <= k < |cs| ==> cs[k].addr == Wrap(base + (cs[k].off - from), TWO64)
  }

  /** A write at the address its offset gives, followed by writes that
      already are, are all at the addresses their offsets give. */
  lemma AddrsCons(cs: seq<Chunk>, base: nat, from: nat)
    requires |cs| >= 1 && cs[0].addr == Wrap(base + (cs[0].off - from), TWO64)
    requires AddrsFrom(cs[1..], base, from)
    ensures AddrsFrom(cs, base, from)
  {
    forall k | 0 < k < |cs|
      ensures cs[k].addr == Wrap(base + (cs[k].off - from), TWO64)
    {
      assert cs[k] == cs[1..][k - 1];
    }
  }

  /** Addresses counted from `base + d` past offset `from + d` are the
      addresses counted from `base` past `from`. */
  lemma AddrsShift(cs: seq<Chunk>, base: nat, from: nat, d: nat)
    requires AddrsFrom(cs, Wrap(base + d, TWO64), from + d)
    ensures AddrsFrom(cs, base, from)
  {
    forall k | 0 <= k < |cs|
      ensures cs[k].addr == Wrap(base + (cs[k].off - from), TWO64)
    {
      WrapAdd(base + d, cs[k].off - (from + d));
    }
  }

  /** Each write of the do-while loop goes to `tmpAddr` advanced by the
      bytes written before it, modulo 2^64. */
  lemma {:induction false} RemainderAddrs(ls: nat, tmpAddr: nat, total: nat, len: nat)
    requires 0 < ls && total <= len && tmpAddr < TWO64
    ensures AddrsFrom(Remainder(ls, tmpAddr, total, len), tmpAddr, total)
    decreases len - total
  {
    var size := if len - total > ls then ls else len - total;
    var cs := Remainder(ls, tmpAddr, total, len);
    RemainderStep(ls, tmpAddr, total, len);
    assert cs[0].addr == Wrap(tmpAddr + (cs[0].off - total), TWO64);
    if total + size < len {
      RemainderAddrs(ls, Wrap(tmpAddr + size, TWO64), total + size, len);
      AddrsShift(cs[1..], tmpAddr, total, size);
      AddrsCons(cs, tmpAddr, total);
    }
  }

  lemma AlignDown(x: nat, m: nat)
    requires m > 0
    ensures x % m <= x && (x - x % m) % m == 0
  {
    assert x == (x / m) * m + x % m;
    MulNonneg(x / m, m);
    ModUnique(x - x % m, m, x / m, 0);
  }

  /** The start of the cache line holding `addr`: the value the source's
      `BaseCacheAddr` loop stops at. */
  function LineBase(addr: nat, ls: nat): (b: nat)
    requires ls > 0
    ensures b <= addr && addr - b < ls && b % ls == 0
    ensures b == addr - addr % ls
  {
    AlignDown(addr, ls);
    addr - addr % ls
  }

  lemma ModStep(x: nat, m: nat)
    requires m > 0 && x % m == 0
    ensures (x + m) % m == 0
  {
    assert x == (x / m) * m;
    ModUnique(x + m, m, x / m + 1, 0);
  }

  /** The length of the first write of a split write: up to the end of
      `addr`'s cache line. */
  function FirstLen(addr: nat, ls: nat): (r: nat)
    requires ls > 0
    ensures 0 < r <= ls
  {
    ls - addr % ls
  }

  /** The first write of a split write ends on the next line boundary. */
  lemma FirstLenBoundary(addr: nat, ls: nat)
    requires ls > 0
    ensures addr + FirstLen(addr, ls) == LineBase(addr, ls) + ls
    ensures (addr + FirstLen(addr, ls)) % ls == 0
    ensures FirstLen(addr, ls) == ls <==> addr % ls == 0
  {
    ModStep(LineBase(addr, ls), ls);
  }

  /** The writes WriteCacheLine issues, in order.  Nothing is written for
      `len == 0`, and a write shorter than a line goes out whole. */
  function Chunks(reported: nat, addr: nat, len: nat): (cs: seq<Chunk>)
    requires addr < TWO64
    ensures len == 0 ==> cs == []
    ensures 0 < len < LineSize(reported) ==> cs == [Chunk(addr, 0, len)]
    ensures len > 0 ==> |cs| >= 1 && cs[0].addr == addr && cs[0].off == 0
  {
    if len == 0 then []
    else
      var ls := LineSize(reported);
      if len < ls then [Chunk(addr, 0, len)]
      else
        var first := FirstLen(addr, ls);
        [Chunk(addr, 0, first)] + Remainder(ls, Wrap(addr + first, TWO64), first, len)
  }

  /** The writes cover `0..len` of the data contiguously from offset 0,
      each at most a line long; when the write is split, the first one
      ends at the next line boundary. */
  lemma ChunksContiguous(reported: nat, addr: nat, len: nat)
    requires addr < TWO64
    ensures var cs := Chunks(reported, addr, len);
      && (len > 0 ==> Last(cs).off + Last(cs).len == len)
      && Contiguous(cs)
      && AtMost(cs, LineSize(reported))
      && (len >= LineSize(reported) ==> cs[0].len == FirstLen(addr, LineSize(reported)))
  {
    var ls := LineSize(reported);
    if len >= ls {
      var first := FirstLen(addr, ls);
      var rest := Remainder(ls, Wrap(addr + first, TWO64), first, len);
      RemainderShape(ls, Wrap(addr + first, TWO64), first, len);
      var cs := [Chunk(addr, 0, first)] + rest;
      assert cs[1..] == rest;
      assert Last(cs) == Last(rest);
    }
  }

  /** Write `k` goes to `addr` advanced by its offset in the data, modulo
      2^64 (the source's `TmpAddr += TmpSize`). */
  lemma ChunksAddrs(reported: nat, addr: nat, len: nat)
    requires addr < TWO64
    ensures AddrsFrom(Chunks(reported, addr, len), addr, 0)
  {
    var ls := LineSize(reported);
    if len >= ls {
      var first := FirstLen(addr, ls);
      var next := Wrap(addr + first, TWO64);
      var cs := Chunks(reported, addr, len);
      RemainderAddrs(ls, next, first, len);
      assert cs[1..] == Remainder(ls, next, first, len);
      AddrsShift(cs[1..], addr, 0, first);
      assert cs[0].addr == Wrap(addr + (cs[0].off - 0), TWO64);
      AddrsCons(cs, addr, 0);
    }
  }

  function SumLens(cs: seq<Chunk>): nat {
    if cs == [] then 0 else cs[0].len + SumLens(cs[1..])
  }

  lemma {:induction false} SumLensContiguous(cs: seq<Chunk>, from: nat)
    requires |cs| >= 1 && cs[0].off == from && Contiguous(cs)
    ensures from + SumLens(cs) == Last(cs).off + Last(cs).len
    decreases |cs|
  {
    if |cs| > 1 {
      SumLensContiguous(cs[1..], cs[1].off);
    }
  }

  /** The lengths of the writes add up to `len`. */
  lemma ChunkLengthsSum(reported: nat, addr: nat, len: nat)
    requires addr < TWO64
    ensures SumLens(Chunks(reported, addr, len)) == len
  {
    var cs := Chunks(reported, addr, len);
    if len > 0 {
      ChunksContiguous(reported, addr, len);
      SumLensContiguous(cs, 0);
    }
  }

  /** A reported line size of 0 behaves exactly like 64-byte lines. */
  lemma ZeroLineSizeIs64(addr: nat, len: nat)
    requires addr < TWO64
    ensures Chunks(0, addr, len) == Chunks(64, addr, len)
  {
  }

  /** Every write in `cs` starts on a line boundary of the unwrapped
      address `base + off`. */
  predicate AlignedFrom(cs: seq<Chunk>, base: nat, ls: nat)
    requires ls > 0
  {
    forall k :: 0 <= k < |cs| ==> (base + cs[k].off) % ls == 0
  }

  lemma AlignedCons(cs: seq<Chunk>, base: nat, ls: nat)
    requires ls > 0 && |cs| >= 1 && (base + cs[0].off) % ls == 0
    requires AlignedFrom(cs[1..], base, ls)
    ensures AlignedFrom(cs, base, ls)
  {
    forall k | 0 < k < |cs|
      ensures (base + cs[k].off) % ls == 0
    {
      assert cs[k] == cs[1..][k - 1];
    }
  }

  /** Started on a line boundary, the do-while loop stays on line
      boundaries. */
  lemma {:induction false} RemainderAligned(ls: nat, tmpAddr: nat, total: nat, len: nat, base: nat)
    requires 0 < ls && total <= len && tmpAddr < TWO64
    requires (base + total) % ls == 0
    ensures AlignedFrom(Remainder(ls, tmpAddr, total, len), base, ls)
    decreases len - total
  {
    var size := if len - total > ls then ls else len - total;
    var cs := Remainder(ls, tmpAddr, total, len);
    RemainderStep(ls, tmpAddr, total, len);
    if total + size < len {
      assert size == ls;
      ModStep(base + total, ls);
      RemainderAligned(ls, Wrap(tmpAddr + size, TWO64), total + size, len, base);
      AlignedCons(cs, base, ls);
    }
  }

  /** Every write after the first starts on a cache-line boundary (of the
      unwrapped address) and every write but the first and last is a full
      line. */
  lemma LaterChunksAligned(reported: nat, addr: nat, len: nat)
    requires addr < TWO64
    requires len >= LineSize(reported)
    ensures AlignedFrom(Chunks(reported, addr, len)[1..], addr, LineSize(reported))
    ensures var cs := Chunks(reported, addr, len);
      forall k :: 0 < k < |cs| - 1 ==> cs[k].len == LineSize(reported)
  {
    var ls := LineSize(reported);
    var cs := Chunks(reported, addr, len);
    var first := FirstLen(addr, ls);
    var rest := Remainder(ls, Wrap(addr + first, TWO64), first, len);
    RemainderShape(ls, Wrap(addr + first, TWO64), first, len);
    FirstLenBoundary(addr, ls);
    RemainderAligned(ls, Wrap(addr + first, TWO64), first, len, addr);
    assert cs[1..] == rest;
    forall k | 0 < k < |cs| - 1
      ensures cs[k].len == ls
    {
      assert cs[k] == rest[k - 1];
    }
  }

  /** The do-while issues a trailing zero-length write exactly when the
      first write already covered everything: an aligned address and a
      length of one line.  No other write is empty. */
  lemma ZeroLengthTrailingWrite(reported: nat, addr: nat, len: nat)
    requires addr < TWO64
    requires len >= LineSize(reported)
    ensures var cs := Chunks(reported, addr, len);
      Last(cs).len == 0 <==> addr % LineSize(reported) == 0 && len == LineSize(reported)
    ensures var cs := Chunks(reported, addr, len);
      addr % LineSize(reported) == 0 && len == LineSize(reported) ==>
        cs == [Chunk(addr, 0, len), Chunk(Wrap(addr + len, TWO64), len, 0)]
    ensures var cs := Chunks(reported, addr, len);
      forall k :: 0 <= k < |cs| - 1 ==> cs[k].len > 0
  {
    var ls := LineSize(reported);
    var first := FirstLen(addr, ls);
    var rest := Remainder(ls, Wrap(addr + first, TWO64), first, len);
    var cs := Chunks(reported, addr, len);
    assert cs == [Chunk(addr, 0, first)] + rest;
    FirstLenBoundary(addr, ls);
    RemainderShape(ls, Wrap(addr + first, TWO64), first, len);
    assert Last(cs) == Last(rest);
    assert first == len <==> addr % ls == 0 && len == ls;
    forall k | 0 < k < |cs| - 1
      ensures cs[k].len > 0
    {
      assert cs[k] == rest[k - 1];
    }
  }

  lemma ModDec(x: nat, m: nat)
    requires m > 0 && x % m != 0
    ensures x > 0 && (x - 1) % m == x % m - 1
  {
    assert x == (x / m) * m + x % m;
    ModUnique(x - 1, m, x / m, x % m - 1);
  }

  /** The loop that walks `BaseCacheAddr` down from `addr`, one byte at a
      time, until it is a multiple of the line size. */
  method BaseCacheAddr(addr: nat, lineSize: nat) returns (base: nat)
    requires lineSize > 0
    ensures base == LineBase(addr, lineSize)
  {
    var done := false;
    base := addr;
    while !done
      invariant base <= addr
      invariant base % lineSize + (addr - base) == addr % lineSize
      invariant done ==> base % lineSize == 0
      decreases base + (if done then 0 else 1)
    {
      if base % lineSize == 0 {
        done := true;
      } else {
        ModDec(base, lineSize);
        base := base - 1;
      }
    }
  }

  lemma SplitHead<T>(a: seq<T>, b: seq<T>)
    requires |b| > 0
    ensures a + b == (a + [b[0]]) + b[1..]
  {
    assert b == [b[0]] + b[1..];
  }

  /** The do-while loop of WriteCacheLine, appending its writes to `cs`. */
  method DoWhileWrites(lineSize: nat, tmpAddr0: nat, total0: nat, len: nat, cs0: seq<Chunk>)
    returns (cs: seq<Chunk>)
    requires 0 < lineSize && total0 <= len && tmpAddr0 < TWO64
    ensures cs == cs0 + Remainder(lineSize, tmpAddr0, total0, len)
  {
    var tmpAddr: nat, total: nat := tmpAddr0, total0;
    cs := cs0;
    ghost var whole := cs + Remainder(lineSize, tmpAddr, total, len);
    var first := true;
    while first || total < len
      invariant total <= len && tmpAddr < TWO64
      invariant first || total < len ==> cs + Remainder(lineSize, tmpAddr, total, len) == whole
      invariant !(first || total < len) ==> cs == whole
      decreases len - total + (if first then 1 else 0)
    {
      ghost var rem := Remainder(lineSize, tmpAddr, total, len);
      ghost var before := cs;
      RemainderStep(lineSize, tmpAddr, total, len);
      first := false;
      var tmpSize: nat;
      if len - total > lineSize {
        tmpSize := lineSize;
      } else {
        tmpSize := len - total;
      }
      cs := cs + [Chunk(tmpAddr, total, tmpSize)];
      tmpAddr := Wrap(tmpAddr + tmpSize, TWO64);
      total := total + tmpSize;
      SplitHead(before, rem);
    }
  }

  /** WriteCacheLine as the source writes it: the zero and small cases,
      the walk of `BaseCacheAddr` down to the line start, the first
      partial-line write and the do-while loop over the rest.
      `(BaseCacheAddr + lineSize) - Addr` is computed in unsigned 64-bit
      arithmetic; its value is the same in unbounded integers because it
      lies in `1..lineSize`. */
  method WriteCacheLine(reported: nat, addr: nat, len: nat) returns (cs: seq<Chunk>)
    requires addr < TWO64
    ensures cs == Chunks(reported, addr, len)
    ensures SumLens(cs) == len
  {
    ChunkLengthsSum(reported, addr, len);
    if len == 0 {
      return [];
    }
    var lineSize := reported;
    if lineSize == 0 {
      lineSize := 64;
    }
    if len < lineSize {
      return [Chunk(addr, 0, len)];
    }

    var total: nat := 0;
    var base := BaseCacheAddr(addr, lineSize);
    var tmpSize: nat := (base + lineSize) - addr;
    assert tmpSize == FirstLen(addr, lineSize);
    var tmpAddr: nat := addr;
    cs := [Chunk(tmpAddr, 0, tmpSize)];
    tmpAddr := Wrap(tmpAddr + tmpSize, TWO64);
    total := total + tmpSize;

    cs := DoWhileWrites(lineSize, tmpAddr, total, len, cs);
  }
}
