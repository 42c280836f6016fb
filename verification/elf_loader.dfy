/** `RevLoader::LoadElf32`, `LoadElf64` and `LoadElf`.  The two header
    classes share one definition, parameterised by `ElfClass`: the field
    layouts, the wrap-around width of sums of two fields, and whether the
    second section pass registers segments are what tell them apart. */
module ElfLoader {
  import opened Common
  import opened ElfIdent
  import opened ElfFile
  import opened RevMem
  import opened SymTable
  import opened ElfSections
  import opened ProgramArgs

  /** `PT_LOAD` of the program-header `p_type` field. */
  const PT_LOAD: nat := 1

  /** The fields of the ELF header the loader reads. */
  datatype Header = Header(entry: nat, phoff: nat, shoff: nat, phnum: nat, shnum: nat, shstrndx: nat)

  function HeaderOf(c: ElfClass, f: seq<byte>): (h: Header)
    requires |f| >= ELF64_EHDR_SIZE
    ensures h.phnum < 0x1_0000 && h.shnum < 0x1_0000 && h.shstrndx < 0x1_0000
    ensures h.entry < FieldMod(c) && h.phoff < FieldMod(c) && h.shoff < FieldMod(c)
  {
    Header(Ehdr(c, f, EntryPoint), Ehdr(c, f, PhOff), Ehdr(c, f, ShOff),
           Ehdr(c, f, PhNum), Ehdr(c, f, ShNum), Ehdr(c, f, ShStrNdx))
  }

  /** `p_paddr` precedes `p_filesz`, and `p_type` precedes `p_memsz`, in
      both layouts: a header whose later field is readable has its earlier
      one readable too. */
  lemma PhdrPrefix(c: ElfClass, f: seq<byte>, phoff: nat, i: nat)
    ensures Phdr(c, f, phoff, i, PFilesz).Some? ==>
      Phdr(c, f, phoff, i, PPaddr).Some? && Phdr(c, f, phoff, i, POffset).Some?
    ensures Phdr(c, f, phoff, i, PMemsz).Some? ==>
      Phdr(c, f, phoff, i, PType).Some? && Phdr(c, f, phoff, i, PFilesz).Some?
  {
  }

  // ---------------------------------------------------------------------
  // First pass over the program headers

  /** Header `k` passes the first pass's test: its file extent, summed in
      the width of the class, does not exceed the file size. */
  predicate PhdrFits(c: ElfClass, f: seq<byte>, phoff: nat, k: nat) {
    var off := Phdr(c, f, phoff, k, POffset);
    var fsz := Phdr(c, f, phoff, k, PFilesz);
    off.Some? && fsz.Some? && Trunc(c, off.value + fsz.value) <= |f|
  }

  /** One iteration of the first program-header loop: the header must
      fit, and its segment is registered. */
  function PhdrSeg(c: ElfClass, f: seq<byte>, phoff: nat, i: nat): (r: Result<MemCall>)
    ensures r.Ok? <==> PhdrFits(c, f, phoff, i)
    ensures r.Fatal? ==> r.msg == MsgBad(c)
  {
    PhdrPrefix(c, f, phoff, i);
    var off :- Read(Phdr(c, f, phoff, i, POffset));
    var fsz :- Read(Phdr(c, f, phoff, i, PFilesz));
    if |f| < Trunc(c, off + fsz) then Fatal(MsgBad(c))
    else Ok(AddMemSeg(Phdr(c, f, phoff, i, PPaddr).value, fsz, true))
  }

  /** The segment a fitting header registers: `p_filesz` bytes of
      memory at `p_paddr`. */
  lemma PhdrSegValue(c: ElfClass, f: seq<byte>, phoff: nat, i: nat)
    requires PhdrFits(c, f, phoff, i)
    ensures Phdr(c, f, phoff, i, PPaddr).Some?
    ensures PhdrSeg(c, f, phoff, i) ==
      Ok(AddMemSeg(Phdr(c, f, phoff, i, PPaddr).value, Phdr(c, f, phoff, i, PFilesz).value, true))
  {
    PhdrPrefix(c, f, phoff, i);
  }

  /** The body of the first program-header loop, as a function of the
      header index. */
  function PhdrSegStep(c: ElfClass, f: seq<byte>, phoff: nat): nat -> Result<MemCall> {
    (k: nat) => PhdrSeg(c, f, phoff, k)
  }

  /** The first `for` loop over the program headers: the segments
      registered, or the first failure. */
  function PhdrSegs(c: ElfClass, f: seq<byte>, phoff: nat, n: nat): (r: Result<seq<MemCall>>)
    ensures r.Fatal? ==> r.msg == MsgBad(c)
    ensures r.Ok? ==> |r.value| == n
  {
    var r := Collect(PhdrSegStep(c, f, phoff), 0, n);
    if r.Ok? then r else CollectFailure(PhdrSegStep(c, f, phoff), 0, n); r
  }

  /** Entry `k` of a successful pass is the segment of header `k`. */
  lemma PhdrSegsAt(c: ElfClass, f: seq<byte>, phoff: nat, n: nat, k: nat)
    requires k < n && PhdrSegs(c, f, phoff, n).Ok?
    ensures PhdrFits(c, f, phoff, k)
    ensures PhdrSeg(c, f, phoff, k) == Ok(PhdrSegs(c, f, phoff, n).value[k])
  {
    CollectAt(PhdrSegStep(c, f, phoff), 0, n, k);
  }

  /** The first pass succeeds exactly when every header is readable and
      fits. */
  lemma PhdrSegsOk(c: ElfClass, f: seq<byte>, phoff: nat, n: nat)
    ensures PhdrSegs(c, f, phoff, n).Ok? <==> forall k :: 0 <= k < n ==> PhdrFits(c, f, phoff, k)
  {
    var step := PhdrSegStep(c, f, phoff);
    CollectOk(step, 0, n);
    forall k | 0 <= k < n
      ensures step(k).Ok? <==> PhdrFits(c, f, phoff, k)
    {
      assert step(k) == PhdrSeg(c, f, phoff, k);
    }
  }

  // ---------------------------------------------------------------------
  // The program-header table on the stack

  /** `phnum * sizeof(Phdr)`, the `elfinfo.phdr_size` of the class. */
  function PhdrTableSize(c: ElfClass, phnum: nat): nat {
    Span(c, PhdrSize(c), phnum)
  }

  /** `sp = GetStackTop() - phdr_size`, truncated to the class's address
      width. */
  function StackPointer(c: ElfClass, top: nat, phnum: nat): (sp: nat)
    ensures sp < FieldMod(c)
    ensures PhdrTableSize(c, phnum) <= top < FieldMod(c) ==> sp == top - PhdrTableSize(c, phnum)
  {
    Trunc(c, top - PhdrTableSize(c, phnum))
  }

  /** The table check, then `sp = GetStackTop() - phdr_size` truncated to
      the class's address width, the table bytes written there, and the
      stack top lowered to `sp`. */
  function PushPhdrTable(c: ElfClass, env: MemEnv, f: seq<byte>, phoff: nat, phnum: nat, m: Mem): (r: Result<Mem>)
    ensures |f| < Wrap(phoff + PhdrTableSize(c, phnum), TWO64) ==> r == Fatal(MsgBad(c))
    ensures r.Fatal? ==> r.msg == MsgBad(c) || r.msg == MsgLineWrite
    ensures r.Ok? ==> r.value.stackTop == StackPointer(c, m.stackTop, phnum)
    ensures r.Ok? ==> FileBytes(f, phoff, PhdrTableSize(c, phnum)).Some?
    ensures r.Ok? ==>
      r.value.log == m.log + Stores(env.reportedLineSize, r.value.stackTop, FileBytes(f, phoff, PhdrTableSize(c, phnum)).value)
                           + [SetStackTop(r.value.stackTop)]
    ensures r.Ok? ==>
      FileBytes(f, phoff, PhdrTableSize(c, phnum)) == Some(Payload(r.value.log[|m.log|..|r.value.log| - 1]))
  {
    var size := PhdrTableSize(c, phnum);
    if |f| < Wrap(phoff + size, TWO64) then Fatal(MsgBad(c))
    else
      var sp := StackPointer(c, m.stackTop, phnum);
      var bytes :- Read(FileBytes(f, phoff, size));
      var w :- WriteCacheLine(env, m, sp, bytes);
      StoresPayload(env.reportedLineSize, sp, bytes);
      var m' := SetTop(w.1, sp);
      assert m'.log[|m.log|..|m'.log| - 1] == Stores(env.reportedLineSize, sp, bytes);
      Ok(m')
  }

  // ---------------------------------------------------------------------
  // Loadable segments

  /** Header `i` is a `PT_LOAD` header with a non-zero memory size, the
      kind the second program-header loop writes into memory. */
  predicate Loadable(c: ElfClass, f: seq<byte>, phoff: nat, i: nat) {
    Phdr(c, f, phoff, i, PType) == Some(PT_LOAD) &&
    Phdr(c, f, phoff, i, PMemsz).Some? && Phdr(c, f, phoff, i, PMemsz).value != 0
  }

  /** `max_size()` of `std::vector<uint8_t>` on a 64-bit host: asking the
      constructor for more elements throws `std::length_error`. */
  const MAX_VECTOR_SIZE: nat := 0x7FFF_FFFF_FFFF_FFFF

  /** The `what()` of that exception.  Nothing in the loader catches it,
      so it ends the simulation as an `output->fatal` does. */
  const MsgVectorLength := "cannot create std::vector larger than max_size()"

  /** The zero-fill vector of `p_memsz - p_filesz` elements, the
      difference taken in the class's unsigned arithmetic, cannot be
      built. */
  predicate ZerosTooLong(c: ElfClass, memsz: nat, filesz: nat) {
    Trunc(c, memsz - filesz) > MAX_VECTOR_SIZE
  }

  /** An Elf32 difference always fits.  An Elf64 header whose memory size
      falls short of its file size makes the vector too long exactly when
      the shortfall is at most 2^63 (a larger one wraps to a small size);
      one whose memory size reaches its file size does exactly when the
      difference exceeds `max_size()`. */
  lemma ZerosTooLongExactly(c: ElfClass, memsz: nat, filesz: nat)
    requires memsz < FieldMod(c) && filesz < FieldMod(c)
    ensures c == Class32 ==> !ZerosTooLong(c, memsz, filesz)
    ensures c == Class64 && memsz < filesz ==>
      (ZerosTooLong(c, memsz, filesz) <==> filesz - memsz <= 0x8000_0000_0000_0000)
    ensures memsz >= filesz ==> (ZerosTooLong(c, memsz, filesz) <==> memsz - filesz > MAX_VECTOR_SIZE)
  {
  }

  /** `p_memsz - p_filesz` zero bytes: the vector the source builds, its
      length the unsigned difference. */
  function Zeros(c: ElfClass, memsz: nat, filesz: nat): (z: seq<byte>)
    ensures |z| == Trunc(c, memsz - filesz)
    ensures forall k :: 0 <= k < |z| ==> z[k] == 0
  {
    seq(Trunc(c, memsz - filesz), _ => 0)
  }

  /** The `p_filesz` bytes at `p_offset` of header `i`, when the file
      holds them. */
  function FileImage(c: ElfClass, f: seq<byte>, phoff: nat, i: nat): seq<byte> {
    match (Phdr(c, f, phoff, i, POffset), Phdr(c, f, phoff, i, PFilesz))
    case (Some(off), Some(fsz)) => if FileBytes(f, off, fsz).Some? then FileBytes(f, off, fsz).value else []
    case _ => []
  }

  /** What header `i` is meant to put in memory: for a loadable header its
      file bytes followed by its zero fill, for any other nothing. */
  function SegmentImage(c: ElfClass, f: seq<byte>, phoff: nat, i: nat): seq<byte> {
    if Loadable(c, f, phoff, i) && Phdr(c, f, phoff, i, PFilesz).Some? then
      FileImage(c, f, phoff, i) + Zeros(c, Phdr(c, f, phoff, i, PMemsz).value, Phdr(c, f, phoff, i, PFilesz).value)
    else []
  }

  /** Where header `i` puts it: for a loadable header the file bytes
      stored at `p_paddr`, then the zero fill stored at `p_paddr +
      p_filesz` in the class's unsigned arithmetic; for any other header
      no call at all. */
  function SegmentWrites(c: ElfClass, reported: nat, f: seq<byte>, phoff: nat, i: nat): seq<MemCall> {
    if Loadable(c, f, phoff, i) then
      PhdrPrefix(c, f, phoff, i);
      var paddr := Phdr(c, f, phoff, i, PPaddr).value;
      var filesz := Phdr(c, f, phoff, i, PFilesz).value;
      Stores(reported, paddr, FileImage(c, f, phoff, i)) +
        Stores(reported, Trunc(c, paddr + filesz), Zeros(c, Phdr(c, f, phoff, i, PMemsz).value, filesz))
    else []
  }

  lemma SegmentWritesLoadable(c: ElfClass, reported: nat, f: seq<byte>, phoff: nat, i: nat)
    requires Loadable(c, f, phoff, i)
    ensures Phdr(c, f, phoff, i, PPaddr).Some? && Phdr(c, f, phoff, i, PFilesz).Some?
    ensures SegmentWrites(c, reported, f, phoff, i)
        == Stores(reported, Phdr(c, f, phoff, i, PPaddr).value, FileImage(c, f, phoff, i)) +
           Stores(reported, Trunc(c, Phdr(c, f, phoff, i, PPaddr).value + Phdr(c, f, phoff, i, PFilesz).value),
                  Zeros(c, Phdr(c, f, phoff, i, PMemsz).value, Phdr(c, f, phoff, i, PFilesz).value))
  {
    PhdrPrefix(c, f, phoff, i);
  }

  /** Two stores one after the other carry their data in order. */
  lemma StoresPairPayload(reported: nat, a1: nat, d1: seq<byte>, a2: nat, d2: seq<byte>)
    requires a1 < TWO64 && a2 < TWO64
    ensures Payload(Stores(reported, a1, d1) + Stores(reported, a2, d2)) == d1 + d2
  {
    StoresPayload(reported, a1, d1);
    StoresPayload(reported, a2, d2);
    PayloadAppend(Stores(reported, a1, d1), Stores(reported, a2, d2));
  }

  /** The writes of a header carry exactly its image. */
  lemma SegmentWritesImage(c: ElfClass, reported: nat, f: seq<byte>, phoff: nat, i: nat)
    ensures Payload(SegmentWrites(c, reported, f, phoff, i)) == SegmentImage(c, f, phoff, i)
  {
    if Loadable(c, f, phoff, i) {
      SegmentWritesLoadable(c, reported, f, phoff, i);
      var paddr := Phdr(c, f, phoff, i, PPaddr).value;
      var filesz := Phdr(c, f, phoff, i, PFilesz).value;
      var image := FileImage(c, f, phoff, i);
      var zeros := Zeros(c, Phdr(c, f, phoff, i, PMemsz).value, filesz);
      assert SegmentImage(c, f, phoff, i) == image + zeros;
      var a := Stores(reported, paddr, image);
      var b := Stores(reported, Trunc(c, paddr + filesz), zeros);
      assert SegmentWrites(c, reported, f, phoff, i) == a + b;
      StoresPairPayload(reported, paddr, image, Trunc(c, paddr + filesz), zeros);
    } else {
      assert SegmentWrites(c, reported, f, phoff, i) == [];
      assert SegmentImage(c, f, phoff, i) == [];
    }
  }

  /** The `if( ph[i].p_filesz )` branch of a loadable header: the extent
      check, then the file bytes written at `p_paddr`. */
  method WriteFileBytes(c: ElfClass, env: MemEnv, f: seq<byte>, phoff: nat, i: nat, m: Mem) returns (r: Result<Mem>)
    requires Phdr(c, f, phoff, i, PFilesz).Some?
    ensures Phdr(c, f, phoff, i, PPaddr).Some?
    ensures Phdr(c, f, phoff, i, PFilesz).value == 0 ==> r == Ok(m)
    ensures Phdr(c, f, phoff, i, PFilesz).value != 0 && !PhdrFits(c, f, phoff, i) ==> r == Fatal(MsgBad(c))
    ensures r.Fatal? ==> r.msg == MsgBad(c) || r.msg == MsgLineWrite
    ensures r.Ok? ==>
      r.value == Mem(m.stackTop, m.log + Stores(env.reportedLineSize, Phdr(c, f, phoff, i, PPaddr).value, FileImage(c, f, phoff, i)))
    ensures r.Ok? ==> Payload(r.value.log[|m.log|..]) == FileImage(c, f, phoff, i)
  {
    PhdrPrefix(c, f, phoff, i);
    var filesz := Phdr(c, f, phoff, i, PFilesz).value;
    var paddr := Phdr(c, f, phoff, i, PPaddr).value;
    var off := Phdr(c, f, phoff, i, POffset).value;
    if filesz == 0 {
      assert FileImage(c, f, phoff, i) == [];
      assert Stores(env.reportedLineSize, paddr, []) == [];
      assert m.log + [] == m.log;
      assert m.log[|m.log|..] == [];
      return Ok(m);
    }
    if |f| < Trunc(c, off + filesz) {
      return Fatal(MsgBad(c));
    }
    var bytes :- Read(FileBytes(f, off, filesz));
    var w :- WriteCacheLine(env, m, paddr, bytes);
    StoresPayload(env.reportedLineSize, paddr, bytes);
    assert w.1.log[|m.log|..] == Stores(env.reportedLineSize, paddr, bytes);
    r := Ok(w.1);
  }

  /** The zero fill of a loadable header: the vector of `p_memsz -
      p_filesz` zero bytes, which an Elf64 header with `p_memsz <
      p_filesz` makes too long to build, then the bytes written at
      `p_paddr + p_filesz`, both in the class's unsigned arithmetic. */
  method WriteZeros(c: ElfClass, env: MemEnv, f: seq<byte>, phoff: nat, i: nat, m: Mem) returns (r: Result<Mem>)
    requires Phdr(c, f, phoff, i, PMemsz).Some?
    ensures Phdr(c, f, phoff, i, PFilesz).Some? && Phdr(c, f, phoff, i, PPaddr).Some?
    ensures !r.Undefined?
    ensures r.Fatal? ==> r.msg == MsgVectorLength || r.msg == MsgLineWrite
    ensures ZerosTooLong(c, Phdr(c, f, phoff, i, PMemsz).value, Phdr(c, f, phoff, i, PFilesz).value) <==>
      r == Fatal(MsgVectorLength)
    ensures r.Ok? ==>
      var paddr, filesz := Phdr(c, f, phoff, i, PPaddr).value, Phdr(c, f, phoff, i, PFilesz).value;
      r.value == Mem(m.stackTop, m.log + Stores(env.reportedLineSize, Trunc(c, paddr + filesz),
                                                Zeros(c, Phdr(c, f, phoff, i, PMemsz).value, filesz)))
    ensures r.Ok? ==>
      Payload(r.value.log[|m.log|..]) ==
        Zeros(c, Phdr(c, f, phoff, i, PMemsz).value, Phdr(c, f, phoff, i, PFilesz).value)
  {
    PhdrPrefix(c, f, phoff, i);
    var memsz := Phdr(c, f, phoff, i, PMemsz).value;
    var filesz := Phdr(c, f, phoff, i, PFilesz).value;
    var paddr := Phdr(c, f, phoff, i, PPaddr).value;
    if ZerosTooLong(c, memsz, filesz) {
      return Fatal(MsgVectorLength);
    }
    var z := Zeros(c, memsz, filesz);
    var at := Trunc(c, paddr + filesz);
    var w :- WriteCacheLine(env, m, at, z);
    StoresPayload(env.reportedLineSize, at, z);
    assert w.1.log[|m.log|..] == Stores(env.reportedLineSize, at, z);
    r := Ok(w.1);
  }

  /** One iteration of the second program-header loop.  A loadable header
      has its file bytes (when `p_filesz` is non-zero, after the extent
      check) written at `p_paddr`, then its zero fill written right after
      them; any other header leaves memory alone. */
  method LoadSegment(c: ElfClass, env: MemEnv, f: seq<byte>, phoff: nat, i: nat, m: Mem) returns (r: Result<Mem>)
    ensures r.Fatal? ==> r.msg == MsgBad(c) || r.msg == MsgLineWrite || r.msg == MsgVectorLength
    ensures Phdr(c, f, phoff, i, PType).Some? && Phdr(c, f, phoff, i, PType).value != PT_LOAD ==> r == Ok(m)
    ensures Phdr(c, f, phoff, i, PMemsz) == Some(0) ==> r == Ok(m)
    ensures (Loadable(c, f, phoff, i) && Phdr(c, f, phoff, i, PFilesz).Some? &&
             ZerosTooLong(c, Phdr(c, f, phoff, i, PMemsz).value, Phdr(c, f, phoff, i, PFilesz).value)) ==> !r.Ok?
    ensures r.Ok? && Loadable(c, f, phoff, i) && Phdr(c, f, phoff, i, PFilesz) != Some(0) ==> PhdrFits(c, f, phoff, i)
    ensures r.Ok? ==> r.value == Mem(m.stackTop, m.log + SegmentWrites(c, env.reportedLineSize, f, phoff, i))
    ensures r.Ok? ==> Payload(r.value.log[|m.log|..]) == SegmentImage(c, f, phoff, i)
  {
    PhdrPrefix(c, f, phoff, i);
    assert m.log + [] == m.log;
    var pType :- Read(Phdr(c, f, phoff, i, PType));
    if pType != PT_LOAD {
      assert m.log[|m.log|..] == [];
      return Ok(m);
    }
    var memsz :- Read(Phdr(c, f, phoff, i, PMemsz));
    if memsz == 0 {
      assert m.log[|m.log|..] == [];
      return Ok(m);
    }
    var m1 :- WriteFileBytes(c, env, f, phoff, i, m);
    var m2 :- WriteZeros(c, env, f, phoff, i, m1);
    var paddr := Phdr(c, f, phoff, i, PPaddr).value;
    var filesz := Phdr(c, f, phoff, i, PFilesz).value;
    ghost var a := Stores(env.reportedLineSize, paddr, FileImage(c, f, phoff, i));
    ghost var b := Stores(env.reportedLineSize, Trunc(c, paddr + filesz), Zeros(c, Phdr(c, f, phoff, i, PMemsz).value, filesz));
    SegmentWritesLoadable(c, env.reportedLineSize, f, phoff, i);
    assert m1.log == m.log + a;
    assert m2.log == m1.log + b;
    AppendAssoc(m.log, a, b);
    SegmentWritesImage(c, env.reportedLineSize, f, phoff, i);
    assert m2.log[|m.log|..] == a + b;
    r := Ok(m2);
  }

  /** The writes of headers `0 .. n-1`, in header order. */
  function SegmentsWrites(c: ElfClass, reported: nat, f: seq<byte>, phoff: nat, n: nat): seq<MemCall> {
    if n == 0 then [] else SegmentsWrites(c, reported, f, phoff, n - 1) + SegmentWrites(c, reported, f, phoff, n - 1)
  }

  /** One more header's writes extend the writes of the headers before it. */
  lemma SegmentsWritesStep(log: seq<MemCall>, c: ElfClass, reported: nat, f: seq<byte>, phoff: nat, i: nat)
    ensures log + SegmentsWrites(c, reported, f, phoff, i) + SegmentWrites(c, reported, f, phoff, i)
         == log + SegmentsWrites(c, reported, f, phoff, i + 1)
  {
    AppendAssoc(log, SegmentsWrites(c, reported, f, phoff, i), SegmentWrites(c, reported, f, phoff, i));
  }

  /** Header `i` occupies no memory (`p_memsz` is zero), so the loader
      skips it. */
  predicate EmptySegment(c: ElfClass, f: seq<byte>, phoff: nat, i: nat) {
    Phdr(c, f, phoff, i, PMemsz) == Some(0)
  }

  /** Headers `i .. n-1` all occupy no memory. */
  predicate EmptyFrom(c: ElfClass, f: seq<byte>, phoff: nat, i: nat, n: nat)
    decreases n - i
  {
    i >= n || (EmptySegment(c, f, phoff, i) && EmptyFrom(c, f, phoff, i + 1, n))
  }

  /** `EmptyFrom` says of every header from `i` below `n` that it is
      empty, and nothing more. */
  lemma {:induction false} EmptyFromEvery(c: ElfClass, f: seq<byte>, phoff: nat, i: nat, n: nat)
    ensures EmptyFrom(c, f, phoff, i, n) <==> forall k :: i <= k < n ==> EmptySegment(c, f, phoff, k)
    decreases n - i
  {
    if i < n {
      EmptyFromEvery(c, f, phoff, i + 1, n);
    }
  }

  /** Empty headers `i .. n-1` are empty headers `i .. n-2` and an empty
      last header. */
  lemma {:induction false} EmptyFromLast(c: ElfClass, f: seq<byte>, phoff: nat, i: nat, n: nat)
    requires i < n && EmptyFrom(c, f, phoff, i, n)
    ensures EmptyFrom(c, f, phoff, i, n - 1) && EmptySegment(c, f, phoff, n - 1)
    decreases n - i
  {
    if i < n - 1 {
      EmptyFromLast(c, f, phoff, i + 1, n);
    }
  }

  /** An empty header writes nothing. */
  lemma EmptySegmentWritesNothing(c: ElfClass, reported: nat, f: seq<byte>, phoff: nat, i: nat)
    requires EmptySegment(c, f, phoff, i)
    ensures SegmentWrites(c, reported, f, phoff, i) == []
  {
  }

  /** Headers that are all empty write nothing. */
  lemma {:induction false} AllEmptyWritesNothing(c: ElfClass, reported: nat, f: seq<byte>, phoff: nat, n: nat)
    requires EmptyFrom(c, f, phoff, 0, n)
    ensures SegmentsWrites(c, reported, f, phoff, n) == []
  {
    if n > 0 {
      EmptyFromLast(c, f, phoff, 0, n);
      AllEmptyWritesNothing(c, reported, f, phoff, n - 1);
      EmptySegmentWritesNothing(c, reported, f, phoff, n - 1);
    }
  }

  /** `LoadSegment` on header `i` after headers `0 .. i-1` have been
      written. */
  method SegmentStep(c: ElfClass, env: MemEnv, f: seq<byte>, phoff: nat, i: nat, n: nat, m: Mem, cur: Mem)
    returns (r: Result<Mem>)
    requires cur == Mem(m.stackTop, m.log + SegmentsWrites(c, env.reportedLineSize, f, phoff, i))
    ensures r.Fatal? ==> r.msg == MsgBad(c) || r.msg == MsgLineWrite || r.msg == MsgVectorLength
    ensures r.Ok? ==> r.value == Mem(m.stackTop, m.log + SegmentsWrites(c, env.reportedLineSize, f, phoff, i + 1))
    ensures EmptySegment(c, f, phoff, i) ==> r == Ok(cur)
    ensures i < n && EmptyFrom(c, f, phoff, i, n) ==> r.Ok? && EmptyFrom(c, f, phoff, i + 1, n)
  {
    r := LoadSegment(c, env, f, phoff, i, cur);
    SegmentsWritesStep(m.log, c, env.reportedLineSize, f, phoff, i);
  }

  /** The loop of `LoadSegments`, with "every header is empty" stated
      recursively. */
  method LoadSegmentsFrom(c: ElfClass, env: MemEnv, f: seq<byte>, phoff: nat, n: nat, m: Mem) returns (r: Result<Mem>)
    ensures r.Fatal? ==> r.msg == MsgBad(c) || r.msg == MsgLineWrite || r.msg == MsgVectorLength
    ensures r.Ok? ==> r.value == Mem(m.stackTop, m.log + SegmentsWrites(c, env.reportedLineSize, f, phoff, n))
    ensures EmptyFrom(c, f, phoff, 0, n) ==> r.Ok?
  {
    var cur := m;
    var i := 0;
    assert m.log + [] == m.log;
    while i < n
      invariant i <= n
      invariant cur == Mem(m.stackTop, m.log + SegmentsWrites(c, env.reportedLineSize, f, phoff, i))
      invariant EmptyFrom(c, f, phoff, 0, n) ==> EmptyFrom(c, f, phoff, i, n)
    {
      cur :- SegmentStep(c, env, f, phoff, i, n, m, cur);
      i := i + 1;
    }
    r := Ok(cur);
  }

  /** The second program-header loop over headers `0 .. n-1`: each
      header in turn goes through `LoadSegment`, and a table without a
      loadable header writes nothing. */
  method LoadSegments(c: ElfClass, env: MemEnv, f: seq<byte>, phoff: nat, n: nat, m: Mem) returns (r: Result<Mem>)
    ensures r.Fatal? ==> r.msg == MsgBad(c) || r.msg == MsgLineWrite || r.msg == MsgVectorLength
    ensures r.Ok? ==> r.value == Mem(m.stackTop, m.log + SegmentsWrites(c, env.reportedLineSize, f, phoff, n))
    ensures (forall k :: 0 <= k < n ==> EmptySegment(c, f, phoff, k)) ==> r == Ok(m)
  {
    r := LoadSegmentsFrom(c, env, f, phoff, n, m);
    EmptyFromEvery(c, f, phoff, 0, n);
    if EmptyFrom(c, f, phoff, 0, n) {
      AllEmptyWritesNothing(c, env.reportedLineSize, f, phoff, n);
      assert m.log + [] == m.log;
    }
  }

  // ---------------------------------------------------------------------
  // Section-header table

  /** The three checks between the loadable segments and the second
      section pass: the table lies inside the file, `e_shstrndx` indexes
      it, and the section-name table lies inside the file. */
  function CheckShdrTable(c: ElfClass, f: seq<byte>, h: Header): (r: Result<bool>)
    ensures |f| < Wrap(h.shoff + Span(c, ShdrSize(c), h.shnum), TWO64) ==> r == Fatal(MsgBad(c))
    ensures h.shstrndx >= h.shnum ==> r == Fatal(MsgBad(c))
    ensures r.Fatal? ==> r.msg == MsgBad(c)
    ensures r.Ok? <==>
      Wrap(h.shoff + Span(c, ShdrSize(c), h.shnum), TWO64) <= |f| && h.shstrndx < h.shnum &&
      Shdr(c, f, h.shoff, h.shstrndx, ShOffset).Some? && Shdr(c, f, h.shoff, h.shstrndx, ShSize).Some? &&
      Trunc(c, Shdr(c, f, h.shoff, h.shstrndx, ShOffset).value + Shdr(c, f, h.shoff, h.shstrndx, ShSize).value) <= |f|
  {
    if |f| < Wrap(h.shoff + Span(c, ShdrSize(c), h.shnum), TWO64) then Fatal(MsgBad(c))
    else if h.shstrndx >= h.shnum then Fatal(MsgBad(c))
    else
      var off :- Read(Shdr(c, f, h.shoff, h.shstrndx, ShOffset));
      var size :- Read(Shdr(c, f, h.shoff, h.shstrndx, ShSize));
      if |f| < Trunc(c, off + size) then Fatal(MsgBad(c))
      else Ok(true)
  }

  // ---------------------------------------------------------------------
  // Symbol table

  /** `sh_size / sizeof(Sym)`: the number of whole symbols in a table of
      `size` bytes. */
  function SymCount(c: ElfClass, size: nat): (n: nat)
    ensures n * SymSize(c) <= size < (n + 1) * SymSize(c)
  {
    if c == Class32 then size / 16 else size / 24
  }

  datatype Symbols = Symbols(mem: Mem, table: seq<Entry>)

  /** The symbols the symbol loop reads: `sh_size / sizeof(Sym)` of them
      from the section at `symtabidx`, named from the string table at
      `strtabidx`. */
  function TableSymbols(c: ElfClass, f: seq<byte>, shoff: nat, strtabidx: nat, symtabidx: nat): Result<seq<Entry>> {
    var strsize :- Read(Shdr(c, f, shoff, strtabidx, ShSize));
    var symsize :- Read(Shdr(c, f, shoff, symtabidx, ShSize));
    var stroff :- Read(Shdr(c, f, shoff, strtabidx, ShOffset));
    var symoff :- Read(Shdr(c, f, shoff, symtabidx, ShOffset));
    ReadSymbols(c, f, stroff, strsize, symoff, SymCount(c, symsize))
  }

  /** The `if( strtabidx && symtabidx )` block: register both tables as
      memory, then enter each of the `sh_size / sizeof(Sym)` symbols into
      an empty `symtable`. */
  function LoadSymbolTable(c: ElfClass, f: seq<byte>, shoff: nat, strtabidx: nat, symtabidx: nat, m: Mem): (r: Result<Symbols>)
    ensures r.Fatal? ==> r.msg == MsgBad(c)
    ensures r.Ok? ==> Sorted(r.value.table)
    ensures r.Ok? ==> TableSymbols(c, f, shoff, strtabidx, symtabidx).Ok?
    ensures r.Ok? ==> r.value.table == InsertAll([], TableSymbols(c, f, shoff, strtabidx, symtabidx).value)
    ensures r.Ok? ==>
      Shdr(c, f, shoff, strtabidx, ShAddr).Some? && Shdr(c, f, shoff, strtabidx, ShSize).Some? &&
      Shdr(c, f, shoff, symtabidx, ShAddr).Some? && Shdr(c, f, shoff, symtabidx, ShSize).Some?
    ensures r.Ok? ==> (r.value.mem.stackTop == m.stackTop &&
      r.value.mem.log == m.log + [
        AddMemSeg(Shdr(c, f, shoff, strtabidx, ShAddr).value, Shdr(c, f, shoff, strtabidx, ShSize).value, true),
        AddMemSeg(Shdr(c, f, shoff, symtabidx, ShAddr).value, Shdr(c, f, shoff, symtabidx, ShSize).value, true)])
  {
    var straddr :- Read(Shdr(c, f, shoff, strtabidx, ShAddr));
    var strsize :- Read(Shdr(c, f, shoff, strtabidx, ShSize));
    var symaddr :- Read(Shdr(c, f, shoff, symtabidx, ShAddr));
    var symsize :- Read(Shdr(c, f, shoff, symtabidx, ShSize));
    var m1 := Call(Call(m, AddMemSeg(straddr, strsize, true)), AddMemSeg(symaddr, symsize, true));
    var stroff :- Read(Shdr(c, f, shoff, strtabidx, ShOffset));
    var symoff :- Read(Shdr(c, f, shoff, symtabidx, ShOffset));
    var syms :- ReadSymbols(c, f, stroff, strsize, symoff, SymCount(c, symsize));
    InsertAllSorted([], syms);
    Ok(Symbols(m1, InsertAll([], syms)))
  }

  /** After the symbol loop, a name is bound to the `st_value` of the last
      symbol read with that name, and a name no symbol has is absent. */
  lemma LoadedSymbolValue(c: ElfClass, f: seq<byte>, shoff: nat, strtabidx: nat, symtabidx: nat, m: Mem, name: seq<byte>)
    requires LoadSymbolTable(c, f, shoff, strtabidx, symtabidx, m).Ok?
    ensures TableSymbols(c, f, shoff, strtabidx, symtabidx).Ok?
    ensures var syms := TableSymbols(c, f, shoff, strtabidx, symtabidx).value;
      var k := LastWhere(syms, (e: Entry) => e.0 == name);
      Lookup(LoadSymbolTable(c, f, shoff, strtabidx, symtabidx, m).value.table, name)
        == if k.Some? then Some(syms[k.value].1) else None
  {
    SymtableLastWins([], TableSymbols(c, f, shoff, strtabidx, symtabidx).value, name);
  }

  // ---------------------------------------------------------------------
  // One class of ELF file

  /** What the loader knows after both first passes. */
  datatype FirstPass = FirstPass(shstrtab: nat, sections: seq<Section>, mem: Mem, staticDataEnd: nat)

  /** From the section-name table's offset, read before anything else,
      through the program-header pass, the section pass and the choice of
      the static-data end. */
  method FirstPasses(c: ElfClass, f: seq<byte>, h: Header, m0: Mem) returns (r: Result<FirstPass>)
    ensures Shdr(c, f, h.shoff, h.shstrndx, ShOffset).None? ==> r == Undefined
    ensures r.Fatal? ==> r.msg == MsgBad(c) || r.msg == MsgNoSections
    ensures r.Ok? ==> Shdr(c, f, h.shoff, h.shstrndx, ShOffset) == Some(r.value.shstrtab)
    ensures r.Ok? ==> PhdrSegs(c, f, h.phoff, h.phnum).Ok? && r.value.staticDataEnd > 0
    ensures r.Ok? ==> ReadSections(c, f, h.shoff, r.value.shstrtab, h.shnum) == Ok(r.value.sections)
    ensures r.Ok? ==> StaticDataEnd(ScanEnds(c, r.value.sections)) == Ok(r.value.staticDataEnd)
    ensures r.Ok? ==>
      r.value.mem == Mem(m0.stackTop, m0.log + PhdrSegs(c, f, h.phoff, h.phnum).value + SectionSegs(r.value.sections))
  {
    var shstrtab :- Read(Shdr(c, f, h.shoff, h.shstrndx, ShOffset));
    var segs :- PhdrSegs(c, f, h.phoff, h.phnum);
    var ss :- ReadSections(c, f, h.shoff, shstrtab, h.shnum);
    var sde :- StaticDataEnd(ScanEnds(c, ss));
    var log := m0.log + segs + SectionSegs(ss);
    r := Ok(FirstPass(shstrtab, ss, Mem(m0.stackTop, log), sde));
  }

  /** `elfinfo`: the program-header table's count, entry size, file
      offset and total size. */
  datatype ElfInfo = ElfInfo(phnum: nat, phent: nat, phdr: nat, phdrSize: nat)

  /** The loader state `LoadElf32` / `LoadElf64` leave behind. */
  datatype Image = Image(entry: nat, mem: Mem, symtable: seq<Entry>, staticDataEnd: nat, elfinfo: ElfInfo)

  /** The table checks, the second section pass and the symbol table. */
  method SecondPass(c: ElfClass, f: seq<byte>, h: Header, shstrtab: nat, m: Mem) returns (r: Result<Symbols>)
    ensures r.Fatal? ==> r.msg == MsgBad(c)
    ensures r.Ok? ==> CheckShdrTable(c, f, h).Ok? && Sorted(r.value.table)
    ensures r.Ok? ==> ReadTabSections(c, f, h.shoff, shstrtab, h.shnum).Ok?
    ensures r.Ok? ==> var ts := ReadTabSections(c, f, h.shoff, shstrtab, h.shnum).value;
      StrtabIndex(ts) == 0 || SymtabIndex(ts) == 0 ==>
        r.value == Symbols(Mem(m.stackTop, m.log + TabSegs(ts)), [])
    ensures r.Ok? ==> var ts := ReadTabSections(c, f, h.shoff, shstrtab, h.shnum).value;
      StrtabIndex(ts) != 0 && SymtabIndex(ts) != 0 ==>
        LoadSymbolTable(c, f, h.shoff, StrtabIndex(ts), SymtabIndex(ts), Mem(m.stackTop, m.log + TabSegs(ts))) == Ok(r.value)
    ensures r.Ok? ==> r.value.mem.stackTop == m.stackTop
    ensures r.Ok? ==> |r.value.mem.log| >= |m.log| && r.value.mem.log[..|m.log|] == m.log
  {
    var ok :- CheckShdrTable(c, f, h);
    var ts :- ReadTabSections(c, f, h.shoff, shstrtab, h.shnum);
    var m1 := Mem(m.stackTop, m.log + TabSegs(ts));
    var strtabidx := StrtabIndex(ts);
    var symtabidx := SymtabIndex(ts);
    if strtabidx != 0 && symtabidx != 0 {
      var st :- LoadSymbolTable(c, f, h.shoff, strtabidx, symtabidx, m1);
      assert st.mem.log[..|m.log|] == m1.log[..|m.log|];
      r := Ok(st);
    } else {
      assert m1.log[..|m.log|] == m.log;
      r := Ok(Symbols(m1, []));
    }
  }

  /** What `LoadProgram` appends to the log: the program-header table
      stored at the lowered stack top, that top, then every header's
      segment writes. */
  function ProgramWrites(c: ElfClass, reported: nat, f: seq<byte>, h: Header, top: nat): seq<MemCall>
    requires FileBytes(f, h.phoff, PhdrTableSize(c, h.phnum)).Some?
  {
    var sp := StackPointer(c, top, h.phnum);
    Stores(reported, sp, FileBytes(f, h.phoff, PhdrTableSize(c, h.phnum)).value) + [SetStackTop(sp)] +
      SegmentsWrites(c, reported, f, h.phoff, h.phnum)
  }

  /** The program-header table pushed on the stack, then every loadable
      segment written. */
  method LoadProgram(c: ElfClass, env: MemEnv, f: seq<byte>, h: Header, m: Mem) returns (r: Result<Mem>)
    ensures r.Fatal? ==> r.msg == MsgBad(c) || r.msg == MsgLineWrite || r.msg == MsgVectorLength
    ensures r.Ok? ==> r.value.stackTop == StackPointer(c, m.stackTop, h.phnum)
    ensures r.Ok? ==> FileBytes(f, h.phoff, PhdrTableSize(c, h.phnum)).Some?
    ensures r.Ok? ==> r.value.log == m.log + ProgramWrites(c, env.reportedLineSize, f, h, m.stackTop)
  {
    var m1 :- PushPhdrTable(c, env, f, h.phoff, h.phnum, m);
    var m2 :- LoadSegments(c, env, f, h.phoff, h.phnum, m1);
    ghost var sp := StackPointer(c, m.stackTop, h.phnum);
    ghost var a := Stores(env.reportedLineSize, sp, FileBytes(f, h.phoff, PhdrTableSize(c, h.phnum)).value) + [SetStackTop(sp)];
    ghost var b := SegmentsWrites(c, env.reportedLineSize, f, h.phoff, h.phnum);
    assert m1.log == m.log + a;
    assert m2.log == m1.log + b;
    AppendAssoc(m.log, a, b);
    assert ProgramWrites(c, env.reportedLineSize, f, h, m.stackTop) == a + b;
    r := Ok(m2);
  }

  /** What a successful `LoadElf32` / `LoadElf64` leaves behind, in terms
      of the file: the entry point and `elfinfo` from the header; the
      static-data end chosen from the first section pass; `symtable` built
      from the symbols when the second pass found both a `.strtab` and a
      `.symtab` at non-zero indices, and empty otherwise; and the log,
      which holds the first passes' segments, the program-header table and
      the segments' bytes at their addresses, the second pass's segments
      (and the two tables' segments), then `InitHeap` of the static-data
      end. */
  predicate ClassLoaded(c: ElfClass, reported: nat, f: seq<byte>, m0: Mem, img: Image)
    requires |f| >= ELF64_EHDR_SIZE
  {
    var h := HeaderOf(c, f);
    && img.entry == h.entry
    && img.elfinfo == ElfInfo(h.phnum, PhdrSize(c), h.phoff, PhdrTableSize(c, h.phnum))
    && img.mem.stackTop == StackPointer(c, m0.stackTop, h.phnum)
    && PhdrSegs(c, f, h.phoff, h.phnum).Ok?
    && FileBytes(f, h.phoff, PhdrTableSize(c, h.phnum)).Some?
    && Shdr(c, f, h.shoff, h.shstrndx, ShOffset).Some?
    && ReadSections(c, f, h.shoff, Shdr(c, f, h.shoff, h.shstrndx, ShOffset).value, h.shnum).Ok?
    && ReadTabSections(c, f, h.shoff, Shdr(c, f, h.shoff, h.shstrndx, ShOffset).value, h.shnum).Ok?
    && var shstrtab := Shdr(c, f, h.shoff, h.shstrndx, ShOffset).value;
       var ss := ReadSections(c, f, h.shoff, shstrtab, h.shnum).value;
       var ts := ReadTabSections(c, f, h.shoff, shstrtab, h.shnum).value;
       var mid := m0.log + PhdrSegs(c, f, h.phoff, h.phnum).value + SectionSegs(ss)
                  + ProgramWrites(c, reported, f, h, m0.stackTop) + TabSegs(ts);
       && StaticDataEnd(ScanEnds(c, ss)) == Ok(img.staticDataEnd)
       && (StrtabIndex(ts) == 0 || SymtabIndex(ts) == 0 ==>
             img.symtable == [] && img.mem.log == mid + [InitHeap(img.staticDataEnd)])
       && (StrtabIndex(ts) != 0 && SymtabIndex(ts) != 0 ==>
             var st := LoadSymbolTable(c, f, h.shoff, StrtabIndex(ts), SymtabIndex(ts), Mem(img.mem.stackTop, mid));
             st.Ok? && img.symtable == st.value.table && img.mem.log == st.value.mem.log + [InitHeap(img.staticDataEnd)])
  }

  /** `LoadElf32` or `LoadElf64`, chosen by `c`. */
  method LoadClass(c: ElfClass, env: MemEnv, f: seq<byte>, m0: Mem) returns (r: Result<Image>)
    requires |f| >= ELF64_EHDR_SIZE
    ensures Shdr(c, f, Ehdr(c, f, ShOff), Ehdr(c, f, ShStrNdx), ShOffset).None? ==> r == Undefined
    ensures r.Fatal? ==>
      r.msg == MsgBad(c) || r.msg == MsgNoSections || r.msg == MsgLineWrite || r.msg == MsgVectorLength
    ensures r.Ok? ==> ClassLoaded(c, env.reportedLineSize, f, m0, r.value)
    ensures r.Ok? ==> r.value.entry == Ehdr(c, f, EntryPoint)
    ensures r.Ok? ==> r.value.mem.stackTop == StackPointer(c, m0.stackTop, Ehdr(c, f, PhNum))
    ensures r.Ok? ==> r.value.staticDataEnd > 0
    ensures r.Ok? ==> Sorted(r.value.symtable)
  {
    var h := HeaderOf(c, f);
    var p :- FirstPasses(c, f, h, m0);
    var m1 :- LoadProgram(c, env, f, h, p.mem);
    var st :- SecondPass(c, f, h, p.shstrtab, m1);
    var mem := Call(st.mem, InitHeap(p.staticDataEnd));
    r := Ok(Image(h.entry, mem, st.table, p.staticDataEnd,
                  ElfInfo(h.phnum, PhdrSize(c), h.phoff, PhdrTableSize(c, h.phnum))));
    ghost var ts := ReadTabSections(c, f, h.shoff, p.shstrtab, h.shnum).value;
    assert m1.log + TabSegs(ts)
        == m0.log + PhdrSegs(c, f, h.phoff, h.phnum).value + SectionSegs(p.sections)
           + ProgramWrites(c, env.reportedLineSize, f, h, m0.stackTop) + TabSegs(ts);
  }

  // ---------------------------------------------------------------------
  // LoadElf

  /** The loader state `LoadElf` leaves behind: the image of the class
      loader, `tracer_symbols`, `argv`, and memory after the arguments
      and the final fence. */
  datatype Loaded = Loaded(image: Image, tracerSymbols: map<nat, seq<byte>>, argv: seq<seq<byte>>, mem: Mem)

  /** A log that is `base`, then `w`, then a fence: `base` is its
      prefix, the fence its last call, and `w` what lies between. */
  lemma FencedTail(base: seq<MemCall>, w: seq<MemCall>, full: seq<MemCall>)
    requires full == base + w + [FenceMem(0)]
    ensures |full| > |base| && full[..|base|] == base && full[|full| - 1] == FenceMem(0)
    ensures full[|base|..|full| - 1] == w && (base + w)[|base|..] == w
  {
    assert full[..|base|] == base;
    assert full[|base|..|full| - 1] == w;
    assert (base + w)[|base|..] == w;
  }

  /** What `LoadElf` does once the class loader has returned: the
      `tracer_symbols` loop over `symtable`, `LoadProgramArgs` and the
      closing `FenceMem(0)`. */
  method Finish(env: MemEnv, img: Image, exe: seq<byte>, args: seq<byte>) returns (r: Result<Loaded>)
    requires Sorted(img.symtable)
    ensures r.Fatal? ==> r.msg == MsgLineWrite
    ensures r.Ok? ==> r.value.image == img
    ensures r.Ok? ==> r.value.argv == Argv(exe, args)
    ensures r.Ok? ==> |r.value.argv| >= 1 && r.value.argv[0] == exe && r.value.argv[1..] == SplitStrTokens(args)
    ensures r.Ok? ==> r.value.tracerSymbols == TracerSymbols(img.symtable)
    ensures r.Ok? ==> r.value.tracerSymbols.Keys == Addrs(img.symtable)
    ensures r.Ok? ==> forall a :: a in r.value.tracerSymbols ==> (r.value.tracerSymbols[a], a) in img.symtable
    ensures r.Ok? ==>
      r.value.mem == Mem(ArgsTop(img.mem.stackTop, r.value.argv),
                         img.mem.log + ArgWrites(env.reportedLineSize, img.mem.stackTop, r.value.argv) + [FenceMem(0)])
    ensures r.Ok? ==> |r.value.mem.log| > |img.mem.log| && r.value.mem.log[..|img.mem.log|] == img.mem.log
    ensures r.Ok? ==> r.value.mem.log[|r.value.mem.log| - 1] == FenceMem(0)
    ensures r.Ok? ==> Payload(r.value.mem.log[|img.mem.log|..|r.value.mem.log| - 1]) == ArgBytes(r.value.argv)
  {
    var tr := TracerSymbols(img.symtable);
    TracerInvertsSymtable(img.symtable);
    var argv := Argv(exe, args);
    var m1 :- PushArgs(env, img.mem, argv);
    PushArgsImage(env, img.mem, argv);
    var m2 := Call(m1, FenceMem(0));
    FencedTail(img.mem.log, ArgWrites(env.reportedLineSize, img.mem.stackTop, argv), m2.log);
    r := Ok(Loaded(img, tr, argv, m2));
  }

  /** `RevLoader::LoadElf` on the mapped file `f`: the header checks, the
      class loader, then `Finish`. */
  method LoadElf(env: MemEnv, f: seq<byte>, exe: seq<byte>, args: seq<byte>, m0: Mem) returns (r: Result<Loaded>)
    ensures CheckHeader(f).Fatal? ==> r == Fatal(CheckHeader(f).msg)
    ensures r.Ok? ==> CheckHeader(f).Ok?
    ensures r.Fatal? ==>
      r.msg in {MsgHeader, MsgClass, MsgEndian, MsgBad(Class32), MsgBad(Class64), MsgNoSections, MsgLineWrite,
                MsgVectorLength}
    ensures r.Ok? ==> ClassLoaded(CheckHeader(f).value, env.reportedLineSize, f, m0, r.value.image)
    ensures r.Ok? ==> Sorted(r.value.image.symtable)
    ensures r.Ok? ==> r.value.tracerSymbols == TracerSymbols(r.value.image.symtable)
    ensures r.Ok? ==> r.value.tracerSymbols.Keys == Addrs(r.value.image.symtable)
    ensures r.Ok? ==> r.value.argv == Argv(exe, args)
    ensures r.Ok? ==>
      r.value.mem.log == r.value.image.mem.log
                         + ArgWrites(env.reportedLineSize, r.value.image.mem.stackTop, r.value.argv) + [FenceMem(0)]
  {
    var c :- CheckHeader(f);
    var img :- LoadClass(c, env, f, m0);
    r := Finish(env, img, exe, args);
  }
}
