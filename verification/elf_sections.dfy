/** The section-header passes of `LoadElf32` / `LoadElf64`: the first pass
    that notes where `.bss`, `.text` and `.data` end and registers every
    section as a memory segment, the choice of the static-data end, the
    second pass that finds `.strtab` and `.symtab`, and the symbol pass
    that fills `symtable`. */
module ElfSections {
  import opened Common
  import opened ElfIdent
  import opened ElfFile
  import opened RevMem
  import opened SymTable

  // Section names the loader compares against, as bytes.
  const BSS: seq<byte> := [0x2e, 0x62, 0x73, 0x73]                  // ".bss"
  const TEXT: seq<byte> := [0x2e, 0x74, 0x65, 0x78, 0x74]           // ".text"
  const DATA: seq<byte> := [0x2e, 0x64, 0x61, 0x74, 0x61]           // ".data"
  const STRTAB: seq<byte> := [0x2e, 0x73, 0x74, 0x72, 0x74, 0x61, 0x62]  // ".strtab"
  const SYMTAB: seq<byte> := [0x2e, 0x73, 0x79, 0x6d, 0x74, 0x61, 0x62]  // ".symtab"

  /** `SHT_NOBITS` of the gABI. */
  const SHT_NOBITS: nat := 8

  /** The message of every `output->fatal` inside the class loaders. */
  function MsgBad(c: ElfClass): string {
    if c == Class32 then "Error: RV32 Elf is unrecognizable\n" else "Error: RV64 Elf is unrecognizable\n"
  }

  /** Printed when no `.text`, `.data` or `.bss` end is known, by the 32-bit
      loader as well. */
  const MsgNoSections := "Error: No text, data, or bss sections --- RV64 Elf is unrecognizable\n"

  // ---------------------------------------------------------------------
  // First pass: section ends and segments

  /** What the first pass learns from one section header. */
  datatype Section = Section(addr: nat, size: nat, isBss: bool, isText: bool, isData: bool)

  /** One iteration of the first pass: `sh_name`, the three `strcmp`s
      against the section-name string table at `shstrtab`, then `sh_addr`
      and `sh_size` for `AddMemSeg`. */
  function ReadSection(c: ElfClass, f: seq<byte>, shoff: nat, shstrtab: nat, i: nat): (r: Result<Section>)
    ensures !r.Fatal?
    ensures r.Ok? ==> Shdr(c, f, shoff, i, ShName).Some?
    ensures r.Ok? ==>
      r.value.isBss == (StrEqAt(f, shstrtab + Shdr(c, f, shoff, i, ShName).value, BSS) == Some(true))
    ensures r.Ok? ==> r.value.addr < FieldMod(c) && r.value.size < FieldMod(c)
  {
    var name :- Read(Shdr(c, f, shoff, i, ShName));
    var isBss :- Read(StrEqAt(f, shstrtab + name, BSS));
    var isText :- Read(StrEqAt(f, shstrtab + name, TEXT));
    var isData :- Read(StrEqAt(f, shstrtab + name, DATA));
    var addr :- Read(Shdr(c, f, shoff, i, ShAddr));
    var size :- Read(Shdr(c, f, shoff, i, ShSize));
    Ok(Section(addr, size, isBss, isText, isData))
  }

  /** The body of the first section loop, as a function of the index. */
  function SectionStep(c: ElfClass, f: seq<byte>, shoff: nat, shstrtab: nat): nat -> Result<Section> {
    (k: nat) => ReadSection(c, f, shoff, shstrtab, k)
  }

  /** The first section loop: every header read in order. */
  function ReadSections(c: ElfClass, f: seq<byte>, shoff: nat, shstrtab: nat, n: nat): (r: Result<seq<Section>>)
    ensures !r.Fatal?
    ensures r.Ok? ==> |r.value| == n
  {
    var r := Collect(SectionStep(c, f, shoff, shstrtab), 0, n);
    if r.Ok? then r else CollectFailure(SectionStep(c, f, shoff, shstrtab), 0, n); r
  }

  /** Entry `k` of a successful read is what header `k` holds. */
  lemma ReadSectionsAt(c: ElfClass, f: seq<byte>, shoff: nat, shstrtab: nat, n: nat, k: nat)
    requires k < n && ReadSections(c, f, shoff, shstrtab, n).Ok?
    ensures ReadSection(c, f, shoff, shstrtab, k) == Ok(ReadSections(c, f, shoff, shstrtab, n).value[k])
  {
    CollectAt(SectionStep(c, f, shoff, shstrtab), 0, n, k);
  }

  /** `sh_addr + sh_size` in the class's unsigned arithmetic. */
  function SecEnd(c: ElfClass, s: Section): nat {
    Trunc(c, s.addr + s.size)
  }

  datatype Ends = Ends(bss: nat, text: nat, data: nat)

  /** The three end variables after the first pass: each is assigned on
      every section of its name, starting from 0. */
  function ScanEnds(c: ElfClass, ss: seq<Section>): Ends {
    Ends(ScanLast(ss, (s: Section) => s.isBss, (s: Section) => SecEnd(c, s), 0),
         ScanLast(ss, (s: Section) => s.isText, (s: Section) => SecEnd(c, s), 0),
         ScanLast(ss, (s: Section) => s.isData, (s: Section) => SecEnd(c, s), 0))
  }

  /** The end noted for a name is that of the last section with the name,
      or 0 when there is none. */
  lemma ScanEndsLastWins(c: ElfClass, ss: seq<Section>)
    ensures var k := LastWhere(ss, (s: Section) => s.isBss);
      ScanEnds(c, ss).bss == if k.Some? then SecEnd(c, ss[k.value]) else 0
    ensures var k := LastWhere(ss, (s: Section) => s.isText);
      ScanEnds(c, ss).text == if k.Some? then SecEnd(c, ss[k.value]) else 0
    ensures var k := LastWhere(ss, (s: Section) => s.isData);
      ScanEnds(c, ss).data == if k.Some? then SecEnd(c, ss[k.value]) else 0
  {
    ScanLastIsLast(ss, (s: Section) => s.isBss, (s: Section) => SecEnd(c, s), 0);
    ScanLastIsLast(ss, (s: Section) => s.isText, (s: Section) => SecEnd(c, s), 0);
    ScanLastIsLast(ss, (s: Section) => s.isData, (s: Section) => SecEnd(c, s), 0);
  }

  /** The `AddMemSeg(sh_addr, sh_size, true)` calls of a pass, in order. */
  function SectionSegs(ss: seq<Section>): (cs: seq<MemCall>)
    ensures |cs| == |ss|
    ensures forall k :: 0 <= k < |ss| ==> cs[k] == AddMemSeg(ss[k].addr, ss[k].size, true)
  {
    seq(|ss|, k requires 0 <= k < |ss| => AddMemSeg(ss[k].addr, ss[k].size, true))
  }

  /** The static-data end: `.bss` if its end is nonzero, else `.data`,
      else `.text`; with none of them, loading is fatal. */
  function StaticDataEnd(e: Ends): (r: Result<nat>)
    ensures r.Ok? <==> e.bss > 0 || e.data > 0 || e.text > 0
    ensures r.Ok? ==> r.value > 0 && (r.value == e.bss || r.value == e.data || r.value == e.text)
    ensures e.bss > 0 ==> r == Ok(e.bss)
    ensures e.bss == 0 && e.data > 0 ==> r == Ok(e.data)
    ensures e.bss == 0 && e.data == 0 && e.text > 0 ==> r == Ok(e.text)
    ensures !r.Ok? ==> r == Fatal(MsgNoSections)
  {
    if e.bss > 0 then Ok(e.bss)
    else if e.data > 0 then Ok(e.data)
    else if e.text > 0 then Ok(e.text)
    else Fatal(MsgNoSections)
  }

  /** In terms of the sections: the static-data end is the end of the last
      `.bss` section when that is nonzero, whatever `.data` and `.text`
      hold; failing that the last `.data` section's, and failing both the
      last `.text` section's.  A section whose end wraps to 0 does not
      count. */
  lemma StaticEndFromSections(c: ElfClass, ss: seq<Section>)
    ensures var k := LastWhere(ss, (s: Section) => s.isBss);
      k.Some? && SecEnd(c, ss[k.value]) > 0 ==>
        StaticDataEnd(ScanEnds(c, ss)) == Ok(SecEnd(c, ss[k.value]))
    ensures var k := LastWhere(ss, (s: Section) => s.isBss);
      var j := LastWhere(ss, (s: Section) => s.isData);
      (k.None? || SecEnd(c, ss[k.value]) == 0) && j.Some? && SecEnd(c, ss[j.value]) > 0 ==>
        StaticDataEnd(ScanEnds(c, ss)) == Ok(SecEnd(c, ss[j.value]))
    ensures var k := LastWhere(ss, (s: Section) => s.isBss);
      var j := LastWhere(ss, (s: Section) => s.isData);
      var t := LastWhere(ss, (s: Section) => s.isText);
      (k.None? || SecEnd(c, ss[k.value]) == 0) && (j.None? || SecEnd(c, ss[j.value]) == 0) &&
      t.Some? && SecEnd(c, ss[t.value]) > 0 ==>
        StaticDataEnd(ScanEnds(c, ss)) == Ok(SecEnd(c, ss[t.value]))
    ensures (forall k :: 0 <= k < |ss| ==> !ss[k].isBss && !ss[k].isData && !ss[k].isText) ==>
      StaticDataEnd(ScanEnds(c, ss)) == Fatal(MsgNoSections)
  {
    ScanEndsLastWins(c, ss);
  }

  // ---------------------------------------------------------------------
  // Second pass: the string and symbol tables

  /** `sh_type & SHT_NOBITS` is set. */
  predicate NoBits(shType: nat) {
    (shType / SHT_NOBITS) % 2 == 1
  }

  /** What the second pass learns from header `index`.  `seg` is the
      segment the 64-bit loader registers for every section; the 32-bit
      loader registers none here. */
  datatype TabSection = TabSection(index: nat, seg: Option<(nat, nat)>, isStrtab: bool, isSymtab: bool)

  /** The segment the 64-bit loop registers for header `i` before
      anything else; the 32-bit loop registers none. */
  function TabSeg(c: ElfClass, f: seq<byte>, shoff: nat, i: nat): (r: Result<Option<(nat, nat)>>)
    ensures !r.Fatal?
    ensures r.Ok? ==> (r.value.Some? <==> c == Class64)
  {
    if c == Class32 then Ok(None)
    else
      var addr :- Read(Shdr(c, f, shoff, i, ShAddr));
      var size :- Read(Shdr(c, f, shoff, i, ShSize));
      Ok(Some((addr, size)))
  }

  /** Section `i` lies inside the file: `sh_offset + sh_size`, in the
      class's unsigned arithmetic, does not exceed the file size. */
  predicate SectionFits(c: ElfClass, f: seq<byte>, shoff: nat, i: nat) {
    var off := Shdr(c, f, shoff, i, ShOffset);
    var size := Shdr(c, f, shoff, i, ShSize);
    off.Some? && size.Some? && Trunc(c, off.value + size.value) <= |f|
  }

  /** The rest of an iteration on a header that is not `SHT_NOBITS`: the
      extent check, then whether its name is `.strtab` and `.symtab`. */
  function TabNames(c: ElfClass, f: seq<byte>, shoff: nat, shstrtab: nat, i: nat): (r: Result<(bool, bool)>)
    ensures r.Fatal? ==> r.msg == MsgBad(c)
    ensures r.Ok? ==> SectionFits(c, f, shoff, i)
  {
    var off :- Read(Shdr(c, f, shoff, i, ShOffset));
    var size :- Read(Shdr(c, f, shoff, i, ShSize));
    if |f| < Trunc(c, off + size) then Fatal(MsgBad(c))
    else
      var name :- Read(Shdr(c, f, shoff, i, ShName));
      var isStrtab :- Read(StrEqAt(f, shstrtab + name, STRTAB));
      var isSymtab :- Read(StrEqAt(f, shstrtab + name, SYMTAB));
      Ok((isStrtab, isSymtab))
  }

  /** One iteration of the second pass.  A `SHT_NOBITS` section is skipped
      before its extent is checked; any other must lie inside the file. */
  function ReadTabSection(c: ElfClass, f: seq<byte>, shoff: nat, shstrtab: nat, i: nat): (r: Result<TabSection>)
    ensures r.Fatal? ==> r.msg == MsgBad(c)
    ensures r.Ok? ==> r.value.index == i && (r.value.seg.Some? <==> c == Class64)
    ensures r.Ok? && (r.value.isStrtab || r.value.isSymtab) ==>
      Shdr(c, f, shoff, i, ShType).Some? && !NoBits(Shdr(c, f, shoff, i, ShType).value)
    ensures r.Ok? && (r.value.isStrtab || r.value.isSymtab) ==> SectionFits(c, f, shoff, i)
  {
    var seg :- TabSeg(c, f, shoff, i);
    var shType :- Read(Shdr(c, f, shoff, i, ShType));
    if NoBits(shType) then Ok(TabSection(i, seg, false, false))
    else
      var names :- TabNames(c, f, shoff, shstrtab, i);
      Ok(TabSection(i, seg, names.0, names.1))
  }

  /** The body of the second section loop, as a function of the index. */
  function TabSectionStep(c: ElfClass, f: seq<byte>, shoff: nat, shstrtab: nat): nat -> Result<TabSection> {
    (k: nat) => ReadTabSection(c, f, shoff, shstrtab, k)
  }

  /** The second section loop; it stops at the first header that is fatal
      or cannot be read. */
  function ReadTabSections(c: ElfClass, f: seq<byte>, shoff: nat, shstrtab: nat, n: nat): (r: Result<seq<TabSection>>)
    ensures r.Fatal? ==> r.msg == MsgBad(c)
    ensures r.Ok? ==> |r.value| == n
  {
    var r := Collect(TabSectionStep(c, f, shoff, shstrtab), 0, n);
    if r.Ok? then r else CollectFailure(TabSectionStep(c, f, shoff, shstrtab), 0, n); r
  }

  /** Entry `k` of a successful pass is what header `k` yields. */
  lemma ReadTabSectionsAt(c: ElfClass, f: seq<byte>, shoff: nat, shstrtab: nat, n: nat, k: nat)
    requires k < n && ReadTabSections(c, f, shoff, shstrtab, n).Ok?
    ensures ReadTabSection(c, f, shoff, shstrtab, k) == Ok(ReadTabSections(c, f, shoff, shstrtab, n).value[k])
  {
    CollectAt(TabSectionStep(c, f, shoff, shstrtab), 0, n, k);
  }

  /** The segments the second pass registers, in order. */
  function TabSegs(ts: seq<TabSection>): seq<MemCall> {
    if ts == [] then []
    else (match ts[0].seg
          case Some(s) => [AddMemSeg(s.0, s.1, true)]
          case None => []) + TabSegs(ts[1..])
  }

  lemma {:induction false} TabSegsCount(ts: seq<TabSection>, c: ElfClass)
    requires forall k :: 0 <= k < |ts| ==> (ts[k].seg.Some? <==> c == Class64)
    ensures |TabSegs(ts)| == if c == Class64 then |ts| else 0
  {
    if ts != [] {
      assert forall k :: 0 <= k < |ts[1..]| ==> ts[1..][k] == ts[k + 1];
      TabSegsCount(ts[1..], c);
    }
  }

  /** `strtabidx` and `symtabidx` after the second pass: the index of the
      last non-`NOBITS` section of that name, or 0 when there is none. */
  function StrtabIndex(ts: seq<TabSection>): nat {
    ScanLast(ts, (t: TabSection) => t.isStrtab, (t: TabSection) => t.index, 0)
  }

  function SymtabIndex(ts: seq<TabSection>): nat {
    ScanLast(ts, (t: TabSection) => t.isSymtab, (t: TabSection) => t.index, 0)
  }

  /** The table indexes are those of the last matching headers, and a
      table found at index 0 is indistinguishable from no table. */
  lemma TableIndexLastWins(ts: seq<TabSection>)
    ensures var k := LastWhere(ts, (t: TabSection) => t.isStrtab);
      StrtabIndex(ts) == if k.Some? then ts[k.value].index else 0
    ensures var k := LastWhere(ts, (t: TabSection) => t.isSymtab);
      SymtabIndex(ts) == if k.Some? then ts[k.value].index else 0
  {
    ScanLastIsLast(ts, (t: TabSection) => t.isStrtab, (t: TabSection) => t.index, 0);
    ScanLastIsLast(ts, (t: TabSection) => t.isSymtab, (t: TabSection) => t.index, 0);
  }

  // ---------------------------------------------------------------------
  // Symbols

  /** One symbol: `st_name` must index into the string table, and a NUL
      must follow within the `maxlen` bytes that remain, `maxlen` being the
      difference truncated to `unsigned`.  The name is the bytes before
      that NUL. */
  function ReadSymbol(c: ElfClass, f: seq<byte>, stroff: nat, strsize: nat, symoff: nat, i: nat): (r: Result<Entry>)
    ensures r.Fatal? ==> r.msg == MsgBad(c)
    ensures r.Ok? ==> Sym(c, f, symoff, i, StName).Some?
    ensures r.Ok? ==> var name := Sym(c, f, symoff, i, StName).value;
      name < strsize &&
      |r.value.0| < Wrap(strsize - name, TWO32) &&
      stroff + name + |r.value.0| < |f| &&
      r.value.0 == f[stroff + name..stroff + name + |r.value.0|] &&
      f[stroff + name + |r.value.0|] == 0 &&
      (forall k :: 0 <= k < |r.value.0| ==> r.value.0[k] != 0) &&
      Sym(c, f, symoff, i, StValue) == Some(r.value.1)
    ensures Sym(c, f, symoff, i, StName).Some? && Sym(c, f, symoff, i, StName).value >= strsize ==>
      r == Fatal(MsgBad(c))
  {
    var name :- Read(Sym(c, f, symoff, i, StName));
    var maxlen := Wrap(strsize - name, TWO32);
    if name >= strsize then Fatal(MsgBad(c))
    else
      var p := stroff + name;
      var len :- Read(StrnLen(f, p, maxlen));
      if len >= maxlen then Fatal(MsgBad(c))
      else
        var value :- Read(Sym(c, f, symoff, i, StValue));
        Ok((f[p..p + len], value))
  }

  /** A name with no NUL within the bytes that remain of the string table
      is fatal. */
  lemma UnterminatedNameFatal(c: ElfClass, f: seq<byte>, stroff: nat, strsize: nat, symoff: nat, i: nat)
    requires Sym(c, f, symoff, i, StName).Some?
    requires var name := Sym(c, f, symoff, i, StName).value;
      name < strsize && NonNulRun(f, stroff + name, Wrap(strsize - name, TWO32))
    ensures ReadSymbol(c, f, stroff, strsize, symoff, i) == Fatal(MsgBad(c))
  {
    var name := Sym(c, f, symoff, i, StName).value;
    var maxlen := Wrap(strsize - name, TWO32);
    var r := StrnLen(f, stroff + name, maxlen);
    StrnLenExhausted(f, stroff + name, maxlen);
  }

  /** The body of the symbol loop, as a function of the index. */
  function SymbolStep(c: ElfClass, f: seq<byte>, stroff: nat, strsize: nat, symoff: nat): nat -> Result<Entry> {
    (k: nat) => ReadSymbol(c, f, stroff, strsize, symoff, k)
  }

  /** The `n` symbols of the table, read in order. */
  function ReadSymbols(c: ElfClass, f: seq<byte>, stroff: nat, strsize: nat, symoff: nat, n: nat): (r: Result<seq<Entry>>)
    ensures r.Fatal? ==> r.msg == MsgBad(c)
    ensures r.Ok? ==> |r.value| == n
  {
    var r := Collect(SymbolStep(c, f, stroff, strsize, symoff), 0, n);
    if r.Ok? then r else CollectFailure(SymbolStep(c, f, stroff, strsize, symoff), 0, n); r
  }

  /** Entry `k` of a successful read is symbol `k`. */
  lemma ReadSymbolsAt(c: ElfClass, f: seq<byte>, stroff: nat, strsize: nat, symoff: nat, n: nat, k: nat)
    requires k < n && ReadSymbols(c, f, stroff, strsize, symoff, n).Ok?
    ensures ReadSymbol(c, f, stroff, strsize, symoff, k) == Ok(ReadSymbols(c, f, stroff, strsize, symoff, n).value[k])
  {
    CollectAt(SymbolStep(c, f, stroff, strsize, symoff), 0, n, k);
  }

  /** `symtable[name] = st_value` for each symbol in order. */
  function InsertAll(t: seq<Entry>, syms: seq<Entry>): seq<Entry>
    decreases |syms|
  {
    if syms == [] then t else InsertAll(Insert(t, syms[0].0, syms[0].1), syms[1..])
  }

  lemma {:induction false} InsertAllSorted(t: seq<Entry>, syms: seq<Entry>)
    requires Sorted(t)
    ensures Sorted(InsertAll(t, syms))
    decreases |syms|
  {
    if syms != [] {
      InsertSorted(t, syms[0].0, syms[0].1);
      InsertAllSorted(Insert(t, syms[0].0, syms[0].1), syms[1..]);
    }
  }

  lemma {:induction false} InsertAllScan(t: seq<Entry>, syms: seq<Entry>, name: seq<byte>)
    ensures Lookup(InsertAll(t, syms), name) ==
      ScanLast(syms, (e: Entry) => e.0 == name, (e: Entry) => Some(e.1), Lookup(t, name))
    decreases |syms|
  {
    if syms != [] {
      InsertLookup(t, syms[0].0, syms[0].1, name);
      InsertAllScan(Insert(t, syms[0].0, syms[0].1), syms[1..], name);
    }
  }

  /** A name in `symtable` is bound to the value of the last symbol with
      that name; a name no symbol has keeps its old binding. */
  lemma SymtableLastWins(t: seq<Entry>, syms: seq<Entry>, name: seq<byte>)
    ensures var k := LastWhere(syms, (e: Entry) => e.0 == name);
      Lookup(InsertAll(t, syms), name) == if k.Some? then Some(syms[k.value].1) else Lookup(t, name)
  {
    InsertAllScan(t, syms, name);
    ScanLastIsLast(syms, (e: Entry) => e.0 == name, (e: Entry) => Some(e.1), Lookup(t, name));
  }
}
