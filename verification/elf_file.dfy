/** Reading a mapped ELF file: little-endian fields at the System V gABI
    offsets of the 32- and 64-bit headers, and the C string operations the
    loader applies to the string tables (`strcmp` against a literal,
    `strnlen`).  Every read reports `None` when it would touch a byte past
    the end of the file. */
module ElfFile {
  import opened Common
  import opened ElfIdent

  /** The unsigned value of little-endian bytes. */
  function LEValue(bs: seq<byte>): nat {
    if bs == [] then 0 else bs[0] + 256 * LEValue(bs[1..])
  }

  function Pow256(n: nat): (r: nat)
    ensures r >= 1
  {
    if n == 0 then 1 else 256 * Pow256(n - 1)
  }

  lemma {:induction false} LEValueBound(bs: seq<byte>)
    ensures LEValue(bs) < Pow256(|bs|)
    decreases |bs|
  {
    if bs != [] {
      LEValueBound(bs[1..]);
    }
  }

  /** The `n` little-endian bytes of `v`. */
  function EncodeLE(v: nat, n: nat): (bs: seq<byte>)
    ensures |bs| == n
  {
    if n == 0 then [] else [(v % 256) as byte] + EncodeLE(v / 256, n - 1)
  }

  /** Decoding inverts encoding for every value that fits... */
  lemma {:induction false} DecodeEncode(v: nat, n: nat)
    requires v < Pow256(n)
    ensures LEValue(EncodeLE(v, n)) == v
    decreases n
  {
    if n > 0 {
      var bs := EncodeLE(v, n);
      assert bs[1..] == EncodeLE(v / 256, n - 1);
      DecodeEncode(v / 256, n - 1);
    }
  }

  /** ...and encoding inverts decoding for every byte string. */
  lemma {:induction false} EncodeDecode(bs: seq<byte>)
    ensures EncodeLE(LEValue(bs), |bs|) == bs
    decreases |bs|
  {
    if bs != [] {
      EncodeDecode(bs[1..]);
      assert (bs[0] + 256 * LEValue(bs[1..])) / 256 == LEValue(bs[1..]);
    }
  }

  /** An `n`-byte little-endian field at offset `off` of the file. */
  function ReadLE(f: seq<byte>, off: nat, n: nat): (r: Option<nat>)
    ensures r.Some? <==> off + n <= |f|
  {
    if off + n <= |f| then Some(LEValue(f[off..off + n])) else None
  }

  /** A field that was read fits its width, and encoding it again gives
      back the bytes of the file. */
  lemma ReadLEEncodes(f: seq<byte>, off: nat, n: nat)
    requires off + n <= |f|
    ensures ReadLE(f, off, n).value < Pow256(n)
    ensures EncodeLE(ReadLE(f, off, n).value, n) == f[off..off + n]
  {
    LEValueBound(f[off..off + n]);
    EncodeDecode(f[off..off + n]);
  }

  /** `len` bytes of the file from `off`; reading nothing always succeeds. */
  function FileBytes(f: seq<byte>, off: nat, len: nat): (r: Option<seq<byte>>)
    ensures r.Some? <==> len == 0 || off + len <= |f|
    ensures r.Some? ==> |r.value| == len
    ensures r.Some? && len > 0 ==> r.value == f[off..off + len]
  {
    if len == 0 then Some([])
    else if off + len <= |f| then Some(f[off..off + len])
    else None
  }

  // ---------------------------------------------------------------------
  // Record layouts

  /** Offset and width in bytes of one field of a record. */
  datatype Field = Field(off: nat, width: nat)

  datatype EhField = EntryPoint | PhOff | ShOff | PhNum | ShNum | ShStrNdx
  datatype PhField = PType | POffset | PPaddr | PFilesz | PMemsz
  datatype ShField = ShName | ShType | ShAddr | ShOffset | ShSize
  datatype SymField = StName | StValue

  /** Width of an address or offset: `Elf32_Addr` or `Elf64_Addr`. */
  function WordBytes(c: ElfClass): nat {
    if c == Class32 then 4 else 8
  }

  /** Modulus of arithmetic on two fields of one class: the sum of two
      `Elf32_Word`s wraps at 2^32, of two `Elf64_Xword`s at 2^64. */
  function FieldMod(c: ElfClass): (m: nat)
    ensures m == Pow256(WordBytes(c))
    ensures m == if c == Class32 then TWO32 else TWO64
  {
    assert Pow256(4) == TWO32;
    assert Pow256(8) == TWO64;
    if c == Class32 then TWO32 else TWO64
  }

  /** `x` stored into an unsigned integer as wide as the class's
      addresses: the sum or difference of two fields of one header. */
  function Trunc(c: ElfClass, x: int): (r: nat)
    ensures r < FieldMod(c)
    ensures 0 <= x < FieldMod(c) ==> r == x
    ensures FieldMod(c) <= x < 2 * FieldMod(c) ==> r == x - FieldMod(c)
    ensures x < 0 && 0 <= x + FieldMod(c) ==> r == x + FieldMod(c)
  {
    Wrap(x, FieldMod(c))
  }

  function EhdrField(c: ElfClass, x: EhField): Field {
    match (c, x)
    case (Class32, EntryPoint) => Field(24, 4)
    case (Class32, PhOff) => Field(28, 4)
    case (Class32, ShOff) => Field(32, 4)
    case (Class32, PhNum) => Field(44, 2)
    case (Class32, ShNum) => Field(48, 2)
    case (Class32, ShStrNdx) => Field(50, 2)
    case (Class64, EntryPoint) => Field(24, 8)
    case (Class64, PhOff) => Field(32, 8)
    case (Class64, ShOff) => Field(40, 8)
    case (Class64, PhNum) => Field(56, 2)
    case (Class64, ShNum) => Field(60, 2)
    case (Class64, ShStrNdx) => Field(62, 2)
  }

  /** `sizeof(Elf32_Phdr)` / `sizeof(Elf64_Phdr)`. */
  function PhdrSize(c: ElfClass): nat {
    if c == Class32 then 32 else 56
  }

  function PhdrField(c: ElfClass, x: PhField): Field {
    match (c, x)
    case (Class32, PType) => Field(0, 4)
    case (Class32, POffset) => Field(4, 4)
    case (Class32, PPaddr) => Field(12, 4)
    case (Class32, PFilesz) => Field(16, 4)
    case (Class32, PMemsz) => Field(20, 4)
    case (Class64, PType) => Field(0, 4)
    case (Class64, POffset) => Field(8, 8)
    case (Class64, PPaddr) => Field(24, 8)
    case (Class64, PFilesz) => Field(32, 8)
    case (Class64, PMemsz) => Field(40, 8)
  }

  /** `sizeof(Elf32_Shdr)` / `sizeof(Elf64_Shdr)`. */
  function ShdrSize(c: ElfClass): nat {
    if c == Class32 then 40 else 64
  }

  function ShdrField(c: ElfClass, x: ShField): Field {
    match (c, x)
    case (Class32, ShName) => Field(0, 4)
    case (Class32, ShType) => Field(4, 4)
    case (Class32, ShAddr) => Field(12, 4)
    case (Class32, ShOffset) => Field(16, 4)
    case (Class32, ShSize) => Field(20, 4)
    case (Class64, ShName) => Field(0, 4)
    case (Class64, ShType) => Field(4, 4)
    case (Class64, ShAddr) => Field(16, 8)
    case (Class64, ShOffset) => Field(24, 8)
    case (Class64, ShSize) => Field(32, 8)
  }

  /** `sizeof(Elf32_Sym)` / `sizeof(Elf64_Sym)`. */
  function SymSize(c: ElfClass): nat {
    if c == Class32 then 16 else 24
  }

  function SymbolField(c: ElfClass, x: SymField): Field {
    match (c, x)
    case (Class32, StName) => Field(0, 4)
    case (Class32, StValue) => Field(4, 4)
    case (Class64, StName) => Field(0, 4)
    case (Class64, StValue) => Field(8, 8)
  }

  /** `n` records of `size` bytes, `size` being one of the record sizes
      of class `c`: the product written with a literal factor in each
      class. */
  function Span(c: ElfClass, size: nat, n: nat): nat
    requires size == PhdrSize(c) || size == ShdrSize(c) || size == SymSize(c)
  {
    if c == Class32 then
      (if size == 32 then 32 * n else if size == 40 then 40 * n else 16 * n)
    else
      (if size == 56 then 56 * n else if size == 64 then 64 * n else 24 * n)
  }

  lemma SpanIsProduct(c: ElfClass, size: nat, n: nat)
    requires size == PhdrSize(c) || size == ShdrSize(c) || size == SymSize(c)
    ensures Span(c, size, n) == n * size
  {
  }

  /** Every field lies inside its record, so a record that is wholly in
      the file can be read field by field. */
  lemma FieldsInsideRecords(c: ElfClass)
    ensures forall x :: EhdrField(c, x).off + EhdrField(c, x).width <= ELF64_EHDR_SIZE
    ensures forall x :: PhdrField(c, x).off + PhdrField(c, x).width <= PhdrSize(c)
    ensures forall x :: ShdrField(c, x).off + ShdrField(c, x).width <= ShdrSize(c)
    ensures forall x :: SymbolField(c, x).off + SymbolField(c, x).width <= SymSize(c)
    ensures forall x :: PhdrField(c, x).width <= WordBytes(c)
    ensures forall x :: ShdrField(c, x).width <= WordBytes(c)
  {
  }

  function ReadField(f: seq<byte>, base: nat, fld: Field): (r: Option<nat>)
    ensures r.Some? <==> base + fld.off + fld.width <= |f|
    ensures r.Some? ==> r.value < Pow256(fld.width)
  {
    var r := ReadLE(f, base + fld.off, fld.width);
    if r.Some? then
      LEValueBound(f[base + fld.off..base + fld.off + fld.width]);
      r
    else r
  }

  /** A program-header field fits the class's word. */
  lemma PhdrFieldFits(c: ElfClass, x: PhField)
    ensures Pow256(PhdrField(c, x).width) <= FieldMod(c)
  {
    FieldsInsideRecords(c);
    PowMono(PhdrField(c, x).width, WordBytes(c));
  }

  /** A section-header field fits the class's word. */
  lemma ShdrFieldFits(c: ElfClass, x: ShField)
    ensures Pow256(ShdrField(c, x).width) <= FieldMod(c)
  {
    FieldsInsideRecords(c);
    PowMono(ShdrField(c, x).width, WordBytes(c));
  }

  /** A field of the ELF header.  `LoadElf` has checked that the file holds
      at least an `Elf64_Ehdr`, so these reads never fail. */
  function Ehdr(c: ElfClass, f: seq<byte>, x: EhField): (v: nat)
    requires |f| >= ELF64_EHDR_SIZE
    ensures v < Pow256(EhdrField(c, x).width)
  {
    FieldsInsideRecords(c);
    ReadLEEncodes(f, EhdrField(c, x).off, EhdrField(c, x).width);
    ReadField(f, 0, EhdrField(c, x)).value
  }

  /** Field `x` of program header `i` of the table at `phoff`. */
  function Phdr(c: ElfClass, f: seq<byte>, phoff: nat, i: nat, x: PhField): (r: Option<nat>)
    ensures r.Some? <==> phoff + Span(c, PhdrSize(c), i) + PhdrField(c, x).off + PhdrField(c, x).width <= |f|
    ensures r.Some? ==> r.value < FieldMod(c)
  {
    PhdrFieldFits(c, x);
    ReadField(f, phoff + Span(c, PhdrSize(c), i), PhdrField(c, x))
  }

  /** Field `x` of section header `i` of the table at `shoff`. */
  function Shdr(c: ElfClass, f: seq<byte>, shoff: nat, i: nat, x: ShField): (r: Option<nat>)
    ensures r.Some? <==> shoff + Span(c, ShdrSize(c), i) + ShdrField(c, x).off + ShdrField(c, x).width <= |f|
    ensures r.Some? ==> r.value < FieldMod(c)
  {
    ShdrFieldFits(c, x);
    ReadField(f, shoff + Span(c, ShdrSize(c), i), ShdrField(c, x))
  }

  /** Field `x` of symbol `i` of the table at `symoff`; `st_name` is an
      `Elf32_Word` in both classes. */
  function Sym(c: ElfClass, f: seq<byte>, symoff: nat, i: nat, x: SymField): (r: Option<nat>)
    ensures r.Some? <==> symoff + Span(c, SymSize(c), i) + SymbolField(c, x).off + SymbolField(c, x).width <= |f|
    ensures r.Some? && x == StName ==> r.value < TWO32
    ensures r.Some? ==> r.value < FieldMod(c)
  {
    FieldsInsideRecords(c);
    assert Pow256(4) == TWO32;
    var r := ReadField(f, symoff + Span(c, SymSize(c), i), SymbolField(c, x));
    if r.Some? then
      ReadLEEncodes(f, symoff + Span(c, SymSize(c), i) + SymbolField(c, x).off, SymbolField(c, x).width);
      PowMono(SymbolField(c, x).width, WordBytes(c));
      r
    else r
  }

  lemma {:induction false} PowMono(a: nat, b: nat)
    requires a <= b
    ensures Pow256(a) <= Pow256(b)
    decreases b
  {
    if a < b {
      PowMono(a, b - 1);
    }
  }

  // ---------------------------------------------------------------------
  // C strings in the file

  /** The file holds `t[..j]` at `p`: all of it lies inside the file. */
  predicate MatchesFor(f: seq<byte>, p: nat, t: seq<byte>, j: nat)
    requires j <= |t|
  {
    j == 0 || (p + j <= |f| && forall x :: p <= x < p + j ==> f[x] == t[x - p])
  }

  /** A prefix of `t` matches at `p` right up to the end of the file, so a
      byte-by-byte comparison with `t` reads past the file. */
  predicate RunsOff(f: seq<byte>, p: nat, t: seq<byte>) {
    exists j :: 0 <= j < |t| && p + j >= |f| && MatchesFor(f, p, t, j)
  }

  /** `strcmp(membuf + p, t) == 0` for a NUL-free literal, with `t` the
      literal followed by its terminator: bytes are compared until the
      first mismatch or the end of `t`; running off the file is `None`. */
  function CmpFrom(f: seq<byte>, p: nat, t: seq<byte>): (r: Option<bool>)
    decreases |t|
  {
    if t == [] then Some(true)
    else if p >= |f| then None
    else if f[p] != t[0] then Some(false)
    else CmpFrom(f, p + 1, t[1..])
  }

  /** Matching `t[..j]` at `p` is matching its first byte at `p` and the
      rest at `p + 1`. */
  lemma MatchesShift(f: seq<byte>, p: nat, t: seq<byte>, j: nat)
    requires 1 <= j <= |t|
    ensures MatchesFor(f, p, t, j) <==>
      p < |f| && f[p] == t[0] && MatchesFor(f, p + 1, t[1..], j - 1)
  {
    if p < |f| && f[p] == t[0] && MatchesFor(f, p + 1, t[1..], j - 1) {
      forall x | p <= x < p + j
        ensures f[x] == t[x - p]
      {
        if x > p {
          assert f[x] == t[1..][x - (p + 1)];
        }
      }
    }
    if MatchesFor(f, p, t, j) {
      assert f[p] == t[p - p];
      forall x | p + 1 <= x < p + 1 + (j - 1)
        ensures f[x] == t[1..][x - (p + 1)]
      {
        assert f[x] == t[x - p];
      }
    }
  }

  /** The comparison matches exactly when the file holds all of `t` at
      `p`; it reads past the file exactly when a matching prefix of `t`
      reaches the end of the file first. */
  lemma {:induction false} CmpFromSpec(f: seq<byte>, p: nat, t: seq<byte>)
    ensures CmpFrom(f, p, t) == Some(true) <==> MatchesFor(f, p, t, |t|)
    ensures CmpFrom(f, p, t) == None <==> RunsOff(f, p, t)
    decreases |t|
  {
    if t == [] {
    } else if p >= |f| {
      assert MatchesFor(f, p, t, 0);
    } else if f[p] != t[0] {
      assert !MatchesFor(f, p, t, |t|) by {
        assert !(f[p] == t[p - p]);
      }
    } else {
      CmpFromSpec(f, p + 1, t[1..]);
      MatchesShift(f, p, t, |t|);
      if RunsOff(f, p, t) {
        var j :| 0 <= j < |t| && p + j >= |f| && MatchesFor(f, p, t, j);
        assert j >= 1;
        MatchesShift(f, p, t, j);
        assert 0 <= j - 1 < |t[1..]| && p + 1 + (j - 1) >= |f| && MatchesFor(f, p + 1, t[1..], j - 1);
      }
      if RunsOff(f, p + 1, t[1..]) {
        var j :| 0 <= j < |t[1..]| && p + 1 + j >= |f| && MatchesFor(f, p + 1, t[1..], j);
        MatchesShift(f, p, t, j + 1);
        assert 0 <= j + 1 < |t| && p + (j + 1) >= |f| && MatchesFor(f, p, t, j + 1);
      }
    }
  }

  /** `strcmp(membuf + p, lit) == 0` for a section-name literal: true
      exactly when the file holds `lit` at `p` followed by a NUL. */
  function StrEqAt(f: seq<byte>, p: nat, lit: seq<byte>): (r: Option<bool>)
    ensures r == Some(true) <==> p + |lit| < |f| && f[p..p + |lit|] == lit && f[p + |lit|] == 0
    ensures r == None <==> RunsOff(f, p, lit + [0])
  {
    StrEqAtSpec(f, p, lit);
    CmpFrom(f, p, lit + [0])
  }

  lemma StrEqAtSpec(f: seq<byte>, p: nat, lit: seq<byte>)
    ensures CmpFrom(f, p, lit + [0]) == Some(true) <==>
      p + |lit| < |f| && f[p..p + |lit|] == lit && f[p + |lit|] == 0
    ensures CmpFrom(f, p, lit + [0]) == None <==> RunsOff(f, p, lit + [0])
  {
    var t := lit + [0];
    CmpFromSpec(f, p, t);
    if MatchesFor(f, p, t, |t|) {
      assert p + |lit| < |f|;
      forall k | 0 <= k < |lit|
        ensures f[p..p + |lit|][k] == lit[k]
      {
        assert f[p + k] == t[(p + k) - p];
      }
      assert f[p + |lit|] == t[(p + |lit|) - p];
    }
    if p + |lit| < |f| && f[p..p + |lit|] == lit && f[p + |lit|] == 0 {
      forall x | p <= x < p + |t|
        ensures f[x] == t[x - p]
      {
        if x < p + |lit| {
          assert f[p..p + |lit|][x - p] == lit[x - p];
        }
      }
    }
  }

  /** The `i` bytes of the file from `p` exist and none is NUL. */
  predicate NonNulRun(f: seq<byte>, p: nat, i: nat) {
    i == 0 || (p + i <= |f| && forall x :: p <= x < p + i ==> f[x] != 0)
  }

  /** `strnlen` would scan past the end of the file before finding a NUL
      or reaching `maxlen`. */
  predicate ScanRunsOff(f: seq<byte>, p: nat, maxlen: nat) {
    exists i :: 0 <= i < maxlen && p + i >= |f| && NonNulRun(f, p, i)
  }

  /** `strnlen(membuf + p, maxlen)`: the number of bytes before the first
      NUL, at most `maxlen`.  It reads one byte past the counted ones unless
      the count reached `maxlen`; running off the file is `None`. */
  function StrnLen(f: seq<byte>, p: nat, maxlen: nat): (r: Option<nat>)
    ensures r.Some? ==> r.value <= maxlen && NonNulRun(f, p, r.value)
    ensures r.Some? && r.value < maxlen ==> p + r.value < |f| && f[p + r.value] == 0
    ensures r.None? <==> ScanRunsOff(f, p, maxlen)
    decreases maxlen
  {
    if maxlen == 0 then Some(0)
    else if p >= |f| then
      assert NonNulRun(f, p, 0);
      None
    else if f[p] == 0 then
      assert !ScanRunsOff(f, p, maxlen);
      Some(0)
    else
      var r := StrnLen(f, p + 1, maxlen - 1);
      StrnLenShift(f, p, maxlen);
      if r.Some? then NonNulGrow(f, p, r.value); Some(r.value + 1) else None
  }

  lemma StrnLenShift(f: seq<byte>, p: nat, maxlen: nat)
    requires 0 < maxlen && p < |f| && f[p] != 0
    ensures ScanRunsOff(f, p, maxlen) <==> ScanRunsOff(f, p + 1, maxlen - 1)
  {
    if ScanRunsOff(f, p, maxlen) {
      var i :| 0 <= i < maxlen && p + i >= |f| && NonNulRun(f, p, i);
      assert i >= 1;
      NonNulShrink(f, p, i);
    }
    if ScanRunsOff(f, p + 1, maxlen - 1) {
      var i :| 0 <= i < maxlen - 1 && p + 1 + i >= |f| && NonNulRun(f, p + 1, i);
      NonNulGrow(f, p, i);
    }
  }

  /** A run of non-NUL bytes after a non-NUL byte extends it by one. */
  lemma NonNulGrow(f: seq<byte>, p: nat, i: nat)
    requires p < |f| && f[p] != 0 && NonNulRun(f, p + 1, i)
    ensures NonNulRun(f, p, i + 1)
  {
    forall x | p <= x < p + i + 1
      ensures f[x] != 0
    {
      if x > p {
        assert p + 1 <= x < p + 1 + i;
      }
    }
  }

  lemma NonNulShrink(f: seq<byte>, p: nat, i: nat)
    requires 1 <= i && NonNulRun(f, p, i)
    ensures NonNulRun(f, p + 1, i - 1)
  {
    forall x | p + 1 <= x < p + 1 + (i - 1)
      ensures f[x] != 0
    {
      assert p <= x < p + i;
    }
  }

  /** With `maxlen` non-NUL bytes in the file, `strnlen` stops at `maxlen`. */
  lemma {:induction false} StrnLenExhausted(f: seq<byte>, p: nat, maxlen: nat)
    requires NonNulRun(f, p, maxlen)
    ensures StrnLen(f, p, maxlen) == Some(maxlen)
    decreases maxlen
  {
    if maxlen > 0 {
      assert p <= p < p + maxlen;
      NonNulShrink(f, p, maxlen);
      StrnLenExhausted(f, p + 1, maxlen - 1);
    }
  }

  /** A NUL at `p + k` after `k` non-NUL bytes, with `k < maxlen`, makes
      `strnlen` return `k`. */
  lemma {:induction false} StrnLenFindsNul(f: seq<byte>, p: nat, maxlen: nat, k: nat)
    requires k < maxlen && NonNulRun(f, p, k) && p + k < |f| && f[p + k] == 0
    ensures StrnLen(f, p, maxlen) == Some(k)
    decreases k
  {
    if k > 0 {
      assert p <= p < p + k;
      NonNulShrink(f, p, k);
      StrnLenFindsNul(f, p + 1, maxlen - 1, k - 1);
    }
  }
}
