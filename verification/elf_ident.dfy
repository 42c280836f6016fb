/** ELF identification: the checks `RevLoader` makes on the first six
    bytes of `e_ident` (System V gABI, "ELF Identification"), and the
    header gate `LoadElf` runs before choosing the 32- or 64-bit loader. */
module ElfIdent {
  import opened Common

  // gABI e_ident indexes and values
  const EI_MAG0: nat := 0
  const EI_CLASS: nat := 4
  const EI_DATA: nat := 5
  const ELFMAG: seq<byte> := [0x7f, 0x45, 0x4c, 0x46]   // 0x7f 'E' 'L' 'F'
  const ELFCLASS32: byte := 1
  const ELFCLASS64: byte := 2
  const ELFDATA2LSB: byte := 1
  const ELFDATA2MSB: byte := 2

  /** `sizeof(Elf64_Ehdr)`: the minimum file size `LoadElf` accepts. */
  const ELF64_EHDR_SIZE: nat := 64

  /** The 16 identification bytes of an `Elf64_Ehdr`. */
  type Ident = s: seq<byte> | |s| == 16 witness seq(16, _ => 0)

  datatype ElfClass = Class32 | Class64

  predicate IsElf(id: Ident) {
    id[0] == 0x7f && id[1] == 'E' as byte && id[2] == 'L' as byte && id[3] == 'F' as byte
  }

  predicate IsRVElf32(id: Ident) {
    IsElf(id) && id[4] == 1
  }

  predicate IsRVElf64(id: Ident) {
    IsElf(id) && id[4] == 2
  }

  predicate IsRVLittle(id: Ident) {
    IsElf(id) && id[5] == 1
  }

  predicate IsRVBig(id: Ident) {
    IsElf(id) && id[5] == 2
  }

  /** The source's `IsElf` is exactly the gABI magic check. */
  lemma IsElfIsMagic(id: Ident)
    ensures IsElf(id) <==> id[EI_MAG0..EI_MAG0 + 4] == ELFMAG
  {
    if id[..4] == ELFMAG {
      assert id[0] == ELFMAG[0] && id[1] == ELFMAG[1] && id[2] == ELFMAG[2] && id[3] == ELFMAG[3];
    }
  }

  /** The two class tests never both hold, each needs the magic, and each
      is the gABI class value. */
  lemma ClassesExclusive(id: Ident)
    ensures !(IsRVElf32(id) && IsRVElf64(id))
    ensures IsRVElf32(id) ==> IsElf(id) && id[EI_CLASS] == ELFCLASS32
    ensures IsRVElf64(id) ==> IsElf(id) && id[EI_CLASS] == ELFCLASS64
    ensures !(IsRVLittle(id) && IsRVBig(id))
    ensures IsRVLittle(id) ==> id[EI_DATA] == ELFDATA2LSB
  {
  }

  function IdentOf(f: seq<byte>): Ident
    requires |f| >= ELF64_EHDR_SIZE
  {
    f[..16]
  }

  const MsgHeader := "Error: Elf header is unrecognizable\n"
  const MsgClass := "Error: Cannot determine Elf32 or Elf64 from header\n"
  const MsgEndian := "Error: Not in little endian format\n"

  /** The checks `LoadElf` makes on the mapped file before loading, in
      their order: the size of an `Elf64_Ehdr` (even for a 32-bit file),
      a recognised class, little-endian data.  The result names the loader
      `LoadElf` then runs. */
  function CheckHeader(f: seq<byte>): (r: Result<ElfClass>)
    ensures |f| < ELF64_EHDR_SIZE ==> r == Fatal(MsgHeader)
    ensures |f| >= ELF64_EHDR_SIZE && f[..4] != ELFMAG ==> r == Fatal(MsgClass)
    ensures |f| >= ELF64_EHDR_SIZE && f[4] != 1 && f[4] != 2 ==> r == Fatal(MsgClass)
    ensures |f| >= ELF64_EHDR_SIZE && f[..4] == ELFMAG && f[4] in {1, 2} && f[5] != 1 ==> r == Fatal(MsgEndian)
    ensures r.Ok? <==> |f| >= ELF64_EHDR_SIZE && f[..4] == ELFMAG && f[4] in {1, 2} && f[5] == 1
    ensures r.Ok? ==> (r.value == Class32 <==> f[4] == ELFCLASS32)
    ensures !r.Undefined?
  {
    if |f| < ELF64_EHDR_SIZE then Fatal(MsgHeader)
    else
      var id := IdentOf(f);
      IsElfIsMagic(id);
      if !IsRVElf32(id) && !IsRVElf64(id) then Fatal(MsgClass)
      else if !IsRVLittle(id) then Fatal(MsgEndian)
      else if IsRVElf32(id) then Ok(Class32)
      else Ok(Class64)
  }
}
