// ELF headers as bytes of a file, and the contract of a loadable segment (the Program
// Header section of chapter 5 of the System V ABI): p_filesz bytes of the file, then zeros
// up to p_memsz.
module Elf {
  import opened Machine

  const ELF_MAGIC: Word := 0x464C457F
  const EHDR_SIZE := 52
  const PHDR_SIZE := 32
  const ELF_PROG_LOAD := 1

  // The address rounded down to its sector or page.
  function RoundDown(x: nat, unit: nat): (r: nat)
    requires unit == SECTOR || unit == PAGE
    ensures r <= x < r + unit
    ensures x - r == if unit == SECTOR then x % SECTOR else x % PAGE
  {
    if unit == SECTOR then x - x % SECTOR else x - x % PAGE
  }

  lemma SectorDivides(x: nat)
    ensures RoundDown(x, SECTOR) % SECTOR == 0
  {
  }

  function Le16(m: seq<Byte>, a: nat): (v: nat)
    requires a + 2 <= |m|
    ensures v < 0x1_0000
  {
    m[a] as int + 0x100 * (m[a + 1] as int)
  }

  function Le32(m: seq<Byte>, a: nat): (v: Word)
    requires a + 4 <= |m|
  {
    m[a] as int + 0x100 * (m[a + 1] as int) + 0x1_0000 * (m[a + 2] as int) + 0x100_0000 * (m[a + 3] as int)
  }

  datatype Proghdr = Proghdr(ptype: Word, offset: Word, va: Word, filesz: Word, memsz: Word)

  function ProghdrAt(m: seq<Byte>, a: nat): Proghdr
    requires a + PHDR_SIZE <= |m|
  {
    Proghdr(Le32(m, a), Le32(m, a + 4), Le32(m, a + 8), Le32(m, a + 16), Le32(m, a + 20))
  }

  function Magic(file: seq<Byte>): Word
    requires EHDR_SIZE <= |file|
  {
    Le32(file, 0)
  }

  function EntryPoint(file: seq<Byte>): Word
    requires EHDR_SIZE <= |file|
  {
    Le32(file, 24)
  }

  function PhOff(file: seq<Byte>): Word
    requires EHDR_SIZE <= |file|
  {
    Le32(file, 28)
  }

  function PhNum(file: seq<Byte>): nat
    requires EHDR_SIZE <= |file|
  {
    Le16(file, 44)
  }

  predicate HeadersWithin(file: seq<Byte>, limit: nat) {
    && EHDR_SIZE <= |file|
    && PhOff(file) + PHDR_SIZE * PhNum(file) <= limit <= |file|
  }

  function Header(file: seq<Byte>, i: nat): Proghdr
    requires EHDR_SIZE <= |file| && i < PhNum(file)
    requires PhOff(file) + PHDR_SIZE * PhNum(file) <= |file|
  {
    ProghdrAt(file, PhOff(file) + PHDR_SIZE * i)
  }

  ghost predicate SegmentLoaded(mem: seq<Byte>, file: seq<Byte>, h: Proghdr)
    requires h.va + h.memsz <= |mem| && h.offset + h.filesz <= |file|
  {
    forall a :: h.va <= a < h.va + h.memsz ==>
      mem[a] == if a < h.va + h.filesz then file[h.offset + (a - h.va)] else 0
  }

  /* Headers as the bytes they are written with, low byte first */

  function Bytes16(v: nat): (s: seq<Byte>)
    requires v < 0x1_0000
    ensures |s| == 2
  {
    [v % 0x100, v / 0x100]
  }

  function Bytes32(v: Word): (s: seq<Byte>)
    ensures |s| == 4
  {
    [v % 0x100, v / 0x100 % 0x100, v / 0x1_0000 % 0x100, v / 0x100_0000]
  }

  // m has s at a.
  ghost predicate Has(m: seq<Byte>, a: nat, s: seq<Byte>) {
    a + |s| <= |m| && forall k :: 0 <= k < |s| ==> m[a + k] == s[k]
  }

  lemma HasParts(m: seq<Byte>, a: nat, s: seq<Byte>, t: seq<Byte>)
    requires Has(m, a, s + t)
    ensures Has(m, a, s) && Has(m, a + |s|, t)
  {
    forall k | 0 <= k < |s| ensures m[a + k] == s[k] {
      assert (s + t)[k] == s[k];
    }
    forall k | 0 <= k < |t| ensures m[a + |s| + k] == t[k] {
      assert (s + t)[|s| + k] == t[k];
      assert m[a + (|s| + k)] == (s + t)[|s| + k];
    }
  }

  lemma Le16ReadsBack(m: seq<Byte>, a: nat, v: nat)
    requires v < 0x1_0000 && Has(m, a, Bytes16(v))
    ensures Le16(m, a) == v
  {
    assert m[a + 0] == Bytes16(v)[0] && m[a + 1] == Bytes16(v)[1];
  }

  lemma Le32ReadsBack(m: seq<Byte>, a: nat, v: Word)
    requires Has(m, a, Bytes32(v))
    ensures Le32(m, a) == v
  {
    var s := Bytes32(v);
    assert m[a + 0] == s[0] && m[a + 1] == s[1] && m[a + 2] == s[2] && m[a + 3] == s[3];
    Digits256(v);
  }

  lemma Digits256(v: Word)
    ensures v == v % 0x100 + 0x100 * (v / 0x100 % 0x100) + 0x1_0000 * (v / 0x1_0000 % 0x100)
      + 0x100_0000 * (v / 0x100_0000)
  {
    assert v / 0x100 / 0x100 == v / 0x1_0000;
    assert v / 0x1_0000 / 0x100 == v / 0x100_0000;
  }

  // A program header: p_type, p_offset, p_va, p_pa, p_filesz, p_memsz, p_flags, p_align.
  function ProghdrBytes(h: Proghdr, pa: Word, flags: Word, align: Word): seq<Byte> {
    Bytes32(h.ptype) + (Bytes32(h.offset) + (Bytes32(h.va) + (Bytes32(pa) +
      (Bytes32(h.filesz) + (Bytes32(h.memsz) + (Bytes32(flags) + Bytes32(align)))))))
  }

  lemma ProghdrReadsBack(m: seq<Byte>, a: nat, h: Proghdr, pa: Word, flags: Word, align: Word)
    requires Has(m, a, ProghdrBytes(h, pa, flags, align))
    ensures a + 32 <= |m| && ProghdrAt(m, a) == h
  {
    var rest6 := Bytes32(flags) + Bytes32(align);
    var rest5 := Bytes32(h.memsz) + rest6;
    var rest4 := Bytes32(h.filesz) + rest5;
    var rest3 := Bytes32(pa) + rest4;
    var rest2 := Bytes32(h.va) + rest3;
    var rest1 := Bytes32(h.offset) + rest2;
    HasParts(m, a, Bytes32(h.ptype), rest1);
    HasParts(m, a + 4, Bytes32(h.offset), rest2);
    HasParts(m, a + 8, Bytes32(h.va), rest3);
    HasParts(m, a + 12, Bytes32(pa), rest4);
    HasParts(m, a + 16, Bytes32(h.filesz), rest5);
    HasParts(m, a + 20, Bytes32(h.memsz), rest6);
    Le32ReadsBack(m, a, h.ptype);
    Le32ReadsBack(m, a + 4, h.offset);
    Le32ReadsBack(m, a + 8, h.va);
    Le32ReadsBack(m, a + 16, h.filesz);
    Le32ReadsBack(m, a + 20, h.memsz);
  }

  // The file header: e_magic, 12 bytes e_elf, e_type, e_machine, e_version, e_entry, e_phoff,
  // e_shoff, e_flags, e_ehsize, e_phentsize, e_phnum; `ident` stands for the 20 bytes after
  // e_magic, `middle` for the 12 between e_phoff and e_phnum.
  function EhdrBytes(magic: Word, ident: seq<Byte>, entry: Word, phoff: Word, middle: seq<Byte>, phnum: nat): seq<Byte>
    requires phnum < 0x1_0000
  {
    Bytes32(magic) + (ident + (Bytes32(entry) + (Bytes32(phoff) + (middle + Bytes16(phnum)))))
  }

  lemma EhdrReadsBack(file: seq<Byte>, magic: Word, ident: seq<Byte>, entry: Word, phoff: Word,
                      middle: seq<Byte>, phnum: nat)
    requires phnum < 0x1_0000 && |ident| == 20 && |middle| == 12 && 52 <= |file|
    requires Has(file, 0, EhdrBytes(magic, ident, entry, phoff, middle, phnum))
    ensures Magic(file) == magic && EntryPoint(file) == entry && PhOff(file) == phoff && PhNum(file) == phnum
  {
    var rest4 := middle + Bytes16(phnum);
    var rest3 := Bytes32(phoff) + rest4;
    var rest2 := Bytes32(entry) + rest3;
    var rest1 := ident + rest2;
    HasParts(file, 0, Bytes32(magic), rest1);
    HasParts(file, 4, ident, rest2);
    HasParts(file, 24, Bytes32(entry), rest3);
    HasParts(file, 28, Bytes32(phoff), rest4);
    HasParts(file, 32, middle, Bytes16(phnum));
    Le32ReadsBack(file, 0, magic);
    Le32ReadsBack(file, 24, entry);
    Le32ReadsBack(file, 28, phoff);
    Le16ReadsBack(file, 44, phnum);
  }

  // The magic number is the bytes 0x7F, 'E', 'L', 'F'.
  lemma MagicIsElf(file: seq<Byte>)
    requires EHDR_SIZE <= |file|
    ensures Magic(file) == ELF_MAGIC <==> file[0] == 0x7F && file[1] == 0x45 && file[2] == 0x4C && file[3] == 0x46
  {
    FourBytes(file[0], file[1], file[2], file[3]);
  }

  lemma FourBytes(a: Byte, b: Byte, c: Byte, d: Byte)
    ensures a + 0x100 * b + 0x1_0000 * c + 0x100_0000 * d == 0x464C_457F <==>
      a == 0x7F && b == 0x45 && c == 0x4C && d == 0x46
  {
    if a + 0x100 * b + 0x1_0000 * c + 0x100_0000 * d == 0x464C_457F {
      assert d == 0x46;
      assert c == 0x4C;
      assert b == 0x45;
    }
  }
}
