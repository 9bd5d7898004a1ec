// schedos-boot.c: the boot loader reads whole sectors into memory.
module Boot {
  import opened Machine
  import opened Elf
  import opened DiskImage
  import opened MkBootDisk
  import opened Memory

  const ELFHDR := 0x10000

  // A byte of the disk; nothing is promised past its end, where this model has zeros.
  function DiskByte(disk: seq<Byte>, at: nat): Byte {
    if at < |disk| then disk[at] else 0
  }

  function RoundUp(x: nat): (r: nat)
    ensures x <= r < x + SECTOR && r % SECTOR == 0
  {
    SectorDivides(x + SECTOR - 1);
    RoundDown(x + SECTOR - 1, SECTOR)
  }

  lemma RoundUpUnique(x: nat, r: nat)
    requires x <= r < x + SECTOR && r % SECTOR == 0
    ensures r == RoundUp(x)
  {
  }

  // Everything readseg may write, from RoundDown(va, SECTOR) on: whole sectors, and the cleared end.
  function Top(va: nat, filesz: nat, memsz: nat): nat {
    if RoundUp(va + filesz) < va + memsz then va + memsz else RoundUp(va + filesz)
  }

  // What readseg leaves at address a, for a segment at va whose bytes in the file end at
  // end_va and whose memory ends at top.
  function SegByte(mem: seq<Byte>, disk: seq<Byte>, va: nat, end_va: nat, top: nat, sect: nat, a: nat): Byte
    requires a < |mem|
  {
    var start := RoundDown(va, SECTOR);
    if end_va <= a < top then 0
    else if start <= a < RoundUp(end_va) then DiskByte(disk, SECTOR * sect + (a - start))
    else mem[a]
  }

  function EndOf(va: Word, size: Word): (r: Word)
    ensures va + size < WORD ==> r == va + size
    ensures va + size == WORD ==> r == 0
  {
    (va + size) % WORD
  }

  // Memory after readseg has read a segment, when it ends; the sums wrap as the code's do.
  ghost function AfterReadSeg(mem: seq<Byte>, disk: seq<Byte>, va: Word, filesz: Word, memsz: Word, sect: nat)
    : (r: seq<Byte>)
    ensures |r| == |mem|
  {
    var end_va, top := EndOf(va, filesz), EndOf(va, memsz);
    seq(|mem|, a requires 0 <= a < |mem| => SegByte(mem, disk, va, end_va, top, sect, a))
  }

  /* When the sector loop ends */

  // The 32-bit address of sector k of a segment that starts at `start`.
  function SectorVa(start: nat, k: nat): Word {
    (start + SECTOR * k) % WORD
  }

  // `while (va < end_va)` comes to an end.
  ghost predicate SectorsEnd(start: nat, end_va: Word) {
    exists k: nat :: SectorVa(start, k) >= end_va
  }

  lemma SectorVaAligned(start: nat, k: nat)
    requires start % SECTOR == 0
    ensures SectorVa(start, k) % SECTOR == 0 && SectorVa(start, k) + SECTOR <= WORD
  {
    var x := start + SECTOR * k;
    assert x == WORD * (x / WORD) + SectorVa(start, k);
  }

  // Past the last sector of memory the address wraps to 0: the loop ends exactly when the
  // bytes end at or before the beginning of that sector.
  lemma SectorsEndExactly(start: Word, end_va: Word)
    requires start % SECTOR == 0
    ensures SectorsEnd(start, end_va) <==> end_va + SECTOR <= WORD
  {
    if end_va + SECTOR <= WORD {
      var k := (WORD - SECTOR - start) / SECTOR;
      assert start + SECTOR * k == WORD - SECTOR;
      assert SectorVa(start, k) >= end_va;
    } else {
      forall k: nat ensures SectorVa(start, k) < end_va {
        SectorVaAligned(start, k);
      }
    }
  }

  // The primitive: one sector into memory.
  method ReadSect(mem: array<Byte>, disk: seq<Byte>, dst: nat, sect: nat)
    requires dst + SECTOR <= mem.Length
    modifies mem
    ensures forall a :: 0 <= a < mem.Length ==>
      mem[a] == if dst <= a < dst + SECTOR then DiskByte(disk, SECTOR * sect + (a - dst)) else old(mem[a])
  {
    forall a | dst <= a < dst + SECTOR {
      mem[a] := DiskByte(disk, SECTOR * sect + (a - dst));
    }
  }

  lemma NextSector(va: Word)
    requires va % SECTOR == 0 && va + SECTOR <= WORD
    ensures (va + SECTOR) % WORD == if va + SECTOR == WORD then 0 else va + SECTOR
    ensures va + SECTOR < WORD ==> va + 2 * SECTOR <= WORD && (va + SECTOR) % SECTOR == 0
  {
  }

  lemma LastSector(va: Word)
    requires va % SECTOR == 0
    ensures va + SECTOR <= WORD
  {
  }

  // Where the loop stops is the end rounded up.
  lemma StopsAtRoundUp(start: Word, va: Word, end_va: Word)
    requires start % SECTOR == 0 && va % SECTOR == 0 && end_va <= va
    requires va == start || (start < va && va < end_va + SECTOR)
    ensures va == RoundUp(end_va) || (va == start && RoundUp(end_va) <= start)
  {
    if start < va || start < RoundUp(end_va) {
      RoundUpUnique(end_va, va);
    }
  }

  // The loop over the sectors. When the address wraps to 0 every later one is below end_va
  // again, so the loop never ends; this model stops there.
  method ReadSectors(mem: array<Byte>, disk: seq<Byte>, start: Word, end_va: Word, sect: nat) returns (ends: bool)
    requires mem.Length == WORD && start % SECTOR == 0
    modifies mem
    ensures ends <==> end_va + SECTOR <= WORD
    ensures ends ==> forall a :: 0 <= a < mem.Length ==>
      mem[a] == if start <= a < RoundUp(end_va) then DiskByte(disk, SECTOR * sect + (a - start)) else old(mem[a])
  {
    var va, s := start, sect;
    LastSector(va);
    while va < end_va
      invariant start <= va && va % SECTOR == 0 && va + SECTOR <= WORD
      invariant va - start == SECTOR * (s - sect)
      invariant va == start || va < end_va + SECTOR
      invariant forall a :: 0 <= a < mem.Length ==>
        mem[a] == if start <= a < va then DiskByte(disk, SECTOR * sect + (a - start)) else old(mem[a])
      decreases WORD - va
    {
      assert SECTOR * s - va == SECTOR * sect - start;
      ReadSect(mem, disk, va, s);
      NextSector(va);
      va, s := (va + SECTOR) % WORD, s + 1;
      if va == 0 {
        return false;
      }
    }
    ends := true;
    StopsAtRoundUp(start, va, end_va);
  }

  // readseg()
  method ReadSeg(mem: array<Byte>, disk: seq<Byte>, va: Word, filesz: Word, memsz: Word, sect: nat) returns (ends: bool)
    requires mem.Length == WORD
    modifies mem
    ensures ends <==> SectorsEnd(RoundDown(va, SECTOR), EndOf(va, filesz))
    ensures ends ==> mem[..] == AfterReadSeg(old(mem[..]), disk, va, filesz, memsz, sect)
  {
    var end_va, top := EndOf(va, filesz), EndOf(va, memsz);
    SectorDivides(va);
    SectorsEndExactly(RoundDown(va, SECTOR), end_va);
    ends := ReadSectors(mem, disk, RoundDown(va, SECTOR), end_va, sect);
    if ends {
      ClearTo(mem, end_va, top);
    }
  }

  /* Which kernels boot */

  // The file stands on the disk from sector 1 on.
  ghost predicate Holds(disk: seq<Byte>, file: seq<Byte>) {
    SECTOR + |file| <= |disk| && disk[SECTOR..SECTOR + |file|] == file
  }

  predicate Clear(h: Proghdr, lo: nat, hi: nat) {
    Top(h.va, h.filesz, h.memsz) <= lo || hi <= RoundDown(h.va, SECTOR)
  }

  predicate GoodSegment(file: seq<Byte>, h: Proghdr) {
    && h.va % SECTOR == h.offset % SECTOR
    && h.filesz <= h.memsz
    && NoWrap(h)
    && h.offset + h.filesz <= |file|
    && Clear(h, ELFHDR, ELFHDR + PAGE)
  }

  // Headers in the first page; segments congruent, in the file, free of wrap-around, and
  // with footprints that meet neither each other nor the scratch page.
  ghost predicate Bootable(file: seq<Byte>) {
    && HeadersWithin(file, if |file| < PAGE then |file| else PAGE)
    && (forall i :: 0 <= i < PhNum(file) ==> GoodSegment(file, Header(file, i)))
    && (forall i, j :: 0 <= i < j < PhNum(file) ==>
          var g := Header(file, j);
          Clear(Header(file, i), RoundDown(g.va, SECTOR), Top(g.va, g.filesz, g.memsz)))
  }

  ghost function AfterLoad(mem: seq<Byte>, disk: seq<Byte>, h: Proghdr): (r: seq<Byte>)
    ensures |r| == |mem|
  {
    AfterReadSeg(mem, disk, h.va, h.filesz, h.memsz, 1 + h.offset / SECTOR)
  }

  // readseg ends and, whatever the file and memory held, the segment is loaded.
  ghost predicate AlwaysLoads(h: Proghdr)
    requires h.va + h.memsz <= WORD
  {
    && SectorsEnd(RoundDown(h.va, SECTOR), EndOf(h.va, h.filesz))
    && forall mem: seq<Byte>, disk: seq<Byte>, file: seq<Byte> | Reads(mem, disk, file, h) ::
         SegmentLoaded(AfterLoad(mem, disk, h), file, h)
  }

  // The file is on the disk and has the segment's bytes.
  ghost predicate Reads(mem: seq<Byte>, disk: seq<Byte>, file: seq<Byte>, h: Proghdr) {
    |mem| == WORD && Holds(disk, file) && h.offset + h.filesz <= |file|
  }

  // Nothing wraps: the memory of the segment ends below 2^32, and its bytes end before the
  // last sector does.
  predicate NoWrap(h: Proghdr) {
    h.va + h.memsz < WORD && h.va + h.filesz + SECTOR <= WORD
  }

  predicate Congruent(h: Proghdr) {
    h.va % SECTOR == h.offset % SECTOR || h.filesz == 0
  }

  // A segment that fits in memory is loaded from every file exactly when nothing wraps and
  // its address and offset agree modulo the sector size, or it has no bytes in the file.
  lemma CongruenceIsExact(h: Proghdr)
    requires h.filesz <= h.memsz && h.va + h.memsz <= WORD
    ensures AlwaysLoads(h) <==> NoWrap(h) && Congruent(h)
  {
    SectorDivides(h.va);
    SectorsEndExactly(RoundDown(h.va, SECTOR), EndOf(h.va, h.filesz));
    if NoWrap(h) && Congruent(h) {
      forall mem: seq<Byte>, disk: seq<Byte>, file: seq<Byte>
        | Reads(mem, disk, file, h)
        ensures SegmentLoaded(AfterLoad(mem, disk, h), file, h)
      {
        CongruentLoads(mem, disk, file, h);
      }
    } else if NoWrap(h) {
      IncongruentFails(h);
    } else if h.va + h.memsz == WORD && EndOf(h.va, h.filesz) + SECTOR <= WORD {
      EndOfMemoryFails(h);
    }
  }

  lemma CongruentLoads(mem: seq<Byte>, disk: seq<Byte>, file: seq<Byte>, h: Proghdr)
    requires h.filesz <= h.memsz && NoWrap(h) && Congruent(h)
    requires Reads(mem, disk, file, h)
    ensures SegmentLoaded(AfterLoad(mem, disk, h), file, h)
  {
    forall a | h.va <= a < h.va + h.filesz
      ensures AfterLoad(mem, disk, h)[a] == file[h.offset + (a - h.va)]
    {
      assert SECTOR * (1 + h.offset / SECTOR) + (a - RoundDown(h.va, SECTOR)) == SECTOR + h.offset + (a - h.va);
      assert disk[SECTOR..SECTOR + |file|][h.offset + (a - h.va)] == file[h.offset + (a - h.va)];
    }
  }

  // On a disk with one byte set, the one that ends up at the segment's address.
  lemma IncongruentFails(h: Proghdr)
    requires h.filesz <= h.memsz && NoWrap(h) && !Congruent(h)
    ensures !AlwaysLoads(h)
  {
    var at := SECTOR * (1 + h.offset / SECTOR) + (h.va - RoundDown(h.va, SECTOR));
    var size := h.offset + h.filesz;
    var disk: seq<Byte> := seq(SECTOR + size + SECTOR, k => if k == at then 1 else 0);
    var file: seq<Byte> := disk[SECTOR..SECTOR + size];
    var mem: seq<Byte> := seq(WORD, k => 0);
    assert at != SECTOR + h.offset && at < |disk|;
    assert file[h.offset] == disk[SECTOR + h.offset] == 0;
    assert AfterLoad(mem, disk, h)[h.va] == disk[at] == 1;
    assert Reads(mem, disk, file, h);
    assert !SegmentLoaded(AfterLoad(mem, disk, h), file, h);
  }

  // The end of such a segment wraps to 0: the last byte of memory is neither read nor
  // cleared, which shows in a memory of ones and a disk of zeros.
  lemma EndOfMemoryFails(h: Proghdr)
    requires h.filesz <= h.memsz && h.va + h.memsz == WORD && EndOf(h.va, h.filesz) + SECTOR <= WORD
    ensures !AlwaysLoads(h)
  {
    var size := h.offset + h.filesz;
    var disk: seq<Byte> := seq(SECTOR + size, k => 0);
    var file: seq<Byte> := disk[SECTOR..SECTOR + size];
    var mem: seq<Byte> := seq(WORD, k => 1);
    assert Reads(mem, disk, file, h);
    assert AfterLoad(mem, disk, h)[WORD - 1] == 1;
    assert !SegmentLoaded(AfterLoad(mem, disk, h), file, h);
  }

  ghost predicate PageLoaded(mem: seq<Byte>, file: seq<Byte>) {
    && ELFHDR + PAGE <= |mem|
    && forall k :: 0 <= k < |file| && k < PAGE ==> mem[ELFHDR + k] == file[k]
  }

  ghost predicate Outside(file: seq<Byte>, n: nat, a: nat)
    requires HeadersWithin(file, if |file| < PAGE then |file| else PAGE) && n <= PhNum(file)
  {
    && !(ELFHDR <= a < ELFHDR + PAGE)
    && forall i :: 0 <= i < n ==>
         var h := Header(file, i);
         !(RoundDown(h.va, SECTOR) <= a < Top(h.va, h.filesz, h.memsz))
  }

  lemma PageHasHeader(mem: seq<Byte>, file: seq<Byte>, i: nat)
    requires PageLoaded(mem, file) && HeadersWithin(file, if |file| < PAGE then |file| else PAGE)
    requires i < PhNum(file)
    ensures PhOff(file) + PHDR_SIZE * i + PHDR_SIZE <= PAGE
    ensures ProghdrAt(mem, ELFHDR + PhOff(file) + PHDR_SIZE * i) == Header(file, i)
  {
  }

  // Reading a segment loads it, and nothing outside its sectors changes.
  lemma SegmentBytes(was: seq<Byte>, disk: seq<Byte>, file: seq<Byte>, h: Proghdr)
    requires |was| == WORD && Holds(disk, file) && GoodSegment(file, h)
    ensures var mem := AfterLoad(was, disk, h);
      && SegmentLoaded(mem, file, h)
      && forall a :: 0 <= a < |mem| && !(RoundDown(h.va, SECTOR) <= a < Top(h.va, h.filesz, h.memsz)) ==>
           mem[a] == was[a]
  {
    CongruentLoads(was, disk, file, h);
    FrameOfLoad(was, disk, h);
  }

  lemma FrameOfLoad(was: seq<Byte>, disk: seq<Byte>, h: Proghdr)
    requires |was| == WORD && NoWrap(h)
    ensures var mem := AfterLoad(was, disk, h);
      forall a :: 0 <= a < |mem| && !(RoundDown(h.va, SECTOR) <= a < Top(h.va, h.filesz, h.memsz)) ==>
        mem[a] == was[a]
  {
  }

  // Segment i stays loaded through writes that keep clear of it.
  lemma StaysLoaded(was: seq<Byte>, mem: seq<Byte>, file: seq<Byte>, h: Proghdr, lo: nat, hi: nat)
    requires |was| == |mem| == WORD && GoodSegment(file, h) && SegmentLoaded(was, file, h)
    requires Clear(h, lo, hi)
    requires forall a :: 0 <= a < |mem| && !(lo <= a < hi) ==> mem[a] == was[a]
    ensures SegmentLoaded(mem, file, h)
  {
  }

  ghost predicate LoadedUpTo(mem: seq<Byte>, was: seq<Byte>, file: seq<Byte>, n: nat)
    requires |mem| == |was| == WORD && Bootable(file) && n <= PhNum(file)
  {
    && PageLoaded(mem, file)
    && (forall i :: 0 <= i < n ==> SegmentLoaded(mem, file, Header(file, i)))
    && (forall a: nat :: a < |mem| && Outside(file, n, a) ==> mem[a] == was[a])
  }

  lemma OutsideStays(was: seq<Byte>, before: seq<Byte>, mem: seq<Byte>, file: seq<Byte>, n: nat)
    requires |was| == |before| == |mem| == WORD && Bootable(file) && n < PhNum(file)
    requires LoadedUpTo(before, was, file, n)
    requires var h := Header(file, n);
      forall a :: 0 <= a < |mem| && !(RoundDown(h.va, SECTOR) <= a < Top(h.va, h.filesz, h.memsz)) ==>
        mem[a] == before[a]
    ensures PageLoaded(mem, file)
    ensures forall a: nat :: a < |mem| && Outside(file, n + 1, a) ==> mem[a] == was[a]
  {
    assert Clear(Header(file, n), ELFHDR, ELFHDR + PAGE);
    forall a: nat | a < |mem| && Outside(file, n + 1, a) ensures mem[a] == was[a] {
      assert Outside(file, n, a);
    }
  }

  lemma EarlierStays(before: seq<Byte>, mem: seq<Byte>, file: seq<Byte>, i: nat, n: nat)
    requires |before| == |mem| == WORD && Bootable(file) && i < n < PhNum(file)
    requires GoodSegment(file, Header(file, i)) && SegmentLoaded(before, file, Header(file, i))
    requires var h := Header(file, n);
      forall a :: 0 <= a < |mem| && !(RoundDown(h.va, SECTOR) <= a < Top(h.va, h.filesz, h.memsz)) ==>
        mem[a] == before[a]
    ensures SegmentLoaded(mem, file, Header(file, i))
  {
    var h := Header(file, n);
    StaysLoaded(before, mem, file, Header(file, i), RoundDown(h.va, SECTOR), Top(h.va, h.filesz, h.memsz));
  }

  lemma OneMoreSegment(was: seq<Byte>, before: seq<Byte>, mem: seq<Byte>, file: seq<Byte>, n: nat)
    requires |was| == |before| == |mem| == WORD && Bootable(file) && n < PhNum(file)
    requires LoadedUpTo(before, was, file, n)
    requires SegmentLoaded(mem, file, Header(file, n))
    requires var h := Header(file, n);
      forall a :: 0 <= a < |mem| && !(RoundDown(h.va, SECTOR) <= a < Top(h.va, h.filesz, h.memsz)) ==>
        mem[a] == before[a]
    ensures LoadedUpTo(mem, was, file, n + 1)
  {
    forall i | 0 <= i < n ensures SegmentLoaded(mem, file, Header(file, i)) {
      EarlierStays(before, mem, file, i, n);
    }
    OutsideStays(was, before, mem, file, n);
  }

  // After reading segment n.
  lemma ReadOneMore(was: seq<Byte>, before: seq<Byte>, disk: seq<Byte>, file: seq<Byte>, n: nat)
    requires |was| == |before| == WORD && Holds(disk, file) && Bootable(file) && n < PhNum(file)
    requires LoadedUpTo(before, was, file, n)
    ensures LoadedUpTo(AfterLoad(before, disk, Header(file, n)), was, file, n + 1)
  {
    SegmentBytes(before, disk, file, Header(file, n));
    OneMoreSegment(was, before, AfterLoad(before, disk, Header(file, n)), file, n);
  }

  lemma GoodSegmentEnds(file: seq<Byte>, h: Proghdr)
    requires GoodSegment(file, h)
    ensures SectorsEnd(RoundDown(h.va, SECTOR), EndOf(h.va, h.filesz))
  {
    SectorDivides(h.va);
    SectorsEndExactly(RoundDown(h.va, SECTOR), EndOf(h.va, h.filesz));
  }

  // Header n is ready to be read, and what reading its segment comes to.
  lemma NextHeader(was: seq<Byte>, now: seq<Byte>, disk: seq<Byte>, file: seq<Byte>, n: nat)
    requires |was| == |now| == WORD && Holds(disk, file) && Bootable(file) && n < PhNum(file)
    requires LoadedUpTo(now, was, file, n)
    ensures var ph, h := ELFHDR + PhOff(file) + PHDR_SIZE * n, Header(file, n);
      && ph + PHDR_SIZE <= WORD && ProghdrAt(now, ph) == h
      && SectorsEnd(RoundDown(h.va, SECTOR), EndOf(h.va, h.filesz))
      && LoadedUpTo(AfterLoad(now, disk, h), was, file, n + 1)
  {
    PageHasHeader(now, file, n);
    GoodSegmentEnds(file, Header(file, n));
    ReadOneMore(was, now, disk, file, n);
  }

  // The fields of the ELF header in the scratch page.
  lemma HeaderFields(mem: seq<Byte>, file: seq<Byte>)
    requires PageLoaded(mem, file) && EHDR_SIZE <= |file|
    ensures Le32(mem, ELFHDR) == Magic(file) && Le32(mem, ELFHDR + 24) == EntryPoint(file)
    ensures Le32(mem, ELFHDR + 28) == PhOff(file) && Le16(mem, ELFHDR + 44) == PhNum(file)
  {
  }

  // The body of the loop over the headers.
  method ReadNext(mem: array<Byte>, disk: seq<Byte>, ph: nat,
                  ghost was: seq<Byte>, ghost now: seq<Byte>, ghost file: seq<Byte>, ghost n: nat)
    returns (ghost next: seq<Byte>)
    requires |was| == mem.Length == WORD && Holds(disk, file) && Bootable(file) && n < PhNum(file)
    requires now == mem[..] && LoadedUpTo(now, was, file, n)
    requires ph == ELFHDR + PhOff(file) + PHDR_SIZE * n
    modifies mem
    ensures next == mem[..] && LoadedUpTo(next, was, file, n + 1)
  {
    NextHeader(was, now, disk, file, n);
    ReadHeader(mem, disk, ph, Header(file, n));
    next := AfterLoad(now, disk, Header(file, n));
  }

  method ReadHeader(mem: array<Byte>, disk: seq<Byte>, ph: nat, ghost h: Proghdr)
    requires mem.Length == WORD && ph + PHDR_SIZE <= WORD && ProghdrAt(mem[..], ph) == h
    requires SectorsEnd(RoundDown(h.va, SECTOR), EndOf(h.va, h.filesz))
    modifies mem
    ensures mem[..] == AfterLoad(old(mem[..]), disk, h)
  {
    var header := ProghdrAt(mem[..], ph);
    var sect := 1 + header.offset / SECTOR;
    var ends := ReadSeg(mem, disk, header.va, header.filesz, header.memsz, sect);
  }

  // The loop over the headers.
  method ReadSegments(mem: array<Byte>, disk: seq<Byte>, ghost was: seq<Byte>, ghost file: seq<Byte>)
    requires |was| == mem.Length == WORD && Holds(disk, file) && Bootable(file)
    requires LoadedUpTo(mem[..], was, file, 0)
    modifies mem
    ensures LoadedUpTo(mem[..], was, file, PhNum(file))
  {
    HeaderFields(mem[..], file);
    var ph := ELFHDR + Le32(mem[..], ELFHDR + 28);
    var eph := ph + PHDR_SIZE * Le16(mem[..], ELFHDR + 44);
    ghost var n, now := 0, mem[..];
    while ph < eph
      invariant n <= PhNum(file) && ph == ELFHDR + PhOff(file) + PHDR_SIZE * n
      invariant now == mem[..] && LoadedUpTo(now, was, file, n)
    {
      now := ReadNext(mem, disk, ph, was, now, file, n);
      ph := ph + PHDR_SIZE;
      n := n + 1;
    }
  }

  // bootmain(): every segment of the kernel file is in place, and nothing outside the
  // segments and the scratch page has changed; a file without the magic is refused.
  method BootMain(mem: array<Byte>, disk: seq<Byte>, ghost file: seq<Byte>) returns (ok: bool, entry: Word)
    requires mem.Length == WORD && Holds(disk, file) && EHDR_SIZE <= |file|
    requires Magic(file) == ELF_MAGIC ==> Bootable(file)
    modifies mem
    ensures ok <==> file[0] == 0x7F && file[1] == 0x45 && file[2] == 0x4C && file[3] == 0x46
    ensures ok ==> LoadedUpTo(mem[..], old(mem[..]), file, PhNum(file)) && entry == EntryPoint(file)
    ensures !ok ==> forall a :: 0 <= a < mem.Length && !(ELFHDR <= a < ELFHDR + PAGE) ==> mem[a] == old(mem[a])
  {
    ghost var was := mem[..];
    SectorsEndExactly(ELFHDR, ELFHDR + PAGE);
    var ends := ReadSeg(mem, disk, ELFHDR, PAGE, PAGE, 1);
    FirstPage(was, mem[..], disk, file);
    HeaderFields(mem[..], file);
    MagicIsElf(file);
    if Le32(mem[..], ELFHDR) != ELF_MAGIC {
      return false, 0;
    }
    ReadSegments(mem, disk, was, file);
    HeaderFields(mem[..], file);
    return true, Le32(mem[..], ELFHDR + 24);
  }

  lemma FirstPage(was: seq<Byte>, mem: seq<Byte>, disk: seq<Byte>, file: seq<Byte>)
    requires |was| == |mem| == WORD && Holds(disk, file) && EHDR_SIZE <= |file|
    requires mem == AfterReadSeg(was, disk, ELFHDR, PAGE, PAGE, 1)
    ensures PageLoaded(mem, file)
    ensures forall a :: 0 <= a < |mem| && !(ELFHDR <= a < ELFHDR + PAGE) ==> mem[a] == was[a]
  {
    forall k | 0 <= k < |file| && k < PAGE ensures mem[ELFHDR + k] == file[k] {
      assert disk[SECTOR..SECTOR + |file|][k] == file[k];
    }
  }

  /* End to end */

  lemma ImageHoldsKernel(boot: seq<Byte>, kernel: seq<Byte>, rest: seq<Arg>)
    requires |boot| <= 510 && Accepted([File(kernel)] + rest)
    ensures Holds(Image(boot, [File(kernel)] + rest), kernel)
  {
    FilesInPlace(boot, [File(kernel)] + rest, 0);
  }

  // Outside the scratch page, and outside the sectors and the memory of every segment.
  ghost predicate Untouched(file: seq<Byte>, a: nat)
    requires HeadersWithin(file, |file|)
  {
    && (a < 0x10000 || 0x11000 <= a)
    && forall i :: 0 <= i < PhNum(file) ==> Beyond(Header(file, i), a)
  }

  predicate Beyond(h: Proghdr, a: nat) {
    || a < h.va - h.va % 512
    || (h.va + h.memsz <= a && (h.va + h.filesz + 511) / 512 * 512 <= a)
  }

  lemma RoundUpInNumbers(x: nat)
    ensures RoundUp(x) == (x + 511) / 512 * 512
  {
  }

  lemma UntouchedIsOutside(file: seq<Byte>, a: nat)
    requires Bootable(file) && Untouched(file, a)
    ensures Outside(file, PhNum(file), a)
  {
    forall i | 0 <= i < PhNum(file)
      ensures var h := Header(file, i); !(RoundDown(h.va, SECTOR) <= a < Top(h.va, h.filesz, h.memsz))
    {
      BeyondSegment(Header(file, i), a);
    }
  }

  lemma BeyondSegment(h: Proghdr, a: nat)
    requires Beyond(h, a)
    ensures !(RoundDown(h.va, SECTOR) <= a < Top(h.va, h.filesz, h.memsz))
  {
    RoundUpInNumbers(h.va + h.filesz);
  }

  lemma LoadedInFull(mem: seq<Byte>, was: seq<Byte>, file: seq<Byte>)
    requires |mem| == |was| == WORD && Bootable(file) && LoadedUpTo(mem, was, file, PhNum(file))
    ensures forall i :: 0 <= i < PhNum(file) ==>
      var h := Header(file, i);
      && (forall a :: h.va <= a < h.va + h.filesz ==> mem[a] == file[h.offset + (a - h.va)])
      && (forall a :: h.va + h.filesz <= a < h.va + h.memsz ==> mem[a] == 0)
    ensures forall a: nat :: a < |mem| && Untouched(file, a) ==> mem[a] == was[a]
  {
    forall i | 0 <= i < PhNum(file)
      ensures var h := Header(file, i);
        && (forall a :: h.va <= a < h.va + h.filesz ==> mem[a] == file[h.offset + (a - h.va)])
        && (forall a :: h.va + h.filesz <= a < h.va + h.memsz ==> mem[a] == 0)
    {
      assert SegmentLoaded(mem, file, Header(file, i));
    }
    forall a: nat | a < |mem| && Untouched(file, a) ensures mem[a] == was[a] {
      UntouchedIsOutside(file, a);
    }
  }

  // mkbootdisk followed by the boot loader: with the kernel right after the boot sector,
  // memory holds the kernel's segments.
  method BuildAndBoot(boot: seq<Byte>, kernel: seq<Byte>, rest: seq<Arg>, results: seq<WriteResult>, mem: array<Byte>)
    returns (built: bool, booted: bool, entry: Word)
    requires mem.Length == WORD
    requires EHDR_SIZE <= |kernel| && (Magic(kernel) == ELF_MAGIC ==> Bootable(kernel))
    modifies mem
    ensures NoFailure(results) ==> (built <==> |boot| <= 510 && Accepted([File(kernel)] + rest))
    ensures built ==>
      (booted <==> kernel[0] == 0x7F && kernel[1] == 0x45 && kernel[2] == 0x4C && kernel[3] == 0x46)
    ensures built && booted ==> entry == EntryPoint(kernel)
    ensures built && booted ==> forall i :: 0 <= i < PhNum(kernel) ==>
      var h := Header(kernel, i);
      && (forall a :: h.va <= a < h.va + h.filesz ==> mem[a] == kernel[h.offset + (a - h.va)])
      && (forall a :: h.va + h.filesz <= a < h.va + h.memsz ==> mem[a] == 0)
    ensures built && booted ==> forall a: nat :: a < mem.Length && Untouched(kernel, a) ==> mem[a] == old(mem[..])[a]
    ensures !built ==> mem[..] == old(mem[..])
  {
    var out := new Output(results);
    built := out.MakeImage(boot, [File(kernel)] + rest);
    booted, entry := false, 0;
    if built {
      ImageHoldsKernel(boot, kernel, rest);
      ghost var was := mem[..];
      booted, entry := BootMain(mem, out.image, kernel);
      MagicIsElf(kernel);
      if booted {
        LoadedInFull(mem[..], was, kernel);
      }
    }
  }
}
