// schedos-loader.c: an application is copied out of its RAM image, within one memory.
module Loader {
  import opened Machine
  import opened Elf
  import opened Memory

  const CONSOLE := 0xB8000

  // What copyseg leaves at address a. The destination is rounded down to its page but the
  // source is not.
  function CopyByte(mem: seq<Byte>, dst: nat, src: nat, filesz: nat, memsz: nat, a: nat): Byte
    requires a < |mem| && src + (dst - RoundDown(dst, PAGE)) + filesz <= |mem|
  {
    if dst + filesz <= a < dst + memsz then 0
    else if RoundDown(dst, PAGE) <= a < dst + filesz then mem[src + (a - RoundDown(dst, PAGE))]
    else mem[a]
  }

  method CopySeg(mem: array<Byte>, dst: Word, src: Word, filesz: Word, memsz: Word)
    requires mem.Length == WORD
    requires dst + filesz < WORD && dst + memsz < WORD
    requires src + (dst - RoundDown(dst, PAGE)) + filesz <= WORD
    requires !(src < RoundDown(dst, PAGE) < src + (dst - RoundDown(dst, PAGE)) + filesz)
    modifies mem
    ensures forall a :: 0 <= a < mem.Length ==> mem[a] == CopyByte(old(mem[..]), dst, src, filesz, memsz, a)
    ensures filesz <= memsz ==> mem[..] == AfterCopySeg(old(mem[..]), dst, src, filesz, memsz)
  {
    ghost var was := mem[..];
    var va, end_va := RoundDown(dst, PAGE), dst + filesz;
    MemCpy(mem, va, src, end_va - va);
    ClearTo(mem, end_va, dst + memsz);
    forall a | 0 <= a < mem.Length ensures mem[a] == CopyByte(was, dst, src, filesz, memsz, a) {
      CopiedByte(was, va, src, dst + filesz - va, a);
    }
  }

  lemma CopiedByte(was: seq<Byte>, va: nat, src: nat, n: nat, a: nat)
    requires a < |was| && va + n <= |was| && src + n <= |was|
    ensures Put(was, va, was[src..src + n])[a] == if va <= a < va + n then was[src + (a - va)] else was[a]
  {
  }

  // What copyseg demands: no wrap-around, and a rounded destination that does not start
  // inside the source.
  predicate Copyable(dst: nat, src: nat, filesz: nat, memsz: nat) {
    && filesz <= memsz && dst + memsz < WORD
    && src + (dst - RoundDown(dst, PAGE)) + filesz <= WORD
    && !(src < RoundDown(dst, PAGE) < src + (dst - RoundDown(dst, PAGE)) + filesz)
  }

  ghost function AfterCopySeg(mem: seq<Byte>, dst: nat, src: nat, filesz: nat, memsz: nat): (r: seq<Byte>)
    requires |mem| == WORD && Copyable(dst, src, filesz, memsz)
    ensures |r| == |mem|
  {
    seq(|mem|, a requires 0 <= a < |mem| => CopyByte(mem, dst, src, filesz, memsz, a))
  }

  // The segment contract for one call: file bytes, zeros, and nothing else changed.
  ghost predicate MeetsContract(mem: seq<Byte>, dst: Word, src: nat, filesz: Word, memsz: Word)
    requires |mem| == WORD && Copyable(dst, src, filesz, memsz)
  {
    var r := AfterCopySeg(mem, dst, src, filesz, memsz);
    && SegmentLoaded(r, mem[src..src + filesz], Proghdr(ELF_PROG_LOAD, 0, dst, filesz, memsz))
    && forall a :: 0 <= a < |mem| && !(dst <= a < dst + memsz) ==> r[a] == mem[a]
  }

  // The contract is met whatever memory holds exactly when the destination is page-aligned,
  // or there is nothing in the file and what lies below the destination is copied onto itself.
  lemma AlignmentIsExact(dst: Word, src: nat, filesz: Word, memsz: Word)
    requires Copyable(dst, src, filesz, memsz)
    ensures (forall mem: seq<Byte> :: |mem| == WORD ==> MeetsContract(mem, dst, src, filesz, memsz)) <==>
      dst % PAGE == 0 || (filesz == 0 && src == RoundDown(dst, PAGE))
  {
    if dst % PAGE == 0 || (filesz == 0 && src == RoundDown(dst, PAGE)) {
      forall mem: seq<Byte> | |mem| == WORD ensures MeetsContract(mem, dst, src, filesz, memsz) {
        AlignedMeets(mem, dst, src, filesz, memsz);
      }
    } else {
      UnalignedFails(dst, src, filesz, memsz);
    }
  }

  lemma AlignedMeets(mem: seq<Byte>, dst: Word, src: nat, filesz: Word, memsz: Word)
    requires |mem| == WORD && Copyable(dst, src, filesz, memsz)
    requires dst % PAGE == 0 || (filesz == 0 && src == RoundDown(dst, PAGE))
    ensures MeetsContract(mem, dst, src, filesz, memsz)
  {
  }

  // In a memory with one byte set, the first of the source.
  lemma UnalignedFails(dst: Word, src: nat, filesz: Word, memsz: Word)
    requires Copyable(dst, src, filesz, memsz)
    requires dst % PAGE != 0 && !(filesz == 0 && src == RoundDown(dst, PAGE))
    ensures exists mem: seq<Byte> :: |mem| == WORD && !MeetsContract(mem, dst, src, filesz, memsz)
  {
    var mem: seq<Byte> := seq(WORD, a => if a == src then 1 else 0);
    var r := AfterCopySeg(mem, dst, src, filesz, memsz);
    if 0 < filesz {
      assert r[dst] == mem[src + (dst - RoundDown(dst, PAGE))] == 0;
      assert mem[src..src + filesz][0] == 1;
    } else {
      assert r[RoundDown(dst, PAGE)] == mem[src] == 1;
    }
    assert !MeetsContract(mem, dst, src, filesz, memsz);
  }

  predicate Loads(h: Proghdr) {
    h.ptype == ELF_PROG_LOAD
  }

  // p_va page-aligned, the bytes within the image, no wrap-around, and memory apart from
  // the RAM image that is being read.
  predicate GoodSegment(image: seq<Byte>, begin: nat, h: Proghdr) {
    && h.va % PAGE == 0
    && h.filesz <= h.memsz
    && h.va + h.memsz < WORD
    && h.offset + h.filesz <= |image|
    && (h.va + h.memsz <= begin || begin + |image| <= h.va)
  }

  predicate Apart(g: Proghdr, h: Proghdr) {
    g.va + g.memsz <= h.va || h.va + h.memsz <= g.va
  }

  ghost predicate Loadable(image: seq<Byte>, begin: nat) {
    && HeadersWithin(image, |image|)
    && begin + |image| < WORD
    && (forall i :: 0 <= i < PhNum(image) && Loads(Header(image, i)) ==> GoodSegment(image, begin, Header(image, i)))
    && (forall i, j | 0 <= i < j < PhNum(image) ::
          Loads(Header(image, i)) && Loads(Header(image, j)) ==> Apart(Header(image, i), Header(image, j)))
  }

  ghost predicate Outside(image: seq<Byte>, n: nat, a: nat)
    requires HeadersWithin(image, |image|) && n <= PhNum(image)
  {
    forall i :: 0 <= i < n ==>
      var h := Header(image, i);
      Loads(h) ==> !(h.va <= a < h.va + h.memsz)
  }

  // The first n headers are dealt with and nothing else has changed.
  ghost predicate LoadedUpTo(mem: seq<Byte>, was: seq<Byte>, image: seq<Byte>, begin: nat, n: nat)
    requires |mem| == |was| == WORD && Loadable(image, begin) && n <= PhNum(image)
  {
    && mem[begin..begin + |image|] == image
    && (forall i :: 0 <= i < n && Loads(Header(image, i)) ==> SegmentLoaded(mem, image, Header(image, i)))
    && (forall a: nat :: a < |mem| && Outside(image, n, a) ==> mem[a] == was[a])
  }

  // Copying a segment loads it and touches nothing else.
  lemma SegmentBytes(before: seq<Byte>, image: seq<Byte>, begin: nat, h: Proghdr)
    requires |before| == WORD && begin + |image| < WORD
    requires before[begin..begin + |image|] == image && GoodSegment(image, begin, h)
    requires Copyable(h.va, begin + h.offset, h.filesz, h.memsz)
    ensures var mem := AfterCopySeg(before, h.va, begin + h.offset, h.filesz, h.memsz);
      && SegmentLoaded(mem, image, h)
      && (forall a :: 0 <= a < |mem| && !(h.va <= a < h.va + h.memsz) ==> mem[a] == before[a])
  {
    var mem := AfterCopySeg(before, h.va, begin + h.offset, h.filesz, h.memsz);
    forall a | h.va <= a < h.va + h.filesz ensures mem[a] == image[h.offset + (a - h.va)] {
      assert before[begin..begin + |image|][h.offset + (a - h.va)] == image[h.offset + (a - h.va)];
    }
  }

  lemma ImageKept(before: seq<Byte>, mem: seq<Byte>, image: seq<Byte>, begin: nat, h: Proghdr)
    requires |before| == |mem| == WORD && begin + |image| < WORD && GoodSegment(image, begin, h)
    requires before[begin..begin + |image|] == image
    requires forall a :: 0 <= a < |mem| && !(h.va <= a < h.va + h.memsz) ==> mem[a] == before[a]
    ensures mem[begin..begin + |image|] == image
  {
    forall k | 0 <= k < |image| ensures mem[begin + k] == image[k] {
      assert before[begin..begin + |image|][k] == image[k];
    }
  }

  lemma StaysLoaded(before: seq<Byte>, mem: seq<Byte>, image: seq<Byte>, begin: nat, g: Proghdr, h: Proghdr)
    requires |before| == |mem| == WORD && GoodSegment(image, begin, g) && SegmentLoaded(before, image, g)
    requires Apart(g, h)
    requires forall a :: 0 <= a < |mem| && !(h.va <= a < h.va + h.memsz) ==> mem[a] == before[a]
    ensures SegmentLoaded(mem, image, g)
  {
  }

  lemma OutsideStays(was: seq<Byte>, before: seq<Byte>, mem: seq<Byte>, image: seq<Byte>, begin: nat, n: nat)
    requires |was| == |before| == |mem| == WORD && Loadable(image, begin) && n < PhNum(image)
    requires LoadedUpTo(before, was, image, begin, n)
    requires var h := Header(image, n);
      forall a :: 0 <= a < |mem| && !(Loads(h) && h.va <= a < h.va + h.memsz) ==> mem[a] == before[a]
    ensures forall a: nat :: a < |mem| && Outside(image, n + 1, a) ==> mem[a] == was[a]
  {
    forall a: nat | a < |mem| && Outside(image, n + 1, a) ensures mem[a] == was[a] {
      assert Outside(image, n, a);
    }
  }

  lemma SkipSegment(was: seq<Byte>, mem: seq<Byte>, image: seq<Byte>, begin: nat, n: nat)
    requires |was| == |mem| == WORD && Loadable(image, begin) && n < PhNum(image)
    requires !Loads(Header(image, n)) && LoadedUpTo(mem, was, image, begin, n)
    ensures LoadedUpTo(mem, was, image, begin, n + 1)
  {
    OutsideStays(was, mem, mem, image, begin, n);
  }

  lemma OneMoreSegment(was: seq<Byte>, before: seq<Byte>, mem: seq<Byte>, image: seq<Byte>, begin: nat, n: nat)
    requires |was| == |before| == |mem| == WORD && Loadable(image, begin) && n < PhNum(image)
    requires Loads(Header(image, n)) && LoadedUpTo(before, was, image, begin, n)
    requires SegmentLoaded(mem, image, Header(image, n)) && mem[begin..begin + |image|] == image
    requires var h := Header(image, n);
      forall a :: 0 <= a < |mem| && !(h.va <= a < h.va + h.memsz) ==> mem[a] == before[a]
    ensures LoadedUpTo(mem, was, image, begin, n + 1)
  {
    var h := Header(image, n);
    forall i | 0 <= i < n && Loads(Header(image, i)) ensures SegmentLoaded(mem, image, Header(image, i)) {
      StaysLoaded(before, mem, image, begin, Header(image, i), h);
    }
    OutsideStays(was, before, mem, image, begin, n);
  }

  // The body of the loop over the headers.
  method LoadSegment(mem: array<Byte>, begin: nat, ph: nat,
                     ghost was: seq<Byte>, ghost now: seq<Byte>, ghost image: seq<Byte>, ghost n: nat)
    returns (ghost next: seq<Byte>)
    requires |was| == mem.Length == WORD && Loadable(image, begin) && n < PhNum(image)
    requires now == mem[..] && LoadedUpTo(now, was, image, begin, n)
    requires ph == begin + PhOff(image) + PHDR_SIZE * n
    modifies mem
    ensures next == mem[..] && LoadedUpTo(next, was, image, begin, n + 1)
  {
    NextSegment(was, now, image, begin, n);
    next := AfterHeader(now, begin, Header(image, n));
    CopyHeader(mem, begin, ph, Header(image, n));
  }

  // Memory after one header is dealt with.
  ghost function AfterHeader(now: seq<Byte>, begin: nat, h: Proghdr): (r: seq<Byte>)
    requires |now| == WORD
    ensures |r| == |now|
  {
    if Ready(begin, h) then AfterCopySeg(now, h.va, begin + h.offset, h.filesz, h.memsz) else now
  }

  predicate Ready(begin: nat, h: Proghdr) {
    Loads(h) && begin + h.offset < WORD && Copyable(h.va, begin + h.offset, h.filesz, h.memsz)
  }

  method CopyHeader(mem: array<Byte>, begin: nat, ph: nat, ghost h: Proghdr)
    requires mem.Length == WORD && ph + PHDR_SIZE <= WORD && ProghdrAt(mem[..], ph) == h
    requires Loads(h) ==> Ready(begin, h)
    modifies mem
    ensures mem[..] == AfterHeader(old(mem[..]), begin, h)
  {
    var header := ProghdrAt(mem[..], ph);
    if header.ptype == ELF_PROG_LOAD {
      CopySeg(mem, header.va, begin + header.offset, header.filesz, header.memsz);
    }
  }

  // Header n is ready to be dealt with, and what dealing with it comes to.
  lemma NextSegment(was: seq<Byte>, now: seq<Byte>, image: seq<Byte>, begin: nat, n: nat)
    requires |was| == |now| == WORD && Loadable(image, begin) && n < PhNum(image)
    requires LoadedUpTo(now, was, image, begin, n)
    ensures var ph, h := begin + PhOff(image) + PHDR_SIZE * n, Header(image, n);
      && ph + PHDR_SIZE <= WORD && ProghdrAt(now, ph) == h
      && (Loads(h) ==> Ready(begin, h))
    ensures LoadedUpTo(AfterHeader(now, begin, Header(image, n)), was, image, begin, n + 1)
  {
    ProghdrInMemory(now, image, begin, n);
    HeaderDone(was, now, image, begin, n);
  }

  lemma HeaderDone(was: seq<Byte>, now: seq<Byte>, image: seq<Byte>, begin: nat, n: nat)
    requires |was| == |now| == WORD && Loadable(image, begin) && n < PhNum(image)
    requires LoadedUpTo(now, was, image, begin, n)
    ensures Loads(Header(image, n)) ==> Ready(begin, Header(image, n))
    ensures LoadedUpTo(AfterHeader(now, begin, Header(image, n)), was, image, begin, n + 1)
  {
    var h := Header(image, n);
    if Loads(h) {
      SegmentFits(image, begin, n);
      CopyOneMore(was, now, AfterHeader(now, begin, h), image, begin, n, h);
    } else {
      SkipSegment(was, now, image, begin, n);
    }
  }

  // After copying segment n.
  lemma CopyOneMore(was: seq<Byte>, now: seq<Byte>, next: seq<Byte>, image: seq<Byte>, begin: nat, n: nat, h: Proghdr)
    requires |was| == |now| == WORD && Loadable(image, begin) && n < PhNum(image)
    requires h == Header(image, n) && Loads(h) && LoadedUpTo(now, was, image, begin, n)
    requires GoodSegment(image, begin, h) && Copyable(h.va, begin + h.offset, h.filesz, h.memsz)
    requires next == AfterCopySeg(now, h.va, begin + h.offset, h.filesz, h.memsz)
    ensures |next| == WORD && LoadedUpTo(next, was, image, begin, n + 1)
  {
    SegmentBytes(now, image, begin, h);
    ImageKept(now, next, image, begin, h);
    OneMoreSegment(was, now, next, image, begin, n);
  }

  // Its copy stays within memory, and does not start inside its source.
  lemma SegmentFits(image: seq<Byte>, begin: nat, n: nat)
    requires Loadable(image, begin) && n < PhNum(image) && Loads(Header(image, n))
    ensures var h := Header(image, n);
      && GoodSegment(image, begin, h) && RoundDown(h.va, PAGE) == h.va
      && Ready(begin, h)
  {
  }

  // Outside the memory of every segment that is loaded.
  ghost predicate Untouched(image: seq<Byte>, a: nat)
    requires HeadersWithin(image, |image|)
  {
    forall i :: 0 <= i < PhNum(image) && Header(image, i).ptype == 1 ==>
      var h := Header(image, i);
      a < h.va || h.va + h.memsz <= a
  }

  lemma LoadedInFull(mem: seq<Byte>, was: seq<Byte>, image: seq<Byte>, begin: nat)
    requires |mem| == |was| == WORD && Loadable(image, begin) && LoadedUpTo(mem, was, image, begin, PhNum(image))
    ensures forall i :: 0 <= i < PhNum(image) && Header(image, i).ptype == 1 ==>
      var h := Header(image, i);
      && (forall a :: h.va <= a < h.va + h.filesz ==> mem[a] == image[h.offset + (a - h.va)])
      && (forall a :: h.va + h.filesz <= a < h.va + h.memsz ==> mem[a] == 0)
    ensures forall a: nat :: a < |mem| && Untouched(image, a) ==> mem[a] == was[a]
  {
    forall i | 0 <= i < PhNum(image) && Header(image, i).ptype == 1
      ensures var h := Header(image, i);
        && (forall a :: h.va <= a < h.va + h.filesz ==> mem[a] == image[h.offset + (a - h.va)])
        && (forall a :: h.va + h.filesz <= a < h.va + h.memsz ==> mem[a] == 0)
    {
      assert Loads(Header(image, i)) && GoodSegment(image, begin, Header(image, i));
      assert SegmentLoaded(mem, image, Header(image, i));
    }
    forall a: nat | a < |mem| && Untouched(image, a) ensures mem[a] == was[a] {
      assert Outside(image, PhNum(image), a);
    }
  }

  // The loop over the headers.
  method LoadSegments(mem: array<Byte>, begin: nat, ghost image: seq<Byte>)
    requires mem.Length == WORD && Loadable(image, begin)
    requires mem[begin..begin + |image|] == image
    modifies mem
    ensures LoadedUpTo(mem[..], old(mem[..]), image, begin, PhNum(image))
  {
    ghost var was := mem[..];
    HeaderInMemory(mem[..], image, begin);
    var ph := begin + Le32(mem[..], begin + 28);
    var eph := ph + PHDR_SIZE * Le16(mem[..], begin + 44);
    ghost var n, now := 0, mem[..];
    while ph < eph
      invariant n <= PhNum(image) && ph == begin + PhOff(image) + PHDR_SIZE * n
      invariant now == mem[..] && LoadedUpTo(now, was, image, begin, n)
    {
      now := LoadSegment(mem, begin, ph, was, now, image, n);
      ph := ph + PHDR_SIZE;
      n := n + 1;
    }
  }

  // program_loader(): None is loader_panic(), which puts '!' on the console and stops.
  method ProgramLoader(mem: array<Byte>, ramimages: seq<nat>, program_id: int, ghost image: seq<Byte>)
    returns (entry: Option<Word>)
    requires mem.Length == WORD
    requires 0 <= program_id < |ramimages| ==>
      && var begin := ramimages[program_id];
         EHDR_SIZE <= |image| && begin + |image| <= WORD && mem[begin..begin + |image|] == image
         && (Magic(image) == ELF_MAGIC ==> Loadable(image, begin))
    modifies mem
    ensures entry.Some? <==>
      && 0 <= program_id < |ramimages|
      && image[0] == 0x7F && image[1] == 0x45 && image[2] == 0x4C && image[3] == 0x46
    ensures entry.Some? ==> entry.value == EntryPoint(image)
    ensures entry.Some? ==> forall i :: 0 <= i < PhNum(image) && Header(image, i).ptype == 1 ==>
      var h := Header(image, i);
      && (forall a :: h.va <= a < h.va + h.filesz ==> mem[a] == image[h.offset + (a - h.va)])
      && (forall a :: h.va + h.filesz <= a < h.va + h.memsz ==> mem[a] == 0)
    ensures entry.Some? ==> forall a: nat :: a < mem.Length && Untouched(image, a) ==> mem[a] == old(mem[..])[a]
    ensures entry.None? ==> mem[..] == Put(old(mem[..]), CONSOLE, [0x21, 0x07])
  {
    if program_id < 0 || program_id >= |ramimages| {
      Panic(mem);
      return None;
    }
    var begin := ramimages[program_id];
    HeaderInMemory(mem[..], image, begin);
    MagicIsElf(image);
    if Le32(mem[..], begin) != ELF_MAGIC {
      Panic(mem);
      return None;
    }
    ghost var was := mem[..];
    LoadSegments(mem, begin, image);
    LoadedInFull(mem[..], was, image, begin);
    HeaderInMemory(mem[..], image, begin);
    entry := Some(Le32(mem[..], begin + 24));
  }

  method Panic(mem: array<Byte>)
    requires mem.Length == WORD
    modifies mem
    ensures mem[..] == Put(old(mem[..]), CONSOLE, [0x21, 0x07])
  {
    mem[CONSOLE], mem[CONSOLE + 1] := 0x21, 0x07;
  }

  lemma HeaderInMemory(mem: seq<Byte>, image: seq<Byte>, begin: nat)
    requires EHDR_SIZE <= |image| && begin + |image| <= |mem| && mem[begin..begin + |image|] == image
    ensures Le32(mem, begin) == Magic(image) && Le32(mem, begin + 24) == EntryPoint(image)
    ensures Le32(mem, begin + 28) == PhOff(image) && Le16(mem, begin + 44) == PhNum(image)
  {
    forall k | 0 <= k < |image| ensures mem[begin + k] == image[k] {
      assert mem[begin..begin + |image|][k] == image[k];
    }
  }

  lemma ProghdrInMemory(mem: seq<Byte>, image: seq<Byte>, begin: nat, i: nat)
    requires begin + |image| <= |mem| && mem[begin..begin + |image|] == image
    requires HeadersWithin(image, |image|) && i < PhNum(image)
    ensures begin + PhOff(image) + PHDR_SIZE * i + PHDR_SIZE <= |mem|
    ensures ProghdrAt(mem, begin + PhOff(image) + PHDR_SIZE * i) == Header(image, i)
  {
    forall k | 0 <= k < |image| ensures mem[begin + k] == image[k] {
      assert mem[begin..begin + |image|][k] == image[k];
    }
  }
}
