// The layout mkbootdisk gives a boot disk, stated without reference to how it is written.
module DiskImage {
  import opened Machine

  // An argument after the boot sector: `@X`, or a file with its contents.
  datatype Arg = SkipTo(sector: nat) | File(data: seq<Byte>)

  function Zeros(n: nat): (s: seq<Byte>)
    ensures |s| == n && forall k :: 0 <= k < n ==> s[k] == 0
  {
    Fill(0, n)
  }

  function SectorsFor(n: nat): nat {
    (n + SECTOR - 1) / SECTOR
  }

  // A file filled up with zeros to a whole number of sectors.
  function Padded(data: seq<Byte>): (s: seq<Byte>)
    ensures |s| == SECTOR * SectorsFor(|data|)
  {
    data + Zeros(SECTOR * SectorsFor(|data|) - |data|)
  }

  function BootBlock(boot: seq<Byte>): (s: seq<Byte>)
    requires |boot| <= 510
    ensures |s| == SECTOR
  {
    boot + Zeros(510 - |boot|) + [0x55, 0xAA]
  }

  // The sector at which argument i begins.
  function StartSector(args: seq<Arg>, i: nat): nat
    requires i <= |args|
  {
    if i == 0 then 1
    else match args[i - 1]
      case SkipTo(x) => x
      case File(data) => StartSector(args, i - 1) + SectorsFor(|data|)
  }

  // None of the first n arguments skips backwards.
  ghost predicate AcceptedUpTo(args: seq<Arg>, n: nat)
    requires n <= |args|
  {
    forall i :: 0 <= i < n && args[i].SkipTo? ==> StartSector(args, i) <= args[i].sector
  }

  ghost predicate Accepted(args: seq<Arg>) {
    AcceptedUpTo(args, |args|)
  }

  // The image up to the beginning of argument i.
  ghost function Layout(boot: seq<Byte>, args: seq<Arg>, i: nat): (s: seq<Byte>)
    requires |boot| <= 510 && i <= |args| && AcceptedUpTo(args, i)
    ensures |s| == SECTOR * StartSector(args, i)
  {
    if i == 0 then BootBlock(boot)
    else match args[i - 1]
      case SkipTo(x) => Layout(boot, args, i - 1) + Zeros(SECTOR * (x - StartSector(args, i - 1)))
      case File(data) => Layout(boot, args, i - 1) + Padded(data)
  }

  // The whole image: at least 1024 sectors.
  ghost function Image(boot: seq<Byte>, args: seq<Arg>): (s: seq<Byte>)
    requires |boot| <= 510 && Accepted(args)
  {
    var body := Layout(boot, args, |args|);
    if StartSector(args, |args|) < 1024
    then body + Zeros(SECTOR * (1024 - StartSector(args, |args|)))
    else body
  }

  lemma {:induction false} LayoutIsPrefix(boot: seq<Byte>, args: seq<Arg>, i: nat, j: nat)
    requires |boot| <= 510 && i <= j <= |args| && Accepted(args)
    ensures Layout(boot, args, i) <= Layout(boot, args, j)
    decreases j
  {
    if i == j {
    } else {
      LayoutIsPrefix(boot, args, i, j - 1);
      LayoutGrows(boot, args, j - 1);
    }
  }

  lemma LayoutGrows(boot: seq<Byte>, args: seq<Arg>, i: nat)
    requires |boot| <= 510 && i < |args| && Accepted(args)
    ensures Layout(boot, args, i) <= Layout(boot, args, i + 1)
  {
  }

  lemma SliceOfPrefix(a: seq<Byte>, b: seq<Byte>, lo: nat, hi: nat)
    requires a <= b && lo <= hi <= |a|
    ensures b[lo..hi] == a[lo..hi]
  {
  }

  lemma SlicesOfEnd(before: seq<Byte>, data: seq<Byte>)
    ensures var s, at := before + Padded(data), |before|;
      && s[at..at + |data|] == data
      && s[at + |data|..] == Zeros(SECTOR * SectorsFor(|data|) - |data|)
  {
  }

  lemma LayoutInImage(boot: seq<Byte>, args: seq<Arg>, i: nat)
    requires |boot| <= 510 && Accepted(args) && i <= |args|
    ensures Layout(boot, args, i) <= Image(boot, args)
  {
    LayoutIsPrefix(boot, args, i, |args|);
  }

  lemma BootBlockInPlace(boot: seq<Byte>, args: seq<Arg>)
    requires |boot| <= 510 && Accepted(args)
    ensures SECTOR <= |Image(boot, args)| && Image(boot, args)[..SECTOR] == BootBlock(boot)
  {
    LayoutInImage(boot, args, 0);
    assert Layout(boot, args, 0) == BootBlock(boot);
    SliceOfPrefix(BootBlock(boot), Image(boot, args), 0, SECTOR);
  }

  // The slices of a sequence that begins with `before` and a padded file.
  lemma SlicesInside(before: seq<Byte>, data: seq<Byte>, s: seq<Byte>)
    requires before + Padded(data) <= s
    ensures var at := |before|;
      && at + SECTOR * SectorsFor(|data|) <= |s|
      && s[at..at + |data|] == data
      && s[at + |data|..at + SECTOR * SectorsFor(|data|)] == Zeros(SECTOR * SectorsFor(|data|) - |data|)
  {
    var upto, at := before + Padded(data), |before|;
    SlicesOfEnd(before, data);
    SliceOfPrefix(upto, s, at, at + |data|);
    SliceOfPrefix(upto, s, at + |data|, |upto|);
  }

  // File i stands whole at sector StartSector(args, i) of the image, with zeros up to the
  // next sector boundary; the boot block stands at sector 0.
  lemma FilesInPlace(boot: seq<Byte>, args: seq<Arg>, i: nat)
    requires |boot| <= 510 && Accepted(args) && i < |args| && args[i].File?
    ensures
      var at, data, image := SECTOR * StartSector(args, i), args[i].data, Image(boot, args);
      && at + SECTOR * SectorsFor(|data|) <= |image|
      && image[at..at + |data|] == data
      && image[at + |data|..at + SECTOR * SectorsFor(|data|)] == Zeros(SECTOR * SectorsFor(|data|) - |data|)
      && image[..SECTOR] == BootBlock(boot)
  {
    BootBlockInPlace(boot, args);
    LayoutInImage(boot, args, i + 1);
    assert Layout(boot, args, i + 1) == Layout(boot, args, i) + Padded(args[i].data);
    SlicesInside(Layout(boot, args, i), args[i].data, Image(boot, args));
  }

  // A file right after `@X` starts at sector X, and the image has max(1024, end) sectors.
  lemma ImageSize(boot: seq<Byte>, args: seq<Arg>, i: nat)
    requires |boot| <= 510 && Accepted(args)
    ensures |Image(boot, args)| ==
      SECTOR * (if StartSector(args, |args|) < 1024 then 1024 else StartSector(args, |args|))
    ensures 0 < i <= |args| && args[i - 1].SkipTo? ==> StartSector(args, i) == args[i - 1].sector
  {
  }

  // Sector 0, byte by byte: the boot file, zeros up to 510, and the signature.
  lemma BootSectorInFull(boot: seq<Byte>, args: seq<Arg>)
    requires |boot| <= 510 && Accepted(args)
    ensures var image := Image(boot, args);
      && 512 <= |image|
      && image[..|boot|] == boot
      && (forall k :: |boot| <= k < 510 ==> image[k] == 0)
      && image[510] == 0x55 && image[511] == 0xAA
  {
    BootBlockInPlace(boot, args);
    var image := Image(boot, args);
    forall k | 0 <= k < SECTOR ensures image[k] == BootBlock(boot)[k] {
      assert image[..SECTOR][k] == image[k];
    }
  }

  // Where arguments begin: the first at sector 1, one after a file at the first sector
  // boundary at or after its end, one after `@X` at sector X.
  lemma StartsInFull(args: seq<Arg>, i: nat)
    requires i < |args|
    ensures StartSector(args, 0) == 1
    ensures args[i].File? ==>
      var end := 512 * StartSector(args, i) + |args[i].data|;
      end <= 512 * StartSector(args, i + 1) < end + 512
    ensures args[i].SkipTo? ==> StartSector(args, i + 1) == args[i].sector
  {
  }

  // Accepted means that no `@X` lies before the end of what precedes it.
  lemma AcceptedInFull(args: seq<Arg>)
    ensures Accepted(args) <==>
      forall i :: 0 <= i < |args| && args[i].SkipTo? ==> StartSector(args, i) <= args[i].sector
  {
  }

  // Everything but the boot sector and the files is zero: the gaps that `@X` leaves, and the
  // end of the image.
  lemma GapsAreZero(boot: seq<Byte>, args: seq<Arg>, i: nat, k: nat)
    requires |boot| <= 510 && Accepted(args) && i < |args| && args[i].SkipTo?
    requires 512 * StartSector(args, i) <= k < 512 * StartSector(args, i + 1)
    ensures k < |Image(boot, args)| && Image(boot, args)[k] == 0
  {
    LayoutInImage(boot, args, i + 1);
    assert Layout(boot, args, i + 1)[k] == 0;
  }

  lemma EndIsZero(boot: seq<Byte>, args: seq<Arg>, k: nat)
    requires |boot| <= 510 && Accepted(args)
    requires 512 * StartSector(args, |args|) <= k < |Image(boot, args)|
    ensures Image(boot, args)[k] == 0
  {
  }
}
