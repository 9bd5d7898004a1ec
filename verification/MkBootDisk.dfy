// mkbootdisk.c: the program that writes the image, against the layout.
module MkBootDisk {
  import opened Machine
  import opened DiskImage
  import opened Memory

  // What a call of write() does: it is interrupted, writes some of the bytes, fails, or
  // meets the end of the file.
  datatype WriteResult = Interrupted | Partial(n: nat) | Failed | EndOfFile

  predicate NoFailure(results: seq<WriteResult>) {
    forall r :: r in results ==> r.Interrupted? || r.Partial?
  }

  lemma NextPiece(data: seq<Byte>, pos: nat, n: nat)
    requires pos + n <= |data|
    ensures data[..pos] + data[pos..pos + n] == data[..pos + n]
  {
  }

  class Output {
    var image: seq<Byte>             // what has reached the output
    var curoff: nat
    const maxoff: nat := 0           // no partition limit
    var results: seq<WriteResult>    // the coming results of write(); after these it writes all

    constructor (results: seq<WriteResult>)
      ensures image == [] && curoff == 0 && this.results == results
    {
      image, curoff, this.results := [], 0, results;
    }

    // The system call: w bytes written, 0 at the end of the file, -1 for an error.
    method Write(data: seq<Byte>) returns (w: int, eintr: bool)
      requires |data| > 0
      modifies this`image, this`results
      ensures -1 <= w <= |data|
      ensures image == old(image) + (if w > 0 then data[..w] else [])
      ensures if |old(results)| > 0 then results == old(results)[1..] else results == [] && w == |data|
      ensures |old(results)| > 0 ==>
        match old(results)[0]
        case Interrupted => w == -1 && eintr
        case Partial(_) => w > 0
        case Failed => w == -1 && !eintr
        case EndOfFile => w == 0
    {
      eintr := false;
      if |results| == 0 {
        w := |data|;
      } else {
        match results[0] {
          case Interrupted => w, eintr := -1, true;
          case Partial(n) => w := if n == 0 then 1 else if n < |data| then n else |data|;
          case Failed => w := -1;
          case EndOfFile => w := 0;
        }
        results := results[1..];
      }
      if w > 0 {
        image := image + data[..w];
      }
    }

    // All of the data is written, however the writes fall out, unless one fails.
    method DiskWrite(data: seq<Byte>) returns (ok: bool)
      modifies this`image, this`results, this`curoff
      ensures ok ==> image == old(image) + data && curoff == old(curoff) + |data|
      ensures NoFailure(old(results)) ==> ok && NoFailure(results)
    {
      if maxoff != 0 && curoff + |data| > maxoff {
        return false;
      }
      var rest := data;
      while |rest| > 0
        invariant image + rest == old(image) + data
        invariant curoff + |rest| == old(curoff) + |data|
        invariant NoFailure(old(results)) ==> NoFailure(results)
        decreases |results|, |rest|
      {
        ghost var before := image;
        var w, eintr := Write(rest);
        if w == -1 && !eintr {
          return false;
        } else if w == 0 {
          return false;
        } else if w > 0 {
          assert image + rest[w..] == before + rest;
          curoff := curoff + w;
          rest := rest[w..];
        }
      }
      return true;
    }

    // One zero sector at a time, up to sector `upto`.
    method WriteZeroSectors(nsectors: nat, upto: nat) returns (ok: bool)
      requires nsectors <= upto
      modifies this`image, this`results, this`curoff
      ensures ok ==> image == old(image) + Zeros(SECTOR * (upto - nsectors))
      ensures ok ==> curoff == old(curoff) + SECTOR * (upto - nsectors)
      ensures NoFailure(old(results)) ==> ok && NoFailure(results)
    {
      var n := nsectors;
      while n < upto
        invariant nsectors <= n <= upto
        invariant image == old(image) + Zeros(SECTOR * (n - nsectors))
        invariant curoff == old(curoff) + SECTOR * (n - nsectors)
        invariant NoFailure(old(results)) ==> NoFailure(results)
      {
        ok := DiskWrite(Zeros(SECTOR));
        if !ok {
          return;
        }
        assert Zeros(SECTOR * (n - nsectors)) + Zeros(SECTOR) == Zeros(SECTOR * (n + 1 - nsectors));
        n := n + 1;
      }
      return true;
    }

    // A file, read 4096 bytes at a time.
    method CopyFile(data: seq<Byte>, buf: array<Byte>) returns (ok: bool, pos: nat)
      requires buf.Length == 4096
      modifies this`image, this`results, this`curoff, buf
      ensures ok ==> pos == |data| && image == old(image) + data && curoff == old(curoff) + pos
      ensures NoFailure(old(results)) ==> ok && NoFailure(results)
    {
      pos := 0;
      var n := FRead(data, 0, buf);
      while n > 0
        invariant pos <= |data| && n == (if |data| - pos < 4096 then |data| - pos else 4096)
        invariant buf[..n] == data[pos..pos + n]
        invariant image == old(image) + data[..pos] && curoff == old(curoff) + pos
        invariant NoFailure(old(results)) ==> NoFailure(results)
        decreases |data| - pos
      {
        ok := DiskWrite(buf[..n]);
        if !ok {
          return;
        }
        NextPiece(data, pos, n);
        pos := pos + n;
        n := FRead(data, pos, buf);
      }
      assert data[..pos] == data;
      ok := true;
    }

    // The file and its padding to a sector boundary.
    method WriteFile(data: seq<Byte>, buf: array<Byte>) returns (ok: bool, pos: nat)
      requires buf.Length == 4096
      modifies this`image, this`results, this`curoff, buf
      ensures ok ==> pos == SECTOR * SectorsFor(|data|)
      ensures ok ==> image == old(image) + Padded(data) && curoff == old(curoff) + pos
      ensures NoFailure(old(results)) ==> ok && NoFailure(results)
    {
      ok, pos := CopyFile(data, buf);
      if ok && pos % SECTOR != 0 {
        var gap := SECTOR - pos % SECTOR;
        ok := DiskWrite(Zeros(gap));
        pos := pos + gap;
      }
    }

    method FRead(data: seq<Byte>, pos: nat, buf: array<Byte>) returns (n: nat)
      requires pos <= |data| && buf.Length == 4096
      modifies buf
      ensures n == if |data| - pos < 4096 then |data| - pos else 4096
      ensures buf[..n] == data[pos..pos + n]
    {
      n := if |data| - pos < 4096 then |data| - pos else 4096;
      forall k | 0 <= k < n {
        buf[k] := data[pos + k];
      }
    }

    method WriteBootSector(boot: seq<Byte>, buf: array<Byte>) returns (ok: bool)
      requires buf.Length == 4096
      modifies this`image, this`results, this`curoff, buf
      ensures ok ==> |boot| <= 510 && image == old(image) + boot + Zeros(510 - |boot|) + [0x55, 0xAA]
      ensures ok ==> image == old(image) + BootBlock(boot) && curoff == old(curoff) + SECTOR
      ensures NoFailure(old(results)) ==> NoFailure(results) && (ok <==> |boot| <= 510)
    {
      var n := FRead(boot, 0, buf);
      if n > 510 {
        return false;
      }
      MemSet(buf, n, 0, 510 - n);
      buf[510] := 0x55;
      buf[511] := 0xAA;
      assert buf[..512] == BootBlock(boot);
      ok := DiskWrite(buf[..512]);
    }

    // The image so far is the layout of the first i arguments, a whole number of sectors.
    ghost predicate LaidOut(boot: seq<Byte>, args: seq<Arg>, i: nat, nsectors: nat)
      reads this`image, this`curoff
    {
      && |boot| <= 510 && i <= |args| && AcceptedUpTo(args, i)
      && nsectors == StartSector(args, i) && curoff == SECTOR * nsectors
      && image == Layout(boot, args, i)
    }

    method WriteArgument(ghost boot: seq<Byte>, args: seq<Arg>, i: nat, nsectors: nat, buf: array<Byte>)
      returns (ok: bool, n: nat)
      requires i < |args| && LaidOut(boot, args, i, nsectors) && buf.Length == 4096
      modifies this`image, this`results, this`curoff, buf
      ensures ok ==> LaidOut(boot, args, i + 1, n)
      ensures NoFailure(old(results)) ==> NoFailure(results) && (ok <==> AcceptedUpTo(args, i + 1))
    {
      n := nsectors;
      match args[i] {
        case SkipTo(x) =>
          if nsectors > x {
            return false, n;
          }
          ok := WriteZeroSectors(nsectors, x);
          n := x;
        case File(data) =>
          var pos;
          ok, pos := WriteFile(data, buf);
          n := nsectors + pos / SECTOR;
      }
    }

    // main(): the image is the layout of the arguments, for every list that is accepted
    // and every pattern of short and interrupted writes; and when no write fails, exactly
    // the acceptable lists are accepted.
    method MakeImage(boot: seq<Byte>, args: seq<Arg>) returns (ok: bool)
      requires image == [] && curoff == 0
      modifies this`image, this`results, this`curoff
      ensures ok ==> |boot| <= 510 && Accepted(args) && image == Image(boot, args) && curoff == |image|
      ensures ok ==> |image| >= 512 && image[..|boot|] == boot && image[510] == 0x55 && image[511] == 0xAA
      ensures NoFailure(old(results)) ==> (ok <==> |boot| <= 510 && Accepted(args))
    {
      var buf := new Byte[4096];
      ok := WriteBootSector(boot, buf);
      if !ok {
        return;
      }
      var nsectors: nat := 1;
      for i := 0 to |args|
        invariant LaidOut(boot, args, i, nsectors)
        invariant NoFailure(old(results)) ==> NoFailure(results)
      {
        ok, nsectors := WriteArgument(boot, args, i, nsectors, buf);
        if !ok {
          return;
        }
      }
      if nsectors < 1024 {
        ok := WriteZeroSectors(nsectors, 1024);
      }
      BootSectorInFull(boot, args);
    }
  }
}
