// memcpy, memmove and memset on one shared memory: source and destination are ranges of
// the same array and may overlap.
module Memory {
  import opened Machine

  // The memory with the bytes `data` put at `at`.
  function Put(mem: seq<Byte>, at: nat, data: seq<Byte>): (r: seq<Byte>)
    requires at + |data| <= |mem|
    ensures |r| == |mem|
    ensures forall a :: 0 <= a < |mem| ==>
      r[a] == if at <= a < at + |data| then data[a - at] else mem[a]
  {
    mem[..at] + data + mem[at + |data|..]
  }

  // The loop of memcpy, which copies upwards: right unless the destination starts inside
  // the source.
  method MemCpy(mem: array<Byte>, dst: nat, src: nat, n: nat)
    requires dst + n <= mem.Length && src + n <= mem.Length
    requires !(src < dst < src + n)
    modifies mem
    ensures mem[..] == Put(old(mem[..]), dst, old(mem[src..src + n]))
  {
    ghost var data := mem[src..src + n];
    var s, d, left := src, dst, n;
    while left > 0
      invariant 0 <= left <= n && s == src + (n - left) && d == dst + (n - left)
      invariant forall a :: 0 <= a < mem.Length ==>
        mem[a] == if dst <= a < d then data[a - dst] else old(mem[a])
    {
      left := left - 1;
      assert mem[s] == old(mem[s]) == data[s - src];
      mem[d] := mem[s];
      s, d := s + 1, d + 1;
    }
  }

  // The downward loop of memmove.
  method CopyDown(mem: array<Byte>, dst: nat, src: nat, n: nat)
    requires dst + n <= mem.Length && src + n <= mem.Length && src <= dst
    modifies mem
    ensures mem[..] == Put(old(mem[..]), dst, old(mem[src..src + n]))
  {
    ghost var data := mem[src..src + n];
    var s, d, left := src + n, dst + n, n;
    while left > 0
      invariant 0 <= left <= n && s == src + left && d == dst + left
      invariant forall a :: 0 <= a < mem.Length ==>
        mem[a] == if d <= a < dst + n then data[a - dst] else old(mem[a])
    {
      left := left - 1;
      s, d := s - 1, d - 1;
      assert mem[s] == old(mem[s]) == data[s - src];
      mem[d] := mem[s];
    }
  }

  // memmove: dst[k] becomes the old src[k] for any overlap, and nothing else changes.
  method MemMove(mem: array<Byte>, dst: nat, src: nat, n: nat)
    requires dst + n <= mem.Length && src + n <= mem.Length
    modifies mem
    ensures mem[..] == Put(old(mem[..]), dst, old(mem[src..src + n]))
  {
    if src < dst && src + n > dst {
      CopyDown(mem, dst, src, n);
    } else {
      MemCpy(mem, dst, src, n);
    }
  }

  method MemSet(mem: array<Byte>, v: nat, c: Byte, n: nat)
    requires v + n <= mem.Length
    modifies mem
    ensures mem[..] == Put(old(mem[..]), v, Fill(c, n))
  {
    var p, left := v, n;
    while left > 0
      invariant 0 <= left <= n && p == v + (n - left)
      invariant forall a :: 0 <= a < mem.Length ==>
        mem[a] == if v <= a < p then c else old(mem[a])
    {
      left := left - 1;
      mem[p] := c;
      p := p + 1;
    }
  }

  // The loop that both loaders clear the end of a segment with.
  method ClearTo(mem: array<Byte>, from: nat, end: nat)
    requires end <= mem.Length
    modifies mem
    ensures forall a :: 0 <= a < mem.Length ==> mem[a] == if from <= a < end then 0 else old(mem[a])
  {
    var end_va := from;
    while end_va < end
      invariant from <= end_va && (end_va <= end || end_va == from)
      invariant forall a :: 0 <= a < mem.Length ==> mem[a] == if from <= a < end_va then 0 else old(mem[a])
    {
      mem[end_va] := 0;
      end_va := end_va + 1;
    }
  }
}
