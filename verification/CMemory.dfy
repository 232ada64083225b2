/**
  * C memory as the Go wrapper sees it: a flat run of bytes, the malloc blocks not yet freed, and an
  * account of every allocation ever made. Addresses may be used again once their block is freed.
  */
module CMemory {
  import opened ByteOrder

  const NULL: nat := 0

  /** A pointer and a length, as a rocksdb::Slice or a Go slice header made from one. */
  datatype View = View(addr: nat, size: nat)

  /** Address a, from 1 up, is mem[a - 1]; an empty view may point anywhere. */
  predicate InRange(mem: Bytes, v: View)
  {
    v.size == 0 || (v.addr >= 1 && v.addr - 1 + v.size <= |mem|)
  }

  function Read(mem: Bytes, v: View): (s: Bytes)
    requires InRange(mem, v)
    ensures |s| == v.size
  {
    if v.size == 0 then [] else mem[v.addr - 1..v.addr - 1 + v.size]
  }

  /** Memory that only grows keeps every view's bytes. */
  lemma ReadGrown(mem: Bytes, mem': Bytes, v: View)
    requires InRange(mem, v) && mem <= mem'
    ensures InRange(mem', v) && Read(mem', v) == Read(mem, v)
  {}

  /** The bytes a block takes up: malloc(0) still answers an address of its own. */
  function Room(size: nat): nat { if size == 0 then 1 else size }

  predicate Apart(p: nat, n: nat, q: nat, m: nat)
  {
    p + Room(n) <= q || q + Room(m) <= p
  }

  /** Memory with `data` written at address p, grown if need be. */
  function Written(mem: Bytes, p: nat, data: Bytes): (r: Bytes)
    requires p >= 1
    ensures |r| >= |mem| && |r| >= p - 1 + Room(|data|)
  {
    var need := p - 1 + Room(|data|);
    var padded := if |mem| < need then mem + seq(need - |mem|, _ => 0) else mem;
    padded[..p - 1] + data + padded[p - 1 + |data|..]
  }

  lemma ReadWritten(mem: Bytes, p: nat, data: Bytes)
    requires p >= 1
    ensures InRange(Written(mem, p, data), View(p, |data|)) && Read(Written(mem, p, data), View(p, |data|)) == data
  {}

  lemma ReadElsewhere(mem: Bytes, p: nat, data: Bytes, q: nat, m: nat)
    requires p >= 1 && q >= 1 && q - 1 + Room(m) <= |mem| && Apart(p, |data|, q, m)
    ensures InRange(mem, View(q, m)) && InRange(Written(mem, p, data), View(q, m))
    ensures Read(Written(mem, p, data), View(q, m)) == Read(mem, View(q, m))
  {
    var w := Written(mem, p, data);
    assert forall a | q - 1 <= a < q - 1 + m :: w[a] == mem[a];
  }

  /** What became of an allocation: it is live at an address, or it was freed. */
  datatype Fate = Live(addr: nat) | Gone

  /**
    * A moment of the heap. `blocks` maps the address of each live block to its size and `ids` to the
    * number of its allocation; `fates` has one entry for every allocation ever made.
    */
  datatype Heap = Heap(mem: Bytes, blocks: map<nat, nat>, ids: map<nat, nat>, fates: seq<Fate>)

  const EMPTY_HEAP: Heap := Heap([], map[], map[], [])

  ghost predicate Placed(h: Heap)
  {
    && (forall q | q in h.blocks :: q >= 1 && q - 1 + Room(h.blocks[q]) <= |h.mem|)
    && (forall q, r | q in h.blocks && r in h.blocks && q != r :: Apart(q, h.blocks[q], r, h.blocks[r]))
  }

  /** The live blocks are exactly the allocations not yet freed. */
  ghost predicate Accounted(h: Heap)
  {
    && h.ids.Keys == h.blocks.Keys
    && (forall q | q in h.ids :: h.ids[q] < |h.fates| && h.fates[h.ids[q]] == Live(q))
    && (forall n: nat | n < |h.fates| && h.fates[n].Live? :: h.fates[n].addr in h.ids && h.ids[h.fates[n].addr] == n)
  }

  ghost predicate WellFormed(h: Heap) { Placed(h) && Accounted(h) }

  /** malloc may answer any address whose block overlaps no live one. */
  predicate Fits(blocks: map<nat, nat>, p: nat, n: nat)
  {
    p >= 1 && forall q | q in blocks :: Apart(p, n, q, blocks[q])
  }

  function Allocated(h: Heap, p: nat, data: Bytes): Heap
    requires Fits(h.blocks, p, |data|)
  {
    Heap(Written(h.mem, p, data), h.blocks[p := |data|], h.ids[p := |h.fates|], h.fates + [Live(p)])
  }

  function Freed(h: Heap, p: nat): Heap
    requires p in h.ids && h.ids[p] < |h.fates|
  {
    Heap(h.mem, h.blocks - {p}, h.ids - {p}, h.fates[h.ids[p] := Gone])
  }

  lemma AllocatedPlaced(h: Heap, p: nat, data: Bytes)
    requires Placed(h) && Fits(h.blocks, p, |data|)
    ensures p !in h.blocks && Placed(Allocated(h, p, data))
  {}

  lemma AllocatedAccounted(h: Heap, p: nat, data: Bytes)
    requires Accounted(h) && Fits(h.blocks, p, |data|) && p !in h.blocks
    ensures Accounted(Allocated(h, p, data))
  {}

  lemma AllocatedWellFormed(h: Heap, p: nat, data: Bytes)
    requires WellFormed(h) && Fits(h.blocks, p, |data|)
    ensures p !in h.blocks && WellFormed(Allocated(h, p, data))
  {
    AllocatedPlaced(h, p, data);
    AllocatedAccounted(h, p, data);
  }

  lemma FreedAccounted(h: Heap, p: nat)
    requires Accounted(h) && p in h.blocks
    ensures Accounted(Freed(h, p))
  {
    assert h.fates[h.ids[p]] == Live(p);
  }

  lemma FreedWellFormed(h: Heap, p: nat)
    requires WellFormed(h) && p in h.blocks
    ensures WellFormed(Freed(h, p))
  {
    FreedAccounted(h, p);
  }

  /** A block of `h` that is still there in `h'`, with its bytes. */
  ghost predicate BlockKept(h: Heap, h': Heap, q: nat)
    requires q in h.blocks
  {
    && q in h'.blocks && h'.blocks[q] == h.blocks[q]
    && InRange(h.mem, View(q, h.blocks[q])) && InRange(h'.mem, View(q, h.blocks[q]))
    && Read(h'.mem, View(q, h.blocks[q])) == Read(h.mem, View(q, h.blocks[q]))
  }

  /** From h to h' no allocation of h was freed and no block of h written to. */
  ghost predicate Preserves(h: Heap, h': Heap)
  {
    h.fates <= h'.fates && forall q | q in h.blocks :: BlockKept(h, h', q)
  }

  lemma PreservesRefl(h: Heap)
    requires WellFormed(h)
    ensures Preserves(h, h)
  {}

  lemma PreservesTrans(h: Heap, h1: Heap, h2: Heap)
    requires Preserves(h, h1) && Preserves(h1, h2)
    ensures Preserves(h, h2)
  {
    forall q | q in h.blocks ensures BlockKept(h, h2, q) {
      assert BlockKept(h, h1, q) && BlockKept(h1, h2, q);
    }
  }

  lemma AllocatedPreserves(h: Heap, p: nat, data: Bytes)
    requires WellFormed(h) && Fits(h.blocks, p, |data|)
    ensures Preserves(h, Allocated(h, p, data))
  {
    forall q | q in h.blocks ensures BlockKept(h, Allocated(h, p, data), q) {
      ReadElsewhere(h.mem, p, data, q, h.blocks[q]);
    }
  }

  /** An allocation live in h' at an address that was not live in h was made in between. */
  lemma MadeSince(h: Heap, h': Heap, p: nat)
    requires Accounted(h) && Accounted(h') && Preserves(h, h') && p in h'.blocks && p !in h.blocks
    ensures h'.ids[p] >= |h.fates|
  {
    assert h'.fates[h'.ids[p]] == Live(p);
  }

  /** The blocks of h keep their allocation numbers. */
  lemma OldIdsKept(h: Heap, h': Heap)
    requires Accounted(h) && Accounted(h') && Preserves(h, h')
    ensures forall q | q in h.blocks :: q in h'.ids && h'.ids[q] == h.ids[q] < |h.fates|
  {
    forall q | q in h.blocks ensures q in h'.ids && h'.ids[q] == h.ids[q] < |h.fates| {
      assert BlockKept(h, h', q) && h.fates[h.ids[q]] == Live(q) == h'.fates[h.ids[q]];
    }
  }

  lemma FreedPreserves(h: Heap, h1: Heap, p: nat)
    requires WellFormed(h) && WellFormed(h1) && Preserves(h, h1) && p in h1.blocks && p !in h.blocks
    ensures Preserves(h, Freed(h1, p))
  {
    MadeSince(h, h1, p);
    forall q | q in h.blocks ensures BlockKept(h, Freed(h1, p), q) {
      assert BlockKept(h, h1, q);
    }
  }

  /** A view that lies inside a live block. */
  ghost predicate Held(h: Heap, v: View)
  {
    v.size == 0 || exists q :: q in h.blocks && q <= v.addr && v.addr + v.size <= q + h.blocks[q]
  }

  lemma ReadInside(mem: Bytes, b: View, v: View)
    requires InRange(mem, b) && b.addr <= v.addr && v.addr + v.size <= b.addr + b.size
    ensures InRange(mem, v) && Read(mem, v) == Read(mem, b)[v.addr - b.addr..v.addr - b.addr + v.size]
  {}

  lemma HeldKept(h: Heap, h': Heap, v: View)
    requires Preserves(h, h') && Held(h, v)
    ensures InRange(h.mem, v) && InRange(h'.mem, v) && Read(h'.mem, v) == Read(h.mem, v)
  {
    if v.size != 0 {
      var q :| q in h.blocks && q <= v.addr && v.addr + v.size <= q + h.blocks[q];
      assert BlockKept(h, h', q);
      ReadInside(h.mem, View(q, h.blocks[q]), v);
      ReadInside(h'.mem, View(q, h.blocks[q]), v);
    }
  }

  /** The heap as it changes. */
  class CHeap {
    var now: Heap

    ghost predicate Valid()
      reads this
    {
      WellFormed(now)
    }

    constructor ()
      ensures Valid() && now == EMPTY_HEAP
    {
      now := EMPTY_HEAP;
    }

    /**
      * malloc of the size of `data` and a copy into it. The address is any that overlaps no live block,
      * also one used before; malloc(0) may answer null instead.
      */
    method MallocCopy(data: Bytes) returns (p: nat)
      requires Valid()
      modifies this
      ensures Valid() && Preserves(old(now), now)
      ensures p == NULL ==> data == [] && now == old(now)
      ensures p != NULL ==> Fits(old(now).blocks, p, |data|) && p !in old(now).blocks && now == Allocated(old(now), p, data)
      ensures p != NULL ==> InRange(now.mem, View(p, |data|)) && Read(now.mem, View(p, |data|)) == data
    {
      var zeroIsNull: bool := *;
      if data == [] && zeroIsNull {
        PreservesRefl(now);
        return NULL;
      }
      p := *;
      if !Fits(now.blocks, p, |data|) {
        p := |now.mem| + 1;
      }
      AllocatedWellFormed(now, p, data);
      AllocatedPreserves(now, p, data);
      ReadWritten(now.mem, p, data);
      now := Allocated(now, p, data);
    }

    /** free: only null or a block that is still live may be passed. */
    method Free(p: nat)
      requires Valid() && (p == NULL || p in now.blocks)
      modifies this
      ensures Valid()
      ensures now == if p == NULL then old(now) else Freed(old(now), p)
    {
      if p != NULL {
        FreedWellFormed(now, p);
        now := Freed(now, p);
      }
    }
  }
}
