/**
  * Ownership of C memory in the rdb wrapper: who frees the blocks that Get, GetBytes and error
  * strings allocate, over any sequence of calls.
  */
module Slices {
  import opened ByteOrder
  import opened CMemory

  /** What the database answers to a lookup. */
  datatype Outcome = Found(value: Bytes) | Missing | Failed(message: Bytes)

  datatype GetResult = GotSlice(slice: Slice) | GetError(message: Bytes)

  datatype BytesResult = Nil | Got(bytes: Bytes) | BytesError(message: Bytes) | Panicked

  /** A C string ends at the first zero byte. */
  function CString(s: Bytes): (r: Bytes)
    ensures r <= s && (forall i | 0 <= i < |r| :: r[i] != 0) && (r == s || s[|r|] == 0)
  {
    if s == [] || s[0] == 0 then [] else [s[0]] + CString(s[1..])
  }

  /** The conversion of a size_t to a C int keeps 32 bits and reads the top one as a sign. */
  function CInt(n: nat): (r: int)
    ensures -0x8000_0000 <= r < 0x8000_0000 && (r - n as int) % 0x1_0000_0000 == 0
  {
    var m := n % 0x1_0000_0000;
    if m >= 0x8000_0000 then m - 0x1_0000_0000 else m
  }

  /** C.GoBytes(p, C.int(n)) over n bytes of memory: a negative count panics. */
  function GoBytes(data: Bytes): (r: BytesResult)
    ensures var n := |data| % 0x1_0000_0000;
            r == if n < 0x8000_0000 then Got(data[..n]) else Panicked
  {
    var n := CInt(|data|);
    if n < 0 then Panicked else if n <= |data| then Got(data[..n]) else Panicked
  }

  /** GetBytes returns the whole value exactly when its length fits a C int. */
  lemma GoBytesWhole(data: Bytes)
    ensures GoBytes(data) == Got(data) <==> |data| < 0x8000_0000
  {}

  class Slice {
    const data: nat
    const size: nat
    var freed: bool

    constructor (data: nat, size: nat, freed: bool)
      ensures this.data == data && this.size == size && this.freed == freed
    {
      this.data, this.size, this.freed := data, size, freed;
    }

    /** Slice.Free: the C free is reached once at most, and never for a slice marked freed from the start. */
    method Free(heap: CHeap)
      requires heap.Valid() && (!freed && data != NULL ==> data in heap.now.blocks)
      modifies this, heap
      ensures heap.Valid() && freed
      ensures heap.now == if !old(freed) && data != NULL then Freed(old(heap.now), data) else old(heap.now)
    {
      if !freed {
        heap.Free(data);
        freed := true;
      }
    }
  }

  /** strdup of an error message. */
  method DupError(heap: CHeap, message: Bytes) returns (err: nat)
    requires heap.Valid()
    modifies heap
    ensures heap.Valid() && Preserves(old(heap.now), heap.now) && IsErrorText(heap.now, err, message)
    ensures err !in old(heap.now.blocks) && heap.now.blocks - {err} == old(heap.now.blocks)
  {
    err := heap.MallocCopy(CString(message) + [0]);
  }

  /** SaveError: replace any earlier error string by the status's own. */
  method SaveError(heap: CHeap, errptr: nat, status: Outcome) returns (failed: bool, err: nat)
    requires heap.Valid() && (errptr == NULL || errptr in heap.now.blocks)
    modifies heap
    ensures heap.Valid() && (failed <==> status.Failed?)
    ensures !failed ==> err == errptr && heap.now == old(heap.now)
    ensures failed ==> IsErrorText(heap.now, err, status.message)
    ensures failed ==> heap.now.blocks - {err} == old(heap.now.blocks) - {errptr}
    ensures failed && errptr == NULL ==> Preserves(old(heap.now), heap.now) && err !in old(heap.now.blocks)
  {
    failed, err := status.Failed?, errptr;
    if failed {
      if errptr != NULL { heap.Free(errptr); }
      err := DupError(heap, status.message);
    }
  }

  /** A live block holding an error message as a C string. */
  ghost predicate IsErrorText(h: Heap, err: nat, message: Bytes)
  {
    && err != NULL && err in h.blocks && InRange(h.mem, View(err, h.blocks[err]))
    && Read(h.mem, View(err, h.blocks[err])) == CString(message) + [0]
  }

  /** A live block, new since h, holding a value; or nothing allocated, for an empty value. */
  ghost predicate IsValueBlock(h: Heap, h': Heap, p: nat, value: Bytes)
  {
    if p == NULL then value == [] && h' == h
    else
      && p !in h.blocks && h'.blocks == h.blocks[p := |value|]
      && InRange(h'.mem, View(p, |value|)) && Read(h'.mem, View(p, |value|)) == value
  }

  /** rdb_get: a copied value and its length, null for a missing key, or an error string. */
  method RdbGet(heap: CHeap, outcome: Outcome) returns (value: nat, len: nat, err: nat)
    requires heap.Valid()
    modifies heap
    ensures heap.Valid() && Preserves(old(heap.now), heap.now)
    ensures outcome.Found? ==> err == NULL && len == |outcome.value|
    ensures outcome.Found? ==> IsValueBlock(old(heap.now), heap.now, value, outcome.value)
    ensures !outcome.Found? ==> value == NULL && len == 0
    ensures outcome.Missing? ==> err == NULL && heap.now == old(heap.now)
    ensures outcome.Failed? ==>
              && IsErrorText(heap.now, err, outcome.message)
              && err !in old(heap.now.blocks) && heap.now.blocks - {err} == old(heap.now.blocks)
  {
    value, len, err := NULL, 0, NULL;
    if outcome.Found? {
      len := |outcome.value|;
      value := heap.MallocCopy(outcome.value);
    } else if !outcome.Missing? {
      var failed;
      failed, err := SaveError(heap, err, outcome);
    } else {
      PreservesRefl(heap.now);
    }
  }

  /** free of a block allocated since `before`. */
  method Release(heap: CHeap, p: nat, ghost before: Heap)
    requires WellFormed(before) && heap.Valid() && Preserves(before, heap.now)
    requires p in heap.now.blocks && p !in before.blocks
    modifies heap
    ensures heap.Valid() && Preserves(before, heap.now) && heap.now == Freed(old(heap.now), p)
  {
    FreedPreserves(before, heap.now, p);
    heap.Free(p);
  }

  /** GoString on an error string, then the deferred free. */
  method TakeError(heap: CHeap, err: nat, ghost message: Bytes, ghost before: Heap) returns (text: Bytes)
    requires WellFormed(before) && heap.Valid() && Preserves(before, heap.now)
    requires IsErrorText(heap.now, err, message) && err !in before.blocks
    modifies heap
    ensures heap.Valid() && Preserves(before, heap.now) && heap.now == Freed(old(heap.now), err)
    ensures text == CString(message)
  {
    text := CString(Read(heap.now.mem, View(err, heap.now.blocks[err])));
    CStringOfTerminated(CString(message));
    Release(heap, err, before);
  }

  lemma {:induction false} CStringOfTerminated(s: Bytes)
    requires forall i | 0 <= i < |s| :: s[i] != 0
    ensures CString(s + [0]) == s
  {
    if s != [] {
      assert (s + [0])[1..] == s[1..] + [0];
      CStringOfTerminated(s[1..]);
      assert s == [s[0]] + s[1..];
    }
  }

  /** DB.Get: the caller owns the slice's block; an error leaves nothing behind. */
  method Get(heap: CHeap, outcome: Outcome) returns (r: GetResult)
    requires heap.Valid()
    modifies heap
    ensures heap.Valid() && Preserves(old(heap.now), heap.now)
    ensures outcome.Failed? ==> r == GetError(CString(outcome.message)) && heap.now.blocks == old(heap.now.blocks)
    ensures !outcome.Failed? ==> r.GotSlice? && fresh(r.slice) && !r.slice.freed
    ensures outcome.Found? ==>
              r.slice.size == |outcome.value| && IsValueBlock(old(heap.now), heap.now, r.slice.data, outcome.value)
    ensures outcome.Missing? ==> r.slice.data == NULL && r.slice.size == 0 && heap.now == old(heap.now)
  {
    var value, len, err := RdbGet(heap, outcome);
    if err != NULL {
      var text := TakeError(heap, err, outcome.message, old(heap.now));
      return GetError(text);
    }
    var s := new Slice(value, len, false);
    r := GotSlice(s);
  }

  /** C.GoBytes over a value block, then the deferred free. */
  method CopyOut(heap: CHeap, value: nat, len: nat, ghost before: Heap, ghost stored: Bytes) returns (r: BytesResult)
    requires WellFormed(before) && heap.Valid() && Preserves(before, heap.now)
    requires value != NULL && len == |stored| && IsValueBlock(before, heap.now, value, stored)
    modifies heap
    ensures heap.Valid() && Preserves(before, heap.now) && heap.now.blocks == before.blocks
    ensures r == GoBytes(stored)
  {
    r := GoBytes(Read(heap.now.mem, View(value, len)));
    Release(heap, value, before);
  }

  /** DB.GetBytes: the block is always given back. */
  method GetBytes(heap: CHeap, outcome: Outcome) returns (r: BytesResult)
    requires heap.Valid()
    modifies heap
    ensures heap.Valid() && Preserves(old(heap.now), heap.now) && heap.now.blocks == old(heap.now.blocks)
    ensures outcome.Failed? ==> r == BytesError(CString(outcome.message))
    ensures outcome.Missing? ==> r == Nil
    ensures outcome.Found? ==> r == GoBytes(outcome.value) || (r == Nil && outcome.value == [])
  {
    var value, len, err := RdbGet(heap, outcome);
    if err != NULL {
      var text := TakeError(heap, err, outcome.message, old(heap.now));
      return BytesError(text);
    }
    if value == NULL {
      return Nil;
    }
    r := CopyOut(heap, value, len, old(heap.now), outcome.value);
  }

  // ----- any sequence of calls

  /** A call a client may make; `i` names the i-th slice it was handed. */
  datatype Call =
    | CallGet(outcome: Outcome)
    | CallGetBytes(outcome: Outcome)
    | CallKey(addr: nat, size: nat)
    | CallValue(addr: nat, size: nat)
    | CallFree(i: nat)

  /** Where a slice came from. */
  datatype Origin = FromGet(outcome: Outcome) | FromIterator(addr: nat, size: nat)

  /** The slices one call hands out. */
  function IssuedBy(call: Call): seq<Origin>
  {
    match call
    case CallGet(outcome) => if outcome.Failed? then [] else [FromGet(outcome)]
    case CallKey(addr, size) => if addr == NULL then [] else [FromIterator(addr, size)]
    case CallValue(addr, size) => if addr == NULL then [] else [FromIterator(addr, size)]
    case _ => []
  }

  /** The slices a list of calls hands out, in order. */
  function Origins(calls: seq<Call>): seq<Origin>
  {
    if calls == [] then [] else Origins(calls[..|calls| - 1]) + IssuedBy(calls[|calls| - 1])
  }

  /** The slices freed at least once, each after it was handed out. */
  function FreedSlices(calls: seq<Call>): (freed: set<nat>)
    ensures forall i | i in freed :: i < |Origins(calls)|
  {
    if calls == [] then {} else
    var earlier, last := calls[..|calls| - 1], calls[|calls| - 1];
    FreedSlices(earlier) + if last.CallFree? && last.i < |Origins(earlier)| then {last.i} else {}
  }

  /** A call that hands out a slice: a Get that does not fail, or a Key or Value at a valid position. */
  predicate HandsOut(call: Call)
  {
    || (call.CallGet? && !call.outcome.Failed?)
    || (call.CallKey? && call.addr != NULL)
    || (call.CallValue? && call.addr != NULL)
  }

  lemma IssuedOne(call: Call)
    ensures |IssuedBy(call)| == if HandsOut(call) then 1 else 0
    ensures HandsOut(call) ==>
              IssuedBy(call)[0] == if call.CallGet? then FromGet(call.outcome) else FromIterator(call.addr, call.size)
  {}

  lemma OriginsSnoc(calls: seq<Call>, call: Call)
    ensures Origins(calls + [call]) == Origins(calls) + IssuedBy(call)
  {
    assert (calls + [call])[..|calls|] == calls;
  }

  lemma HandingOutSnoc(calls: seq<Call>, call: Call)
    ensures |set n | 0 <= n < |calls + [call]| && HandsOut((calls + [call])[n])|
         == |set n | 0 <= n < |calls| && HandsOut(calls[n])| + if HandsOut(call) then 1 else 0
  {
    var before := set n | 0 <= n < |calls| && HandsOut(calls[n]);
    var after := set n | 0 <= n < |calls + [call]| && HandsOut((calls + [call])[n]);
    assert |calls| !in before && after == before + if HandsOut(call) then {|calls|} else {};
  }

  /** Each such call hands out one slice and no other call does. */
  lemma {:induction false} OriginsCount(calls: seq<Call>)
    ensures |Origins(calls)| == |set n | 0 <= n < |calls| && HandsOut(calls[n])|
  {
    var all := set n | 0 <= n < |calls| && HandsOut(calls[n]);
    if calls == [] {
      assert all == {};
    } else {
      var front, last := calls[..|calls| - 1], calls[|calls| - 1];
      assert calls == front + [last];
      OriginsCount(front);
      OriginsSnoc(front, last);
      IssuedOne(last);
      HandingOutSnoc(front, last);
    }
  }

  lemma {:induction false} OriginsGrow(a: seq<Call>, b: seq<Call>)
    ensures Origins(a) <= Origins(a + b)
    decreases |b|
  {
    if b == [] {
      assert a + b == a;
    } else {
      OriginsSnoc(a, b[0]);
      assert a + b == a + [b[0]] + b[1..];
      OriginsGrow(a + [b[0]], b[1..]);
    }
  }

  /** The slice a call hands out comes right after those of the calls before it. */
  lemma OriginAt(calls: seq<Call>, n: nat)
    requires n < |calls| && HandsOut(calls[n])
    ensures |Origins(calls[..n])| < |Origins(calls)|
    ensures Origins(calls)[|Origins(calls[..n])|]
         == if calls[n].CallGet? then FromGet(calls[n].outcome) else FromIterator(calls[n].addr, calls[n].size)
  {
    assert calls == calls[..n] + [calls[n]] + calls[n + 1..];
    OriginsSnoc(calls[..n], calls[n]);
    IssuedOne(calls[n]);
    OriginsGrow(calls[..n] + [calls[n]], calls[n + 1..]);
  }

  lemma FreedSnoc(calls: seq<Call>, call: Call, i: nat)
    ensures i in FreedSlices(calls + [call]) <==> i in FreedSlices(calls) || (call == CallFree(i) && i < |Origins(calls)|)
  {
    assert (calls + [call])[..|calls|] == calls;
  }

  lemma FreesAtSnoc(calls: seq<Call>, call: Call, n: nat, i: nat)
    requires n <= |calls|
    ensures FreesAt(calls + [call], n, i)
       <==> if n < |calls| then FreesAt(calls, n, i) else call == CallFree(i) && i < |Origins(calls)|
  {
    assert (calls + [call])[..n] == calls[..n];
    assert calls[..|calls|] == calls;
  }

  /** A slice counts as freed exactly when some call frees it that comes after it was handed out. */
  lemma {:induction false} FreedExact(calls: seq<Call>, i: nat)
    ensures i in FreedSlices(calls) <==> exists n :: 0 <= n < |calls| && FreesAt(calls, n, i)
  {
    if calls != [] {
      var front, last := calls[..|calls| - 1], calls[|calls| - 1];
      assert calls == front + [last];
      FreedExact(front, i);
      FreedSnoc(front, last, i);
      forall n: nat | n < |calls|
        ensures FreesAt(calls, n, i) <==> if n < |front| then FreesAt(front, n, i) else last == CallFree(i) && i < |Origins(front)|
      {
        FreesAtSnoc(front, last, n, i);
      }
      if i in FreedSlices(calls) && i !in FreedSlices(front) { assert FreesAt(calls, |front|, i); }
    }
  }

  predicate FreesAt(calls: seq<Call>, n: nat, i: nat)
    requires n < |calls|
  {
    calls[n] == CallFree(i) && i < |Origins(calls[..n])|
  }

  /** The fields of a slice at one moment. */
  datatype Record = Record(data: nat, size: nat, freed: bool)

  /** A slice that still owns a block. */
  predicate Owns(r: Record) { !r.freed && r.data != NULL }

  /** Besides the blocks of others, the live blocks are exactly those of the slices that own one, one each. */
  predicate OwnedExactly(rs: seq<Record>, blocks: map<nat, nat>, others: map<nat, nat>)
  {
    && (forall i | 0 <= i < |rs| && Owns(rs[i]) ::
          rs[i].data in blocks && rs[i].data !in others && blocks[rs[i].data] == rs[i].size)
    && (forall p | p in blocks && p !in others :: exists i :: 0 <= i < |rs| && Owns(rs[i]) && rs[i].data == p)
    && (forall i, j | 0 <= i < j < |rs| && Owns(rs[i]) && Owns(rs[j]) :: rs[i].data != rs[j].data)
  }

  lemma FreeKeepsOwnership(rs: seq<Record>, blocks: map<nat, nat>, others: map<nat, nat>, i: nat)
    requires OwnedExactly(rs, blocks, others) && i < |rs|
    ensures OwnedExactly(rs[i := rs[i].(freed := true)], if Owns(rs[i]) then blocks - {rs[i].data} else blocks, others)
  {
    var rs' := rs[i := rs[i].(freed := true)];
    forall p | p in blocks && p !in others && !(Owns(rs[i]) && p == rs[i].data)
      ensures exists j :: 0 <= j < |rs'| && Owns(rs'[j]) && rs'[j].data == p
    {
      var j :| 0 <= j < |rs| && Owns(rs[j]) && rs[j].data == p;
      assert rs'[j] == rs[j];
    }
  }

  lemma IssueKeepsOwnership(rs: seq<Record>, blocks: map<nat, nat>, others: map<nat, nat>, r: Record)
    requires OwnedExactly(rs, blocks, others) && (Owns(r) ==> r.data !in blocks && r.data !in others)
    ensures OwnedExactly(rs + [r], if Owns(r) then blocks[r.data := r.size] else blocks, others)
  {
    var rs' := rs + [r];
    assert rs'[|rs|] == r;
    forall p | p in blocks && p !in others ensures exists j :: 0 <= j < |rs'| && Owns(rs'[j]) && rs'[j].data == p {
      var j :| 0 <= j < |rs| && Owns(rs[j]) && rs[j].data == p;
      assert rs'[j] == rs[j];
    }
  }

  /** A slice as its origin promises: until it is freed, a slice from Get reads as the value found. */
  ghost predicate Agrees(r: Record, o: Origin, mem: Bytes)
  {
    match o
    case FromIterator(addr, size) => r == Record(addr, size, true)
    case FromGet(Found(value)) =>
      r.size == |value| && (!r.freed ==> InRange(mem, View(r.data, r.size)) && Read(mem, View(r.data, r.size)) == value)
    case FromGet(_) => r.data == NULL && r.size == 0
  }

  ghost predicate AllAgree(rs: seq<Record>, os: seq<Origin>, mem: Bytes)
  {
    |rs| == |os| && forall i | 0 <= i < |rs| :: Agrees(rs[i], os[i], mem)
  }

  lemma AgreesKept(rs: seq<Record>, os: seq<Origin>, others: map<nat, nat>, h: Heap, h': Heap)
    requires OwnedExactly(rs, h.blocks, others) && AllAgree(rs, os, h.mem) && Preserves(h, h')
    ensures AllAgree(rs, os, h'.mem)
  {
    forall i | 0 <= i < |rs| ensures Agrees(rs[i], os[i], h'.mem) {
      assert Agrees(rs[i], os[i], h.mem);
      if Owns(rs[i]) { assert BlockKept(h, h', rs[i].data); }
    }
  }

  /** The slices own their blocks, agree with their origins, and the heap found at the start is intact. */
  ghost predicate Sound(start: Heap, h: Heap, rs: seq<Record>, os: seq<Origin>)
  {
    && WellFormed(start) && WellFormed(h) && Preserves(start, h)
    && OwnedExactly(rs, h.blocks, start.blocks) && AllAgree(rs, os, h.mem)
  }

  /** A heap change that leaves the same blocks live keeps every slice sound. */
  lemma SoundKept(start: Heap, h: Heap, h': Heap, rs: seq<Record>, os: seq<Origin>)
    requires Sound(start, h, rs, os) && WellFormed(h') && Preserves(h, h') && h'.blocks == h.blocks
    ensures Sound(start, h', rs, os)
  {
    AgreesKept(rs, os, start.blocks, h, h');
    PreservesTrans(start, h, h');
  }

  /** What handing out a slice may have done to the heap: allocated its block if it owns one, or nothing. */
  ghost predicate MadeFor(h: Heap, h': Heap, r: Record)
  {
    if Owns(r) then r.data !in h.blocks && h'.blocks == h.blocks[r.data := r.size] else h'.blocks == h.blocks
  }

  /** A slice from Get is made for its block and agrees with its outcome. */
  lemma GotSliceMade(h: Heap, h': Heap, outcome: Outcome, r: Record)
    requires !outcome.Failed? && !r.freed
    requires outcome.Found? ==> r.size == |outcome.value| && IsValueBlock(h, h', r.data, outcome.value)
    requires outcome.Missing? ==> r.data == NULL && r.size == 0 && h' == h
    ensures MadeFor(h, h', r) && Agrees(r, FromGet(outcome), h'.mem)
  {}

  lemma SoundAfterIssue(start: Heap, h: Heap, h': Heap, rs: seq<Record>, os: seq<Origin>, r: Record, o: Origin)
    requires Sound(start, h, rs, os) && WellFormed(h') && Preserves(h, h') && MadeFor(h, h', r) && Agrees(r, o, h'.mem)
    ensures Sound(start, h', rs + [r], os + [o])
  {
    assert start.blocks.Keys <= h.blocks.Keys;
    IssueKeepsOwnership(rs, h.blocks, start.blocks, r);
    AgreesKept(rs, os, start.blocks, h, h');
    PreservesTrans(start, h, h');
  }

  lemma SoundAfterFree(start: Heap, h: Heap, h': Heap, rs: seq<Record>, os: seq<Origin>, i: nat)
    requires Sound(start, h, rs, os) && i < |rs|
    requires h' == if Owns(rs[i]) then Freed(h, rs[i].data) else h
    ensures Sound(start, h', rs[i := rs[i].(freed := true)], os)
  {
    FreeKeepsOwnership(rs, h.blocks, start.blocks, i);
    if Owns(rs[i]) {
      FreedWellFormed(h, rs[i].data);
      FreedPreserves(start, h, rs[i].data);
    }
  }

  /** A client of one database and its iterators, with every slice it was ever handed. */
  class Client {
    const heap: CHeap
    /** The heap the client found: its blocks belong to RocksDB. */
    ghost const start: Heap
    var issued: seq<Slice>
    ghost var records: seq<Record>
    ghost var origins: seq<Origin>

    ghost predicate Mirrored()
      reads this, issued
    {
      && |records| == |issued|
      && (forall i | 0 <= i < |issued| :: records[i] == Record(issued[i].data, issued[i].size, issued[i].freed))
      && (forall i, j | 0 <= i < j < |issued| :: issued[i] != issued[j])
    }

    ghost predicate Valid()
      reads this, heap, issued
    {
      Sound(start, heap.now, records, origins) && Mirrored()
    }

    constructor (heap: CHeap)
      requires heap.Valid()
      ensures Valid() && this.heap == heap && start == heap.now && issued == [] && origins == []
    {
      this.heap := heap;
      start := heap.now;
      issued, records, origins := [], [], [];
      PreservesRefl(heap.now);
    }

    method FreeIssued(i: nat)
      requires Mirrored() && i < |issued| && heap.Valid()
      requires Owns(records[i]) ==> records[i].data in heap.now.blocks
      modifies this`records, heap, issued[i]
      ensures Mirrored() && records == old(records)[i := old(records)[i].(freed := true)]
      ensures heap.now == if Owns(old(records)[i]) then Freed(old(heap.now), old(records)[i].data) else old(heap.now)
    {
      ghost var was := records;
      var slice := issued[i];
      assert forall j | 0 <= j < |issued| && j != i :: issued[j] != slice;
      slice.Free(heap);
      assert forall j | 0 <= j < |issued| && j != i :: issued[j].freed == old(issued[j].freed) == was[j].freed;
      records := was[i := was[i].(freed := true)];
    }

    /** Any slice may be freed at any time, again or not. */
    method Free(i: nat)
      requires Valid() && i < |issued|
      modifies this`records, heap, issued[i]
      ensures Valid() && records == old(records)[i := old(records)[i].(freed := true)]
      ensures heap.now == if Owns(old(records)[i]) then Freed(old(heap.now), old(records)[i].data) else old(heap.now)
    {
      SoundAfterFree(start, heap.now, if Owns(records[i]) then Freed(heap.now, records[i].data) else heap.now,
                     records, origins, i);
      FreeIssued(i);
    }

    /** Hand out a new slice. */
    method Issue(s: Slice, ghost origin: Origin)
      requires Mirrored() && s !in issued
      modifies this
      ensures Mirrored() && issued == old(issued) + [s] && origins == old(origins) + [origin]
      ensures records == old(records) + [Record(s.data, s.size, s.freed)]
    {
      issued := issued + [s];
      records, origins := records + [Record(s.data, s.size, s.freed)], origins + [origin];
    }

    /** DB.Get: a slice that owns its block and reads as the stored value. */
    method Lookup(outcome: Outcome)
      requires Valid()
      modifies this, heap
      ensures Valid() && origins == old(origins) + IssuedBy(CallGet(outcome))
      ensures old(issued) <= issued && forall i | |old(issued)| <= i < |issued| :: fresh(issued[i])
      ensures old(records) <= records && forall i | |old(records)| <= i < |records| :: !records[i].freed
      ensures |records| == |old(records)| + if outcome.Failed? then 0 else 1
    {
      var r := Get(heap, outcome);
      if r.GotSlice? {
        ghost var record := Record(r.slice.data, r.slice.size, false);
        GotSliceMade(old(heap.now), heap.now, outcome, record);
        SoundAfterIssue(start, old(heap.now), heap.now, records, origins, record, FromGet(outcome));
        Issue(r.slice, FromGet(outcome));
      } else {
        SoundKept(start, old(heap.now), heap.now, records, origins);
      }
    }

    /** Iterator.Key and Iterator.Value: memory the iterator owns, in a slice marked as already freed. */
    method Look(addr: nat, size: nat)
      requires Valid()
      modifies this
      ensures Valid() && origins == old(origins) + IssuedBy(CallKey(addr, size))
      ensures old(issued) <= issued && forall i | |old(issued)| <= i < |issued| :: fresh(issued[i])
      ensures records == old(records) + if addr == NULL then [] else [Record(addr, size, true)]
    {
      if addr != NULL {
        var s := new Slice(addr, size, true);
        PreservesRefl(heap.now);
        SoundAfterIssue(start, heap.now, heap.now, records, origins, Record(addr, size, true), FromIterator(addr, size));
        Issue(s, FromIterator(addr, size));
      }
    }

    /** DB.GetBytes disturbs no slice. */
    method LookupBytes(outcome: Outcome) returns (r: BytesResult)
      requires Valid()
      modifies heap
      ensures Valid() && heap.now.blocks == old(heap.now.blocks)
    {
      r := GetBytes(heap, outcome);
      SoundKept(start, old(heap.now), heap.now, records, origins);
    }
  }

  /** Which slices are marked freed: an iterator's from the start, one from Get when some call freed it. */
  predicate FreedMatch(rs: seq<Record>, os: seq<Origin>, freed: set<nat>)
  {
    |rs| == |os| && forall i | 0 <= i < |rs| :: rs[i].freed <==> os[i].FromIterator? || i in freed
  }

  /** One call of any kind. */
  method RunCall(client: Client, call: Call, ghost freed: set<nat>)
    requires client.Valid() && FreedMatch(client.records, client.origins, freed)
    requires forall i | i in freed :: i < |client.origins|
    modifies client, client.heap, client.issued
    ensures client.Valid() && client.origins == old(client.origins) + IssuedBy(call)
    ensures old(client.issued) <= client.issued
    ensures forall i | |old(client.issued)| <= i < |client.issued| :: fresh(client.issued[i])
    ensures var hit := if call.CallFree? && call.i < |old(client.origins)| then {call.i} else {};
            FreedMatch(client.records, client.origins, freed + hit)
  {
    match call {
      case CallGet(outcome) => client.Lookup(outcome);
      case CallGetBytes(outcome) => var bytes := client.LookupBytes(outcome);
      case CallKey(addr, size) => client.Look(addr, size);
      case CallValue(addr, size) => client.Look(addr, size);
      case CallFree(i) => if i < |client.issued| { client.Free(i); }
    }
  }

  /** An allocation made since `start` is live exactly while a slice owns it. */
  ghost predicate NoLeak(start: Heap, h: Heap, rs: seq<Record>)
  {
    forall n: nat | |start.fates| <= n < |h.fates| :: h.fates[n].Live? <==> OwnedBySlice(h, rs, n)
  }

  ghost predicate OwnedBySlice(h: Heap, rs: seq<Record>, n: nat)
  {
    exists i :: 0 <= i < |rs| && Owns(rs[i]) && rs[i].data in h.ids && h.ids[rs[i].data] == n
  }

  lemma OwnershipMeansNoLeak(start: Heap, h: Heap, rs: seq<Record>)
    requires WellFormed(start) && WellFormed(h) && Preserves(start, h) && OwnedExactly(rs, h.blocks, start.blocks)
    ensures NoLeak(start, h, rs)
  {
    OldIdsKept(start, h);
    forall n: nat | |start.fates| <= n < |h.fates| ensures h.fates[n].Live? <==> OwnedBySlice(h, rs, n) {
      if h.fates[n].Live? {
        var p := h.fates[n].addr;
        var i :| 0 <= i < |rs| && Owns(rs[i]) && rs[i].data == p;
        assert h.ids[rs[i].data] == n;
      }
    }
  }

  predicate GetsValue(call: Call) { call.CallGet? && call.outcome.Found? }

  /** A slice not freed reads as the value. */
  predicate StillReads(r: Record, value: Bytes, mem: Bytes)
  {
    !r.freed ==> InRange(mem, View(r.data, r.size)) && Read(mem, View(r.data, r.size)) == value
  }

  /** The slice of every Get that found a value reads as that value until it is freed. */
  lemma HitsStillRead(calls: seq<Call>, rs: seq<Record>, mem: Bytes)
    requires AllAgree(rs, Origins(calls), mem)
    ensures forall n | 0 <= n < |calls| && GetsValue(calls[n]) ::
              |Origins(calls[..n])| < |rs| && StillReads(rs[|Origins(calls[..n])|], calls[n].outcome.value, mem)
  {
    forall n | 0 <= n < |calls| && GetsValue(calls[n])
      ensures |Origins(calls[..n])| < |rs| && StillReads(rs[|Origins(calls[..n])|], calls[n].outcome.value, mem)
    {
      OriginAt(calls, n);
      assert Agrees(rs[|Origins(calls[..n])|], Origins(calls)[|Origins(calls[..n])|], mem);
    }
  }

  /**
    * Any sequence of calls, in any order and with any number of repeated frees, on a heap that also holds
    * RocksDB's own blocks. The calls alone say which slices exist, which are freed and what the others
    * read; every C free receives null or a live block of a slice, a GetBytes copy or an error string; no
    * block of RocksDB is freed or written to; and each block allocated on the way is gone or is owned by
    * one slice from Get not yet freed.
    */
  method RunCalls(heap: CHeap, calls: seq<Call>) returns (client: Client)
    requires heap.Valid()
    modifies heap
    ensures fresh(client) && client.Valid() && client.heap == heap
    ensures |client.issued| == |Origins(calls)| == |client.records|
    ensures |client.issued| == |set n | 0 <= n < |calls| && HandsOut(calls[n])|
    ensures forall i | 0 <= i < |client.issued| ::
              client.records[i] == Record(client.issued[i].data, client.issued[i].size, client.issued[i].freed)
    ensures forall i | 0 <= i < |client.issued| ::
              client.issued[i].freed <==> Origins(calls)[i].FromIterator? || i in FreedSlices(calls)
    ensures AllAgree(client.records, Origins(calls), heap.now.mem)
    ensures forall n | 0 <= n < |calls| && GetsValue(calls[n]) ::
              && |Origins(calls[..n])| < |client.records|
              && StillReads(client.records[|Origins(calls[..n])|], calls[n].outcome.value, heap.now.mem)
    ensures Preserves(old(heap.now), heap.now)
    ensures OwnedExactly(client.records, heap.now.blocks, old(heap.now).blocks)
    ensures NoLeak(old(heap.now), heap.now, client.records)
  {
    client := new Client(heap);
    for n := 0 to |calls|
      invariant fresh(client) && client.heap == heap && client.start == old(heap.now) && client.Valid()
      invariant forall i | 0 <= i < |client.issued| :: fresh(client.issued[i])
      invariant client.origins == Origins(calls[..n])
      invariant FreedMatch(client.records, client.origins, FreedSlices(calls[..n]))
    {
      assert calls[..n + 1][..n] == calls[..n];
      RunCall(client, calls[n], FreedSlices(calls[..n]));
    }
    assert calls[..|calls|] == calls;
    OwnershipMeansNoLeak(old(heap.now), heap.now, client.records);
    OriginsCount(calls);
    HitsStillRead(calls, client.records, heap.now.mem);
  }
}
