/**
  * Filter policies written in Go and called from C++: the registry of policies, the split of a key
  * list into two C arrays and its rebuilding in Go, and the copy of the filter back.
  */
module FilterBridge {
  import opened ByteOrder
  import opened Wrappers
  import opened CMemory

  /** A policy value given to SetFilterPolicy: nil, a wrapped C++ policy, or one implemented in Go. */
  datatype Policy =
    | NilPolicy
    | Native(c: nat)
    | GoPolicy(create: Create, mayMatch: MayMatch)

  /** The two methods of a Go policy. */
  type Create = seq<Bytes> -> Bytes
  type MayMatch = (Bytes, Bytes) -> bool

  /** The array type that cByteSlice copies through has 2^24 bytes. */
  const COPY_LIMIT: nat := 0x100_0000

  // ----- what the C++ side sees, as a function of memory

  predicate AllInRange(mem: Bytes, keys: seq<View>)
  {
    forall i | 0 <= i < |keys| :: InRange(mem, keys[i])
  }

  function ReadAll(mem: Bytes, keys: seq<View>): (ks: seq<Bytes>)
    requires AllInRange(mem, keys)
    ensures |ks| == |keys| && forall i | 0 <= i < |keys| :: ks[i] == Read(mem, keys[i])
  {
    seq(|keys|, i requires 0 <= i < |keys| => Read(mem, keys[i]))
  }

  /**
    * The contract RocksDB needs of the C++ policy: whatever the layout of the keys when the filter
    * is made, and wherever key and filter lie when it is asked, a listed key matches.
    */
  ghost predicate CppContract(create: Create, mayMatch: MayMatch)
  {
    forall mem: Bytes, keys: seq<View>, i: nat, mem': Bytes, key: View, filter: View ::
      AllInRange(mem, keys) && i < |keys| && InRange(mem', key) && InRange(mem', filter)
      && |create(ReadAll(mem, keys))| <= 0x100_0000
      && Read(mem', filter) == create(ReadAll(mem, keys)) && Read(mem', key) == Read(mem, keys[i])
      ==> mayMatch(Read(mem', key), Read(mem', filter))
  }

  /** The Go contract, on the lists whose filters can cross the bridge: a key of the list always matches. */
  ghost predicate GoContract(create: Create, mayMatch: MayMatch)
  {
    forall keys: seq<Bytes>, k: Bytes :: k in keys && |create(keys)| <= 0x100_0000 ==> mayMatch(k, create(keys))
  }

  lemma GoImpliesCpp(create: Create, mayMatch: MayMatch, mem: Bytes, keys: seq<View>, i: nat,
                     mem': Bytes, key: View, filter: View)
    requires GoContract(create, mayMatch)
    requires AllInRange(mem, keys) && i < |keys| && InRange(mem', key) && InRange(mem', filter)
    requires |create(ReadAll(mem, keys))| <= 0x100_0000
    requires Read(mem', filter) == create(ReadAll(mem, keys)) && Read(mem', key) == Read(mem, keys[i])
    ensures mayMatch(Read(mem', key), Read(mem', filter))
  {
    var ks := ReadAll(mem, keys);
    assert ks[i] in ks;
  }

  /** Any list of keys can be laid out in memory. */
  lemma {:induction false} Layout(ks: seq<Bytes>) returns (mem: Bytes, views: seq<View>)
    ensures AllInRange(mem, views) && ReadAll(mem, views) == ks
  {
    if ks == [] {
      mem, views := [], [];
    } else {
      var front, last := ks[..|ks| - 1], ks[|ks| - 1];
      var m, vs := Layout(front);
      mem, views := m + last, vs + [View(|m| + 1, |last|)];
      forall i | 0 <= i < |vs| ensures InRange(mem, vs[i]) && Read(mem, vs[i]) == ks[i] {
        ReadGrown(m, mem, vs[i]);
        assert ReadAll(m, vs)[i] == front[i];
      }
      assert Read(mem, View(|m| + 1, |last|)) == last;
    }
  }

  lemma CppImpliesGo(create: Create, mayMatch: MayMatch, ks: seq<Bytes>, k: Bytes)
    requires CppContract(create, mayMatch) && k in ks && |create(ks)| <= 0x100_0000
    ensures mayMatch(k, create(ks))
  {
    var f := create(ks);
    var mem, views := Layout(ks);
    var i: nat :| i < |ks| && ks[i] == k;
    var mem', both := Layout([k, f]);
    assert Read(mem', both[0]) == ReadAll(mem', both)[0] && Read(mem', both[1]) == ReadAll(mem', both)[1];
    assert Read(mem, views[i]) == ReadAll(mem, views)[i];
  }

  /** The bridge neither adds nor loses false negatives: one contract holds exactly when the other does. */
  lemma BridgeKeepsContract(create: Create, mayMatch: MayMatch)
    ensures CppContract(create, mayMatch) <==> GoContract(create, mayMatch)
  {
    if GoContract(create, mayMatch) {
      forall mem: Bytes, keys: seq<View>, i: nat, mem': Bytes, key: View, filter: View |
        AllInRange(mem, keys) && i < |keys| && InRange(mem', key) && InRange(mem', filter)
        && |create(ReadAll(mem, keys))| <= 0x100_0000
        && Read(mem', filter) == create(ReadAll(mem, keys)) && Read(mem', key) == Read(mem, keys[i])
        ensures mayMatch(Read(mem', key), Read(mem', filter))
      {
        GoImpliesCpp(create, mayMatch, mem, keys, i, mem', key, filter);
      }
    }
    if CppContract(create, mayMatch) {
      forall keys: seq<Bytes>, k: Bytes | k in keys && |create(keys)| <= 0x100_0000 ensures mayMatch(k, create(keys)) {
        CppImpliesGo(create, mayMatch, keys, k);
      }
    }
  }

  /** The stub methods of a native policy. */
  function StubCreate(keys: seq<Bytes>): Bytes { [] }

  predicate StubMayMatch(key: Bytes, filter: Bytes) { false }

  /** They would break the contract on every nonempty list. */
  lemma StubBreaksContract(keys: seq<Bytes>, k: Bytes)
    requires k in keys
    ensures !StubMayMatch(k, StubCreate(keys))
    ensures !GoContract(StubCreate, StubMayMatch) && !CppContract(StubCreate, StubMayMatch)
  {
    assert |StubCreate(keys)| <= 0x100_0000;
    BridgeKeepsContract(StubCreate, StubMayMatch);
  }

  // ----- the calls themselves

  /** What a table's options hold as their filter policy. */
  datatype Handle = NativeHandle(c: nat) | Callback(idx: nat)

  /** The global list filterPolicies. */
  class Registry {
    var policies: seq<Policy>

    /** No native policy is ever registered, so no callback reaches the stubs. */
    ghost predicate Valid()
      reads this
    {
      forall i | 0 <= i < |policies| :: !policies[i].Native?
    }

    ghost predicate Denotes(h: Handle, p: Policy)
      reads this
    {
      match h
      case NativeHandle(c) => p == Native(c)
      case Callback(idx) => idx < |policies| && policies[idx] == p && !p.Native?
    }

    constructor ()
      ensures Valid() && policies == []
    {
      policies := [];
    }

    /** registerFilterPolicy */
    method Register(p: Policy) returns (idx: nat)
      modifies this
      ensures policies == old(policies) + [p] && idx == |old(policies)|
    {
      policies := policies + [p];
      idx := |policies| - 1;
    }

    /** SetFilterPolicy: the native or the registered branch. */
    method SetFilterPolicy(p: Policy) returns (h: Handle)
      requires Valid()
      modifies this
      ensures Valid() && old(policies) <= policies && Denotes(h, p)
    {
      if p.Native? {
        h := NativeHandle(p.c);
      } else {
        var idx := Register(p);
        h := Callback(idx);
      }
    }

    /** Over any sequence of SetFilterPolicy calls, every handle still denotes the policy it was made for. */
    method SetMany(ps: seq<Policy>) returns (hs: seq<Handle>)
      requires Valid()
      modifies this
      ensures Valid() && old(policies) <= policies
      ensures |hs| == |ps| && forall i | 0 <= i < |ps| :: Denotes(hs[i], ps[i])
    {
      hs := [];
      for n := 0 to |ps|
        invariant Valid() && old(policies) <= policies
        invariant |hs| == n && forall i | 0 <= i < n :: Denotes(hs[i], ps[i])
      {
        var h := SetFilterPolicy(ps[n]);
        hs := hs + [h];
      }
    }
  }

  /** The outcome of the Go callback: a filter pointer and length, or a run-time panic. */
  datatype CallbackResult = Filter(addr: nat, size: nat) | Panic

  /** cByteSlice: null for nothing, else a malloc block with a copy, which panics past the array's length. */
  method CByteSlice(heap: CHeap, b: Bytes) returns (r: CallbackResult)
    requires heap.Valid()
    modifies heap
    ensures heap.Valid() && Preserves(old(heap.now), heap.now)
    ensures r.Panic? <==> |b| > 0x100_0000
    ensures b == [] ==> r == Filter(NULL, 0)
    ensures r.Filter? ==> r.size == |b| && InRange(heap.now.mem, View(r.addr, r.size))
    ensures r.Filter? ==> Read(heap.now.mem, View(r.addr, r.size)) == b
    ensures r.Filter? ==> heap.now.blocks == if b == [] then old(heap.now.blocks) else old(heap.now.blocks)[r.addr := |b|]
  {
    var addr := NULL;
    if |b| > 0 {
      addr := heap.MallocCopy(b);
      if |b| > COPY_LIMIT { return Panic; }
    } else {
      PreservesRefl(heap.now);
    }
    r := Filter(addr, |b|);
  }

  /** A callback's result for a filter: its bytes in memory, or a panic for more than can be copied. */
  ghost predicate Carries(r: CallbackResult, f: Bytes, mem: Bytes)
  {
    if |f| > 0x100_0000 then r.Panic?
    else r.Filter? && r.size == |f| && InRange(mem, View(r.addr, r.size)) && Read(mem, View(r.addr, r.size)) == f
  }

  /**
    * rdbc_filterpolicy_create_filter: the two C arrays become Go views again, one by one, and the
    * policy sees exactly the key list the C++ side had.
    */
  method CreateCallback(heap: CHeap, reg: Registry, idx: nat, rawKeys: array<nat>, keysLen: array<nat>, n: nat,
                        ghost keys: seq<View>)
    returns (r: CallbackResult)
    requires heap.Valid() && idx < |reg.policies|
    requires n == |keys| <= rawKeys.Length && n <= keysLen.Length && AllInRange(heap.now.mem, keys)
    requires forall i | 0 <= i < n :: keys[i] == View(rawKeys[i], keysLen[i])
    modifies heap
    ensures heap.Valid() && Preserves(old(heap.now), heap.now)
    ensures match reg.policies[idx]
            case NilPolicy => r.Panic?
            case Native(_) => r == Filter(NULL, 0)
            case GoPolicy(create, _) => Carries(r, create(ReadAll(old(heap.now.mem), keys)), heap.now.mem)
  {
    var goKeys: seq<Bytes> := [];
    for i := 0 to n
      invariant goKeys == ReadAll(heap.now.mem, keys)[..i]
    {
      goKeys := goKeys + [Read(heap.now.mem, View(rawKeys[i], keysLen[i]))];
    }
    assert goKeys == ReadAll(heap.now.mem, keys);
    match reg.policies[idx] {
      case NilPolicy =>
        PreservesRefl(heap.now);
        r := Panic;
      case Native(_) => r := CByteSlice(heap, StubCreate(goKeys));
      case GoPolicy(create, _) => r := CByteSlice(heap, create(goKeys));
    }
  }

  /** The C++ CreateFilter of a registered policy: `dst` gains the filter bytes and nothing else. */
  method CppCreateFilter(heap: CHeap, reg: Registry, idx: nat, keys: seq<View>, dst: Bytes) returns (r: Option<Bytes>)
    requires heap.Valid() && idx < |reg.policies| && keys != [] && AllInRange(heap.now.mem, keys)
    modifies heap
    ensures heap.Valid() && Preserves(old(heap.now), heap.now)
    ensures match reg.policies[idx]
            case NilPolicy => r == None
            case Native(_) => r == Some(dst)
            case GoPolicy(create, _) =>
              var f := create(ReadAll(old(heap.now.mem), keys));
              r == if |f| <= 0x100_0000 then Some(dst + f) else None
  {
    var n := |keys|;
    var keyPointers, keySizes := new nat[n], new nat[n];
    for i := 0 to n
      invariant forall j | 0 <= j < i :: keys[j] == View(keyPointers[j], keySizes[j])
      invariant unchanged(heap) && unchanged(reg)
    {
      keyPointers[i] := keys[i].addr;
      keySizes[i] := keys[i].size;
    }
    var filter := CreateCallback(heap, reg, idx, keyPointers, keySizes, n, keys);
    if filter.Panic? { return None; }
    r := Some(dst + Read(heap.now.mem, View(filter.addr, filter.size)));
    assert dst + [] == dst;
  }

  /** boolToChar, and the C++ conversion of an unsigned char back to bool. */
  function BoolToChar(b: bool): (c: Byte)
    ensures c != 0 <==> b
  {
    if b then 1 else 0
  }

  /** The C++ KeyMayMatch of a registered policy; none when the call on a nil policy panics. */
  method CppKeyMayMatch(heap: CHeap, reg: Registry, idx: nat, key: View, filter: View) returns (r: Option<bool>)
    requires idx < |reg.policies| && InRange(heap.now.mem, key) && InRange(heap.now.mem, filter)
    ensures match reg.policies[idx]
            case NilPolicy => r == None
            case Native(_) => r == Some(false)
            case GoPolicy(_, mayMatch) => r == Some(mayMatch(Read(heap.now.mem, key), Read(heap.now.mem, filter)))
  {
    var goKey, goFilter := Read(heap.now.mem, key), Read(heap.now.mem, filter);
    var c;
    match reg.policies[idx] {
      case NilPolicy => return None;
      case Native(_) => c := BoolToChar(StubMayMatch(goKey, goFilter));
      case GoPolicy(_, mayMatch) => c := BoolToChar(mayMatch(goKey, goFilter));
    }
    r := Some(c != 0);
  }

  /** RocksDB keeps a copy of the filter; the keys it holds stay as they were. */
  method KeepFilter(heap: CHeap, filter: Bytes, ghost before: Heap, ghost key: View) returns (v: View)
    requires WellFormed(before) && heap.Valid() && Preserves(before, heap.now) && Held(before, key)
    modifies heap
    ensures InRange(heap.now.mem, v) && Read(heap.now.mem, v) == filter
    ensures InRange(heap.now.mem, key) && Read(heap.now.mem, key) == Read(before.mem, key)
  {
    ghost var middle := heap.now;
    var stored := heap.MallocCopy(filter);
    v := View(stored, |filter|);
    PreservesTrans(before, middle, heap.now);
    HeldKept(before, heap.now, key);
  }

  /**
    * Make a filter with a Go policy, keep it anywhere in memory, and ask for a key of the list. The answer
    * is the policy's own about that key and the filter it made from the whole list, and so never no when
    * the policy keeps its contract; there is no answer exactly when the filter is too long to cross.
    */
  method CreateThenAsk(heap: CHeap, reg: Registry, idx: nat, keys: seq<View>, i: nat) returns (r: Option<bool>)
    requires heap.Valid() && idx < |reg.policies| && i < |keys| && AllInRange(heap.now.mem, keys)
    requires Held(heap.now, keys[i])
    modifies heap
    ensures match reg.policies[idx]
            case NilPolicy => r == None
            case Native(_) => r == Some(false)
            case GoPolicy(create, mayMatch) =>
              var f := create(ReadAll(old(heap.now.mem), keys));
              r == if |f| <= 0x100_0000 then Some(mayMatch(Read(old(heap.now.mem), keys[i]), f)) else None
    ensures var p := reg.policies[idx]; p.GoPolicy? && GoContract(p.create, p.mayMatch) ==> r != Some(false)
  {
    ghost var before := heap.now;
    var filter := CppCreateFilter(heap, reg, idx, keys, []);
    if filter.None? { return None; }
    ghost var p := reg.policies[idx];
    NoPrefix(filter.value);
    var v := KeepFilter(heap, filter.value, before, keys[i]);
    r := CppKeyMayMatch(heap, reg, idx, keys[i], v);
    if p.GoPolicy? && GoContract(p.create, p.mayMatch) {
      GoImpliesCpp(p.create, p.mayMatch, before.mem, keys, i, heap.now.mem, keys[i], v);
    }
  }

  lemma NoPrefix(f: Bytes)
    ensures forall g: Bytes | [] + g == f :: g == f
  {
    forall g: Bytes | [] + g == f ensures g == f { assert [] + g == g; }
  }
}
