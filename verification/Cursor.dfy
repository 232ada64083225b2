/** A cursor over an ordered store, and the loops the benchmarks drive it with. */
module Cursor {
  import opened ByteOrder
  import opened KeyValue
  import opened Wrappers
  import Buffers

  /** rdb.Iterator over the store as it was when the iterator was made. */
  class Iterator {
    const kv: Kv
    const keys: seq<Bytes>
    var pos: nat

    /** The iterator walks the keys of its store in order. */
    ghost predicate Walks()
    {
      Orders(keys, kv.Keys)
    }

    ghost predicate Ok()
      reads this
    {
      pos <= |keys|
    }

    constructor (kv: Kv)
      ensures Ok() && Walks() && this.kv == kv && pos == 0
    {
      this.kv := kv;
      keys := SortedKeys(kv.Keys);
      pos := 0;
    }

    predicate Valid()
      reads this
    {
      pos < |keys|
    }

    function Key(): Bytes
      requires Valid()
      reads this
    {
      keys[pos]
    }

    predicate ValidForPrefix(prefix: Bytes)
      reads this
    {
      Valid() && prefix <= Key()
    }

    method SeekToFirst()
      requires Ok()
      modifies this
      ensures Ok() && pos == 0
    {
      pos := 0;
    }

    /** The first key at or after `key`. */
    method Seek(key: Bytes)
      requires Ok()
      modifies this
      ensures Ok()
      ensures forall i | 0 <= i < pos :: Less(keys[i], key)
      ensures Valid() ==> !Less(Key(), key)
    {
      pos := 0;
      while pos < |keys| && Less(keys[pos], key)
        invariant Ok()
        invariant forall i | 0 <= i < pos :: Less(keys[i], key)
      {
        pos := pos + 1;
      }
    }

    method Next()
      requires Ok() && Valid()
      modifies this
      ensures Ok() && pos == old(pos) + 1
    {
      pos := pos + 1;
    }
  }

  /** The keys carrying a prefix lie between the seek position and the first key without it. */
  lemma PrefixBlock(keys: seq<Bytes>, prefix: Bytes, start: nat, end: nat, i: nat)
    requires Ascending(keys) && start <= end <= |keys| && i < |keys| && prefix <= keys[i]
    requires forall j | 0 <= j < start :: Less(keys[j], prefix)
    requires start < |keys| ==> !Less(keys[start], prefix)
    requires end < |keys| ==> !(prefix <= keys[end])
    ensures start <= i < end
  {
    PrefixNotAfter(prefix, keys[i]);
    if i >= end {
      if Less(keys[end], prefix) && start < end { Transitive(keys[start], keys[end], prefix); }
      PrefixIsInterval(prefix, keys[i], keys[end]);
      if i > end { Asymmetric(keys[end], keys[i]); }
    }
  }

  lemma PrefixScanned(keys: seq<Bytes>, s: set<Bytes>, prefix: Bytes, start: nat, end: nat)
    requires Orders(keys, s) && start <= end <= |keys|
    requires forall j | 0 <= j < start :: Less(keys[j], prefix)
    requires start < |keys| ==> !Less(keys[start], prefix)
    requires end < |keys| ==> !(prefix <= keys[end])
    requires forall i | start <= i < end :: prefix <= keys[i]
    ensures Orders(keys[start..end], set k | k in s && prefix <= k)
  {
    var seen, wanted := keys[start..end], set k | k in s && prefix <= k;
    forall i, j | 0 <= i < j < |seen| ensures Less(seen[i], seen[j]) {
      assert Less(keys[start + i], keys[start + j]);
    }
    forall k ensures k in seen <==> k in wanted {
      if k in wanted {
        var i: nat :| i < |keys| && keys[i] == k;
        PrefixBlock(keys, prefix, start, end, i);
        assert seen[i - start] == k;
      }
      if k in seen {
        var i: nat :| i < |seen| && seen[i] == k;
        assert keys[start + i] == k;
      }
    }
    AscendingSize(seen, wanted);
  }

  /**
    * Seek(prefix), then Next while ValidForPrefix(prefix): visits exactly the stored keys with that
    * prefix, each once and in order, for every store and every prefix.
    */
  method ScanPrefix(it: Iterator, prefix: Bytes) returns (seen: seq<Bytes>)
    requires it.Ok() && it.Walks()
    modifies it
    ensures it.Ok()
    ensures Orders(seen, set k | k in it.kv.Keys && prefix <= k)
  {
    seen := [];
    it.Seek(prefix);
    ghost var start := it.pos;
    while it.ValidForPrefix(prefix)
      invariant it.Ok() && start <= it.pos
      invariant seen == it.keys[start..it.pos]
      invariant forall i | start <= i < it.pos :: prefix <= it.keys[i]
      decreases |it.keys| - it.pos
    {
      seen := seen + [it.Key()];
      it.Next();
    }
    PrefixScanned(it.keys, it.kv.Keys, prefix, start, it.pos);
  }

  /** SeekToFirst, then Next while Valid: counts every stored key once. */
  method CountKeys(it: Iterator) returns (count: nat)
    requires it.Ok() && it.Walks()
    modifies it
    ensures it.Ok() && count == |it.kv.Keys|
  {
    count := 0;
    it.SeekToFirst();
    while it.Valid()
      invariant it.Ok() && count == it.pos
      decreases |it.keys| - it.pos
    {
      count := count + 1;
      it.Next();
    }
  }

  // ----- the iterate benchmarks

  /** A Go byte slice from the start of its array; the array's length is the capacity. */
  datatype GoSlice = GoSlice(data: array<Byte>, len: nat)

  ghost predicate SliceOk(s: GoSlice) { s.len <= s.data.Length }

  ghost function Content(s: GoSlice): Bytes
    requires SliceOk(s)
    reads s.data
  {
    s.data[..s.len]
  }

  /** safecopy: reuses the buffer when it is big enough, and never returns one with less capacity. */
  method SafeCopy(dst: GoSlice, src: Bytes) returns (r: GoSlice)
    requires SliceOk(dst)
    modifies dst.data
    ensures SliceOk(r) && Content(r) == src
    ensures r.data.Length >= dst.data.Length
    ensures r.data == dst.data || fresh(r.data)
  {
    var data := dst.data;
    if data.Length < |src| {
      data := new Byte[|src|](_ => 0);
    }
    Buffers.CopyInto(data, src);
    r := GoSlice(data, |src|);
  }

  function Min(a: nat, b: nat): nat { if a < b then a else b }

  predicate SizeOk(vsz: Option<nat>, value: Bytes)
  {
    vsz.Some? ==> |value| == vsz.value
  }

  /** The buffers hold the last of the first `count` pairs. */
  ghost predicate HoldsLast(it: Iterator, count: nat, k: GoSlice, v: GoSlice)
    requires it.Walks() && SliceOk(k) && SliceOk(v) && count <= |it.keys|
    reads k.data, v.data
  {
    count > 0 ==> Content(k) == it.keys[count - 1] && Content(v) == it.kv[it.keys[count - 1]]
  }

  /** Reused buffers: still apart, never smaller than before. */
  twostate predicate Reused(k0: GoSlice, v0: GoSlice, new k: GoSlice, new v: GoSlice)
  {
    && SliceOk(k) && SliceOk(v) && k.data != v.data
    && (k.data == k0.data || fresh(k.data)) && (v.data == v0.data || fresh(v.data))
    && k.data.Length >= k0.data.Length && v.data.Length >= v0.data.Length
  }

  /** One turn of an iterate loop's processing: both buffers take the pair. */
  method CopyPair(k0: GoSlice, v0: GoSlice, key: Bytes, value: Bytes) returns (k: GoSlice, v: GoSlice)
    requires SliceOk(k0) && SliceOk(v0) && k0.data != v0.data
    modifies k0.data, v0.data
    ensures Reused(k0, v0, k, v)
    ensures Content(k) == key && Content(v) == value
  {
    k := SafeCopy(k0, key);
    v := SafeCopy(v0, value);
  }

  /**
    * The iterate loops of RocksDB, Bolt and Badger, with the value-size assertion of the latter two
    * (none for RocksDB): copy each pair into the reused buffers and stop after `limit`.
    */
  method Iterate(it: Iterator, k0: GoSlice, v0: GoSlice, limit: nat, vsz: Option<nat>)
    returns (count: nat, k: GoSlice, v: GoSlice, failed: bool)
    requires it.Ok() && it.Walks()
    requires SliceOk(k0) && SliceOk(v0) && k0.data != v0.data && limit > 0
    modifies it, k0.data, v0.data
    ensures Reused(k0, v0, k, v)
    ensures count <= |it.keys| && HoldsLast(it, count, k, v)
    ensures failed <==> exists i :: 0 <= i < Min(|it.keys|, limit) && !SizeOk(vsz, it.kv[it.keys[i]])
    ensures !failed ==> count == Min(|it.keys|, limit)
  {
    count, k, v, failed := 0, k0, v0, false;
    it.SeekToFirst();
    while it.Valid()
      invariant it.Ok() && count == it.pos < limit
      invariant Reused(k0, v0, k, v)
      invariant HoldsLast(it, count, k, v)
      invariant forall i | 0 <= i < count :: SizeOk(vsz, it.kv[it.keys[i]])
      decreases |it.keys| - it.pos
    {
      var key := it.Key();
      if !SizeOk(vsz, it.kv[key]) {
        failed := true;
        return;
      }
      k, v := CopyPair(k, v, key, it.kv[key]);
      count := count + 1;
      if count >= limit { break; }
      it.Next();
    }
  }

  /** LMDB's loop: fetch the next pair until there is none. It ends as the other loops do. */
  method IterateLmdb(it: Iterator, k0: GoSlice, v0: GoSlice, limit: nat, vsz: nat)
    returns (count: nat, k: GoSlice, v: GoSlice, failed: bool)
    requires it.pos == 0 && it.Walks()
    requires SliceOk(k0) && SliceOk(v0) && k0.data != v0.data && limit > 0
    modifies it, k0.data, v0.data
    ensures Reused(k0, v0, k, v)
    ensures count <= |it.keys| && HoldsLast(it, count, k, v)
    ensures failed <==> exists i :: 0 <= i < Min(|it.keys|, limit) && !SizeOk(Some(vsz), it.kv[it.keys[i]])
    ensures !failed ==> count == Min(|it.keys|, limit)
  {
    count, k, v, failed := 0, k0, v0, false;
    while true
      invariant it.Ok() && count == it.pos < limit
      invariant Reused(k0, v0, k, v)
      invariant HoldsLast(it, count, k, v)
      invariant forall i | 0 <= i < count :: SizeOk(Some(vsz), it.kv[it.keys[i]])
      decreases |it.keys| - it.pos
    {
      if !it.Valid() { return; }
      var key := it.Key();
      it.Next();
      if |it.kv[key]| != vsz {
        failed := true;
        return;
      }
      k, v := CopyPair(k, v, key, it.kv[key]);
      count := count + 1;
      if count >= limit { break; }
    }
  }

  /** The four iterate benchmarks that read values. */
  datatype Bench = IterateRocks | IterateBolt | IterateBadger | IterateWithLmdb

  /** Some value among the pairs a round visits has the wrong size. */
  ghost predicate SizeFails(kv: Kv, keys: seq<Bytes>, limit: nat, vsz: nat)
    requires Orders(keys, kv.Keys)
  {
    exists i :: 0 <= i < |keys| && i < limit && |kv[keys[i]]| != vsz
  }

  /** The buffers hold the last pair a round visits, if it visits any. */
  ghost predicate EndsWith(kv: Kv, keys: seq<Bytes>, limit: nat, k: GoSlice, v: GoSlice)
    requires Orders(keys, kv.Keys) && SliceOk(k) && SliceOk(v)
    reads k.data, v.data
  {
    var n := Min(|keys|, limit);
    n > 0 ==> Content(k) == keys[n - 1] && Content(v) == kv[keys[n - 1]]
  }

  /** One round of a benchmark, with a new cursor and the buffers of the round before. */
  method IterateRound(bench: Bench, kv: Kv, ghost keys: seq<Bytes>, k0: GoSlice, v0: GoSlice, limit: nat, vsz: nat)
    returns (count: nat, k: GoSlice, v: GoSlice, failed: bool)
    requires Orders(keys, kv.Keys)
    requires SliceOk(k0) && SliceOk(v0) && k0.data != v0.data && limit > 0
    modifies k0.data, v0.data
    ensures Reused(k0, v0, k, v)
    ensures failed <==> !bench.IterateRocks? && SizeFails(kv, keys, limit, vsz)
    ensures !failed ==> count == Min(|keys|, limit) && EndsWith(kv, keys, limit, k, v)
  {
    var it := new Iterator(kv);
    AscendingUnique(it.keys, keys);
    match bench {
      case IterateWithLmdb => count, k, v, failed := IterateLmdb(it, k0, v0, limit, vsz);
      case IterateRocks => count, k, v, failed := Iterate(it, k0, v0, limit, None);
      case IterateBolt | IterateBadger => count, k, v, failed := Iterate(it, k0, v0, limit, Some(vsz));
    }
  }

  /**
    * b.N rounds over one store share the two buffers. They fail exactly when there is a round and it meets
    * a value of the wrong size; otherwise every round counts the same keys, the buffers end with the
    * last pair visited, and their capacity never shrinks.
    */
  method IterateRounds(bench: Bench, kv: Kv, ghost keys: seq<Bytes>, k0: GoSlice, v0: GoSlice, limit: nat, vsz: nat, rounds: nat)
    returns (counts: seq<nat>, k: GoSlice, v: GoSlice, failed: bool)
    requires Orders(keys, kv.Keys)
    requires SliceOk(k0) && SliceOk(v0) && k0.data != v0.data && limit > 0
    modifies k0.data, v0.data
    ensures Reused(k0, v0, k, v)
    ensures failed <==> rounds > 0 && !bench.IterateRocks? && SizeFails(kv, keys, limit, vsz)
    ensures !failed ==> |counts| == rounds && forall j | 0 <= j < rounds :: counts[j] == Min(|kv.Keys|, limit)
    ensures !failed && rounds > 0 && kv != map[] ==>
              var last := keys[Min(|keys|, limit) - 1];
              Content(k) == last && Content(v) == kv[last]
  {
    counts, k, v, failed := [], k0, v0, false;
    for j := 0 to rounds
      invariant Reused(k0, v0, k, v)
      invariant |counts| == j && forall i | 0 <= i < j :: counts[i] == Min(|kv.Keys|, limit)
      invariant j > 0 ==> bench.IterateRocks? || !SizeFails(kv, keys, limit, vsz)
      invariant j > 0 ==> EndsWith(kv, keys, limit, k, v)
    {
      var count;
      count, k, v, failed := IterateRound(bench, kv, keys, k, v, limit, vsz);
      if failed { return; }
      counts := counts + [count];
    }
  }
}
