/** A key-value store as a finite map, and what a list of puts does to it. */
module KeyValue {
  import opened ByteOrder

  type Kv = map<Bytes, Bytes>

  datatype Pair = Pair(key: Bytes, value: Bytes)

  /** The puts take effect in list order, so a later put of a key wins. */
  function PutAll(m: Kv, ps: seq<Pair>): Kv
  {
    if ps == [] then m else
    var last := ps[|ps| - 1];
    PutAll(m, ps[..|ps| - 1])[last.key := last.value]
  }

  function KeysOf(ps: seq<Pair>): set<Bytes>
  {
    set p | p in ps :: p.key
  }

  lemma {:induction false} PutAllKeys(m: Kv, ps: seq<Pair>)
    ensures PutAll(m, ps).Keys == m.Keys + KeysOf(ps)
  {
    if ps != [] {
      var front, last := ps[..|ps| - 1], ps[|ps| - 1];
      PutAllKeys(m, front);
      assert ps == front + [last];
      assert KeysOf(ps) == KeysOf(front) + {last.key};
    }
  }

  lemma {:induction false} PutAllSize(m: Kv, ps: seq<Pair>)
    ensures |PutAll(m, ps)| <= |m| + |ps|
  {
    if ps != [] {
      var front, last := ps[..|ps| - 1], ps[|ps| - 1];
      PutAllSize(m, front);
      var before := PutAll(m, front);
      assert PutAll(m, ps).Keys == before.Keys + {last.key};
    }
  }

  /** Every value in the result was there before or was put. */
  lemma {:induction false} PutAllValues(m: Kv, ps: seq<Pair>, k: Bytes)
    requires k in PutAll(m, ps)
    ensures (k in m && PutAll(m, ps)[k] == m[k]) || Pair(k, PutAll(m, ps)[k]) in ps
  {
    if ps != [] && k != ps[|ps| - 1].key { PutAllValues(m, ps[..|ps| - 1], k); }
  }

  lemma {:induction false} PutAllConcat(m: Kv, a: seq<Pair>, b: seq<Pair>)
    ensures PutAll(m, a + b) == PutAll(PutAll(m, a), b)
  {
    if b == [] {
      assert a + b == a;
    } else {
      assert (a + b)[..|a + b| - 1] == a + b[..|b| - 1];
      PutAllConcat(m, a, b[..|b| - 1]);
    }
  }

  /** A list of puts is one overwriting map: the net effect does not depend on the store it meets. */
  lemma {:induction false} PutAllIsMerge(m: Kv, ps: seq<Pair>)
    ensures PutAll(m, ps) == m + PutAll(map[], ps)
  {
    if ps != [] { PutAllIsMerge(m, ps[..|ps| - 1]); }
  }
}
