/** Byte strings under the byte-lexicographic order every store in the benchmark sorts by. */
module ByteOrder {

  type Byte = b: int | 0 <= b < 256
  type Bytes = seq<Byte>

  /** Strict byte-lexicographic order: a proper prefix comes first. */
  predicate Less(a: Bytes, b: Bytes)
  {
    b != [] && (a == [] || a[0] < b[0] || (a[0] == b[0] && Less(a[1..], b[1..])))
  }

  lemma {:induction false} Irreflexive(a: Bytes)
    ensures !Less(a, a)
  {
    if a != [] { Irreflexive(a[1..]); }
  }

  lemma {:induction false} Comparable(a: Bytes, b: Bytes)
    ensures a == b || Less(a, b) || Less(b, a)
  {
    if a != [] && b != [] && a[0] == b[0] {
      Comparable(a[1..], b[1..]);
      assert a == [a[0]] + a[1..] && b == [b[0]] + b[1..];
    }
  }

  lemma {:induction false} Transitive(a: Bytes, b: Bytes, c: Bytes)
    requires Less(a, b) && Less(b, c)
    ensures Less(a, c)
  {
    if a != [] && a[0] == b[0] == c[0] { Transitive(a[1..], b[1..], c[1..]); }
  }

  lemma Asymmetric(a: Bytes, b: Bytes)
    requires Less(a, b)
    ensures !Less(b, a)
  {
    if Less(b, a) { Transitive(a, b, a); Irreflexive(a); }
  }

  /** Blocks of equal length compare first; only a tie looks at what follows. */
  lemma {:induction false} LessConcat(a: Bytes, b: Bytes, c: Bytes, d: Bytes)
    requires |a| == |b|
    ensures Less(a + c, b + d) <==> Less(a, b) || (a == b && Less(c, d))
  {
    if a == [] {
      assert a + c == c && b + d == d;
    } else {
      assert (a + c)[1..] == a[1..] + c && (b + d)[1..] == b[1..] + d;
      LessConcat(a[1..], b[1..], c, d);
      assert a == [a[0]] + a[1..] && b == [b[0]] + b[1..];
    }
  }

  /** The keys at or after `p` and not carrying the prefix `p` come after every key that carries it. */
  lemma {:induction false} PrefixIsInterval(p: Bytes, k: Bytes, j: Bytes)
    requires p <= k && !Less(j, p) && !(p <= j)
    ensures Less(k, j)
  {
    if p != [] && j != [] && p[0] == j[0] { PrefixIsInterval(p[1..], k[1..], j[1..]); }
  }

  /** A key is never before its own prefix. */
  lemma {:induction false} PrefixNotAfter(p: Bytes, k: Bytes)
    requires p <= k
    ensures !Less(k, p)
  {
    if p != [] { PrefixNotAfter(p[1..], k[1..]); }
  }

  predicate Ascending(ks: seq<Bytes>)
  {
    forall i, j {:trigger Less(ks[i], ks[j])} | 0 <= i < j < |ks| :: Less(ks[i], ks[j])
  }

  predicate IsLeast(s: set<Bytes>, k: Bytes)
  {
    k in s && forall j | j in s && j != k :: Less(k, j)
  }

  /** A finite nonempty set of keys has a least one. */
  lemma {:induction false} LeastExists(s: set<Bytes>)
    requires s != {}
    ensures exists k :: IsLeast(s, k)
  {
    var x :| x in s;
    var rest := s - {x};
    if rest == {} {
      assert s == {x};
      assert IsLeast(s, x);
    } else {
      LeastExists(rest);
      var m :| IsLeast(rest, m);
      Comparable(x, m);
      if Less(x, m) {
        forall j | j in s && j != x ensures Less(x, j) {
          if j != m { Transitive(x, m, j); }
        }
        assert IsLeast(s, x);
      } else {
        assert IsLeast(s, m);
      }
    }
  }

  lemma LeastUnique(s: set<Bytes>)
    ensures forall a, b | IsLeast(s, a) && IsLeast(s, b) :: a == b
  {
    forall a, b | IsLeast(s, a) && IsLeast(s, b) ensures a == b {
      if a != b { Asymmetric(a, b); }
    }
  }

  /** `keys` lists the set once each and in order: what a cursor over a store walks through. */
  ghost predicate Orders(keys: seq<Bytes>, s: set<Bytes>)
  {
    Ascending(keys) && |keys| == |s| && forall k :: k in keys <==> k in s
  }

  function SortedKeys(s: set<Bytes>): (keys: seq<Bytes>)
    ensures Orders(keys, s)
  {
    if s == {} then [] else
    LeastExists(s);
    LeastUnique(s);
    var least :| IsLeast(s, least);
    [least] + SortedKeys(s - {least})
  }

  /** An ascending list is determined by its elements. */
  lemma {:induction false} AscendingUnique(a: seq<Bytes>, b: seq<Bytes>)
    requires Ascending(a) && Ascending(b)
    requires forall k :: k in a <==> k in b
    ensures a == b
  {
    if b != [] { assert b[0] in a; }
    if a != [] {
      assert a[0] in b && b != [] && b[0] in a;
      if a[0] != b[0] {
        Asymmetric(a[0], b[0]);
      }
      forall k ensures k in a[1..] <==> k in b[1..] {
        Irreflexive(a[0]);
        assert k in a <==> k == a[0] || k in a[1..];
        assert k in b <==> k == b[0] || k in b[1..];
        assert a[0] !in a[1..] && b[0] !in b[1..];
      }
      AscendingUnique(a[1..], b[1..]);
      assert a == [a[0]] + a[1..] && b == [b[0]] + b[1..];
    }
  }

  lemma {:induction false} AscendingSize(keys: seq<Bytes>, s: set<Bytes>)
    requires Ascending(keys) && forall k :: k in keys <==> k in s
    ensures |keys| == |s|
  {
    AscendingUnique(keys, SortedKeys(s));
  }
}
