/** The workload's keys: `vsz=%05d-k=%010d`, printed by the writers and by the readers. */
module KeyCodec {
  import opened ByteOrder
  import opened Wrappers

  const ZERO: Byte := 48
  /** The bytes of `vsz=`. */
  const VSZ: Bytes := [118, 115, 122, 61]
  /** The bytes of `-k=`. */
  const DASH_K: Bytes := [45, 107, 61]
  const VSZ_WIDTH: nat := 5
  const KEY_WIDTH: nat := 10
  const VSZ_LIMIT: nat := 100_000
  const KEY_LIMIT: nat := 10_000_000_000
  const KEY_LENGTH: nat := 22

  predicate IsDigit(b: Byte) { ZERO <= b < ZERO + 10 }

  predicate AllDigits(s: Bytes) { forall i | 0 <= i < |s| :: IsDigit(s[i]) }

  /** `%0wd` for a natural number: at least `w` digits, more when the number needs them. */
  function Decimal(w: nat, n: nat): (s: Bytes)
    decreases n + w
  {
    if n == 0 && w == 0 then [] else Decimal(if w == 0 then 0 else w - 1, n / 10) + [ZERO + n % 10]
  }

  /** The number a digit string denotes. */
  function Value(s: Bytes): int
  {
    if s == [] then 0 else 10 * Value(s[..|s| - 1]) + (s[|s| - 1] - ZERO)
  }

  /** What `%0wd` may print: digits only, at least `w`, and no leading zero beyond the padding. */
  predicate Canonical(w: nat, s: Bytes)
  {
    |s| >= w && AllDigits(s) && (|s| > w ==> s[0] != ZERO)
  }

  function PrintKey(vsz: nat, k: nat): (key: Bytes)
  {
    VSZ + Decimal(VSZ_WIDTH, vsz) + DASH_K + Decimal(KEY_WIDTH, k)
  }

  /** Number of leading digits. */
  function DigitRun(s: Bytes): (n: nat)
    ensures n <= |s|
  {
    if s == [] || !IsDigit(s[0]) then 0 else 1 + DigitRun(s[1..])
  }

  /** The parser the key format implies. */
  function ParseKey(s: Bytes): (r: Option<(nat, nat)>)
  {
    if !(VSZ <= s) then None else
    var rest := s[|VSZ|..];
    var d := DigitRun(rest);
    if !(DASH_K <= rest[d..]) then None else
    var tail := rest[d + |DASH_K|..];
    if Canonical(VSZ_WIDTH, rest[..d]) && Canonical(KEY_WIDTH, tail) then
      ValueNat(rest[..d]);
      ValueNat(tail);
      Some((Value(rest[..d]), Value(tail)))
    else None
  }

  function Pow10(n: nat): (r: nat)
    ensures r >= 1
  {
    if n == 0 then 1 else 10 * Pow10(n - 1)
  }

  lemma {:induction false} Pow10Monotone(a: nat, b: nat)
    requires a <= b
    ensures Pow10(a) <= Pow10(b)
  {
    if a < b { Pow10Monotone(a, b - 1); }
  }

  lemma {:induction false} ValueNat(s: Bytes)
    requires AllDigits(s)
    ensures 0 <= Value(s) < Pow10(|s|)
  {
    if s != [] { ValueNat(s[..|s| - 1]); }
  }

  lemma ValueSnoc(s: Bytes, d: Byte)
    ensures Value(s + [d]) == 10 * Value(s) + (d - ZERO)
  {
    assert (s + [d])[..|s|] == s;
  }

  lemma ShiftDigit(d: int, p: int, v: int, e: int)
    ensures 10 * (d * p + v) + e == d * (10 * p) + (10 * v + e)
  {}

  /** Reading a digit string from its most significant end. */
  lemma {:induction false} ValueCons(d: Byte, s: Bytes)
    ensures Value([d] + s) == (d - ZERO) * Pow10(|s|) + Value(s)
  {
    if s == [] {
      ValueSnoc([], d);
      assert [d] + s == [] + [d];
    } else {
      var t, e := s[..|s| - 1], s[|s| - 1];
      ValueCons(d, t);
      ValueSnoc([d] + t, e);
      assert [d] + s == [d] + t + [e];
      ShiftDigit(d - ZERO, Pow10(|t|), Value(t), e - ZERO);
    }
  }

  lemma ValueLeading(s: Bytes)
    requires AllDigits(s) && s != []
    ensures (s[0] - ZERO) * Pow10(|s| - 1) <= Value(s) < (s[0] - ZERO + 1) * Pow10(|s| - 1)
  {
    assert s == [s[0]] + s[1..];
    ValueCons(s[0], s[1..]);
    ValueNat(s[1..]);
    Distribute(s[0] - ZERO, Pow10(|s| - 1));
  }

  lemma Distribute(d: int, p: int)
    ensures (d + 1) * p == d * p + p
  {}

  lemma CanonicalSnoc(w: nat, s: Bytes, d: nat)
    requires Canonical(if w == 0 then 0 else w - 1, s) && d < 10 && (w == 0 && s == [] ==> d > 0)
    ensures Canonical(w, s + [ZERO + d])
  {
    var s' := s + [ZERO + d];
    assert s == [] || s'[0] == s[0];
  }

  lemma DivMod10(n: nat)
    ensures n == 10 * (n / 10) + n % 10
  {}

  /** Printing is undone by reading the digits, at every width and for numbers wider than the padding. */
  lemma {:induction false} DecimalCanonical(w: nat, n: nat)
    ensures Canonical(w, Decimal(w, n))
    ensures Value(Decimal(w, n)) == n
    decreases n + w
  {
    if n != 0 || w != 0 {
      var w' := if w == 0 then 0 else w - 1;
      DecimalCanonical(w', n / 10);
      DivMod10(n);
      ValueSnoc(Decimal(w', n / 10), ZERO + n % 10);
      CanonicalSnoc(w, Decimal(w', n / 10), n % 10);
    }
  }

  /** Conversely a canonical digit string is the printed form of its value. */
  lemma {:induction false} CanonicalIsDecimal(w: nat, s: Bytes)
    requires Canonical(w, s)
    ensures Value(s) >= 0 && s == Decimal(w, Value(s))
    decreases |s|
  {
    if s != [] {
      var t, d := s[..|s| - 1], s[|s| - 1] - ZERO;
      var w' := if w == 0 then 0 else w - 1;
      CanonicalIsDecimal(w', t);
      assert s == t + [ZERO + d];
      assert Value(s) > 0 || w > 0 by {
        if w == 0 { ValueLeading(s); LeadingPositive(s[0] - ZERO, Pow10(|s| - 1)); }
      }
      DecimalSnoc(w, Value(t), d);
    }
  }

  lemma DecimalSnoc(w: nat, n: nat, d: nat)
    requires d < 10 && (10 * n + d > 0 || w > 0)
    ensures Decimal(w, 10 * n + d) == Decimal(if w == 0 then 0 else w - 1, n) + [ZERO + d]
  {
    assert (10 * n + d) / 10 == n && (10 * n + d) % 10 == d;
  }

  lemma LeadingPositive(d: int, p: int)
    requires d >= 1 && p >= 1
    ensures d * p >= p
  {}

  /** Padding is exact precisely for the numbers that fit it. */
  lemma DecimalWidth(w: nat, n: nat)
    ensures |Decimal(w, n)| >= w
    ensures |Decimal(w, n)| == w <==> n < Pow10(w)
  {
    var s := Decimal(w, n);
    DecimalCanonical(w, n);
    ValueNat(s);
    if |s| > w {
      ValueLeading(s);
      LeadingPositive(s[0] - ZERO, Pow10(|s| - 1));
      Pow10Monotone(w, |s| - 1);
    }
  }

  /** On digit strings of one length, byte order is numeric order. */
  lemma {:induction false} DigitOrder(a: Bytes, b: Bytes)
    requires AllDigits(a) && AllDigits(b) && |a| == |b|
    ensures Less(a, b) <==> Value(a) < Value(b)
  {
    if a != [] {
      var p := Pow10(|a| - 1);
      assert a == [a[0]] + a[1..] && b == [b[0]] + b[1..];
      ValueCons(a[0], a[1..]);
      ValueCons(b[0], b[1..]);
      ValueNat(a[1..]);
      ValueNat(b[1..]);
      if a[0] == b[0] {
        DigitOrder(a[1..], b[1..]);
      } else if a[0] < b[0] {
        DigitGap(a[0] - ZERO, b[0] - ZERO, p);
      } else {
        DigitGap(b[0] - ZERO, a[0] - ZERO, p);
      }
    }
  }

  lemma DigitGap(d: int, e: int, p: int)
    requires d < e && p >= 1
    ensures d * p + p <= e * p
  {
    LeadingPositive(e - d, p);
  }

  lemma {:induction false} DigitRunStops(s: Bytes, t: Bytes)
    requires AllDigits(s) && t != [] && !IsDigit(t[0])
    ensures DigitRun(s + t) == |s|
  {
    if s == [] {
      assert s + t == t;
    } else {
      assert (s + t)[1..] == s[1..] + t;
      DigitRunStops(s[1..], t);
    }
  }

  lemma ParseOfPrint(vsz: nat, k: nat)
    ensures ParseKey(PrintKey(vsz, k)) == Some((vsz, k))
  {
    var s := PrintKey(vsz, k);
    var v := Decimal(VSZ_WIDTH, vsz);
    var t := Decimal(KEY_WIDTH, k);
    DecimalCanonical(VSZ_WIDTH, vsz);
    DecimalCanonical(KEY_WIDTH, k);
    var rest := s[|VSZ|..];
    assert rest == v + (DASH_K + t);
    DigitRunStops(v, DASH_K + t);
    assert rest[..|v|] == v && rest[|v|..] == DASH_K + t;
    assert rest[|v| + |DASH_K|..] == t;
  }

  lemma PrintOfParse(s: Bytes)
    requires ParseKey(s).Some?
    ensures s == PrintKey(ParseKey(s).value.0, ParseKey(s).value.1)
  {
    var rest := s[|VSZ|..];
    var d := DigitRun(rest);
    var tail := rest[d + |DASH_K|..];
    CanonicalIsDecimal(VSZ_WIDTH, rest[..d]);
    CanonicalIsDecimal(KEY_WIDTH, tail);
    Reassemble(s, rest, d, tail);
  }

  lemma Reassemble(s: Bytes, rest: Bytes, d: nat, tail: Bytes)
    requires VSZ <= s && rest == s[|VSZ|..] && d <= |rest| && DASH_K <= rest[d..] && tail == rest[d + |DASH_K|..]
    ensures s == VSZ + rest[..d] + DASH_K + tail
  {
    assert rest[d..] == DASH_K + tail;
    assert rest == rest[..d] + rest[d..];
    assert s == VSZ + rest;
  }

  /**
    * The parser accepts exactly the printed keys and returns exactly the numbers printed, for all
    * naturals, including those wider than the padding.
    */
  lemma ParsePrint(s: Bytes, vsz: nat, k: nat)
    ensures ParseKey(s) == Some((vsz, k)) <==> s == PrintKey(vsz, k)
  {
    ParseOfPrint(vsz, k);
    if ParseKey(s) == Some((vsz, k)) { PrintOfParse(s); }
  }

  /** Distinct numbers print as distinct keys. */
  lemma PrintInjective(vsz: nat, k: nat, vsz': nat, k': nat)
    requires PrintKey(vsz, k) == PrintKey(vsz', k')
    ensures vsz == vsz' && k == k'
  {
    ParseOfPrint(vsz, k);
    ParseOfPrint(vsz', k');
  }

  lemma Limits()
    ensures Pow10(VSZ_WIDTH) == VSZ_LIMIT && Pow10(KEY_WIDTH) == KEY_LIMIT
  {
    assert Pow10(5) == 100_000;
  }

  lemma DivideTwice(n: nat, p: nat)
    requires p >= 1
    ensures n / 10 / p == n / (10 * p)
  {
    var q, r := n / (10 * p), n % (10 * p);
    assert n == 10 * (q * p) + r by { Reorder(q, p); }
    assert n / 10 == q * p + r / 10;
    assert 0 <= r / 10 < p;
    QuotientUnique(n / 10, p, q, r / 10);
  }

  lemma Reorder(q: int, p: int)
    ensures q * (10 * p) == 10 * (q * p)
  {}

  lemma QuotientUnique(n: nat, p: nat, q: nat, r: nat)
    requires n == q * p + r && r < p
    ensures n / p == q
  {
    var d := n / p - q;
    assert n == (n / p) * p + n % p;
    Distribute3(n / p, q, p);
    assert d * p == r - n % p;
    TimesAtLeast(d, p);
  }

  lemma TimesAtLeast(d: int, p: nat)
    ensures d >= 1 ==> d * p >= p
    ensures d <= -1 ==> d * p <= 0 - p
  {}

  lemma Distribute3(a: int, b: int, p: int)
    ensures (a - b) * p == a * p - b * p
  {}

  /** Every digit printed is that of its power of ten. */
  lemma {:induction false} DecimalDigit(w: nat, n: nat, i: nat)
    requires i < |Decimal(w, n)|
    ensures var s := Decimal(w, n); s[|s| - 1 - i] == '0' as int + n / Pow10(i) % 10
    decreases i
  {
    if i > 0 {
      var w' := if w == 0 then 0 else w - 1;
      DecimalDigit(w', n / 10, i - 1);
      DivideTwice(n, Pow10(i - 1));
    }
  }

  /** The bytes of an ASCII text. */
  function Ascii(text: string): (s: Bytes)
    requires forall i | 0 <= i < |text| :: text[i] < '\U{80}'
    ensures |s| == |text| && forall i | 0 <= i < |text| :: s[i] == text[i] as int
  {
    seq(|text|, i requires 0 <= i < |text| => text[i] as int)
  }

  /** The 22 bytes of a key within both paddings, one by one. */
  lemma KeyText(vsz: nat, k: nat)
    requires vsz < 100_000 && k < 10_000_000_000
    ensures var key := PrintKey(vsz, k);
            && |key| == 22 && key[..4] == Ascii("vsz=") && key[9..12] == Ascii("-k=")
            && (forall i | 0 <= i < 5 :: key[4..9][4 - i] == '0' as int + vsz / Pow10(i) % 10)
            && (forall i | 0 <= i < 10 :: key[12..22][9 - i] == '0' as int + k / Pow10(i) % 10)
  {
    var key, v, d := PrintKey(vsz, k), Decimal(VSZ_WIDTH, vsz), Decimal(KEY_WIDTH, k);
    KeyLength(vsz, k);
    DecimalWidth(VSZ_WIDTH, vsz);
    DecimalWidth(KEY_WIDTH, k);
    assert key[..4] == VSZ && key[4..9] == v && key[9..12] == DASH_K && key[12..22] == d;
    forall i | 0 <= i < 5 ensures v[4 - i] == '0' as int + vsz / Pow10(i) % 10 { DecimalDigit(VSZ_WIDTH, vsz, i); }
    forall i | 0 <= i < 10 ensures d[9 - i] == '0' as int + k / Pow10(i) % 10 { DecimalDigit(KEY_WIDTH, k, i); }
  }

  /** The source's "22 bytes" holds exactly when both numbers fit their padding. */
  lemma KeyLength(vsz: nat, k: nat)
    ensures |PrintKey(vsz, k)| == 22 <==> vsz < 100_000 && k < 10_000_000_000
    ensures |PrintKey(vsz, k)| >= 22
  {
    Limits();
    DecimalWidth(VSZ_WIDTH, vsz);
    DecimalWidth(KEY_WIDTH, k);
  }

  /** Within the padding, byte order on keys is the numeric order on (value size, key number). */
  lemma KeyOrder(v: nat, k: nat, v': nat, k': nat)
    requires v < VSZ_LIMIT && v' < VSZ_LIMIT && k < KEY_LIMIT && k' < KEY_LIMIT
    ensures Less(PrintKey(v, k), PrintKey(v', k')) <==> v < v' || (v == v' && k < k')
  {
    Limits();
    var a, a' := Decimal(VSZ_WIDTH, v), Decimal(VSZ_WIDTH, v');
    var b, b' := Decimal(KEY_WIDTH, k), Decimal(KEY_WIDTH, k');
    DecimalWidth(VSZ_WIDTH, v);
    DecimalWidth(VSZ_WIDTH, v');
    DecimalWidth(KEY_WIDTH, k);
    DecimalWidth(KEY_WIDTH, k');
    DecimalCanonical(VSZ_WIDTH, v);
    DecimalCanonical(VSZ_WIDTH, v');
    DecimalCanonical(KEY_WIDTH, k);
    DecimalCanonical(KEY_WIDTH, k');
    DigitOrder(a, a');
    DigitOrder(b, b');
    SplitCompare(a, b, a', b');
  }

  lemma SplitCompare(a: Bytes, b: Bytes, a': Bytes, b': Bytes)
    requires |a| == |a'|
    ensures Less(VSZ + a + DASH_K + b, VSZ + a' + DASH_K + b') <==> Less(a, a') || (a == a' && Less(b, b'))
  {
    assert VSZ + a + DASH_K + b == VSZ + (a + (DASH_K + b));
    assert VSZ + a' + DASH_K + b' == VSZ + (a' + (DASH_K + b'));
    LessConcat(VSZ, VSZ, a + (DASH_K + b), a' + (DASH_K + b'));
    Irreflexive(VSZ);
    LessConcat(a, a', DASH_K + b, DASH_K + b');
    LessConcat(DASH_K, DASH_K, b, b');
    Irreflexive(DASH_K);
  }

  ghost predicate OrderedUpTo(vsz: nat, bound: nat)
  {
    forall i: nat, j: nat | i < j < bound :: Less(PrintKey(vsz, i), PrintKey(vsz, j))
  }

  /** The first key that overflows the padding sorts before its numeric predecessor. */
  lemma OverflowOutOfOrder(vsz: nat)
    ensures Less(PrintKey(vsz, KEY_LIMIT), PrintKey(vsz, KEY_LIMIT - 1))
  {
    Limits();
    var hi, lo := Decimal(KEY_WIDTH, KEY_LIMIT), Decimal(KEY_WIDTH, KEY_LIMIT - 1);
    DecimalCanonical(KEY_WIDTH, KEY_LIMIT);
    DecimalCanonical(KEY_WIDTH, KEY_LIMIT - 1);
    DecimalWidth(KEY_WIDTH, KEY_LIMIT);
    DecimalWidth(KEY_WIDTH, KEY_LIMIT - 1);
    ValueLeading(hi);
    ValueLeading(lo);
    Pow10Monotone(KEY_WIDTH, |hi| - 1);
    assert Pow10(KEY_WIDTH) == 10 * Pow10(KEY_WIDTH - 1);
    assert lo[0] - ZERO == 9;
    var v := Decimal(VSZ_WIDTH, vsz);
    Irreflexive(v);
    SplitCompare(v, hi, v, lo);
  }

  /**
    * For one value size of any width, the keys below `bound` are stored in numeric order exactly
    * when the key space fits ten digits.
    */
  lemma OrderedIffFits(vsz: nat, bound: nat)
    ensures OrderedUpTo(vsz, bound) <==> bound <= KEY_LIMIT
  {
    if bound <= KEY_LIMIT {
      forall i: nat, j: nat | i < j < bound ensures Less(PrintKey(vsz, i), PrintKey(vsz, j)) {
        SameSizeOrder(vsz, i, j);
      }
    } else {
      OverflowOutOfOrder(vsz);
      if OrderedUpTo(vsz, bound) {
        Asymmetric(PrintKey(vsz, KEY_LIMIT), PrintKey(vsz, KEY_LIMIT - 1));
      }
    }
  }

  lemma SameSizeOrder(vsz: nat, i: nat, j: nat)
    requires i < j < KEY_LIMIT
    ensures Less(PrintKey(vsz, i), PrintKey(vsz, j))
  {
    Limits();
    var v, a, b := Decimal(VSZ_WIDTH, vsz), Decimal(KEY_WIDTH, i), Decimal(KEY_WIDTH, j);
    DecimalWidth(KEY_WIDTH, i);
    DecimalWidth(KEY_WIDTH, j);
    DecimalCanonical(KEY_WIDTH, i);
    DecimalCanonical(KEY_WIDTH, j);
    DigitOrder(a, b);
    SplitCompare(v, a, v, b);
  }
}
