/**
 * The cache fingerprint of an image request (src/cache.ts): the request
 * parameters sorted by name, joined as `name=value&...`, and hashed with a
 * 32-bit `31*h + c` polynomial hash into `base36(|h|)-length`.
 */
module Cache {
  import opened Wrappers
  import opened JsNumber
  import opened JsText

  /** One query parameter, as `URLSearchParams.entries()` yields it. */
  datatype Entry = Entry(name: JsString, value: JsString)

  /**
   * The `localeCompare` collation of the runtime's default locale: the
   * sign of `cmp(a, b)` says whether `a` sorts before, with or after `b`.
   */
  type Collation = (JsString, JsString) -> int

  /** A collation that orders names totally and only ties equal names. */
  ghost predicate IsStrictCollation(cmp: Collation) {
    && (forall a, b :: cmp(a, b) == 0 <==> a == b)
    && (forall a, b :: cmp(a, b) < 0 <==> cmp(b, a) > 0)
    && (forall a, b, c :: cmp(a, b) < 0 && cmp(b, c) < 0 ==> cmp(a, c) < 0)
  }

  ghost predicate SortedByName(s: seq<Entry>, cmp: Collation) {
    forall i, j :: 0 <= i < j < |s| ==> cmp(s[i].name, s[j].name) <= 0
  }

  predicate DistinctNames(s: seq<Entry>) {
    forall i, j :: 0 <= i < j < |s| ==> s[i].name != s[j].name
  }

  /** Entries of the bag that share a name are the same entry. */
  ghost predicate NamesDetermineEntries(m: multiset<Entry>) {
    forall x, y :: x in m && y in m && x.name == y.name ==> x == y
  }

  /** Insert `e` before the first entry whose name does not sort before it. */
  function InsertByName(e: Entry, sorted: seq<Entry>, cmp: Collation): (r: seq<Entry>)
    ensures multiset(r) == multiset(sorted) + multiset{e}
  {
    if sorted == [] then [e]
    else if cmp(e.name, sorted[0].name) <= 0 then [e] + sorted
    else
      assert sorted == [sorted[0]] + sorted[1..];
      [sorted[0]] + InsertByName(e, sorted[1..], cmp)
  }

  /**
   * `entries.sort((a, b) => a[0].localeCompare(b[0]))`: a stable sort by
   * name (insertion sort; every stable sort gives the same result).
   */
  function SortByName(entries: seq<Entry>, cmp: Collation): (r: seq<Entry>)
    ensures multiset(r) == multiset(entries)
  {
    if entries == [] then []
    else
      assert entries == [entries[0]] + entries[1..];
      InsertByName(entries[0], SortByName(entries[1..], cmp), cmp)
  }

  lemma {:induction false} InsertKeepsSorted(e: Entry, s: seq<Entry>, cmp: Collation)
    requires IsStrictCollation(cmp) && SortedByName(s, cmp)
    ensures SortedByName(InsertByName(e, s, cmp), cmp)
  {
    if s == [] {
    } else if cmp(e.name, s[0].name) <= 0 {
      InsertAtFront(e, s, cmp);
    } else {
      InsertKeepsSorted(e, s[1..], cmp);
      TailSorted(s, cmp);
      AfterFirst(e, s, cmp);
      ConsSorted(s[0], InsertByName(e, s[1..], cmp), cmp);
    }
  }

  lemma InsertAtFront(e: Entry, s: seq<Entry>, cmp: Collation)
    requires IsStrictCollation(cmp) && SortedByName(s, cmp)
    requires s != [] && cmp(e.name, s[0].name) <= 0
    ensures SortedByName([e] + s, cmp)
  {
    forall j | 0 <= j < |s| ensures cmp(e.name, s[j].name) <= 0 {
      if j > 0 {
        NotAfterTransitive(e.name, s[0].name, s[j].name, cmp);
      }
    }
    ConsSorted(e, s, cmp);
  }

  /** Every entry of InsertByName(e, s[1..]) sorts no earlier than s[0] when e sorts after s[0]. */
  lemma AfterFirst(e: Entry, s: seq<Entry>, cmp: Collation)
    requires IsStrictCollation(cmp) && SortedByName(s, cmp)
    requires s != [] && cmp(e.name, s[0].name) > 0
    ensures forall j :: 0 <= j < |InsertByName(e, s[1..], cmp)| ==>
      cmp(s[0].name, InsertByName(e, s[1..], cmp)[j].name) <= 0
  {
    var tail := InsertByName(e, s[1..], cmp);
    forall j | 0 <= j < |tail| ensures cmp(s[0].name, tail[j].name) <= 0 {
      assert tail[j] in multiset(s[1..]) + multiset{e};
      if tail[j] != e {
        assert tail[j] in multiset(s[1..]);
        var k :| 0 <= k < |s[1..]| && s[1..][k] == tail[j];
        assert s[k + 1] == tail[j];
      }
    }
  }

  lemma TailSorted(s: seq<Entry>, cmp: Collation)
    requires s != [] && SortedByName(s, cmp)
    ensures SortedByName(s[1..], cmp)
  {
    forall i, j | 0 <= i < j < |s| - 1 ensures cmp(s[1..][i].name, s[1..][j].name) <= 0 {
      assert s[1..][i] == s[i + 1] && s[1..][j] == s[j + 1];
    }
  }

  lemma ConsSorted(x: Entry, s: seq<Entry>, cmp: Collation)
    requires SortedByName(s, cmp)
    requires forall j :: 0 <= j < |s| ==> cmp(x.name, s[j].name) <= 0
    ensures SortedByName([x] + s, cmp)
  {
    var r := [x] + s;
    forall i, j | 0 <= i < j < |r| ensures cmp(r[i].name, r[j].name) <= 0 {
      if i == 0 {
        assert r[j] == s[j - 1];
      } else {
        assert r[i] == s[i - 1] && r[j] == s[j - 1];
      }
    }
  }

  lemma NotAfterTransitive(a: JsString, b: JsString, c: JsString, cmp: Collation)
    requires IsStrictCollation(cmp) && cmp(a, b) <= 0 && cmp(b, c) <= 0
    ensures cmp(a, c) <= 0
  {
    if cmp(a, b) == 0 {
      assert a == b;
    } else if cmp(b, c) == 0 {
      assert b == c;
    }
  }

  /** The sort puts the entries in collation order. */
  lemma {:induction false} SortIsSorted(entries: seq<Entry>, cmp: Collation)
    requires IsStrictCollation(cmp)
    ensures SortedByName(SortByName(entries, cmp), cmp)
  {
    if entries != [] {
      SortIsSorted(entries[1..], cmp);
      InsertKeepsSorted(entries[0], SortByName(entries[1..], cmp), cmp);
    }
  }

  /** Two sorted orders of one bag whose names determine its entries are equal. */
  lemma {:induction false} SortedOrderUnique(a: seq<Entry>, b: seq<Entry>, cmp: Collation)
    requires IsStrictCollation(cmp)
    requires SortedByName(a, cmp) && SortedByName(b, cmp)
    requires multiset(a) == multiset(b) && NamesDetermineEntries(multiset(a))
    ensures a == b
  {
    if a == [] {
      assert |multiset(b)| == 0;
    } else {
      assert a[0] in multiset(b);
      SameFirst(a, b, cmp);
      TailBag(a);
      TailBag(b);
      SubBagDetermines(multiset(a[1..]), multiset(a));
      TailSorted(a, cmp);
      TailSorted(b, cmp);
      SortedOrderUnique(a[1..], b[1..], cmp);
    }
  }

  lemma SameFirst(a: seq<Entry>, b: seq<Entry>, cmp: Collation)
    requires IsStrictCollation(cmp)
    requires SortedByName(a, cmp) && SortedByName(b, cmp)
    requires a != [] && b != []
    requires multiset(a) == multiset(b) && NamesDetermineEntries(multiset(a))
    ensures a[0] == b[0]
  {
    assert a[0] in multiset(b) && b[0] in multiset(a);
    var i :| 0 <= i < |a| && a[i] == b[0];
    var j :| 0 <= j < |b| && b[j] == a[0];
    if i > 0 && j > 0 {
      assert cmp(a[0].name, b[0].name) <= 0 && cmp(b[0].name, a[0].name) <= 0;
      assert a[0].name == b[0].name;
    }
  }

  lemma TailBag(a: seq<Entry>)
    requires a != []
    ensures multiset(a[1..]) == multiset(a) - multiset{a[0]}
    ensures multiset(a[1..]) <= multiset(a)
  {
    assert a == [a[0]] + a[1..];
  }

  lemma SubBagDetermines(sub: multiset<Entry>, m: multiset<Entry>)
    requires sub <= m && NamesDetermineEntries(m)
    ensures NamesDetermineEntries(sub)
  {
  }

  lemma DistinctNamesDetermineEntries(s: seq<Entry>)
    requires DistinctNames(s)
    ensures NamesDetermineEntries(multiset(s))
  {
    forall x, y | x in multiset(s) && y in multiset(s) && x.name == y.name ensures x == y {
      var i :| 0 <= i < |s| && s[i] == x;
      var j :| 0 <= j < |s| && s[j] == y;
    }
  }

  /** Reordering parameters with distinct names does not change the sorted list. */
  lemma SortIgnoresOrder(p1: seq<Entry>, p2: seq<Entry>, cmp: Collation)
    requires IsStrictCollation(cmp)
    requires DistinctNames(p1) && multiset(p1) == multiset(p2)
    ensures SortByName(p1, cmp) == SortByName(p2, cmp)
  {
    SortIsSorted(p1, cmp);
    SortIsSorted(p2, cmp);
    DistinctNamesDetermineEntries(p1);
    SortedOrderUnique(SortByName(p1, cmp), SortByName(p2, cmp), cmp);
  }

  /** `${k}=${v}`. */
  function Pair(e: Entry): JsString {
    e.name + ['=' as int] + e.value
  }

  /** `sorted.map(([k, v]) => `${k}=${v}`).join('&')`. */
  function KeyString(sorted: seq<Entry>): (k: JsString)
    ensures sorted == [] ==> k == []
    ensures |sorted| == 1 ==> k == Pair(sorted[0])
  {
    Join(seq(|sorted|, i requires 0 <= i < |sorted| => Pair(sorted[i])), ['&' as int])
  }

  /** The code units read as a number in base 31, most significant first. */
  function Poly(s: JsString): int {
    if s == [] then 0 else 31 * Poly(s[..|s| - 1]) + s[|s| - 1]
  }

  /** The 32-bit hash: the polynomial wrapped to an int32. */
  function Hash(s: JsString): (h: int)
    ensures IsInt32(h)
  {
    ToInt32(Poly(s))
  }

  /** The key hashString returns: base-36 digits of |hash|, a hyphen, the decimal length. */
  function Fingerprint(s: JsString): JsString {
    ToRadixString(Abs(Hash(s)), 36) + [Hyphen] + ToRadixString(|s|, 10)
  }

  /** One step of the loop, `((hash << 5) - hash) + char` then `hash & hash`, is `ToInt32(31 * hash + char)`. */
  lemma HashStep(p: int, c: CodeUnit)
    ensures ToInt32(ShiftLeft(ToInt32(p), 5) - ToInt32(p) + c) == ToInt32(31 * p + c)
  {
    var h := ToInt32(p);
    ToInt32OfInt32(h);
    ShiftLeftFive(h);
    var sh := ToInt32(h * 32);
    WrapStep(p, h, sh, c);
    ToInt32Congruent(sh - h + c, 31 * p + c);
  }

  lemma ShiftLeftFive(h: int)
    requires IsInt32(h)
    ensures ShiftLeft(h, 5) == ToInt32(h * 32)
  {
    assert Pow2(5) == 32;
    ToInt32OfInt32(h);
  }

  /** With h congruent to p and sh to 32 * h, sh - h + c is congruent to 31 * p + c. */
  lemma WrapStep(p: int, h: int, sh: int, c: int)
    requires (p - h) % 0x1_0000_0000 == 0 && (h * 32 - sh) % 0x1_0000_0000 == 0
    ensures ((sh - h + c) - (31 * p + c)) % 0x1_0000_0000 == 0
  {
    var k1 := (h * 32 - sh) / 0x1_0000_0000;
    var k2 := (p - h) / 0x1_0000_0000;
    assert h * 32 - sh == 0x1_0000_0000 * k1;
    assert p - h == 0x1_0000_0000 * k2;
    assert (sh - h + c) - (31 * p + c) == 0x1_0000_0000 * (-k1 - 31 * k2);
  }

  /** hashString (src/cache.ts:18-26). */
  method HashString(str: JsString) returns (key: JsString)
    ensures key == Fingerprint(str)
  {
    var hash := 0;
    var i := 0;
    while i < |str|
      invariant 0 <= i <= |str|
      invariant hash == Hash(str[..i])
    {
      var unit := str[i];
      assert str[..i + 1][..i] == str[..i];
      HashStep(Poly(str[..i]), unit);
      hash := ShiftLeft(hash, 5) - hash + unit;
      hash := ToInt32(hash);  // `hash & hash` is ToInt32(hash)
      i := i + 1;
    }
    assert str[..i] == str;
    key := ToRadixString(Abs(hash), 36) + [Hyphen] + ToRadixString(|str|, 10);
  }

  /** generateCacheKey (src/cache.ts:7-12). */
  method GenerateCacheKey(params: seq<Entry>, cmp: Collation) returns (key: JsString)
    ensures key == Fingerprint(KeyString(SortByName(params, cmp)))
  {
    var sorted := SortByName(params, cmp);
    var keyString := KeyString(sorted);
    key := HashString(keyString);
  }

  /** The key is the same for every order of the same distinct-named parameters. */
  lemma CacheKeyIgnoresOrder(p1: seq<Entry>, p2: seq<Entry>, cmp: Collation)
    requires IsStrictCollation(cmp)
    requires DistinctNames(p1) && multiset(p1) == multiset(p2)
    ensures Fingerprint(KeyString(SortByName(p1, cmp))) == Fingerprint(KeyString(SortByName(p2, cmp)))
  {
    SortIgnoresOrder(p1, p2, cmp);
  }

  /** The empty string hashes to "0-0". */
  lemma EmptyStringFingerprint()
    ensures Fingerprint([]) == [Zero, Hyphen, Zero]
  {
  }

  /** The position of the first `c` in `s`, if any. */
  function IndexOf(s: JsString, c: CodeUnit): (r: Option<nat>)
    ensures r.Some? ==> r.value < |s| && s[r.value] == c && forall i :: 0 <= i < r.value ==> s[i] != c
    ensures r.None? ==> forall i :: 0 <= i < |s| ==> s[i] != c
  {
    if s == [] then None
    else if s[0] == c then Some(0)
    else match IndexOf(s[1..], c)
      case None => None
      case Some(i) => Some(i + 1)
  }

  /** Read a key back: the base-36 number before the first hyphen and the decimal one after it. */
  function ParseFingerprint(key: JsString): Option<(nat, nat)> {
    match IndexOf(key, Hyphen)
    case None => None
    case Some(p) =>
      var hashDigits, lengthDigits := key[..p], key[p + 1..];
      if AllDigits(hashDigits, 36) && AllDigits(lengthDigits, 10) then
        Some((DigitsValue(hashDigits, 36), DigitsValue(lengthDigits, 10)))
      else None
  }

  /** The part before the single hyphen is |hash| in base 36; the part after it is the input length. */
  lemma FingerprintRoundTrip(s: JsString)
    ensures ParseFingerprint(Fingerprint(s)) == Some((Abs(Hash(s)), |s|))
  {
    var prefix := ToRadixString(Abs(Hash(s)), 36);
    var suffix := ToRadixString(|s|, 10);
    var key := Fingerprint(s);
    assert forall i :: 0 <= i < |prefix| ==> key[i] == prefix[i] && IsLowerDigit(prefix[i]);
    assert key[|prefix|] == Hyphen;
    assert IndexOf(key, Hyphen) == Some(|prefix|);
    assert key[..|prefix|] == prefix;
    assert key[|prefix| + 1..] == suffix;
    RadixRoundTrip(Abs(Hash(s)), 36);
    RadixRoundTrip(|s|, 10);
  }
}
