/** Range scans over the ordered keys of a snapshot. */
module ValueQueries {
  import opened Base
  import opened Encoding
  import opened Store

  /** A snapshot: its contents, and its keys in the order an iterator visits them. */
  datatype Reader = Reader(db: Db, keys: seq<Bytes>)

  /** The keys of the records of a database. */
  ghost predicate StoredKey(db: Db, k: Bytes) {
    IsSingleKey(db, k) || IsPayloadKey(db, k) || IsPointerKey(db, k) || IsStringKey(db, k) || IsNumericKey(db, k)
  }

  predicate IsSingleKey(db: Db, k: Bytes) {
    || (k == LastBlockKey() && db.lastBlock.Some?)
    || (k == IdCounterKey() && db.idCounter.Some?)
    || (k == EntityCountKey() && db.count.Some?)
  }

  ghost predicate IsPayloadKey(db: Db, k: Bytes) {
    exists id :: id in db.payloads && k == PayloadKey(id)
  }

  ghost predicate IsPointerKey(db: Db, k: Bytes) {
    exists key :: key in db.current && k == EntityCurrentKey(key)
  }

  ghost predicate IsStringKey(db: Db, k: Bytes) {
    exists p :: p in db.strings && k == StringBitmapKey(p.0, p.1)
  }

  ghost predicate IsNumericKey(db: Db, k: Bytes) {
    exists p :: p in db.numbers && k == NumericBitmapKey(p.0, p.1)
  }

  predicate Sorted(keys: seq<Bytes>) {
    forall i, j :: 0 <= i < j < |keys| ==> Less(keys[i], keys[j])
  }

  /** Every indexed name and value is addressable in its key. */
  predicate Fits(db: Db) {
    && (forall p :: p in db.strings ==> StringFits(p.0, p.1))
    && (forall p :: p in db.numbers ==> NumericFits(p.0))
  }

  ghost predicate Faithful(r: Reader) {
    Sorted(r.keys) && Fits(r.db) && forall k :: k in r.keys <==> StoredKey(r.db, k)
  }

  // ----- Which stored keys a name scan meets -----

  /** The last byte that is not 0xFF is the one incremented. */
  lemma {:induction false} UpperBoundByte(p: Bytes, n: nat) returns (i: int)
    requires n <= |p| && forall j :: n <= j < |p| ==> p[j] == 255
    requires exists j :: 0 <= j < n && p[j] < 255
    ensures 0 <= i < n && p[i] < 255 && forall j :: i < j < |p| ==> p[j] == 255
    ensures PrefixUpperBound(p) == Some(p[..i] + [p[i] + 1] + Zeros(|p| - i - 1))
  {
    if p[n - 1] < 255 {
      i := n - 1;
      UpperBoundForm(p, i);
    } else {
      i := UpperBoundByte(p, n - 1);
    }
  }

  lemma TwoBytes(n: nat, b: Bytes)
    requires n < TWO16 && b == BigEndian(n, 2)
    ensures |b| == 2 && n == b[0] as int * 256 + b[1] as int
  {
    Widths();
    BigEndianRoundTrip(n, 2);
    var high := b[..1];
    assert high[..0] == [];
    assert FromBigEndian(high[..0]) == 0;
    assert FromBigEndian(high) == b[0];
  }

  /** The bound of a prefix carries a length at least as large as the prefix itself. */
  lemma BoundHeader(p: Bytes, i: int, u: Bytes)
    requires |p| >= 3 && 0 < i < |p| && p[i] < 255
    requires u == p[..i] + [p[i] + 1] + Zeros(|p| - i - 1)
    ensures u[0] == p[0] && (u[1] > p[1] || (u[1] == p[1] && u[2] >= p[2]))
  {
  }

  lemma TruncatedHeader(k: Bytes, u: Bytes)
    requires Truncation(k, u) && |k| >= 3
    ensures |k| < |u| && k[0] == u[0] && k[1] == u[1] && k[2] == u[2]
  {
  }

  /** A stored bitmap key is longer than its own name length says any truncated bound could be. */
  lemma NoTruncatedKey(tag: byte, name: Str, k: Bytes, n: Str)
    requires tag < 0x80 && |name| < TWO16 && |n| < TWO16
    requires |k| >= 3 + |n| && k[0] == tag && k[1..3] == BigEndian(|n|, 2)
    ensures PrefixUpperBound(NamePrefix(tag, name)).Some?
    ensures !Truncation(k, PrefixUpperBound(NamePrefix(tag, name)).value)
  {
    var p := NamePrefix(tag, name);
    assert p[0] < 255;
    var i := UpperBoundByte(p, |p|);
    var u := PrefixUpperBound(p).value;
    if Truncation(k, u) {
      TruncatedHeader(k, u);
      assert i > 0;
      BoundHeader(p, i, u);
      assert p[1..3] == BigEndian(|name|, 2);
      TwoBytes(|name|, p[1..3]);
      TwoBytes(|n|, k[1..3]);
    }
  }

  /** Only bitmap keys of the tag's own kind lie in the range of a name prefix, whatever the name. */
  lemma RangeKeepsTag(tag: byte, name: Str, k: Bytes)
    requires tag < 0x80 && |k| > 0 && k[0] != tag && k[0] != tag + 1
    ensures !InRange(NamePrefix(tag, name), k)
  {
    var p := NamePrefix(tag, name);
    RangeExact(p, k);
    if PrefixUpperBound(p).Some? {
      var i := UpperBoundByte(p, |p|);
    }
  }

  lemma NamePrefixParts(tag: byte, name: Str)
    ensures var p := NamePrefix(tag, name); |p| == 3 + |name| && p[1..3] == BigEndian(|name|, 2) && p[3..] == name
  {
  }

  lemma SharedHeader(p: Bytes, k: Bytes)
    requires p <= k && |p| >= 3
    ensures p[1..3] == k[1..3]
  {
  }

  lemma PrefixFixesLength(tag: byte, name: Str, n: Str, rest: Bytes)
    requires |name| < TWO16 && |n| < TWO16
    requires NamePrefix(tag, name) <= NamePrefix(tag, n) + rest
    ensures |name| == |n|
  {
    var p, q := NamePrefix(tag, name), NamePrefix(tag, n);
    NamePrefixParts(tag, name);
    NamePrefixParts(tag, n);
    SharedHeader(p, q + rest);
    SharedHeader(q, q + rest);
    TwoBytes(|name|, p[1..3]);
    TwoBytes(|n|, q[1..3]);
  }

  lemma PrefixOfKey(tag: byte, name: Str, n: Str, rest: Bytes)
    requires |name| < TWO16 && |n| < TWO16
    ensures NamePrefix(tag, name) <= NamePrefix(tag, n) + rest <==> n == name
  {
    var p, q := NamePrefix(tag, name), NamePrefix(tag, n);
    if p <= q + rest {
      PrefixFixesLength(tag, name, n, rest);
      NamePrefixParts(tag, name);
      NamePrefixParts(tag, n);
      assert p == (q + rest)[..|p|] == q;
      assert name == p[3..] == q[3..] == n;
    }
  }

  lemma StringKeyInRange(name: Str, n: Str, v: Str)
    requires StringFits(n, v) && |name| < TWO16
    ensures InRange(NamePrefix(PREFIX_STRING_BITMAP, name), StringBitmapKey(n, v)) <==> n == name
  {
    var k := StringBitmapKey(n, v);
    StringKeyParts(n, v);
    RangeExact(NamePrefix(PREFIX_STRING_BITMAP, name), k);
    NoTruncatedKey(PREFIX_STRING_BITMAP, name, k, n);
    assert k == NamePrefix(PREFIX_STRING_BITMAP, n) + (BigEndian(|v|, 2) + v);
    PrefixOfKey(PREFIX_STRING_BITMAP, name, n, BigEndian(|v|, 2) + v);
  }

  lemma NumericKeyInRange(name: Str, n: Str, v: uint64)
    requires NumericFits(n) && |name| < TWO16
    ensures InRange(NamePrefix(PREFIX_NUMERIC_BITMAP, name), NumericBitmapKey(n, v)) <==> n == name
  {
    var k := NumericBitmapKey(n, v);
    NumericKeyParts(n, v);
    RangeExact(NamePrefix(PREFIX_NUMERIC_BITMAP, name), k);
    NoTruncatedKey(PREFIX_NUMERIC_BITMAP, name, k, n);
    PrefixOfKey(PREFIX_NUMERIC_BITMAP, name, n, BigEndian(v, 8));
  }

  /** k is the bound of the prefix, cut short. */
  predicate CutShort(p: Bytes, k: Bytes) {
    PrefixUpperBound(p).Some? && Truncation(k, PrefixUpperBound(p).value)
  }

  lemma LowBytes(n: nat)
    ensures BigEndian(n, 2) == [(n / 256) % 256, n % 256]
  {
    assert BigEndian(n / 256, 1) == BigEndian(n / 256 / 256, 0) + [(n / 256) % 256];
  }

  /** A name that does not fit 16 bits is no prefix of any stored key. */
  lemma LongNameString(name: Str, n: Str, v: Str)
    requires |name| >= TWO16 && StringFits(n, v)
    ensures !(NamePrefix(PREFIX_STRING_BITMAP, name) <= StringBitmapKey(n, v))
  {
    NamePrefixParts(PREFIX_STRING_BITMAP, name);
    StringKeyParts(n, v);
  }

  lemma LongNameNumeric(name: Str, n: Str, v: uint64)
    requires |name| >= TWO16 && NumericFits(n)
    ensures !(NamePrefix(PREFIX_NUMERIC_BITMAP, name) <= NumericBitmapKey(n, v))
  {
    var p, k := NamePrefix(PREFIX_NUMERIC_BITMAP, name), NumericBitmapKey(n, v);
    NamePrefixParts(PREFIX_NUMERIC_BITMAP, name);
    NumericKeyParts(n, v);
    if p <= k {
      SharedHeader(p, k);
      SameLowBytes(|name|, |n|);
    }
  }

  lemma SameLowBytes(m: nat, n: nat)
    requires BigEndian(m, 2) == BigEndian(n, 2)
    ensures m % TWO16 == n % TWO16
  {
    LowBytes(m);
    LowBytes(n);
    assert [(m / 256) % 256, m % 256][0] == [(n / 256) % 256, n % 256][0];
    assert [(m / 256) % 256, m % 256][1] == [(n / 256) % 256, n % 256][1];
    SixteenBits(m);
    SixteenBits(n);
  }

  lemma SixteenBits(n: nat)
    ensures n % TWO16 == (n / 256) % 256 * 256 + n % 256
  {
    var high := n / 256;
    Remainder(high / 256, high % 256 * 256 + n % 256);
  }

  lemma Remainder(q: nat, r: nat)
    requires r < TWO16
    ensures (q * TWO16 + r) % TWO16 == r
  {
  }

  /**
   * Prefix scan exactness: the range of a name holds the stored keys of that
   * name and no other, but for a name too long to be stored, which may meet a
   * key of another name.
   */
  lemma StringScanExact(db: Db, name: Str, k: Bytes)
    requires Fits(db) && StoredKey(db, k)
    ensures InRange(NamePrefix(PREFIX_STRING_BITMAP, name), k) <==>
            || (exists p :: p in db.strings && p.0 == name && k == StringBitmapKey(p.0, p.1))
            || (|name| >= TWO16 && CutShort(NamePrefix(PREFIX_STRING_BITMAP, name), k))
  {
    if IsStringKey(db, k) {
      var p :| p in db.strings && k == StringBitmapKey(p.0, p.1);
      if |name| < TWO16 {
        StringKeyInRange(name, p.0, p.1);
        if q :| q in db.strings && q.0 == name && k == StringBitmapKey(q.0, q.1) {
          StringKeyInjective(p.0, p.1, q.0, q.1);
        }
      } else {
        RangeExact(NamePrefix(PREFIX_STRING_BITMAP, name), k);
        LongNameString(name, p.0, p.1);
      }
    } else {
      RangeKeepsTag(PREFIX_STRING_BITMAP, name, k);
      RangeExact(NamePrefix(PREFIX_STRING_BITMAP, name), k);
    }
  }

  lemma NumericScanExact(db: Db, name: Str, k: Bytes)
    requires Fits(db) && StoredKey(db, k)
    ensures InRange(NamePrefix(PREFIX_NUMERIC_BITMAP, name), k) <==>
            || (exists p :: p in db.numbers && p.0 == name && k == NumericBitmapKey(p.0, p.1))
            || (|name| >= TWO16 && CutShort(NamePrefix(PREFIX_NUMERIC_BITMAP, name), k))
  {
    if IsNumericKey(db, k) {
      var p :| p in db.numbers && k == NumericBitmapKey(p.0, p.1);
      if |name| < TWO16 {
        NumericKeyInRange(name, p.0, p.1);
        if q :| q in db.numbers && q.0 == name && k == NumericBitmapKey(q.0, q.1) {
          NumericKeyInjective(p.0, p.1, q.0, q.1);
        }
      } else {
        RangeExact(NamePrefix(PREFIX_NUMERIC_BITMAP, name), k);
        LongNameNumeric(name, p.0, p.1);
      }
    } else {
      RangeKeepsTag(PREFIX_NUMERIC_BITMAP, name, k);
      RangeExact(NamePrefix(PREFIX_NUMERIC_BITMAP, name), k);
    }
  }

  lemma StringRangeKind(db: Db, name: Str, k: Bytes)
    requires StoredKey(db, k) && InRange(NamePrefix(PREFIX_STRING_BITMAP, name), k)
    ensures IsStringKey(db, k)
  {
    if !IsStringKey(db, k) {
      RangeKeepsTag(PREFIX_STRING_BITMAP, name, k);
    }
  }

  lemma NumericRangeKind(db: Db, name: Str, k: Bytes)
    requires StoredKey(db, k) && InRange(NamePrefix(PREFIX_NUMERIC_BITMAP, name), k)
    ensures IsNumericKey(db, k)
  {
    if !IsNumericKey(db, k) {
      RangeKeepsTag(PREFIX_NUMERIC_BITMAP, name, k);
    }
  }

  /** A point lookup by key answers for its pair and no other, however long the name and value asked for. */
  lemma StringLookupExact(db: Db, name: Str, value: Str)
    requires Fits(db)
    ensures StoredKey(db, StringBitmapKey(name, value)) <==> (name, value) in db.strings
  {
    var k := StringBitmapKey(name, value);
    StringKeyParts(name, value);
    if (name, value) in db.strings {
      var p := (name, value);
      assert p in db.strings && k == StringBitmapKey(p.0, p.1);
    }
    if StoredKey(db, k) {
      var p :| p in db.strings && k == StringBitmapKey(p.0, p.1);
      StringKeyInjective(p.0, p.1, name, value);
    }
  }

  lemma NumericLookupExact(db: Db, name: Str, value: uint64)
    requires Fits(db)
    ensures StoredKey(db, NumericBitmapKey(name, value)) <==> (name, value) in db.numbers
  {
    var k := NumericBitmapKey(name, value);
    NumericKeyParts(name, value);
    if (name, value) in db.numbers {
      var p := (name, value);
      assert p in db.numbers && k == NumericBitmapKey(p.0, p.1);
    }
    if StoredKey(db, k) {
      var p :| p in db.numbers && k == NumericBitmapKey(p.0, p.1);
      NumericKeyInjective(p.0, p.1, name, value);
    }
  }

  // ----- The scans -----

  /** The iterator over [lower, upper): the keys in range, in order. */
  function KeysInRange(keys: seq<Bytes>, prefix: Bytes): seq<Bytes> {
    if |keys| == 0 then []
    else KeysInRange(keys[..|keys| - 1], prefix) + if InRange(prefix, keys[|keys| - 1]) then [keys[|keys| - 1]] else []
  }

  lemma {:induction false} KeysInRangeMembers(keys: seq<Bytes>, prefix: Bytes)
    ensures forall k :: k in KeysInRange(keys, prefix) <==> k in keys && InRange(prefix, k)
    ensures Sorted(keys) ==> Sorted(KeysInRange(keys, prefix))
  {
    if |keys| > 0 {
      var init := keys[..|keys| - 1];
      KeysInRangeMembers(init, prefix);
      var found := KeysInRange(init, prefix);
      assert forall k :: k in keys <==> k in init || k == keys[|keys| - 1];
      if Sorted(keys) {
        assert forall i :: 0 <= i < |found| ==> found[i] in init;
      }
    }
  }

  /**
   * First moves to the first key not below the lower bound; the scan ends at
   * the first key not below the upper bound.
   */
  method Iterate(keys: seq<Bytes>, prefix: Bytes) returns (found: seq<Bytes>)
    requires Sorted(keys)
    ensures found == KeysInRange(keys, prefix)
  {
    var upper := ComputeUpperBound(prefix);
    var i := 0;
    found := [];
    while i < |keys| && Less(keys[i], prefix)
      invariant i <= |keys| && KeysInRange(keys[..i], prefix) == []
    {
      assert keys[..i + 1][..i] == keys[..i];
      i := i + 1;
    }
    while i < |keys| && (upper.None? || Less(keys[i], upper.value))
      invariant i <= |keys| && found == KeysInRange(keys[..i], prefix)
      invariant i < |keys| ==> !Less(keys[i], prefix)
    {
      assert keys[..i + 1][..i] == keys[..i];
      found := found + [keys[i]];
      i := i + 1;
      if i < |keys| && Less(keys[i], prefix) {
        LessTransitive(keys[i - 1], keys[i], prefix);
      }
    }
    RestOutOfRange(keys, prefix, i);
    assert keys[..|keys|] == keys;
  }

  lemma {:induction false} RestOutOfRange(keys: seq<Bytes>, prefix: Bytes, i: nat)
    requires Sorted(keys) && i <= |keys|
    requires i < |keys| ==> PrefixUpperBound(prefix).Some? && !Less(keys[i], PrefixUpperBound(prefix).value)
    ensures KeysInRange(keys, prefix) == KeysInRange(keys[..i], prefix)
  {
    var m := |keys| - 1;
    if i == |keys| {
      assert keys[..i] == keys;
    } else {
      if i < m && Less(keys[m], PrefixUpperBound(prefix).value) {
        LessTransitive(keys[i], keys[m], PrefixUpperBound(prefix).value);
      }
      RestOutOfRange(keys[..m], prefix, i);
      assert keys[..m][..i] == keys[..i];
    }
  }

  predicate NoRepeat<T(==)>(s: seq<T>) {
    forall i, j :: 0 <= i < j < |s| ==> s[i] != s[j]
  }

  /** One of the keys belongs to the value, under whatever name. */
  ghost predicate StringMet(keys: seq<Bytes>, v: Str) {
    exists n :: StringFits(n, v) && StringBitmapKey(n, v) in keys
  }

  lemma StringMetSplits(keys: seq<Bytes>, k: Bytes, v: Str)
    ensures StringMet(keys + [k], v) <==> StringMet(keys, v) || StringMet([k], v)
  {
    if n :| StringFits(n, v) && StringBitmapKey(n, v) in keys + [k] {
      assert StringBitmapKey(n, v) in keys || StringBitmapKey(n, v) in [k];
    }
    if n :| StringFits(n, v) && StringBitmapKey(n, v) in keys {
      assert StringBitmapKey(n, v) in keys + [k];
    }
    if n :| StringFits(n, v) && StringBitmapKey(n, v) in [k] {
      assert StringBitmapKey(n, v) in keys + [k];
    }
  }

  /** The scan of a name meets a stored pair: it is of that name, or of another one the range takes in. */
  ghost predicate StringInScan(db: Db, name: Str, v: Str) {
    exists n :: (n, v) in db.strings && InRange(NamePrefix(PREFIX_STRING_BITMAP, name), StringBitmapKey(n, v))
  }

  lemma StringMetInScan(r: Reader, name: Str, v: Str)
    requires Faithful(r)
    ensures StringMet(KeysInRange(r.keys, NamePrefix(PREFIX_STRING_BITMAP, name)), v) <==> StringInScan(r.db, name, v)
  {
    var found := KeysInRange(r.keys, NamePrefix(PREFIX_STRING_BITMAP, name));
    KeysInRangeMembers(r.keys, NamePrefix(PREFIX_STRING_BITMAP, name));
    if n :| StringFits(n, v) && StringBitmapKey(n, v) in found {
      StringLookupExact(r.db, n, v);
      assert (n, v) in r.db.strings;
    }
    if n :| (n, v) in r.db.strings && InRange(NamePrefix(PREFIX_STRING_BITMAP, name), StringBitmapKey(n, v)) {
      StringLookupExact(r.db, n, v);
      assert StringFits((n, v).0, (n, v).1) && StringBitmapKey(n, v) in found;
    }
  }

  /** A name that can be stored meets its own pairs only. */
  lemma StringInScanExact(db: Db, name: Str, v: Str)
    requires Fits(db) && |name| < TWO16
    ensures StringInScan(db, name, v) <==> (name, v) in db.strings
  {
    if n :| (n, v) in db.strings && InRange(NamePrefix(PREFIX_STRING_BITMAP, name), StringBitmapKey(n, v)) {
      assert StringFits((n, v).0, (n, v).1);
      StringKeyInRange(name, n, v);
    }
    if (name, v) in db.strings {
      assert StringFits((name, v).0, (name, v).1);
      StringKeyInRange(name, name, v);
    }
  }

  /** What the scan decodes from a key it meets. */
  lemma StringKeyDecoded(r: Reader, name: Str, k: Bytes) returns (value: Str)
    requires Faithful(r) && k in KeysInRange(r.keys, NamePrefix(PREFIX_STRING_BITMAP, name))
    ensures DecodeStringBitmapKey(k).Some? && DecodeStringBitmapKey(k).value.1 == value
    ensures forall v: Str :: StringMet([k], v) <==> v == value
    ensures |name| < TWO16 ==> k == StringBitmapKey(name, value)
  {
    KeysInRangeMembers(r.keys, NamePrefix(PREFIX_STRING_BITMAP, name));
    StringRangeKind(r.db, name, k);
    var p :| p in r.db.strings && k == StringBitmapKey(p.0, p.1);
    StringKeyRoundTrip(p.0, p.1);
    value := p.1;
    assert StringBitmapKey(p.0, p.1) in [k];
    forall v: Str | StringMet([k], v)
      ensures v == value
    {
      var n :| StringFits(n, v) && StringBitmapKey(n, v) in [k];
      StringKeyInjective(p.0, p.1, n, v);
    }
    if |name| < TWO16 {
      StringKeyInRange(name, p.0, p.1);
    }
  }

  /** One of the keys belongs to the value, under whatever name. */
  ghost predicate NumericMet(keys: seq<Bytes>, v: uint64) {
    exists n :: NumericFits(n) && NumericBitmapKey(n, v) in keys
  }

  lemma NumericMetSplits(keys: seq<Bytes>, k: Bytes, v: uint64)
    ensures NumericMet(keys + [k], v) <==> NumericMet(keys, v) || NumericMet([k], v)
  {
    if n :| NumericFits(n) && NumericBitmapKey(n, v) in keys + [k] {
      assert NumericBitmapKey(n, v) in keys || NumericBitmapKey(n, v) in [k];
    }
    if n :| NumericFits(n) && NumericBitmapKey(n, v) in keys {
      assert NumericBitmapKey(n, v) in keys + [k];
    }
    if n :| NumericFits(n) && NumericBitmapKey(n, v) in [k] {
      assert NumericBitmapKey(n, v) in keys + [k];
    }
  }

  /** The scan of a name meets a stored pair: it is of that name, or of another one the range takes in. */
  ghost predicate NumericInScan(db: Db, name: Str, v: uint64) {
    exists n :: (n, v) in db.numbers && InRange(NamePrefix(PREFIX_NUMERIC_BITMAP, name), NumericBitmapKey(n, v))
  }

  lemma NumericMetInScan(r: Reader, name: Str, v: uint64)
    requires Faithful(r)
    ensures NumericMet(KeysInRange(r.keys, NamePrefix(PREFIX_NUMERIC_BITMAP, name)), v)
            <==> NumericInScan(r.db, name, v)
  {
    var found := KeysInRange(r.keys, NamePrefix(PREFIX_NUMERIC_BITMAP, name));
    KeysInRangeMembers(r.keys, NamePrefix(PREFIX_NUMERIC_BITMAP, name));
    if n :| NumericFits(n) && NumericBitmapKey(n, v) in found {
      NumericLookupExact(r.db, n, v);
      assert (n, v) in r.db.numbers;
    }
    if n :| (n, v) in r.db.numbers && InRange(NamePrefix(PREFIX_NUMERIC_BITMAP, name), NumericBitmapKey(n, v)) {
      NumericLookupExact(r.db, n, v);
      assert NumericFits((n, v).0) && NumericBitmapKey(n, v) in found;
    }
  }

  /** A name that can be stored meets its own pairs only. */
  lemma NumericInScanExact(db: Db, name: Str, v: uint64)
    requires Fits(db) && |name| < TWO16
    ensures NumericInScan(db, name, v) <==> (name, v) in db.numbers
  {
    if n :| (n, v) in db.numbers && InRange(NamePrefix(PREFIX_NUMERIC_BITMAP, name), NumericBitmapKey(n, v)) {
      assert NumericFits((n, v).0);
      NumericKeyInRange(name, n, v);
    }
    if (name, v) in db.numbers {
      assert NumericFits((name, v).0);
      NumericKeyInRange(name, name, v);
    }
  }

  /** What the scan decodes from a key it meets. */
  lemma NumericKeyDecoded(r: Reader, name: Str, k: Bytes) returns (value: uint64)
    requires Faithful(r) && k in KeysInRange(r.keys, NamePrefix(PREFIX_NUMERIC_BITMAP, name))
    ensures DecodeNumericBitmapKey(k).Some? && DecodeNumericBitmapKey(k).value.1 == value
    ensures forall v: uint64 :: NumericMet([k], v) <==> v == value
    ensures |name| < TWO16 ==> k == NumericBitmapKey(name, value)
  {
    KeysInRangeMembers(r.keys, NamePrefix(PREFIX_NUMERIC_BITMAP, name));
    NumericRangeKind(r.db, name, k);
    var p :| p in r.db.numbers && k == NumericBitmapKey(p.0, p.1);
    NumericKeyRoundTrip(p.0, p.1);
    value := p.1;
    assert NumericBitmapKey(p.0, p.1) in [k];
    forall v: uint64 | NumericMet([k], v)
      ensures v == value
    {
      var n :| NumericFits(n) && NumericBitmapKey(n, v) in [k];
      NumericKeyInjective(p.0, p.1, n, v);
    }
    if |name| < TWO16 {
      NumericKeyInRange(name, p.0, p.1);
    }
  }

  lemma SortedDistinct(keys: seq<Bytes>, i: nat)
    requires Sorted(keys) && i < |keys|
    ensures keys[i] !in keys[..i]
  {
    LessIrreflexive(keys[i]);
  }

  lemma StringMetOnce(r: Reader, name: Str, found: seq<Bytes>, i: nat, value: Str)
    requires Faithful(r) && |name| < TWO16 && i < |found| && Sorted(found)
    requires forall k :: k in found <==> k in r.keys && InRange(NamePrefix(PREFIX_STRING_BITMAP, name), k)
    requires found[i] == StringBitmapKey(name, value)
    ensures !StringMet(found[..i], value)
  {
    SortedDistinct(found, i);
    if n :| StringFits(n, value) && StringBitmapKey(n, value) in found[..i] {
      StringKeyInRange(name, n, value);
      assert false;
    }
  }

  /** Decoding the next key adds one value to those met, which for a name that can be stored is new. */
  lemma StringScanStep(r: Reader, name: Str, found: seq<Bytes>, i: nat) returns (value: Str)
    requires Faithful(r) && i < |found| && found == KeysInRange(r.keys, NamePrefix(PREFIX_STRING_BITMAP, name))
    ensures DecodeStringBitmapKey(found[i]).Some? && DecodeStringBitmapKey(found[i]).value.1 == value
    ensures forall v: Str :: StringMet(found[..i + 1], v) <==> StringMet(found[..i], v) || v == value
    ensures |name| < TWO16 ==> !StringMet(found[..i], value)
  {
    KeysInRangeMembers(r.keys, NamePrefix(PREFIX_STRING_BITMAP, name));
    value := StringKeyDecoded(r, name, found[i]);
    assert found[..i + 1] == found[..i] + [found[i]];
    forall v: Str
      ensures StringMet(found[..i + 1], v) <==> StringMet(found[..i], v) || v == value
    {
      StringMetSplits(found[..i], found[i], v);
    }
    if |name| < TWO16 {
      StringMetOnce(r, name, found, i, value);
    }
  }

  lemma StringScanEnds(r: Reader, name: Str, v: Str)
    requires Faithful(r)
    ensures StringMet(KeysInRange(r.keys, NamePrefix(PREFIX_STRING_BITMAP, name)), v) <==> StringInScan(r.db, name, v)
    ensures |name| < TWO16 ==> (StringInScan(r.db, name, v) <==> (name, v) in r.db.strings)
  {
    StringMetInScan(r, name, v);
    if |name| < TWO16 {
      StringInScanExact(r.db, name, v);
    }
  }

  /**
   * The distinct string values met by the scan of a name that pass the filter:
   * those stored under the name, each once. A name too long to be stored has
   * none of its own, and gets what else its range takes in.
   */
  method ScanDistinctStringValues(r: Reader, name: Str, filter: Str -> bool) returns (results: seq<Str>)
    requires Faithful(r)
    ensures forall v :: v in results <==> StringInScan(r.db, name, v) && filter(v)
    ensures |name| < TWO16 ==>
              NoRepeat(results) && forall v :: v in results <==> (name, v) in r.db.strings && filter(v)
  {
    var found := Iterate(r.keys, NamePrefix(PREFIX_STRING_BITMAP, name));
    results := [];
    for i := 0 to |found|
      invariant forall v: Str :: v in results <==> filter(v) && StringMet(found[..i], v)
      invariant |name| < TWO16 ==> NoRepeat(results)
    {
      ghost var decoded := StringScanStep(r, name, found, i);
      var value: Str := DecodeStringBitmapKey(found[i]).value.1;
      if filter(value) {
        results := results + [value];
      }
    }
    assert found[..|found|] == found;
    forall v: Str
      ensures StringMet(found, v) <==> StringInScan(r.db, name, v)
      ensures |name| < TWO16 ==> (StringInScan(r.db, name, v) <==> (name, v) in r.db.strings)
    {
      StringScanEnds(r, name, v);
    }
  }

  /** A name of 65536 bytes 0xFF: its length is cut to zero, and the carry of its bound runs into the length. */
  const LONG_NAME: Str := seq(TWO16, i => 255)

  /** Scanning for that name meets the empty value of the one-byte name 0x00. */
  lemma LongNameExample(db: Db)
    requires Fits(db) && ([0], []) in db.strings
    ensures StringInScan(db, LONG_NAME, []) && forall v :: (LONG_NAME, v) !in db.strings
  {
    var p, k := NamePrefix(PREFIX_STRING_BITMAP, LONG_NAME), StringBitmapKey([0], []);
    LowBytes(TWO16);
    LowBytes(1);
    LowBytes(0);
    assert p == [16, 0, 0] + LONG_NAME && k == [16, 0, 1, 0, 0, 0];
    UpperBoundForm(p, 2);
    var u := PrefixUpperBound(p).value;
    assert u == [16, 0, 1] + Zeros(TWO16);
    assert Truncation(k, u);
    RangeExact(p, k);
    forall v
      ensures (LONG_NAME, v) !in db.strings
    {
      assert (LONG_NAME, v) in db.strings ==> StringFits((LONG_NAME, v).0, (LONG_NAME, v).1);
    }
  }

  predicate Ascending(s: seq<nat>) {
    forall i, j :: 0 <= i < j < |s| ==> s[i] < s[j]
  }

  lemma AscendingAppend(s: seq<nat>, v: nat)
    requires Ascending(s) && forall x :: x in s ==> x < v
    ensures Ascending(s + [v])
  {
    assert forall i :: 0 <= i < |s| ==> s[i] in s;
  }

  lemma EarlierIsSmaller(r: Reader, name: Str, found: seq<Bytes>, i: nat, value: uint64)
    requires Faithful(r) && |name| < TWO16 && i < |found| && Sorted(found)
    requires forall k :: k in found <==> k in r.keys && InRange(NamePrefix(PREFIX_NUMERIC_BITMAP, name), k)
    requires found[i] == NumericBitmapKey(name, value)
    ensures forall v: uint64 :: NumericMet(found[..i], v) ==> v < value
  {
    forall v: uint64 | NumericMet(found[..i], v)
      ensures v < value
    {
      var n :| NumericFits(n) && NumericBitmapKey(n, v) in found[..i];
      NumericKeyInRange(name, n, v);
      NumericKeyOrder(name, v, value);
    }
  }

  /**
   * Decoding the next key adds one value to those met, which for a name that can
   * be stored is larger than all before.
   */
  lemma NumericScanStep(r: Reader, name: Str, found: seq<Bytes>, i: nat) returns (value: uint64)
    requires Faithful(r) && i < |found| && found == KeysInRange(r.keys, NamePrefix(PREFIX_NUMERIC_BITMAP, name))
    ensures DecodeNumericBitmapKey(found[i]).Some? && DecodeNumericBitmapKey(found[i]).value.1 == value
    ensures forall v: uint64 :: NumericMet(found[..i + 1], v) <==> NumericMet(found[..i], v) || v == value
    ensures |name| < TWO16 ==> forall v: uint64 :: NumericMet(found[..i], v) ==> v < value
  {
    KeysInRangeMembers(r.keys, NamePrefix(PREFIX_NUMERIC_BITMAP, name));
    value := NumericKeyDecoded(r, name, found[i]);
    assert found[..i + 1] == found[..i] + [found[i]];
    forall v: uint64
      ensures NumericMet(found[..i + 1], v) <==> NumericMet(found[..i], v) || v == value
    {
      NumericMetSplits(found[..i], found[i], v);
    }
    if |name| < TWO16 {
      EarlierIsSmaller(r, name, found, i, value);
    }
  }

  lemma NumericScanEnds(r: Reader, name: Str, v: uint64)
    requires Faithful(r)
    ensures NumericMet(KeysInRange(r.keys, NamePrefix(PREFIX_NUMERIC_BITMAP, name)), v)
            <==> NumericInScan(r.db, name, v)
    ensures |name| < TWO16 ==> (NumericInScan(r.db, name, v) <==> (name, v) in r.db.numbers)
  {
    NumericMetInScan(r, name, v);
    if |name| < TWO16 {
      NumericInScanExact(r.db, name, v);
    }
  }

  /** The same for numbers, which come in ascending order. */
  method ScanDistinctNumericValues(r: Reader, name: Str, filter: uint64 -> bool) returns (results: seq<uint64>)
    requires Faithful(r)
    ensures forall v: uint64 :: v in results <==> NumericInScan(r.db, name, v) && filter(v)
    ensures |name| < TWO16 ==>
              Ascending(results) && forall v :: v in results <==> (name, v) in r.db.numbers && filter(v)
  {
    var found := Iterate(r.keys, NamePrefix(PREFIX_NUMERIC_BITMAP, name));
    results := [];
    for i := 0 to |found|
      invariant forall v: uint64 :: v in results <==> filter(v) && NumericMet(found[..i], v)
      invariant |name| < TWO16 ==> Ascending(results)
    {
      ghost var decoded := NumericScanStep(r, name, found, i);
      var value: uint64 := DecodeNumericBitmapKey(found[i]).value.1;
      if |name| < TWO16 {
        AscendingAppend(results, value);
      }
      if filter(value) {
        results := results + [value];
      }
    }
    assert found[..|found|] == found;
    forall v: uint64
      ensures NumericMet(found, v) <==> NumericInScan(r.db, name, v)
      ensures |name| < TWO16 ==> (NumericInScan(r.db, name, v) <==> (name, v) in r.db.numbers)
    {
      NumericScanEnds(r, name, v);
    }
  }

  /** Keys of one name come in the order of their numbers. */
  lemma NumericKeyOrder(name: Str, v: uint64, w: uint64)
    ensures Less(NumericBitmapKey(name, v), NumericBitmapKey(name, w)) <==> v < w
  {
    Widths();
    LessSamePrefix(NamePrefix(PREFIX_NUMERIC_BITMAP, name), BigEndian(v, 8), BigEndian(w, 8));
    if v < w {
      BigEndianOrder(v, w, 8);
    } else if w < v {
      BigEndianOrder(w, v, 8);
      LessAsymmetric(BigEndian(w, 8), BigEndian(v, 8));
    } else {
      LessIrreflexive(BigEndian(v, 8));
    }
  }

  lemma LessAsymmetric(a: Bytes, b: Bytes)
    requires Less(a, b)
    ensures !Less(b, a)
  {
    if Less(b, a) {
      LessTransitive(a, b, a);
      LessIrreflexive(a);
    }
  }

  // ----- Every database has a snapshot -----

  lemma {:induction false} InsertKey(x: Bytes, keys: seq<Bytes>) returns (r: seq<Bytes>)
    requires Sorted(keys) && x !in keys
    ensures Sorted(r) && forall k :: k in r <==> k == x || k in keys
  {
    if |keys| == 0 {
      r := [x];
    } else {
      var m := |keys| - 1;
      LessTotal(keys[m], x);
      if Less(keys[m], x) {
        r := keys + [x];
        forall i | 0 <= i < m
          ensures Less(keys[i], x)
        {
          LessTransitive(keys[i], keys[m], x);
        }
      } else {
        var init := InsertKey(x, keys[..m]);
        r := init + [keys[m]];
        assert forall i :: 0 <= i < |init| ==> init[i] in init;
        assert keys == keys[..m] + [keys[m]];
      }
    }
  }

  lemma {:induction false} ListKeys(s: set<Bytes>) returns (keys: seq<Bytes>)
    ensures Sorted(keys) && forall k :: k in keys <==> k in s
  {
    if s == {} {
      keys := [];
    } else {
      var x :| x in s;
      keys := ListKeys(s - {x});
      keys := InsertKey(x, keys);
    }
  }

  ghost function SingleKeys(db: Db): (r: set<Bytes>)
    ensures forall k :: k in r <==> IsSingleKey(db, k)
  {
    (if db.lastBlock.Some? then {LastBlockKey()} else {})
    + (if db.idCounter.Some? then {IdCounterKey()} else {})
    + (if db.count.Some? then {EntityCountKey()} else {})
  }

  ghost function PayloadKeys(db: Db): (r: set<Bytes>)
    ensures forall k :: k in r <==> IsPayloadKey(db, k)
  {
    set id | id in db.payloads :: PayloadKey(id)
  }

  ghost function PointerKeys(db: Db): (r: set<Bytes>)
    ensures forall k :: k in r <==> IsPointerKey(db, k)
  {
    set key | key in db.current :: EntityCurrentKey(key)
  }

  ghost function StringKeys(db: Db): (r: set<Bytes>)
    ensures forall k :: k in r <==> IsStringKey(db, k)
  {
    set p | p in db.strings :: StringBitmapKey(p.0, p.1)
  }

  ghost function NumericKeys(db: Db): (r: set<Bytes>)
    ensures forall k :: k in r <==> IsNumericKey(db, k)
  {
    set p | p in db.numbers :: NumericBitmapKey(p.0, p.1)
  }

  /** The key order is total, so the keys of any database have a listing in order. */
  lemma SnapshotExists(db: Db) returns (r: Reader)
    requires Fits(db)
    ensures r.db == db && Faithful(r)
  {
    var stored := SingleKeys(db) + PayloadKeys(db) + PointerKeys(db) + StringKeys(db) + NumericKeys(db);
    var keys := ListKeys(stored);
    assert forall k :: k in stored <==> StoredKey(db, k);
    r := Reader(db, keys);
  }
}
