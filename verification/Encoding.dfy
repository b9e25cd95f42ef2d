/** Database keys: their byte layout, their order and range scans over them. */
module Encoding {
  import opened Base

  const PREFIX_LAST_BLOCK: byte := 0x01
  const PREFIX_PAYLOAD: byte := 0x02
  const PREFIX_ENTITY_CURRENT: byte := 0x03
  const PREFIX_ID_COUNTER: byte := 0x06
  const PREFIX_ENTITY_COUNT: byte := 0x07
  const PREFIX_STRING_BITMAP: byte := 0x10
  const PREFIX_NUMERIC_BITMAP: byte := 0x20

  // ----- Big-endian integers -----

  /** The low w bytes of n, most significant first: a cast to the width and a Put. */
  function BigEndian(n: nat, w: nat): (b: Bytes)
    ensures |b| == w
  {
    if w == 0 then [] else BigEndian(n / 256, w - 1) + [n % 256]
  }

  function FromBigEndian(b: Bytes): nat {
    if |b| == 0 then 0 else FromBigEndian(b[..|b| - 1]) * 256 + b[|b| - 1]
  }

  function Power256(w: nat): nat {
    if w == 0 then 1 else Power256(w - 1) * 256
  }

  lemma {:induction false} BigEndianRoundTrip(n: nat, w: nat)
    requires n < Power256(w)
    ensures FromBigEndian(BigEndian(n, w)) == n
  {
    if w > 0 {
      BigEndianRoundTrip(n / 256, w - 1);
      assert BigEndian(n, w)[..w - 1] == BigEndian(n / 256, w - 1);
    }
  }

  lemma {:induction false} BigEndianTruncates(n: nat, w: nat)
    ensures FromBigEndian(BigEndian(n, w)) < Power256(w)
    ensures FromBigEndian(BigEndian(n, w)) <= n
  {
    if w > 0 {
      BigEndianTruncates(n / 256, w - 1);
      assert BigEndian(n, w)[..w - 1] == BigEndian(n / 256, w - 1);
    }
  }

  lemma Widths()
    ensures Power256(2) == TWO16 && Power256(4) == TWO32 && Power256(8) == TWO64
  {
    assert Power256(4) == TWO32;
    assert Power256(6) == TWO32 * TWO16;
  }

  lemma {:induction false} BigEndianOrder(m: nat, n: nat, w: nat)
    requires m < n < Power256(w)
    ensures Less(BigEndian(m, w), BigEndian(n, w))
  {
    var a, b := BigEndian(m / 256, w - 1), BigEndian(n / 256, w - 1);
    if m / 256 < n / 256 {
      BigEndianOrder(m / 256, n / 256, w - 1);
      LessAppend(a, b, [m % 256], [n % 256]);
    } else {
      LessSamePrefix(a, [m % 256], [n % 256]);
    }
  }

  // ----- The order -----

  lemma {:induction false} LessAppend(a: Bytes, b: Bytes, x: Bytes, y: Bytes)
    requires |a| == |b| && Less(a, b)
    ensures Less(a + x, b + y)
  {
    assert (a + x)[1..] == a[1..] + x && (b + y)[1..] == b[1..] + y;
    if a[0] == b[0] {
      LessAppend(a[1..], b[1..], x, y);
    }
  }

  lemma {:induction false} LessSamePrefix(p: Bytes, x: Bytes, y: Bytes)
    ensures Less(p + x, p + y) <==> Less(x, y)
  {
    if |p| == 0 {
      assert p + x == x && p + y == y;
    } else {
      assert (p + x)[1..] == p[1..] + x && (p + y)[1..] == p[1..] + y;
      LessSamePrefix(p[1..], x, y);
    }
  }

  lemma {:induction false} LessIrreflexive(a: Bytes)
    ensures !Less(a, a)
  {
    if |a| > 0 {
      LessIrreflexive(a[1..]);
    }
  }

  lemma {:induction false} LessTransitive(a: Bytes, b: Bytes, c: Bytes)
    requires Less(a, b) && Less(b, c)
    ensures Less(a, c)
  {
    if |a| > 0 && a[0] == b[0] == c[0] {
      LessTransitive(a[1..], b[1..], c[1..]);
    }
  }

  lemma {:induction false} LessTotal(a: Bytes, b: Bytes)
    ensures Less(a, b) || Less(b, a) || a == b
  {
    if |a| > 0 && |b| > 0 && a[0] == b[0] {
      LessTotal(a[1..], b[1..]);
      if a[1..] == b[1..] {
        assert a == [a[0]] + a[1..] && b == [b[0]] + b[1..];
      }
    }
  }

  /** The first i bytes agree, and there a ends or has the smaller byte. */
  predicate SmallerAt(a: Bytes, b: Bytes, i: nat) {
    i <= |a| && i < |b| && (forall j :: 0 <= j < i ==> a[j] == b[j]) && (i == |a| || a[i] < b[i])
  }

  /** The order is decided by the first difference; a proper prefix comes first. */
  lemma {:induction false} LessExactly(a: Bytes, b: Bytes)
    ensures Less(a, b) <==> exists i: nat :: SmallerAt(a, b, i)
  {
    if |a| == 0 || |b| == 0 || a[0] != b[0] {
      assert |b| > 0 && (|a| == 0 || a[0] < b[0]) ==> SmallerAt(a, b, 0);
    } else {
      LessExactly(a[1..], b[1..]);
      if i: nat :| SmallerAt(a[1..], b[1..], i) {
        assert forall j :: 0 < j < i + 1 ==> a[j] == a[1..][j - 1] && b[j] == b[1..][j - 1];
        assert SmallerAt(a, b, i + 1);
      }
      if i: nat :| SmallerAt(a, b, i) {
        assert SmallerAt(a[1..], b[1..], i - 1);
      }
    }
  }

  // ----- Keys -----

  function LastBlockKey(): Bytes {
    [PREFIX_LAST_BLOCK]
  }

  function PayloadKey(id: nat): Bytes {
    [PREFIX_PAYLOAD] + BigEndian(id, 8)
  }

  function EntityCurrentKey(k: Key): Bytes {
    [PREFIX_ENTITY_CURRENT] + k
  }

  function IdCounterKey(): Bytes {
    [PREFIX_ID_COUNTER]
  }

  function EntityCountKey(): Bytes {
    [PREFIX_ENTITY_COUNT]
  }

  function NamePrefix(tag: byte, name: Str): Bytes {
    [tag] + BigEndian(|name|, 2) + name
  }

  function StringBitmapKey(name: Str, value: Str): Bytes {
    NamePrefix(PREFIX_STRING_BITMAP, name) + BigEndian(|value|, 2) + value
  }

  function NumericBitmapKey(name: Str, value: uint64): Bytes {
    NamePrefix(PREFIX_NUMERIC_BITMAP, name) + BigEndian(value, 8)
  }

  /** copy(buf[offset:], data) */
  method Put(buf: array<byte>, offset: nat, data: Bytes)
    requires offset + |data| <= buf.Length
    modifies buf
    ensures buf[..] == old(buf[..offset]) + data + old(buf[offset + |data|..])
  {
    for i := 0 to |data|
      invariant buf[..offset] == old(buf[..offset])
      invariant buf[offset..offset + i] == data[..i]
      invariant buf[offset + i..] == old(buf[offset + i..])
    {
      buf[offset + i] := data[i];
    }
    assert buf[..] == buf[..offset] + buf[offset..offset + |data|] + buf[offset + |data|..];
  }

  method BuildPayloadKey(id: nat) returns (key: array<byte>)
    ensures fresh(key) && key[..] == PayloadKey(id)
  {
    key := new byte[9](i => 0);
    key[0] := PREFIX_PAYLOAD;
    Put(key, 1, BigEndian(id, 8));
  }

  method BuildEntityCurrentKey(entityKey: Key) returns (key: array<byte>)
    ensures fresh(key) && key[..] == EntityCurrentKey(entityKey)
  {
    key := new byte[33](i => 0);
    key[0] := PREFIX_ENTITY_CURRENT;
    Put(key, 1, entityKey);
  }

  method BuildNamePrefix(tag: byte, name: Str) returns (key: array<byte>)
    ensures fresh(key) && key[..] == NamePrefix(tag, name)
  {
    key := new byte[3 + |name|](i => 0);
    key[0] := tag;
    Put(key, 1, BigEndian(|name|, 2));
    Put(key, 3, name);
  }

  method BuildStringBitmapKey(name: Str, value: Str) returns (key: array<byte>)
    ensures fresh(key) && key[..] == StringBitmapKey(name, value)
  {
    key := new byte[5 + |name| + |value|](i => 0);
    key[0] := PREFIX_STRING_BITMAP;
    Put(key, 1, BigEndian(|name|, 2));
    Put(key, 3, name);
    var offset := 3 + |name|;
    Put(key, offset, BigEndian(|value|, 2));
    Put(key, offset + 2, value);
  }

  method BuildNumericBitmapKey(name: Str, value: uint64) returns (key: array<byte>)
    ensures fresh(key) && key[..] == NumericBitmapKey(name, value)
  {
    key := new byte[3 + |name| + 8](i => 0);
    key[0] := PREFIX_NUMERIC_BITMAP;
    Put(key, 1, BigEndian(|name|, 2));
    Put(key, 3, name);
    Put(key, 3 + |name|, BigEndian(value, 8));
  }

  // ----- Decoding -----

  /** A uint16 conversion. */
  function Low16(n: nat): (r: nat)
    ensures n < TWO16 ==> r == n
    ensures TWO16 <= n < 2 * TWO16 ==> r == n - TWO16
    ensures r < TWO16
  {
    n % TWO16
  }

  /** key[lo:hi], None when Go panics on the bounds. */
  function Slice(key: Bytes, lo: nat, hi: nat): Option<Bytes> {
    if lo <= hi <= |key| then Some(key[lo..hi]) else None
  }

  /** The offsets are uint16 in the source and wrap. */
  function DecodeStringBitmapKey(key: Bytes): Option<(Str, Str)> {
    if |key| < 3 then None else
    var nameLen := FromBigEndian(key[1..3]);
    var valueOffset := Low16(3 + nameLen);
    var name := Slice(key, 3, valueOffset);
    var lenBytes := Slice(key, valueOffset, Low16(valueOffset + 2));
    if name.None? || lenBytes.None? then None else
    var valueLen := FromBigEndian(lenBytes.value);
    var value := Slice(key, Low16(valueOffset + 2), Low16(valueOffset + 2 + valueLen));
    if value.None? then None else Some((name.value, value.value))
  }

  /** Uint64 reads the first eight bytes of what is left. */
  function DecodeNumericBitmapKey(key: Bytes): Option<(Str, nat)> {
    if |key| < 3 then None else
    var nameLen := FromBigEndian(key[1..3]);
    var valueOffset := Low16(3 + nameLen);
    var name := Slice(key, 3, valueOffset);
    var value := Slice(key, valueOffset, valueOffset + 8);
    if name.None? || value.None? then None else Some((name.value, FromBigEndian(value.value)))
  }

  predicate StringFits(name: Str, value: Str) {
    5 + |name| + |value| < TWO16
  }

  predicate NumericFits(name: Str) {
    3 + |name| < TWO16
  }

  lemma StringKeyParts(name: Str, value: Str)
    ensures var k := StringBitmapKey(name, value);
            && k[0] == PREFIX_STRING_BITMAP && k[1..3] == BigEndian(|name|, 2) && k[3..3 + |name|] == name
            && k[3 + |name|..5 + |name|] == BigEndian(|value|, 2) && k[5 + |name|..] == value
            && |k| == 5 + |name| + |value|
  {
  }

  lemma NumericKeyParts(name: Str, value: uint64)
    ensures var k := NumericBitmapKey(name, value);
            && k[0] == PREFIX_NUMERIC_BITMAP && k[1..3] == BigEndian(|name|, 2) && k[3..3 + |name|] == name
            && k[3 + |name|..] == BigEndian(value, 8) && |k| == 11 + |name|
  {
  }

  lemma StringKeyDecodes(name: Str, value: Str)
    requires StringFits(name, value)
    ensures DecodeStringBitmapKey(StringBitmapKey(name, value)) == Some((name, value))
  {
    var k := StringBitmapKey(name, value);
    StringKeyParts(name, value);
    Widths();
    BigEndianRoundTrip(|name|, 2);
    BigEndianRoundTrip(|value|, 2);
    var offset := 3 + |name|;
    var end := offset + 2 + |value|;
    assert FromBigEndian(k[1..3]) == |name| && Low16(offset) == offset && Low16(offset + 2) == offset + 2
        && Low16(end) == end;
    assert k[3..offset] == name && k[offset..offset + 2] == BigEndian(|value|, 2);
    assert k[offset + 2..end] == k[offset + 2..] == value;
  }

  lemma StringKeyTooLong(name: Str, value: Str)
    requires !StringFits(name, value)
    ensures DecodeStringBitmapKey(StringBitmapKey(name, value)) != Some((name, value))
  {
    var k := StringBitmapKey(name, value);
    StringKeyParts(name, value);
    Widths();
    BigEndianTruncates(|name|, 2);
    BigEndianTruncates(|value|, 2);
    var nameLen := FromBigEndian(k[1..3]);
    var offset := Low16(3 + nameLen);
    if nameLen == |name| && offset == 3 + |name| && offset + 2 < TWO16 {
      // The name is read back; the end of the value wraps below its start, or is too early.
      assert k[offset..offset + 2] == BigEndian(|value|, 2);
    }
  }

  /** A string bitmap key decodes to what it was built from iff all of it is addressable in 16 bits. */
  lemma StringKeyRoundTrip(name: Str, value: Str)
    ensures DecodeStringBitmapKey(StringBitmapKey(name, value)) == Some((name, value)) <==> StringFits(name, value)
  {
    if StringFits(name, value) {
      StringKeyDecodes(name, value);
    } else {
      StringKeyTooLong(name, value);
    }
  }

  lemma NumericKeyRoundTrip(name: Str, value: uint64)
    ensures DecodeNumericBitmapKey(NumericBitmapKey(name, value)) == Some((name, value)) <==> NumericFits(name)
  {
    var k := NumericBitmapKey(name, value);
    NumericKeyParts(name, value);
    Widths();
    BigEndianTruncates(|name|, 2);
    BigEndianRoundTrip(value, 8);
    if |name| < TWO16 {
      BigEndianRoundTrip(|name|, 2);
      if NumericFits(name) {
        assert k[3 + |name|..3 + |name| + 8] == BigEndian(value, 8);
      }
    }
  }

  /** No two pairs share a key, if one of them fits; the other may be of any length. */
  lemma StringKeyInjective(n: Str, v: Str, n': Str, v': Str)
    requires StringFits(n, v) && StringBitmapKey(n, v) == StringBitmapKey(n', v')
    ensures n == n' && v == v'
  {
    StringKeyParts(n, v);
    StringKeyParts(n', v');
    StringKeyRoundTrip(n, v);
    StringKeyRoundTrip(n', v');
  }

  lemma NumericKeyInjective(n: Str, v: uint64, n': Str, v': uint64)
    requires NumericFits(n) && NumericBitmapKey(n, v) == NumericBitmapKey(n', v')
    ensures n == n' && v == v'
  {
    NumericKeyParts(n, v);
    NumericKeyParts(n', v');
    NumericKeyRoundTrip(n, v);
    NumericKeyRoundTrip(n', v');
  }

  /** Records of different kinds have different first bytes, and single records are one byte long. */
  lemma KeyTags(id: nat, k: Key, name: Str, s: Str, n: uint64)
    ensures LastBlockKey() == [0x01] && IdCounterKey() == [0x06] && EntityCountKey() == [0x07]
    ensures PayloadKey(id)[0] == 0x02 && |PayloadKey(id)| == 9
    ensures EntityCurrentKey(k)[0] == 0x03 && EntityCurrentKey(k)[1..] == k
    ensures StringBitmapKey(name, s)[0] == 0x10 && NumericBitmapKey(name, n)[0] == 0x20
  {
  }

  /** Different IDs have different payload keys, and the keys are in the order of the IDs. */
  lemma PayloadKeysDiffer(a: uint64, b: uint64)
    ensures PayloadKey(a) == PayloadKey(b) <==> a == b
    ensures Less(PayloadKey(a), PayloadKey(b)) <==> a < b
  {
    Widths();
    BigEndianRoundTrip(a, 8);
    BigEndianRoundTrip(b, 8);
    assert PayloadKey(a)[1..] == BigEndian(a, 8) && PayloadKey(b)[1..] == BigEndian(b, 8);
    LessSamePrefix([PREFIX_PAYLOAD], BigEndian(a, 8), BigEndian(b, 8));
    if a < b {
      BigEndianOrder(a, b, 8);
    } else if b < a {
      BigEndianOrder(b, a, 8);
      if Less(BigEndian(a, 8), BigEndian(b, 8)) {
        LessTransitive(BigEndian(a, 8), BigEndian(b, 8), BigEndian(a, 8));
        LessIrreflexive(BigEndian(a, 8));
      }
    } else {
      LessIrreflexive(BigEndian(a, 8));
    }
  }

  // ----- Range scans -----

  function Zeros(n: nat): (z: Bytes)
    ensures |z| == n && forall i :: 0 <= i < n ==> z[i] == 0
  {
    seq(n, i => 0)
  }

  /** Increment the last byte, carrying; the bytes carried over stay as zeros. None: unbounded. */
  function PrefixUpperBound(p: Bytes): Option<Bytes> {
    if |p| == 0 then None else
    match PrefixUpperBound(p[1..])
    case Some(u) => Some([p[0]] + u)
    case None => if p[0] < 255 then Some([p[0] + 1] + Zeros(|p| - 1)) else None
  }

  lemma {:induction false} UpperBoundForm(p: Bytes, i: int)
    requires -1 <= i < |p| && (forall j :: i < j < |p| ==> p[j] == 255) && (i >= 0 ==> p[i] < 255)
    ensures i == -1 ==> PrefixUpperBound(p) == None
    ensures i >= 0 ==> PrefixUpperBound(p) == Some(p[..i] + [p[i] + 1] + Zeros(|p| - i - 1))
  {
    if |p| > 0 {
      UpperBoundForm(p[1..], if i <= 0 then -1 else i - 1);
      if i > 0 {
        var u := PrefixUpperBound(p[1..]).value;
        assert [p[0]] + u == p[..i] + [p[i] + 1] + Zeros(|p| - i - 1);
      } else if i == 0 {
        assert p[..0] + [p[0] + 1] + Zeros(|p| - 1) == [p[0] + 1] + Zeros(|p| - 1);
      }
    }
  }

  /** The carry loop of prefixUpperBound, over a copy of the prefix. */
  method ComputeUpperBound(prefix: Bytes) returns (r: Option<Bytes>)
    ensures r == PrefixUpperBound(prefix)
  {
    var upper := new byte[|prefix|](i => 0);
    Put(upper, 0, prefix);
    var i := upper.Length - 1;
    while i >= 0
      invariant -1 <= i < upper.Length == |prefix|
      invariant upper[..i + 1] == prefix[..i + 1]
      invariant forall j :: i < j < |prefix| ==> prefix[j] == 255 && upper[j] == 0
    {
      var next := upper[i] as int + 1;
      upper[i] := next % 256;
      if upper[i] != 0 {
        UpperBoundForm(prefix, i);
        assert upper[..] == prefix[..i] + [prefix[i] + 1] + Zeros(|prefix| - i - 1);
        return Some(upper[..]);
      }
      i := i - 1;
    }
    UpperBoundForm(prefix, -1);
    return None;
  }

  /** The keys an iterator bounded below by p and above by prefixUpperBound(p) visits. */
  predicate InRange(p: Bytes, k: Bytes) {
    var u := PrefixUpperBound(p);
    !Less(k, p) && (u.Some? ==> Less(k, u.value))
  }

  /** k is u with one or more of its trailing zeros cut off. */
  predicate Truncation(k: Bytes, u: Bytes) {
    |k| < |u| && k == u[..|k|] && forall i :: |k| <= i < |u| ==> u[i] == 0
  }

  lemma {:induction false} UpperBoundNonZero(p: Bytes)
    requires PrefixUpperBound(p).Some?
    ensures |PrefixUpperBound(p).value| == |p|
    ensures exists i :: 0 <= i < |p| && PrefixUpperBound(p).value[i] != 0
  {
    if PrefixUpperBound(p[1..]).Some? {
      UpperBoundNonZero(p[1..]);
      var i :| 0 <= i < |p| - 1 && PrefixUpperBound(p[1..]).value[i] != 0;
      assert PrefixUpperBound(p).value[i + 1] != 0;
    } else {
      assert PrefixUpperBound(p).value[0] != 0;
    }
  }

  /**
   * The scan is wider than "has this prefix" by exactly the bound cut short at
   * its trailing zeros.
   */
  lemma {:induction false} RangeExact(p: Bytes, k: Bytes)
    ensures InRange(p, k) <==>
            p <= k || (PrefixUpperBound(p).Some? && Truncation(k, PrefixUpperBound(p).value))
  {
    if |p| == 0 {
    } else if |k| == 0 {
      if PrefixUpperBound(p).Some? {
        UpperBoundNonZero(p);
      }
    } else {
      RangeExact(p[1..], k[1..]);
      PrefixTail(p, k);
      var u := PrefixUpperBound(p);
      if u.Some? {
        UpperBoundNonZero(p);
        TruncationTail(k, u.value);
        if PrefixUpperBound(p[1..]).None? {
          LessThanZeros(k[1..], |p| - 1);
        }
      }
    }
  }

  lemma PrefixTail(p: Bytes, k: Bytes)
    requires |p| > 0 && |k| > 0
    ensures p <= k <==> p[0] == k[0] && p[1..] <= k[1..]
  {
    if p[0] == k[0] && p[1..] <= k[1..] {
      assert p == [p[0]] + p[1..];
      assert k[..|p|] == [k[0]] + k[1..][..|p| - 1];
    }
  }

  lemma TruncationTail(k: Bytes, u: Bytes)
    requires |k| > 0 && |u| > 0
    ensures Truncation(k, u) <==> k[0] == u[0] && Truncation(k[1..], u[1..])
  {
    if k[0] == u[0] && Truncation(k[1..], u[1..]) {
      assert k == [k[0]] + k[1..];
      assert u[..|k|] == [u[0]] + u[1..][..|k| - 1];
      forall i | |k| <= i < |u|
        ensures u[i] == 0
      {
        assert u[i] == u[1..][i - 1];
      }
    }
  }

  /** Only shorter runs of zeros come before a run of zeros. */
  lemma {:induction false} LessThanZeros(k: Bytes, n: nat)
    ensures Less(k, Zeros(n)) <==> Truncation(k, Zeros(n))
  {
    if n > 0 && |k| > 0 {
      assert Zeros(n)[1..] == Zeros(n - 1);
      LessThanZeros(k[1..], n - 1);
      TruncationTail(k, Zeros(n));
    }
  }
}
