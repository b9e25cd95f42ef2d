/** The scans over the entity pointers: all live IDs, and the count taken when a database has none. */
module CurrentScan {
  import opened Base
  import opened Encoding
  import opened Store
  import opened ValueQueries

  const CURRENT_PREFIX: Bytes := [PREFIX_ENTITY_CURRENT]

  /** The pointer range holds the pointers and nothing else. */
  lemma CurrentScanExact(db: Db, k: Bytes)
    requires StoredKey(db, k)
    ensures InRange(CURRENT_PREFIX, k) <==> exists key :: key in db.current && k == EntityCurrentKey(key)
    ensures InRange(CURRENT_PREFIX, k) ==> |k| == 33 && k[1..] in db.current && k == EntityCurrentKey(k[1..])
  {
    var p: Bytes := CURRENT_PREFIX;
    RangeExact(p, k);
    assert p[1..] == [] && PrefixUpperBound(p) == Some([4] + Zeros(0));
    assert !Truncation(k, [4] + Zeros(0)) by {
      assert ([4] + Zeros(0))[0] != 0;
    }
    assert p <= k <==> |k| > 0 && k[0] == PREFIX_ENTITY_CURRENT;
    if key :| key in db.current && k == EntityCurrentKey(key) {
      assert k[1..] == key;
    }
  }

  predicate Descending(s: seq<nat>) {
    forall i, j :: 0 <= i < j < |s| ==> s[i] > s[j]
  }

  function Insert(x: nat, s: seq<nat>): seq<nat> {
    if |s| == 0 || x > s[0] then [x] + s else [s[0]] + Insert(x, s[1..])
  }

  /** sort.Slice with `>`: the library's sort, by its effect on distinct IDs. */
  function SortDescending(s: seq<nat>): seq<nat> {
    if |s| == 0 then [] else Insert(s[0], SortDescending(s[1..]))
  }

  lemma {:induction false} InsertSorts(x: nat, s: seq<nat>)
    requires Descending(s) && x !in s
    ensures Descending(Insert(x, s)) && forall y :: y in Insert(x, s) <==> y == x || y in s
  {
    var r := Insert(x, s);
    if |s| > 0 {
      assert s == [s[0]] + s[1..];
      if x < s[0] {
        InsertSorts(x, s[1..]);
        forall i | 0 < i < |r|
          ensures r[i] < s[0]
        {
          assert r[i] in Insert(x, s[1..]);
        }
      }
    }
  }

  lemma {:induction false} SortSorts(s: seq<nat>)
    requires NoRepeat(s)
    ensures Descending(SortDescending(s)) && forall y :: y in SortDescending(s) <==> y in s
  {
    if |s| > 0 {
      SortSorts(s[1..]);
      InsertSorts(s[0], SortDescending(s[1..]));
      assert s == [s[0]] + s[1..];
    }
  }

  /** The IDs of all live entities, newest first, each once. */
  method EvaluateAllCurrent(r: Reader) returns (ids: seq<nat>)
    requires Faithful(r) && Inverse(r.db.current, r.db.payloads)
    ensures Descending(ids) && forall id :: id in ids <==> id in r.db.payloads
  {
    var found := Iterate(r.keys, CURRENT_PREFIX);
    KeysInRangeMembers(r.keys, CURRENT_PREFIX);
    var unsorted: seq<nat> := [];
    for i := 0 to |found|
      invariant |unsorted| == i && NoRepeat(unsorted)
      invariant forall j :: 0 <= j < i ==>
                  |found[j]| == 33 && found[j][1..] in r.db.current && unsorted[j] == r.db.current[found[j][1..]]
    {
      CurrentScanExact(r.db, found[i]);
      SortedDistinct(found, i);
      forall j | 0 <= j < i
        ensures unsorted[j] != r.db.current[found[i][1..]]
      {
        CurrentScanExact(r.db, found[j]);
        assert found[j] != found[i];
      }
      unsorted := unsorted + [r.db.current[found[i][1..]]];
    }
    forall id
      ensures id in unsorted <==> id in r.db.payloads
    {
      if id in r.db.payloads {
        var key := r.db.payloads[id].key;
        CurrentScanExact(r.db, EntityCurrentKey(key));
        assert EntityCurrentKey(key) in r.keys;
        var j :| 0 <= j < |found| && found[j] == EntityCurrentKey(key);
        assert found[j][1..] == key && unsorted[j] == id;
      }
    }
    SortSorts(unsorted);
    ids := SortDescending(unsorted);
  }

  /** The migration count is the number of pointers. */
  method CountEntitiesByScan(r: Reader) returns (count: nat)
    requires Faithful(r)
    ensures count == |r.db.current|
  {
    var found := Iterate(r.keys, CURRENT_PREFIX);
    KeysInRangeMembers(r.keys, CURRENT_PREFIX);
    count := 0;
    ghost var seen: set<Key> := {};
    for i := 0 to |found|
      invariant count == |seen| && seen <= r.db.current.Keys
      invariant forall key :: key in seen <==> EntityCurrentKey(key) in found[..i]
    {
      CurrentScanExact(r.db, found[i]);
      SortedDistinct(found, i);
      ghost var key: Key := found[i][1..];
      assert forall other: Key :: EntityCurrentKey(other) == found[i] ==> other == found[i][1..] by {
        assert forall other: Key :: EntityCurrentKey(other)[1..] == other;
      }
      seen := seen + {key};
      count := count + 1;
    }
    forall key | key in r.db.current
      ensures key in seen
    {
      CurrentScanExact(r.db, EntityCurrentKey(key));
      assert EntityCurrentKey(key) in r.keys;
      assert found[..|found|] == found;
    }
    assert seen == r.db.current.Keys;
  }
}
