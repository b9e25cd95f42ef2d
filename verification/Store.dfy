/** The contents of the database, one field per key prefix, and what each table operation does to it. */
module Store {
  import opened Base
  import opened Index

  /** A payload record (PayloadRow without its ID, which is its key). */
  datatype Row = Row(
    key: Key,
    payload: Bytes,
    contentType: Str,
    strings: map<Str, Str>,
    numbers: map<Str, uint64>)

  datatype Db = Db(
    lastBlock: Option<uint64>,
    payloads: map<nat, Row>,
    current: map<Key, nat>,
    idCounter: Option<nat>,
    count: Option<nat>,
    strings: Index<Str>,
    numbers: Index<uint64>)

  /** What a running batch can change: its view of the database and the in-memory ID counter. */
  datatype Work = Work(db: Db, next: nat)

  const TX_INDEX: Str := [36, 116, 120, 73, 110, 100, 101, 120]  // "$txIndex"
  const OP_INDEX: Str := [36, 111, 112, 73, 110, 100, 101, 120]  // "$opIndex"

  function EmptyDb(): Db {
    Db(None, map[], map[], None, None, map[], map[])
  }

  function LastBlock(db: Db): uint64 {
    if db.lastBlock.Some? then db.lastBlock.value else 0
  }

  function Count(db: Db): nat {
    if db.count.Some? then db.count.value else 0
  }

  /** The persisted ID counter as NewPebbleStore reads it. */
  function Counter(db: Db): nat {
    if db.idCounter.Some? then db.idCounter.value else 1
  }

  /** All numeric attributes are stored; these two are not indexed. */
  function Indexed(numbers: map<Str, uint64>): map<Str, uint64> {
    numbers - {TX_INDEX, OP_INDEX}
  }

  /** GetCurrentPayloadForEntityKey. */
  function GetCurrent(db: Db, key: Key): Option<(nat, Row)> {
    if key in db.current && db.current[key] in db.payloads
    then Some((db.current[key], db.payloads[db.current[key]]))
    else None
  }

  function UpsertId(w: Work, key: Key): nat {
    if key in w.db.current then w.db.current[key] else w.next
  }

  /** UpsertPayload: a live key keeps its ID, a new one takes the next and is counted. */
  function Upsert(w: Work, row: Row): Work {
    var id := UpsertId(w, row.key);
    var db := w.db.(current := w.db.current[row.key := id], payloads := w.db.payloads[id := row]);
    if row.key in w.db.current then Work(db, w.next)
    else Work(db.(idCounter := Some(w.next + 1), count := Some(Count(w.db) + 1)), w.next + 1)
  }

  /** DeletePayloadForEntityKey; None when the key is not live or the count would underflow. */
  function DeleteCurrent(db: Db, key: Key): Option<Db> {
    if key !in db.current || Count(db) == 0 then None
    else Some(db.(payloads := db.payloads - {db.current[key]},
                  current := db.current - {key},
                  count := Some(Count(db) - 1)))
  }

  // ----- What every reachable database satisfies -----

  function StringTable(db: Db): map<nat, map<Str, Str>> {
    map id | id in db.payloads :: db.payloads[id].strings
  }

  function NumberTable(db: Db): map<nat, map<Str, uint64>> {
    map id | id in db.payloads :: Indexed(db.payloads[id].numbers)
  }

  /** Pointers and payloads are inverse to each other. */
  predicate Inverse(current: map<Key, nat>, payloads: map<nat, Row>) {
    && (forall k :: k in current ==> current[k] in payloads && payloads[current[k]].key == k)
    && (forall id :: id in payloads ==> payloads[id].key in current && current[payloads[id].key] == id)
  }

  /** Every live entity has one payload, every payload one live entity, and the count counts them. */
  predicate Linked(db: Db) {
    Inverse(db.current, db.payloads) && Count(db) == |db.current|
  }

  /** The persisted counter is past every stored ID. */
  predicate Counted(db: Db) {
    1 <= Counter(db) && forall id :: id in db.payloads ==> 1 <= id < Counter(db)
  }

  ghost predicate IndexAgrees(db: Db) {
    Mirrors(db.strings, StringTable(db)) && Mirrors(db.numbers, NumberTable(db))
  }

  ghost predicate Consistent(db: Db) {
    Linked(db) && Counted(db) && IndexAgrees(db)
  }

  ghost predicate Valid(w: Work) {
    Consistent(w.db) && Counter(w.db) <= w.next
  }

  /** The pointers are injective and hit exactly the payload IDs. */
  lemma PointersAreBijective(db: Db)
    requires Linked(db)
    ensures forall j, k :: j in db.current && k in db.current && db.current[j] == db.current[k] ==> j == k
    ensures db.current.Values == db.payloads.Keys
    ensures |db.payloads| == Count(db)
  {
    assert db.current.Values == db.payloads.Keys;
    SameSize(db.current.Keys, db.payloads.Keys, db.current);
  }

  lemma {:induction false} SameSize(ks: set<Key>, ids: set<nat>, f: map<Key, nat>)
    requires ks <= f.Keys && ids == set k | k in ks :: f[k]
    requires forall j, k :: j in ks && k in ks && f[j] == f[k] ==> j == k
    ensures |ks| == |ids|
  {
    if ks != {} {
      var k :| k in ks;
      assert ids - {f[k]} == set j | j in ks - {k} :: f[j];
      SameSize(ks - {k}, ids - {f[k]}, f);
    }
  }
}
