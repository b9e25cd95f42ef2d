/** What every operation keeps, and exactly when a create does not. */
module Invariants {
  import opened Base
  import opened Language
  import opened Index
  import opened Store
  import opened Events

  /** A create names a key that is not live. */
  predicate Fresh(live: set<Key>, o: Operation) {
    o.action.Create? ==> o.action.content.key !in live
  }

  function LiveAfter(live: set<Key>, o: Operation): set<Key> {
    match o.action
    case Create(c) => live + {c.key}
    case Delete(key) => live - {key}
    case Expire(key) => live - {key}
    case _ => live
  }

  /** Every create in ops names a key that is not live at its turn. A property of the event stream alone. */
  predicate FreshCreates(live: set<Key>, ops: seq<Operation>)
    decreases ops
  {
    |ops| > 0 ==> Fresh(live, ops[0]) && FreshCreates(LiveAfter(live, ops[0]), ops[1..])
  }

  /** Everything but the index. */
  predicate Sound(w: Work) {
    Linked(w.db) && Counted(w.db) && Counter(w.db) <= w.next
  }

  lemma TablesAfterPut(db: Db, id: nat, row: Row)
    ensures var after := db.(payloads := db.payloads[id := row]);
            StringTable(after) == StringTable(db)[id := row.strings]
            && NumberTable(after) == NumberTable(db)[id := Indexed(row.numbers)]
  {
  }

  lemma TablesIgnoreOthers(a: Db, b: Db)
    requires a.payloads == b.payloads
    ensures StringTable(a) == StringTable(b) && NumberTable(a) == NumberTable(b)
  {
  }

  lemma InsertInverse(current: map<Key, nat>, payloads: map<nat, Row>, id: nat, row: Row)
    requires Inverse(current, payloads) && row.key !in current && id !in payloads
    ensures Inverse(current[row.key := id], payloads[id := row])
  {
    var c, p := current[row.key := id], payloads[id := row];
    forall k | k in c
      ensures c[k] in p && p[c[k]].key == k
    {
      if k != row.key {
        assert k in current && current[k] != id;
      }
    }
    forall i | i in p
      ensures p[i].key in c && c[p[i].key] == i
    {
      if i != id {
        assert i in payloads && payloads[i].key != row.key;
      }
    }
  }

  lemma InsertCounts(current: map<Key, nat>, key: Key, id: nat)
    requires key !in current
    ensures |current[key := id]| == |current| + 1
  {
    assert current[key := id].Keys == current.Keys + {key};
  }

  lemma RemoveInverse(current: map<Key, nat>, payloads: map<nat, Row>, key: Key)
    requires Inverse(current, payloads) && key in current
    ensures Inverse(current - {key}, payloads - {current[key]})
    ensures |current - {key}| == |current| - 1
  {
    assert (current - {key}).Keys == current.Keys - {key};
  }

  lemma UpsertNewSound(w: Work, row: Row)
    requires Sound(w) && row.key !in w.db.current
    ensures Sound(Upsert(w, row)) && w.next !in w.db.payloads
  {
    InsertInverse(w.db.current, w.db.payloads, w.next, row);
    InsertCounts(w.db.current, row.key, w.next);
  }

  lemma UpsertLiveSound(w: Work, row: Row)
    requires Sound(w) && row.key in w.db.current
    ensures Sound(Upsert(w, row)) && Upsert(w, row).db.current == w.db.current
  {
    assert Upsert(w, row).db.current == w.db.current;
  }

  lemma UpsertTables(w: Work, row: Row)
    ensures var id := UpsertId(w, row.key);
            StringTable(Upsert(w, row).db) == StringTable(w.db)[id := row.strings]
            && NumberTable(Upsert(w, row).db) == NumberTable(w.db)[id := Indexed(row.numbers)]
  {
    var id := UpsertId(w, row.key);
    TablesAfterPut(w.db, id, row);
    TablesIgnoreOthers(Upsert(w, row).db, w.db.(payloads := w.db.payloads[id := row]));
  }

  /** u is a sound successor of w in which exactly the keys of live are live. */
  predicate Tracks(w: Work, u: Work, live: set<Key>) {
    Sound(u) && u.db.current.Keys == live && u.db.lastBlock == w.db.lastBlock && u.next >= w.next
  }

  /** The same with the index in agreement. */
  ghost predicate Follows(w: Work, u: Work, live: set<Key>) {
    Tracks(w, u, live) && IndexAgrees(u.db)
  }

  lemma ValidFrom(u: Work, strings: Index<Str>, numbers: Index<uint64>)
    requires Sound(u)
    requires Mirrors(strings, StringTable(u.db)) && Mirrors(numbers, NumberTable(u.db))
    ensures Valid(WithIndex(u, strings, numbers))
  {
    TablesIgnoreOthers(WithIndex(u, strings, numbers).db, u.db);
  }

  lemma InsertKeepsIndex(w: Work, row: Row, id: nat)
    requires IndexAgrees(w.db) && id == UpsertId(w, row.key) && id !in w.db.payloads
    ensures Mirrors(AddAll(w.db.strings, row.strings, id), StringTable(Upsert(w, row).db))
    ensures Mirrors(AddAll(w.db.numbers, Indexed(row.numbers), id), NumberTable(Upsert(w, row).db))
  {
    UpsertTables(w, row);
    MirrorsAfterInsert(w.db.strings, StringTable(w.db), row.strings, id);
    MirrorsAfterInsert(w.db.numbers, NumberTable(w.db), Indexed(row.numbers), id);
  }

  lemma InsertKeepsValid(w: Work, row: Row)
    requires Valid(w) && row.key !in w.db.current
    ensures Follows(w, WithIndex(Upsert(w, row), AddAll(w.db.strings, row.strings, w.next),
                                 AddAll(w.db.numbers, Indexed(row.numbers), w.next)),
                    w.db.current.Keys + {row.key})
  {
    UpsertNewSound(w, row);
    InsertKeepsIndex(w, row, w.next);
    ValidFrom(Upsert(w, row), AddAll(w.db.strings, row.strings, w.next),
        AddAll(w.db.numbers, Indexed(row.numbers), w.next));
    assert Upsert(w, row).db.current.Keys == w.db.current.Keys + {row.key};
  }

  lemma CreateKeepsValid(lib: Lib, w: Work, block: uint64, o: Operation, c: Content)
    requires Valid(w) && c.key !in w.db.current
    ensures Follows(w, StepCreate(lib, w, block, o, c), w.db.current.Keys + {c.key})
  {
    InsertKeepsValid(w, CreatedRow(lib, block, o, c));
  }

  lemma ReplaceKeepsIndex(w: Work, row: Row, id: nat)
    requires IndexAgrees(w.db) && id == UpsertId(w, row.key) && id in w.db.payloads
    ensures var was := w.db.payloads[id];
            Mirrors(AddAll(RemoveAll(w.db.strings, was.strings, id), row.strings, id), StringTable(Upsert(w, row).db))
            && Mirrors(AddAll(RemoveAll(w.db.numbers, Indexed(was.numbers), id), Indexed(row.numbers), id),
                       NumberTable(Upsert(w, row).db))
  {
    UpsertTables(w, row);
    MirrorsAfterReplace(w.db.strings, StringTable(w.db), row.strings, id);
    MirrorsAfterReplace(w.db.numbers, NumberTable(w.db), Indexed(row.numbers), id);
  }

  lemma UpdateKeepsValid(lib: Lib, w: Work, block: uint64, c: Content)
    requires Valid(w) && c.key in w.db.current
    ensures StepUpdate(lib, w, block, c).Done? && Follows(w, StepUpdate(lib, w, block, c).work, w.db.current.Keys)
  {
    var id := w.db.current[c.key];
    var was := w.db.payloads[id];
    var row := UpdatedRow(lib, block, c, was);
    UpsertLiveSound(w, row);
    ReplaceKeepsIndex(w, row, id);
    ValidFrom(Upsert(w, row),
              AddAll(RemoveAll(w.db.strings, was.strings, id), row.strings, id),
              AddAll(RemoveAll(w.db.numbers, Indexed(was.numbers), id), Indexed(row.numbers), id));
  }

  lemma DeleteSound(w: Work, key: Key)
    requires Sound(w) && key in w.db.current
    ensures var d := DeleteCurrent(w.db, key);
            d.Some? && Sound(Work(d.value, w.next)) && d.value.current.Keys == w.db.current.Keys - {key}
  {
    RemoveInverse(w.db.current, w.db.payloads, key);
    assert (w.db.current - {key}).Keys == w.db.current.Keys - {key};
  }

  lemma TablesAfterDelete(db: Db, id: nat)
    ensures var after := db.(payloads := db.payloads - {id});
            StringTable(after) == StringTable(db) - {id} && NumberTable(after) == NumberTable(db) - {id}
  {
  }

  lemma DeleteKeepsIndex(db: Db, id: nat)
    requires IndexAgrees(db) && id in db.payloads
    ensures var was, after := db.payloads[id], db.(payloads := db.payloads - {id});
            Mirrors(RemoveAll(db.strings, was.strings, id), StringTable(after))
            && Mirrors(RemoveAll(db.numbers, Indexed(was.numbers), id), NumberTable(after))
  {
    MirrorsAfterDelete(db.strings, StringTable(db), id);
    MirrorsAfterDelete(db.numbers, NumberTable(db), id);
    TablesAfterDelete(db, id);
  }

  lemma DeleteKeepsValid(w: Work, key: Key)
    requires Valid(w) && key in w.db.current
    ensures StepDelete(w, key).Done? && Follows(w, StepDelete(w, key).work, w.db.current.Keys - {key})
  {
    var id := w.db.current[key];
    var was := w.db.payloads[id];
    DeleteSound(w, key);
    DeleteKeepsIndex(w.db, id);
    var d := DeleteCurrent(w.db, key).value;
    TablesIgnoreOthers(d, w.db.(payloads := w.db.payloads - {id}));
    ValidFrom(Work(d, w.next),
              RemoveAll(w.db.strings, was.strings, id), RemoveAll(w.db.numbers, Indexed(was.numbers), id));
  }

  lemma IndexedUpdate(numbers: map<Str, uint64>, name: Str, value: uint64)
    requires name != TX_INDEX && name != OP_INDEX
    ensures Indexed(numbers[name := value]) == Indexed(numbers)[name := value]
  {
  }

  lemma UnchangedEntry<T>(table: map<nat, T>, id: nat)
    requires id in table
    ensures table[id := table[id]] == table
  {
  }

  lemma ExtendKeepsIndex(w: Work, key: Key, btl: uint64, id: nat)
    requires IndexAgrees(w.db) && id == UpsertId(w, key) && id in w.db.payloads
    ensures var was := w.db.payloads[id];
            var u := Upsert(w, ExtendedRow(key, btl, was));
            && Mirrors(w.db.strings, StringTable(u.db))
            && Mirrors(Add(Remove(w.db.numbers, EXPIRATION, ValueOr(was.numbers, EXPIRATION, 0), id),
                           EXPIRATION, ExtendedExpiration(was, btl), id), NumberTable(u.db))
  {
    var was := w.db.payloads[id];
    var old': uint64 := ValueOr(was.numbers, EXPIRATION, 0);
    var new': uint64 := ExtendedExpiration(was, btl);
    UpsertTables(w, ExtendedRow(key, btl, was));
    IndexedUpdate(was.numbers, EXPIRATION, new');
    UnchangedEntry(StringTable(w.db), id);
    MirrorsAfterMove(w.db.numbers, NumberTable(w.db), EXPIRATION, old', new', id);
  }

  lemma ExtendKeepsValid(w: Work, key: Key, btl: uint64)
    requires Valid(w) && key in w.db.current
    ensures StepExtend(w, key, btl).Done? && Follows(w, StepExtend(w, key, btl).work, w.db.current.Keys)
  {
    var id := w.db.current[key];
    var was := w.db.payloads[id];
    var row := ExtendedRow(key, btl, was);
    UpsertLiveSound(w, row);
    ExtendKeepsIndex(w, key, btl, id);
    ValidFrom(Upsert(w, row), w.db.strings,
              Add(Remove(w.db.numbers, EXPIRATION, ValueOr(was.numbers, EXPIRATION, 0), id),
                  EXPIRATION, ExtendedExpiration(was, btl), id));
  }

  lemma ReownKeepsValid(lib: Lib, w: Work, key: Key, owner: Str)
    requires Valid(w) && key in w.db.current
    ensures StepReown(lib, w, key, owner).Done? && Follows(w, StepReown(lib, w, key, owner).work, w.db.current.Keys)
  {
    var id := w.db.current[key];
    var was := w.db.payloads[id];
    var row := ReownedRow(lib, key, owner, was);
    var old', new' := ValueOr(was.strings, OWNER, []), lib.lower(owner);
    UpsertLiveSound(w, row);
    UpsertTables(w, row);
    UnchangedEntry<map<Str, uint64>>(NumberTable(w.db), id);
    MirrorsAfterMove(w.db.strings, StringTable(w.db), OWNER, old', new', id);
    ValidFrom(Upsert(w, row), Add(Remove(w.db.strings, OWNER, old', id), OWNER, new', id), w.db.numbers);
  }

  /** The operation has a live key to work on; a create needs none. */
  predicate Applicable(live: set<Key>, o: Operation) {
    match o.action
    case Create(_) => true
    case Malformed => false
    case Update(c) => c.key in live
    case Delete(key) => key in live
    case Expire(key) => key in live
    case ExtendBTL(key, _) => key in live
    case ChangeOwner(key, _) => key in live
  }

  lemma StepSucceeds(lib: Lib, w: Work, block: uint64, o: Operation)
    requires Valid(w) && Fresh(w.db.current.Keys, o) && Applicable(w.db.current.Keys, o)
    ensures var r := Step(lib, w, block, o);
            r.Done? && Follows(w, r.work, LiveAfter(w.db.current.Keys, o))
  {
    match o.action
    case Create(c) => CreateKeepsValid(lib, w, block, o, c);
    case Update(c) => UpdateKeepsValid(lib, w, block, c);
    case Delete(key) => DeleteKeepsValid(w, key);
    case Expire(key) => DeleteKeepsValid(w, key);
    case ExtendBTL(key, btl) => ExtendKeepsValid(w, key, btl);
    case ChangeOwner(key, owner) => ReownKeepsValid(lib, w, key, owner);
  }

  lemma StepFails(lib: Lib, w: Work, block: uint64, o: Operation)
    requires !Applicable(w.db.current.Keys, o)
    ensures Step(lib, w, block, o) == Failed(w.next)
  {
  }

  lemma UpsertKeys(w: Work, row: Row)
    ensures Upsert(w, row).db.current.Keys == w.db.current.Keys + {row.key}
  {
  }

  lemma UpsertTracks(w: Work, row: Row)
    requires Sound(w)
    ensures Tracks(w, Upsert(w, row), w.db.current.Keys + {row.key})
  {
    UpsertKeys(w, row);
    if row.key in w.db.current {
      UpsertLiveSound(w, row);
    } else {
      UpsertNewSound(w, row);
    }
  }

  lemma SoundIgnoresIndex(w: Work, u: Work, live: set<Key>, strings: Index<Str>, numbers: Index<uint64>)
    requires Tracks(w, u, live)
    ensures Tracks(w, WithIndex(u, strings, numbers), live)
  {
  }

  lemma DeleteTracks(w: Work, key: Key)
    requires Sound(w) && key in w.db.current
    ensures StepDelete(w, key).Done? && Tracks(w, StepDelete(w, key).work, w.db.current.Keys - {key})
  {
    DeleteSound(w, key);
    var u := StepDelete(w, key).work;
    SoundIgnoresIndex(w, Work(DeleteCurrent(w.db, key).value, w.next), w.db.current.Keys - {key}, u.db.strings,
        u.db.numbers);
  }

  lemma WriteTracks(lib: Lib, w: Work, block: uint64, o: Operation)
    requires Sound(w) && Applicable(w.db.current.Keys, o) && Written(lib, w, block, o).Some?
    ensures Step(lib, w, block, o).Done? && Tracks(w, Step(lib, w, block, o).work, LiveAfter(w.db.current.Keys, o))
  {
    var row := Written(lib, w, block, o).value;
    StepEffect(lib, w, block, o);
    UpsertTracks(w, row);
    var u := Step(lib, w, block, o).work;
    assert w.db.current.Keys + {row.key} == LiveAfter(w.db.current.Keys, o);
    SoundIgnoresIndex(w, Upsert(w, row), LiveAfter(w.db.current.Keys, o), u.db.strings, u.db.numbers);
  }

  /**
   * Every operation, a create over a live key included, keeps pointers,
   * payloads, count and counter in agreement; it succeeds exactly when its key
   * is live, so the entity count never underflows.
   */
  lemma StepKeepsSound(lib: Lib, w: Work, block: uint64, o: Operation)
    requires Sound(w)
    ensures match Step(lib, w, block, o)
            case Done(u) => Applicable(w.db.current.Keys, o) && Tracks(w, u, LiveAfter(w.db.current.Keys, o))
            case Failed(n) => !Applicable(w.db.current.Keys, o) && n == w.next
  {
    if !Applicable(w.db.current.Keys, o) {
      StepFails(lib, w, block, o);
    } else if o.action.Delete? || o.action.Expire? {
      DeleteTracks(w, o.action.key);
    } else {
      WriteTracks(lib, w, block, o);
    }
  }

  /** A create over a live key writes every old indexed attribute again. */
  predicate Rewrites(lib: Lib, w: Work, block: uint64, o: Operation)
    requires Linked(w.db)
  {
    o.action.Create? && o.action.content.key in w.db.current ==>
      var was := w.db.payloads[w.db.current[o.action.content.key]];
      var row := CreatedRow(lib, block, o, o.action.content);
      && (forall n :: n in was.strings ==> Has(row.strings, n, was.strings[n]))
      && (forall n :: n in Indexed(was.numbers) ==> Has(Indexed(row.numbers), n, Indexed(was.numbers)[n]))
  }

  /**
   * A create over a live key reuses its ID without removing its old bits: the
   * index stays right exactly when every old indexed attribute is written again.
   */
  lemma CreateOverLive(lib: Lib, w: Work, block: uint64, o: Operation, c: Content)
    requires Valid(w) && o.action == Create(c) && c.key in w.db.current
    ensures IndexAgrees(StepCreate(lib, w, block, o, c).db) <==> Rewrites(lib, w, block, o)
  {
    var id := w.db.current[c.key];
    var row := CreatedRow(lib, block, o, c);
    UpsertTables(w, row);
    MirrorsAfterOverwrite(w.db.strings, StringTable(w.db), row.strings, id);
    MirrorsAfterOverwrite(w.db.numbers, NumberTable(w.db), Indexed(row.numbers), id);
    TablesIgnoreOthers(Upsert(w, row).db, StepCreate(lib, w, block, o, c).db);
  }

  /** A create over an entity last modified at another block leaves its ID in the bitmap of that block. */
  lemma StaleBitExample(lib: Lib, w: Work, block: uint64, o: Operation, c: Content)
    requires Valid(w) && o.action == Create(c) && c.key in w.db.current
    requires var was := w.db.payloads[w.db.current[c.key]];
             LAST_MODIFIED_AT_BLOCK in was.numbers && was.numbers[LAST_MODIFIED_AT_BLOCK] != block
    ensures !Rewrites(lib, w, block, o) && !IndexAgrees(StepCreate(lib, w, block, o, c).db)
  {
    var was, row := w.db.payloads[w.db.current[c.key]], CreatedRow(lib, block, o, c);
    CreatedModified(lib, block, o, c);
    assert LAST_MODIFIED_AT_BLOCK in Indexed(was.numbers);
    assert !Has(Indexed(row.numbers), LAST_MODIFIED_AT_BLOCK, was.numbers[LAST_MODIFIED_AT_BLOCK]);
    CreateOverLive(lib, w, block, o, c);
  }

  lemma CreatedModified(lib: Lib, block: uint64, o: Operation, c: Content)
    ensures var numbers := CreatedRow(lib, block, o, c).numbers;
            LAST_MODIFIED_AT_BLOCK in numbers && numbers[LAST_MODIFIED_AT_BLOCK] == block
  {
  }

  /**
   * What every operation keeps: on a valid state it succeeds exactly when its
   * key is live; the tables stay sound; and the index stays in agreement with
   * them exactly unless a create over a live key leaves an old attribute out.
   */
  lemma StepKeepsValid(lib: Lib, w: Work, block: uint64, o: Operation)
    requires Valid(w)
    ensures match Step(lib, w, block, o)
            case Done(u) =>
              && Applicable(w.db.current.Keys, o) && Tracks(w, u, LiveAfter(w.db.current.Keys, o))
              && (IndexAgrees(u.db) <==> Rewrites(lib, w, block, o))
            case Failed(n) => !Applicable(w.db.current.Keys, o) && n == w.next
  {
    StepKeepsSound(lib, w, block, o);
    if Applicable(w.db.current.Keys, o) {
      if Fresh(w.db.current.Keys, o) {
        StepSucceeds(lib, w, block, o);
      } else {
        CreateOverLive(lib, w, block, o, o.action.content);
      }
    }
  }

  function LiveAfterAll(live: set<Key>, ops: seq<Operation>): set<Key>
    decreases ops
  {
    if |ops| == 0 then live else LiveAfterAll(LiveAfter(live, ops[0]), ops[1..])
  }

  /** An operation fails exactly when its key is not live at its turn. */
  predicate AllApplicable(live: set<Key>, ops: seq<Operation>, coalesce: bool)
    decreases ops
  {
    |ops| > 0 ==>
      && (Applicable(live, ops[0]) || (coalesce && Superseded(ops)))
      && AllApplicable(LiveAfter(live, ops[0]), ops[1..], coalesce)
  }

  /**
   * A block, with or without dropping superseded updates: it runs through
   * exactly when every operation it tries finds its key live; the tables stay
   * sound, and so does the index if every create names a key that is not live.
   */
  lemma {:induction false} OperationsKeepValid(lib: Lib, w: Work, block: uint64, ops: seq<Operation>, coalesce: bool)
    requires Sound(w)
    ensures match RunOperations(lib, w, block, ops, coalesce)
            case Done(u) =>
              && AllApplicable(w.db.current.Keys, ops, coalesce)
              && Tracks(w, u, LiveAfterAll(w.db.current.Keys, ops))
              && (Valid(w) && FreshCreates(w.db.current.Keys, ops) ==> Valid(u))
            case Failed(n) => !AllApplicable(w.db.current.Keys, ops, coalesce) && n >= w.next
    decreases ops
  {
    if |ops| > 0 {
      if coalesce && Superseded(ops) {
        OperationsKeepValid(lib, w, block, ops[1..], coalesce);
      } else {
        StepKeepsSound(lib, w, block, ops[0]);
        match Step(lib, w, block, ops[0])
        case Failed(_) =>
        case Done(u) =>
          if Valid(w) && Fresh(w.db.current.Keys, ops[0]) {
            StepSucceeds(lib, w, block, ops[0]);
          }
          OperationsKeepValid(lib, u, block, ops[1..], coalesce);
      }
    }
  }

  // ----- Whole blocks and batches -----

  /** Creates are fresh in every block of a batch that is not skipped. */
  predicate FreshBlocks(live: set<Key>, last: uint64, blocks: seq<Block>)
    decreases blocks
  {
    |blocks| > 0 ==>
      if blocks[0].number <= last then FreshBlocks(live, last, blocks[1..])
      else FreshCreates(live, blocks[0].operations)
           && FreshBlocks(LiveAfterAll(live, blocks[0].operations), last, blocks[1..])
  }

  lemma {:induction false} BlocksKeepValid(lib: Lib, w: Work, last: uint64, blocks: seq<Block>)
    requires Sound(w)
    ensures match RunBlocks(RunBlock(lib), w, last, blocks)
            case Done(u) =>
              && Sound(u) && u.next >= w.next
              && (Valid(w) && FreshBlocks(w.db.current.Keys, last, blocks) ==> Valid(u))
            case Failed(n) => n >= w.next
    decreases blocks
  {
    if |blocks| > 0 {
      if blocks[0].number <= last {
        BlocksKeepValid(lib, w, last, blocks[1..]);
      } else {
        OperationsKeepValid(lib, w, blocks[0].number, blocks[0].operations, true);
        match RunBlock(lib)(w, blocks[0])
        case Done(u) => BlocksKeepValid(lib, u, last, blocks[1..]);
        case Failed(_) =>
      }
    }
  }

  /**
   * A committed batch leaves sound tables, and an index in agreement if every
   * create names a key that is not live; a failed one only moves the ID
   * counter up.
   */
  lemma BatchKeepsValid(lib: Lib, w: Work, blocks: seq<Block>)
    requires |blocks| > 0 && Sound(w)
    ensures match RunBatch(RunBlock(lib), w, blocks)
            case Done(u) =>
              && Sound(u) && u.next >= w.next
              && (Valid(w) && FreshBlocks(w.db.current.Keys, LastBlock(w.db), blocks) ==> Valid(u))
            case Failed(n) => n >= w.next
  {
    BlocksKeepValid(lib, w, LastBlock(w.db), blocks);
    match RunBlocks(RunBlock(lib), w, LastBlock(w.db), blocks)
    case Done(u) => TablesIgnoreOthers(u.db, WithLastBlock(u, blocks[|blocks| - 1].number).db);
    case Failed(_) =>
  }
}
