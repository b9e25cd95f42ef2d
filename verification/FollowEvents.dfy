/** The event follower: nested loops over batches, blocks and operations that change the store in place. */
module FollowEvents {
  import opened Base
  import opened Language
  import I = Index
  import opened Store
  import opened Events
  import opened BitmapCache

  /**
   * An indexed batch: reads see its own writes; nothing reaches the store
   * before the commit. The bitmap records are kept in the two halves of the
   * cache; the index fields of `view` are not used.
   */
  class PebbleBatch {
    var view: Db
    const strings: BitmapCache<Str>
    const numbers: BitmapCache<uint64>

    constructor (db: Db)
      requires I.NoEmpty(db.strings) && I.NoEmpty(db.numbers)
      ensures Valid() && Logical() == db
      ensures fresh(strings) && fresh(numbers) && strings.objects == {} && numbers.objects == {}
    {
      view := db;
      strings := new BitmapCache<Str>(db.strings);
      numbers := new BitmapCache<uint64>(db.numbers);
    }

    ghost predicate Valid()
      reads strings, numbers, strings.objects, numbers.objects
    {
      strings.Valid() && numbers.Valid() && strings.objects !! numbers.objects
    }

    /** The loops over the attributes of a row; `$txIndex` and `$opIndex` are not indexed. */
    method AddRow(row: Row, id: nat)
      requires Valid()
      modifies strings, numbers, strings.objects, numbers.objects
      ensures Valid() && fresh(strings.objects - old(strings.objects)) && fresh(numbers.objects - old(numbers.objects))
      ensures strings.written == I.AddAll(old(strings.written), row.strings, id)
      ensures numbers.written == I.AddAll(old(numbers.written), Indexed(row.numbers), id)
    {
      assert row.strings - {} == row.strings;
      strings.AddAttributes(row.strings, {}, id);
      numbers.AddAttributes(row.numbers, {TX_INDEX, OP_INDEX}, id);
    }

    method RemoveRow(row: Row, id: nat)
      requires Valid()
      modifies strings, numbers, strings.objects, numbers.objects
      ensures Valid() && fresh(strings.objects - old(strings.objects)) && fresh(numbers.objects - old(numbers.objects))
      ensures strings.written == I.RemoveAll(old(strings.written), row.strings, id)
      ensures numbers.written == I.RemoveAll(old(numbers.written), Indexed(row.numbers), id)
    {
      assert row.strings - {} == row.strings;
      strings.RemoveAttributes(row.strings, {}, id);
      numbers.RemoveAttributes(row.numbers, {TX_INDEX, OP_INDEX}, id);
    }

    method ReplaceRow(was: Row, row: Row, id: nat)
      requires Valid()
      modifies strings, numbers, strings.objects, numbers.objects
      ensures Valid() && fresh(strings.objects - old(strings.objects)) && fresh(numbers.objects - old(numbers.objects))
      ensures strings.written == I.AddAll(I.RemoveAll(old(strings.written), was.strings, id), row.strings, id)
      ensures numbers.written
              == I.AddAll(I.RemoveAll(old(numbers.written), Indexed(was.numbers), id), Indexed(row.numbers), id)
    {
      RemoveRow(was, id);
      AddRow(row, id);
    }

    /** One indexed number of an entity changes. */
    method MoveNumber(name: Str, from: uint64, to: uint64, id: nat)
      requires Valid()
      modifies numbers, numbers.objects
      ensures Valid() && fresh(numbers.objects - old(numbers.objects))
      ensures numbers.written == I.Add(I.Remove(old(numbers.written), name, from, id), name, to, id)
    {
      numbers.RemoveFromBitmap(name, from, id);
      numbers.AddToBitmap(name, to, id);
    }

    method MoveString(name: Str, from: Str, to: Str, id: nat)
      requires Valid()
      modifies strings, strings.objects
      ensures Valid() && fresh(strings.objects - old(strings.objects))
      ensures strings.written == I.Add(I.Remove(old(strings.written), name, from, id), name, to, id)
    {
      strings.RemoveFromBitmap(name, from, id);
      strings.AddToBitmap(name, to, id);
    }

    /** The batch with every pending index change written through. */
    ghost function Logical(): Db
      reads this`view, strings`written, numbers`written
    {
      view.(strings := strings.written, numbers := numbers.written)
    }
  }

  class PebbleStore {
    var db: Db
    var nextIDVal: nat

    ghost function Running(batch: PebbleBatch): Work
      reads this`nextIDVal, batch`view, batch.strings`written, batch.numbers`written
    {
      Work(batch.Logical(), nextIDVal)
    }

    method NextID(batch: PebbleBatch) returns (id: nat)
      modifies this`nextIDVal, batch`view
      ensures id == old(nextIDVal) && nextIDVal == id + 1
      ensures batch.view == old(batch.view).(idCounter := Some(id + 1))
    {
      id := nextIDVal;
      nextIDVal := nextIDVal + 1;
      batch.view := batch.view.(idCounter := Some(nextIDVal));
    }

    method IncrementEntityCount(batch: PebbleBatch)
      modifies batch`view
      ensures batch.view == old(batch.view).(count := Some(Count(old(batch.view)) + 1))
    {
      batch.view := batch.view.(count := Some(Count(batch.view) + 1));
    }

    /** Fails on underflow. */
    method DecrementEntityCount(batch: PebbleBatch) returns (ok: bool)
      modifies batch`view
      ensures ok <==> Count(old(batch.view)) > 0
      ensures ok ==> batch.view == old(batch.view).(count := Some(Count(old(batch.view)) - 1))
      ensures !ok ==> batch.view == old(batch.view)
    {
      var count := Count(batch.view);
      if count == 0 {
        return false;
      }
      batch.view := batch.view.(count := Some(count - 1));
      return true;
    }

    method UpsertPayload(batch: PebbleBatch, row: Row) returns (id: nat)
      modifies this`nextIDVal, batch`view
      ensures id == UpsertId(old(Running(batch)), row.key) && Running(batch) == Upsert(old(Running(batch)), row)
    {
      if row.key !in batch.view.current {
        id := NextID(batch);
        IncrementEntityCount(batch);
      } else {
        id := batch.view.current[row.key];
      }
      batch.view := batch.view.(current := batch.view.current[row.key := id]);
      batch.view := batch.view.(payloads := batch.view.payloads[id := row]);
    }

    method DeletePayloadForEntityKey(batch: PebbleBatch, key: Key) returns (ok: bool)
      modifies batch`view
      ensures ok <==> DeleteCurrent(old(batch.view), key).Some?
      ensures ok ==> batch.view == DeleteCurrent(old(batch.view), key).value
    {
      if key !in batch.view.current {
        return false;
      }
      var id := batch.view.current[key];
      batch.view := batch.view.(payloads := batch.view.payloads - {id});
      batch.view := batch.view.(current := batch.view.current - {key});
      ok := DecrementEntityCount(batch);
    }

    // ----- The five operation cases -----

    /** A row that is new to the index. */
    method InsertRow(batch: PebbleBatch, row: Row)
      requires batch.Valid()
      modifies this`nextIDVal, batch`view, batch.strings, batch.numbers, batch.strings.objects, batch.numbers.objects
      ensures batch.Valid()
      ensures fresh(batch.strings.objects - old(batch.strings.objects))
      ensures fresh(batch.numbers.objects - old(batch.numbers.objects))
      ensures var w := old(Running(batch));
              var id := UpsertId(w, row.key);
              Running(batch) == WithIndex(Upsert(w, row), I.AddAll(w.db.strings, row.strings, id),
                                          I.AddAll(w.db.numbers, Indexed(row.numbers), id))
    {
      var id := UpsertPayload(batch, row);
      batch.AddRow(row, id);
    }

    /** A row in the place of another one of its key. */
    method ReplaceRow(batch: PebbleBatch, was: Row, row: Row)
      requires batch.Valid()
      modifies this`nextIDVal, batch`view, batch.strings, batch.numbers, batch.strings.objects, batch.numbers.objects
      ensures batch.Valid()
      ensures fresh(batch.strings.objects - old(batch.strings.objects))
      ensures fresh(batch.numbers.objects - old(batch.numbers.objects))
      ensures var w := old(Running(batch));
              var id := UpsertId(w, row.key);
              Running(batch) == WithIndex(Upsert(w, row),
                                          I.AddAll(I.RemoveAll(w.db.strings, was.strings, id), row.strings, id),
                                          I.AddAll(I.RemoveAll(w.db.numbers, Indexed(was.numbers), id),
                                              Indexed(row.numbers), id))
    {
      var id := UpsertPayload(batch, row);
      batch.ReplaceRow(was, row, id);
    }

    method ApplyCreate(batch: PebbleBatch, lib: Lib, block: uint64, o: Operation, c: Content)
      requires batch.Valid()
      modifies this`nextIDVal, batch`view, batch.strings, batch.numbers, batch.strings.objects, batch.numbers.objects
      ensures batch.Valid()
      ensures fresh(batch.strings.objects - old(batch.strings.objects))
      ensures fresh(batch.numbers.objects - old(batch.numbers.objects))
      ensures Running(batch) == StepCreate(lib, old(Running(batch)), block, o, c)
    {
      InsertRow(batch, CreatedRow(lib, block, o, c));
    }

    method ApplyUpdate(batch: PebbleBatch, lib: Lib, block: uint64, c: Content) returns (ok: bool)
      requires batch.Valid()
      modifies this`nextIDVal, batch`view, batch.strings, batch.numbers, batch.strings.objects, batch.numbers.objects
      ensures batch.Valid()
      ensures fresh(batch.strings.objects - old(batch.strings.objects))
      ensures fresh(batch.numbers.objects - old(batch.numbers.objects))
      ensures (if ok then Done(Running(batch)) else Failed(nextIDVal)) == StepUpdate(lib, old(Running(batch)), block, c)
    {
      var latest := GetCurrent(batch.view, c.key);
      if latest.None? {
        return false;
      }
      var was := latest.value.1;
      ReplaceRow(batch, was, UpdatedRow(lib, block, c, was));
      return true;
    }

    static lemma DeleteIgnoresIndex(db: Db, key: Key, strings: I.Index<Str>, numbers: I.Index<uint64>)
      ensures DeleteCurrent(db.(strings := strings, numbers := numbers), key)
              == match DeleteCurrent(db, key)
                 case None => None
                 case Some(d) => Some(d.(strings := strings, numbers := numbers))
    {
    }

    method ApplyDelete(batch: PebbleBatch, key: Key) returns (ok: bool)
      requires batch.Valid()
      modifies this`nextIDVal, batch`view, batch.strings, batch.numbers, batch.strings.objects, batch.numbers.objects
      ensures batch.Valid()
      ensures fresh(batch.strings.objects - old(batch.strings.objects))
      ensures fresh(batch.numbers.objects - old(batch.numbers.objects))
      ensures (if ok then Done(Running(batch)) else Failed(nextIDVal)) == StepDelete(old(Running(batch)), key)
    {
      var latest := GetCurrent(batch.view, key);
      if latest.None? {
        return false;
      }
      DeleteIgnoresIndex(batch.view, key, batch.strings.written, batch.numbers.written);
      batch.RemoveRow(latest.value.1, latest.value.0);
      ghost var before := batch.view;
      ok := DeletePayloadForEntityKey(batch, key);
      assert ok ==> Running(batch) == WithIndex(Work(DeleteCurrent(before, key).value, nextIDVal),
                                                batch.strings.written, batch.numbers.written);
    }

    /** A row that differs from the one it replaces in one indexed number. */
    method ReplaceNumber(batch: PebbleBatch, row: Row, name: Str, from: uint64, to: uint64)
      requires batch.Valid()
      modifies this`nextIDVal, batch`view, batch.strings, batch.numbers, batch.strings.objects, batch.numbers.objects
      ensures batch.Valid()
      ensures fresh(batch.strings.objects - old(batch.strings.objects))
      ensures fresh(batch.numbers.objects - old(batch.numbers.objects))
      ensures var w := old(Running(batch));
              var id := UpsertId(w, row.key);
              Running(batch) == WithIndex(Upsert(w, row), w.db.strings,
                                          I.Add(I.Remove(w.db.numbers, name, from, id), name, to, id))
    {
      var id := UpsertPayload(batch, row);
      batch.MoveNumber(name, from, to, id);
    }

    method ReplaceString(batch: PebbleBatch, row: Row, name: Str, from: Str, to: Str)
      requires batch.Valid()
      modifies this`nextIDVal, batch`view, batch.strings, batch.numbers, batch.strings.objects, batch.numbers.objects
      ensures batch.Valid()
      ensures fresh(batch.strings.objects - old(batch.strings.objects))
      ensures fresh(batch.numbers.objects - old(batch.numbers.objects))
      ensures var w := old(Running(batch));
              var id := UpsertId(w, row.key);
              Running(batch) == WithIndex(Upsert(w, row),
                                          I.Add(I.Remove(w.db.strings, name, from, id), name, to, id), w.db.numbers)
    {
      var id := UpsertPayload(batch, row);
      batch.MoveString(name, from, to, id);
    }

    method ApplyExtend(batch: PebbleBatch, key: Key, btl: uint64) returns (ok: bool)
      requires batch.Valid()
      modifies this`nextIDVal, batch`view, batch.strings, batch.numbers, batch.strings.objects, batch.numbers.objects
      ensures batch.Valid()
      ensures fresh(batch.strings.objects - old(batch.strings.objects))
      ensures fresh(batch.numbers.objects - old(batch.numbers.objects))
      ensures (if ok then Done(Running(batch)) else Failed(nextIDVal)) == StepExtend(old(Running(batch)), key, btl)
    {
      var latest := GetCurrent(batch.view, key);
      if latest.None? {
        return false;
      }
      var was := latest.value.1;
      var oldExpiration := ValueOr(was.numbers, EXPIRATION, 0);
      var newToBlock := ExtendedExpiration(was, btl);
      ReplaceNumber(batch, ExtendedRow(key, btl, was), EXPIRATION, oldExpiration, newToBlock);
      return true;
    }

    method ApplyChangeOwner(batch: PebbleBatch, lib: Lib, key: Key, owner: Str) returns (ok: bool)
      requires batch.Valid()
      modifies this`nextIDVal, batch`view, batch.strings, batch.numbers, batch.strings.objects, batch.numbers.objects
      ensures batch.Valid()
      ensures fresh(batch.strings.objects - old(batch.strings.objects))
      ensures fresh(batch.numbers.objects - old(batch.numbers.objects))
      ensures (if ok then Done(Running(batch)) else Failed(nextIDVal))
              == StepReown(lib, old(Running(batch)), key, owner)
    {
      var latest := GetCurrent(batch.view, key);
      if latest.None? {
        return false;
      }
      var was := latest.value.1;
      var oldOwner := ValueOr(was.strings, OWNER, []);
      var newOwner := lib.lower(owner);
      ReplaceString(batch, ReownedRow(lib, key, owner, was), OWNER, oldOwner, newOwner);
      return true;
    }

    method ApplyOperation(batch: PebbleBatch, lib: Lib, block: uint64, o: Operation) returns (ok: bool)
      requires batch.Valid()
      modifies this`nextIDVal, batch`view, batch.strings, batch.numbers, batch.strings.objects, batch.numbers.objects
      ensures batch.Valid()
      ensures fresh(batch.strings.objects - old(batch.strings.objects))
      ensures fresh(batch.numbers.objects - old(batch.numbers.objects))
      ensures (if ok then Done(Running(batch)) else Failed(nextIDVal)) == Step(lib, old(Running(batch)), block, o)
    {
      var a := o.action;
      if a.Create? {
        ApplyCreate(batch, lib, block, o, a.content);
        ok := true;
      } else if a.Update? {
        ok := ApplyUpdate(batch, lib, block, a.content);
      } else if a.Delete? || a.Expire? {
        ok := ApplyDelete(batch, a.key);
      } else if a.ExtendBTL? {
        ok := ApplyExtend(batch, a.key, a.btl);
      } else if a.ChangeOwner? {
        ok := ApplyChangeOwner(batch, lib, a.key, a.owner);
      } else {
        ok := false;
      }
    }

    // ----- Blocks and batches -----

    /** The positions of each key's updates in a block, in order. */
    static method CollectUpdates(ops: seq<Operation>) returns (updates: map<Key, seq<nat>>)
      ensures forall j :: 0 <= j < |ops| && ops[j].action.Update? ==> ops[j].action.content.key in updates
      ensures forall k :: k in updates ==> LastUpdate(ops, k, updates[k])
    {
      updates := map[];
      for i := 0 to |ops|
        invariant forall j :: 0 <= j < i && ops[j].action.Update? ==> ops[j].action.content.key in updates
        invariant forall k :: k in updates ==> LastUpdate(ops[..i], k, updates[k])
      {
        if ops[i].action.Update? {
          var key := ops[i].action.content.key;
          var current := if key in updates then updates[key] else [];
          updates := updates[key := current + [i]];
        }
      }
      assert ops[..|ops|] == ops;
    }

    /** The last of the positions is the last update of the key. */
    static predicate LastUpdate(ops: seq<Operation>, key: Key, positions: seq<nat>) {
      && |positions| > 0
      && (var last := positions[|positions| - 1];
          last < |ops| && Updates(ops[last], key) && forall j :: last < j < |ops| ==> !Updates(ops[j], key))
    }

    method ApplyBlock(batch: PebbleBatch, lib: Lib, block: Block) returns (ok: bool)
      requires batch.Valid()
      modifies this`nextIDVal, batch`view, batch.strings, batch.numbers, batch.strings.objects, batch.numbers.objects
      ensures batch.Valid()
      ensures fresh(batch.strings.objects - old(batch.strings.objects))
      ensures fresh(batch.numbers.objects - old(batch.numbers.objects))
      ensures (if ok then Done(Running(batch)) else Failed(nextIDVal)) == RunBlock(lib)(old(Running(batch)), block)
    {
      var ops := block.operations;
      var updates := CollectUpdates(ops);
      for i := 0 to |ops|
        invariant batch.Valid()
        invariant fresh(batch.strings.objects - old(batch.strings.objects))
        invariant fresh(batch.numbers.objects - old(batch.numbers.objects))
        invariant RunOperations(lib, Running(batch), block.number, ops[i..], true)
                == RunBlock(lib)(old(Running(batch)), block)
      {
        var o := ops[i];
        assert ops[i..][0] == o && ops[i..][1..] == ops[i + 1..];
        if o.action.Update? {
          var positions := updates[o.action.content.key];
          var lastUpdate := positions[|positions| - 1];
          SupersededByLast(ops, i, positions);
          if i != lastUpdate {
            continue;
          }
        }
        ok := ApplyOperation(batch, lib, block.number, o);
        if !ok {
          return;
        }
      }
      assert ops[|ops|..] == [];
      ok := true;
    }

    static lemma SupersededByLast(ops: seq<Operation>, i: nat, positions: seq<nat>)
      requires i < |ops| && ops[i].action.Update? && LastUpdate(ops, ops[i].action.content.key, positions)
      ensures Superseded(ops[i..]) <==> i != positions[|positions| - 1]
    {
      var last := positions[|positions| - 1];
      assert ops[i..][0] == ops[i];
      if i < last {
        assert ops[i..][last - i] == ops[last];
      }
      assert forall j :: 0 < j < |ops| - i ==> ops[i..][j] == ops[i + j];
    }

    /** The blocks of a batch, without those at or below the last block stored. */
    method ApplyBlocks(batch: PebbleBatch, lib: Lib, lastBlockFromDB: uint64, blocks: seq<Block>) returns (ok: bool)
      requires batch.Valid()
      modifies this`nextIDVal, batch`view, batch.strings, batch.numbers, batch.strings.objects, batch.numbers.objects
      ensures batch.Valid()
      ensures fresh(batch.strings.objects - old(batch.strings.objects))
      ensures fresh(batch.numbers.objects - old(batch.numbers.objects))
      ensures (if ok then Done(Running(batch)) else Failed(nextIDVal))
              == RunBlocks(RunBlock(lib), old(Running(batch)), lastBlockFromDB, blocks)
    {
      for i := 0 to |blocks|
        invariant batch.Valid()
        invariant fresh(batch.strings.objects - old(batch.strings.objects))
        invariant fresh(batch.numbers.objects - old(batch.numbers.objects))
        invariant RunBlocks(RunBlock(lib), Running(batch), lastBlockFromDB, blocks[i..])
                  == RunBlocks(RunBlock(lib), old(Running(batch)), lastBlockFromDB, blocks)
      {
        assert blocks[i..][0] == blocks[i] && blocks[i..][1..] == blocks[i + 1..];
        if blocks[i].number <= lastBlockFromDB {
          continue;
        }
        ok := ApplyBlock(batch, lib, blocks[i]);
        if !ok {
          return;
        }
      }
      assert blocks[|blocks|..] == [];
      ok := true;
    }

    /** Flush the cache into the batch and the batch into the database. */
    method Commit(batch: PebbleBatch)
      requires batch.Valid()
      modifies this`db, batch.strings`batch, batch.numbers`batch
      ensures db == old(batch.Logical()) && I.NoEmpty(db.strings) && I.NoEmpty(db.numbers)
    {
      batch.strings.Flush();
      batch.numbers.Flush();
      db := batch.view.(strings := batch.strings.batch, numbers := batch.numbers.batch);
    }

    /**
     * One batch. It commits the state RunBatch describes, or fails and leaves
     * the database as it was; the in-memory ID counter is not rolled back.
     */
    method FollowBatch(lib: Lib, blocks: seq<Block>) returns (ok: bool)
      requires |blocks| > 0 && I.NoEmpty(db.strings) && I.NoEmpty(db.numbers)
      modifies this
      ensures I.NoEmpty(db.strings) && I.NoEmpty(db.numbers)
      ensures match RunBatch(RunBlock(lib), old(Work(db, nextIDVal)), blocks)
              case Done(w) => ok && Work(db, nextIDVal) == w
              case Failed(n) => !ok && db == old(db) && nextIDVal == n
    {
      var batch := new PebbleBatch(db);
      var lastBlock := blocks[|blocks| - 1].number;
      var lastBlockFromDB := LastBlock(db);
      ok := ApplyBlocks(batch, lib, lastBlockFromDB, blocks);
      if !ok {
        return;
      }
      batch.view := batch.view.(lastBlock := Some(lastBlock));
      Commit(batch);
    }

    /** Batches are applied until one fails or is empty, or the iterator reports an error. */
    method FollowEvents(lib: Lib, messages: seq<Message>) returns (ok: bool)
      requires I.NoEmpty(db.strings) && I.NoEmpty(db.numbers)
      modifies this
      ensures (Work(db, nextIDVal), ok) == RunMessages(RunBlock(lib), old(Work(db, nextIDVal)), messages)
    {
      for i := 0 to |messages|
        invariant I.NoEmpty(db.strings) && I.NoEmpty(db.numbers)
        invariant RunMessages(RunBlock(lib), Work(db, nextIDVal), messages[i..])
                == RunMessages(RunBlock(lib), old(Work(db, nextIDVal)), messages)
      {
        assert messages[i..][0] == messages[i] && messages[i..][1..] == messages[i + 1..];
        if messages[i].ReceiveError? {
          return false;
        }
        if |messages[i].blocks| == 0 {
          // Reading Blocks[0] panics.
          return false;
        }
        ok := FollowBatch(lib, messages[i].blocks);
        if !ok {
          return;
        }
      }
      ok := true;
    }
  }
}
