/** Dropping every update but the last of its key in a block cannot be observed. */
module Coalescing {
  import opened Base
  import opened Store
  import opened Events
  import opened Invariants
  import opened EntityHistory
  import I = Index
  import opened EntityIndex

  /** Keys that some operation still to come updates. */
  function Pending(ops: seq<Operation>): set<Key> {
    set j | 0 <= j < |ops| && ops[j].action.Update? :: ops[j].action.content.key
  }

  /** The two rows may differ only while an update of their key is pending, and then only in what it rewrites. */
  predicate Close(a: Row, b: Row, pending: set<Key>) {
    SameOrigin(a, b) && (a.key !in pending ==> a == b)
  }

  /** The simulation between running every operation (a) and dropping superseded updates (b). */
  predicate Alike(a: Work, b: Work, pending: set<Key>) {
    && a.next == b.next
    && a.db.current == b.db.current
    && a.db.lastBlock == b.db.lastBlock && a.db.idCounter == b.db.idCounter && a.db.count == b.db.count
    && a.db.payloads.Keys == b.db.payloads.Keys
    && forall id :: id in a.db.payloads ==> Close(a.db.payloads[id], b.db.payloads[id], pending)
  }

  lemma OthersStayClose(a: Work, b: Work, before: set<Key>, after: set<Key>, key: Key, id: nat)
    requires Alike(a, b, before) && before <= after + {key}
    requires Inverse(a.db.current, a.db.payloads) && id in a.db.payloads
    requires key in a.db.current ==> id != a.db.current[key]
    ensures Close(a.db.payloads[id], b.db.payloads[id], after)
  {
  }

  lemma BothUpsert(a: Work, b: Work, before: set<Key>, after: set<Key>, rowA: Row, rowB: Row)
    requires Alike(a, b, before) && before <= after + {rowA.key}
    requires Inverse(a.db.current, a.db.payloads) && Close(rowA, rowB, after)
    ensures Alike(Upsert(a, rowA), Upsert(b, rowB), after)
  {
    var u, v := Upsert(a, rowA), Upsert(b, rowB);
    forall id | id in u.db.payloads
      ensures Close(u.db.payloads[id], v.db.payloads[id], after)
    {
      if id != UpsertId(a, rowA.key) {
        OthersStayClose(a, b, before, after, rowA.key, id);
      }
    }
  }

  lemma OnlyFirstUpserts(a: Work, b: Work, before: set<Key>, after: set<Key>, rowA: Row)
    requires Alike(a, b, before) && before <= after && rowA.key in after && rowA.key in a.db.current
    requires Inverse(a.db.current, a.db.payloads)
    requires SameOrigin(rowA, b.db.payloads[a.db.current[rowA.key]])
    ensures Alike(Upsert(a, rowA), b, after)
  {
    var u := Upsert(a, rowA);
    assert u.db.current == a.db.current;
    assert u.db.payloads.Keys == a.db.payloads.Keys;
    forall id | id in u.db.payloads
      ensures Close(u.db.payloads[id], b.db.payloads[id], after)
    {
      if id != a.db.current[rowA.key] {
        OthersStayClose(a, b, before, after, rowA.key, id);
      }
    }
  }

  lemma BothDelete(a: Work, b: Work, before: set<Key>, after: set<Key>, key: Key)
    requires Alike(a, b, before) && before <= after + {key}
    requires Inverse(a.db.current, a.db.payloads) && key in a.db.current && Count(a.db) > 0
    ensures DeleteCurrent(a.db, key).Some? && DeleteCurrent(b.db, key).Some?
    ensures Alike(Work(DeleteCurrent(a.db, key).value, a.next), Work(DeleteCurrent(b.db, key).value, b.next), after)
  {
    var c, d := DeleteCurrent(a.db, key).value, DeleteCurrent(b.db, key).value;
    forall id | id in c.payloads
      ensures Close(c.payloads[id], d.payloads[id], after)
    {
      OthersStayClose(a, b, before, after, key, id);
    }
  }

  lemma PendingSplits(ops: seq<Operation>)
    requires |ops| > 0
    ensures Pending(ops) == Pending(ops[1..]) + if ops[0].action.Update? then {ops[0].action.content.key} else {}
    ensures ops[0].action.Update? ==> (Superseded(ops) <==> ops[0].action.content.key in Pending(ops[1..]))
  {
    forall k | k in Pending(ops)
      ensures k in Pending(ops[1..]) + if ops[0].action.Update? then {ops[0].action.content.key} else {}
    {
      var j :| 0 <= j < |ops| && ops[j].action.Update? && ops[j].action.content.key == k;
      assert j > 0 ==> ops[1..][j - 1] == ops[j];
    }
    if ops[0].action.Update? {
      if j :| 0 < j < |ops| && Updates(ops[j], ops[0].action.content.key) {
        assert ops[1..][j - 1] == ops[j];
      }
    }
  }

  lemma ExtendStaysClose(key: Key, btl: uint64, a: Row, b: Row, before: set<Key>, after: set<Key>)
    requires Close(a, b, before) && a.key == key && before <= after
    ensures Close(ExtendedRow(key, btl, a), ExtendedRow(key, btl, b), after)
  {
  }

  lemma ReownStaysClose(lib: Lib, key: Key, owner: Str, a: Row, b: Row, before: set<Key>, after: set<Key>)
    requires Close(a, b, before) && a.key == key && before <= after
    ensures Close(ReownedRow(lib, key, owner, a), ReownedRow(lib, key, owner, b), after)
  {
  }

  /** Both runs execute an operation that is not an update. */
  lemma OtherStaysAlike(lib: Lib, a: Work, b: Work, block: uint64, o: Operation, pending: set<Key>)
    requires !o.action.Update? && !o.action.Delete? && !o.action.Expire?
    requires Alike(a, b, pending) && Sound(a) && Applicable(a.db.current.Keys, o)
    ensures var r, s := Step(lib, a, block, o), Step(lib, b, block, o);
            r.Done? && s.Done? && Alike(r.work, s.work, pending)
  {
    match o.action
    case Create(c) =>
      var row := CreatedRow(lib, block, o, c);
      BothUpsert(a, b, pending, pending, row, row);
    case ExtendBTL(key, btl) =>
      var id := a.db.current[key];
      ExtendStaysClose(key, btl, a.db.payloads[id], b.db.payloads[id], pending, pending);
      BothUpsert(a, b, pending, pending, ExtendedRow(key, btl, a.db.payloads[id]),
          ExtendedRow(key, btl, b.db.payloads[id]));
    case ChangeOwner(key, owner) =>
      var id := a.db.current[key];
      ReownStaysClose(lib, key, owner, a.db.payloads[id], b.db.payloads[id], pending, pending);
      BothUpsert(a, b, pending, pending,
                 ReownedRow(lib, key, owner, a.db.payloads[id]), ReownedRow(lib, key, owner, b.db.payloads[id]));
  }

  /** Both runs execute the last update of a key: its rows become equal. */
  lemma LastUpdateStaysAlike(lib: Lib, a: Work, b: Work, block: uint64, c: Content, before: set<Key>, after: set<Key>)
    requires Alike(a, b, before) && before <= after + {c.key} && Sound(a) && c.key in a.db.current
    ensures var r, s := StepUpdate(lib, a, block, c), StepUpdate(lib, b, block, c);
            r.Done? && s.Done? && Alike(r.work, s.work, after)
  {
    var id := a.db.current[c.key];
    var row := UpdatedRow(lib, block, c, a.db.payloads[id]);
    UpdateReadsOrigin(lib, block, c, a.db.payloads[id], b.db.payloads[id]);
    BothUpsert(a, b, before, after, row, row);
  }

  /** Only the full run executes a superseded update. */
  lemma DropStaysAlike(lib: Lib, a: Work, b: Work, block: uint64, c: Content, pending: set<Key>)
    requires Alike(a, b, pending) && c.key in pending && Sound(a) && c.key in a.db.current
    ensures var r := StepUpdate(lib, a, block, c); r.Done? && Alike(r.work, b, pending)
  {
    var id := a.db.current[c.key];
    var row := UpdatedRow(lib, block, c, a.db.payloads[id]);
    UpdateKeepsOrigin(lib, block, c, a.db.payloads[id]);
    OnlyFirstUpserts(a, b, pending, pending, row);
  }

  lemma DeleteStaysAlike(a: Work, b: Work, key: Key, pending: set<Key>)
    requires Alike(a, b, pending) && Sound(a) && key in a.db.current
    ensures StepDelete(a, key).Done? && StepDelete(b, key).Done?
    ensures Alike(StepDelete(a, key).work, StepDelete(b, key).work, pending)
  {
    BothDelete(a, b, pending, pending, key);
  }

  lemma StepStaysAlike(lib: Lib, a: Work, b: Work, block: uint64, ops: seq<Operation>)
    requires |ops| > 0 && !Superseded(ops)
    requires Alike(a, b, Pending(ops)) && Sound(a) && Applicable(a.db.current.Keys, ops[0])
    ensures var r, s := Step(lib, a, block, ops[0]), Step(lib, b, block, ops[0]);
            r.Done? && s.Done? && Alike(r.work, s.work, Pending(ops[1..]))
  {
    PendingSplits(ops);
    var o := ops[0];
    if o.action.Update? {
      LastUpdateStaysAlike(lib, a, b, block, o.action.content, Pending(ops), Pending(ops[1..]));
    } else if o.action.Delete? || o.action.Expire? {
      DeleteStaysAlike(a, b, o.action.key, Pending(ops));
    } else {
      OtherStaysAlike(lib, a, b, block, o, Pending(ops));
    }
  }

  /** With nothing pending the two states have the same tables. */
  lemma SettledTables(a: Work, b: Work)
    requires Alike(a, b, {})
    ensures a == WithIndex(b, a.db.strings, a.db.numbers)
  {
    assert forall id :: id in a.db.payloads ==> Close(a.db.payloads[id], b.db.payloads[id], {});
    assert a.db.payloads == b.db.payloads;
  }

  lemma {:induction false} RunsStayAlike(lib: Lib, a: Work, b: Work, block: uint64, ops: seq<Operation>)
    requires Alike(a, b, Pending(ops)) && Sound(a) && Sound(b)
    requires AllApplicable(a.db.current.Keys, ops, false)
    ensures var r, s := RunOperations(lib, a, block, ops, false), RunOperations(lib, b, block, ops, true);
            r.Done? && s.Done? && Alike(r.work, s.work, {})
    decreases ops
  {
    if |ops| > 0 {
      StepKeepsSound(lib, a, block, ops[0]);
      var r := Step(lib, a, block, ops[0]);
      if Superseded(ops) {
        PendingSplits(ops);
        DropStaysAlike(lib, a, b, block, ops[0].action.content, Pending(ops));
        RunsStayAlike(lib, r.work, b, block, ops[1..]);
      } else {
        StepStaysAlike(lib, a, b, block, ops);
        StepKeepsSound(lib, b, block, ops[0]);
        RunsStayAlike(lib, r.work, Step(lib, b, block, ops[0]).work, block, ops[1..]);
      }
    }
  }

  // ----- The index -----

  /** Keys with a superseded update. */
  function Dropped(ops: seq<Operation>): set<Key>
    decreases ops
  {
    if |ops| == 0 then {}
    else (if Superseded(ops) then {ops[0].action.content.key} else {}) + Dropped(ops[1..])
  }

  /** The ID stands for a live entity of one of the keys. */
  predicate Among(w: Work, keys: set<Key>, id: nat) {
    id in w.db.payloads && w.db.payloads[id].key in keys
  }

  ghost predicate SameBits(a: Work, b: Work, id: nat) {
    SameAt(a.db.strings, b.db.strings, id) && SameAt(a.db.numbers, b.db.numbers, id)
  }

  /** At one ID the two runs agree, in row and bits, unless it is an entity of one of the keys. */
  ghost predicate AgreeAt(a: Work, b: Work, keys: set<Key>, id: nat) {
    !Among(a, keys, id) ==>
      && SameBits(a, b, id)
      && (id in a.db.payloads <==> id in b.db.payloads)
      && (id in a.db.payloads ==> a.db.payloads[id] == b.db.payloads[id])
  }

  /**
   * The simulation of the index: entities of the dropped keys are indexed
   * exactly in both runs, all others have the same rows and bits in both.
   */
  ghost predicate AlikeIndex(a: Work, b: Work, keys: set<Key>) {
    && Sound(a) && Sound(b) && Tidy(a, keys) && Tidy(b, keys)
    && a.next == b.next && a.db.current == b.db.current
    && forall id: nat :: AgreeAt(a, b, keys, id)
  }

  lemma SameEntity(a: Work, b: Work, o: Operation, keys: set<Key>)
    requires AlikeIndex(a, b, keys) && KeyOf(o).Some? && KeyOf(o).value !in keys
    ensures ChangedId(a, o) == ChangedId(b, o) && SameBits(a, b, ChangedId(a, o))
    ensures GetCurrent(a.db, KeyOf(o).value) == GetCurrent(b.db, KeyOf(o).value)
  {
    assert AgreeAt(a, b, keys, ChangedId(a, o));
  }

  /** What an operation writes and changes is read from the row of its key alone. */
  lemma SameChange(lib: Lib, a: Work, b: Work, block: uint64, o: Operation)
    requires KeyOf(o).Some? && GetCurrent(a.db, KeyOf(o).value) == GetCurrent(b.db, KeyOf(o).value)
    ensures StringChange(lib, a, block, o) == StringChange(lib, b, block, o)
    ensures NumberChange(lib, a, block, o) == NumberChange(lib, b, block, o)
    ensures Written(lib, a, block, o) == Written(lib, b, block, o)
  {
  }

  lemma OtherKeyAgrees(lib: Lib, a: Work, b: Work, block: uint64, o: Operation, keys: set<Key>)
    requires AlikeIndex(a, b, keys) && KeyOf(o).Some? && KeyOf(o).value !in keys
    requires Step(lib, a, block, o).Done? && Step(lib, b, block, o).Done?
    ensures AgreeAt(Step(lib, a, block, o).work, Step(lib, b, block, o).work, keys, ChangedId(a, o))
  {
    var id := ChangedId(a, o);
    SameEntity(a, b, o, keys);
    SameChange(lib, a, b, block, o);
    StepChanges(lib, a, block, o);
    StepChanges(lib, b, block, o);
    ApplySame(a.db.strings, b.db.strings, StringChange(lib, a, block, o), id);
    ApplySame<uint64>(a.db.numbers, b.db.numbers, NumberChange(lib, a, block, o), id);
    StepRows(lib, a, block, o, id);
    StepRows(lib, b, block, o, id);
  }

  lemma DroppedKeyAgrees(lib: Lib, a: Work, b: Work, block: uint64, o: Operation, keys: set<Key>)
    requires AlikeIndex(a, b, keys) && KeyOf(o).Some? && KeyOf(o).value in keys && Clean(a.db.current.Keys, keys, o)
    requires Step(lib, a, block, o).Done? && Step(lib, b, block, o).Done?
    ensures AgreeAt(Step(lib, a, block, o).work, Step(lib, b, block, o).work, keys, ChangedId(a, o))
  {
    var id := ChangedId(a, o);
    StepRows(lib, a, block, o, id);
    StepRows(lib, b, block, o, id);
    if Written(lib, a, block, o).None? {
      TidyIsExactBefore(a, o, keys);
      TidyIsExactBefore(b, o, keys);
      StepMakesExact(lib, a, block, o);
      StepMakesExact(lib, b, block, o);
      SameKind(lib, a, b, block, o);
    }
  }

  lemma SameKind(lib: Lib, a: Work, b: Work, block: uint64, o: Operation)
    requires Step(lib, a, block, o).Done? && Step(lib, b, block, o).Done?
    ensures Written(lib, a, block, o).None? <==> Written(lib, b, block, o).None?
  {
  }

  lemma OthersAgree(lib: Lib, a: Work, b: Work, block: uint64, o: Operation, keys: set<Key>, j: nat)
    requires AlikeIndex(a, b, keys) && KeyOf(o).Some? && j != ChangedId(a, o)
    requires Step(lib, a, block, o).Done? && Step(lib, b, block, o).Done?
    ensures AgreeAt(Step(lib, a, block, o).work, Step(lib, b, block, o).work, keys, j)
  {
    assert AgreeAt(a, b, keys, j);
    StepRows(lib, a, block, o, j);
    StepRows(lib, b, block, o, j);
    StepLeavesOthers(lib, a, block, o, j);
    StepLeavesOthers(lib, b, block, o, j);
  }

  lemma BothStepIndex(lib: Lib, a: Work, b: Work, block: uint64, o: Operation, keys: set<Key>)
    requires AlikeIndex(a, b, keys) && Clean(a.db.current.Keys, keys, o) && Applicable(a.db.current.Keys, o)
    ensures var r, s := Step(lib, a, block, o), Step(lib, b, block, o);
            r.Done? && s.Done? && forall j: nat :: AgreeAt(r.work, s.work, keys, j)
  {
    StepKeepsSound(lib, a, block, o);
    StepKeepsSound(lib, b, block, o);
    var u, v := Step(lib, a, block, o).work, Step(lib, b, block, o).work;
    forall j: nat
      ensures AgreeAt(u, v, keys, j)
    {
      if j != ChangedId(a, o) {
        OthersAgree(lib, a, b, block, o, keys, j);
      } else if KeyOf(o).value in keys {
        DroppedKeyAgrees(lib, a, b, block, o, keys);
      } else {
        OtherKeyAgrees(lib, a, b, block, o, keys);
      }
    }
  }

  lemma DropAgrees(lib: Lib, a: Work, b: Work, block: uint64, o: Operation, keys: set<Key>, j: nat)
    requires AgreeAt(a, b, keys, j) && Sound(a) && o.action.Update? && o.action.content.key in keys
    requires Step(lib, a, block, o).Done?
    ensures AgreeAt(Step(lib, a, block, o).work, b, keys, j)
  {
    StepRows(lib, a, block, o, j);
    if j == ChangedId(a, o) {
      assert Among(Step(lib, a, block, o).work, keys, j);
    } else {
      StepLeavesOthers(lib, a, block, o, j);
    }
  }

  /** Only the full run executes an update of a dropped key. */
  lemma DropIndex(lib: Lib, a: Work, b: Work, block: uint64, o: Operation, keys: set<Key>)
    requires AlikeIndex(a, b, keys) && o.action.Update? && o.action.content.key in keys
    requires Step(lib, a, block, o).Done?
    ensures forall j: nat :: AgreeAt(Step(lib, a, block, o).work, b, keys, j)
  {
    forall j: nat
      ensures AgreeAt(Step(lib, a, block, o).work, b, keys, j)
    {
      assert AgreeAt(a, b, keys, j);
      DropAgrees(lib, a, b, block, o, keys, j);
    }
  }

  /** With nothing pending the two states are the same, index included. */
  lemma SettledIsEqual(a: Work, b: Work, keys: set<Key>)
    requires Alike(a, b, {}) && AlikeIndex(a, b, keys)
    ensures a == b
  {
    SettledTables(a, b);
    forall id: nat
      ensures SameAt(a.db.strings, b.db.strings, id) && SameAt(a.db.numbers, b.db.numbers, id)
    {
      assert AgreeAt(a, b, keys, id);
      if Among(a, keys, id) {
        assert RowExactAt(a.db, a.db.payloads[id], id) && RowExactAt(b.db, a.db.payloads[id], id);
      }
    }
    SameEverywhere(a.db.strings, b.db.strings);
    SameEverywhere<uint64>(a.db.numbers, b.db.numbers);
  }

  lemma {:induction false} RunsEndEqual(lib: Lib, a: Work, b: Work, block: uint64, ops: seq<Operation>, keys: set<Key>)
    requires Alike(a, b, Pending(ops)) && AlikeIndex(a, b, keys)
    requires AllApplicable(a.db.current.Keys, ops, false)
    requires Dropped(ops) <= keys && CleanCreates(a.db.current.Keys, keys, ops)
    ensures var r, s := RunOperations(lib, a, block, ops, false), RunOperations(lib, b, block, ops, true);
            r.Done? && r == s
    decreases ops
  {
    if |ops| == 0 {
      SettledIsEqual(a, b, keys);
    } else {
      StepKeepsSound(lib, a, block, ops[0]);
      StepKeepsTidy(lib, a, block, ops[0], keys);
      var u := Step(lib, a, block, ops[0]).work;
      if Superseded(ops) {
        PendingSplits(ops);
        DropStaysAlike(lib, a, b, block, ops[0].action.content, Pending(ops));
        DropIndex(lib, a, b, block, ops[0], keys);
        RunsEndEqual(lib, u, b, block, ops[1..], keys);
      } else {
        StepStaysAlike(lib, a, b, block, ops);
        StepKeepsSound(lib, b, block, ops[0]);
        StepKeepsTidy(lib, b, block, ops[0], keys);
        BothStepIndex(lib, a, b, block, ops[0], keys);
        RunsEndEqual(lib, u, Step(lib, b, block, ops[0]).work, block, ops[1..], keys);
      }
    }
  }

  /** Every dropped update names a key that is live at its turn. */
  predicate DropsAreLive(live: set<Key>, ops: seq<Operation>)
    decreases ops
  {
    |ops| > 0 ==>
      (Superseded(ops) ==> Applicable(live, ops[0])) && DropsAreLive(LiveAfter(live, ops[0]), ops[1..])
  }

  lemma {:induction false} ApplicableSplits(live: set<Key>, ops: seq<Operation>)
    ensures AllApplicable(live, ops, false) <==> AllApplicable(live, ops, true) && DropsAreLive(live, ops)
    decreases ops
  {
    if |ops| > 0 {
      ApplicableSplits(LiveAfter(live, ops[0]), ops[1..]);
    }
  }

  /**
   * Running a block with every operation succeeds exactly when the coalesced
   * run succeeds and no dropped update would have failed; and then both leave
   * the same tables, count, IDs and counter, creates over live keys included.
   */
  lemma CoalescingKeepsTables(lib: Lib, w: Work, block: uint64, ops: seq<Operation>)
    requires Sound(w)
    ensures var full, coalesced := RunOperations(lib, w, block, ops, false), RunOperations(lib, w, block, ops, true);
            && (full.Done? <==> AllApplicable(w.db.current.Keys, ops, false))
            && (full.Done? <==> coalesced.Done? && DropsAreLive(w.db.current.Keys, ops))
            && (full.Done? ==> full.work == WithIndex(coalesced.work, full.work.db.strings, full.work.db.numbers))
  {
    OperationsKeepValid(lib, w, block, ops, false);
    OperationsKeepValid(lib, w, block, ops, true);
    ApplicableSplits(w.db.current.Keys, ops);
    if AllApplicable(w.db.current.Keys, ops, false) {
      RunsStayAlike(lib, w, w, block, ops);
      SettledTables(RunOperations(lib, w, block, ops, false).work, RunOperations(lib, w, block, ops, true).work);
    }
  }

  lemma AlikeItself(w: Work, pending: set<Key>, keys: set<Key>)
    requires Sound(w)
    ensures Alike(w, w, pending) && (Tidy(w, keys) ==> AlikeIndex(w, w, keys))
  {
  }

  /**
   * The index is the same too if no create names, while it is live, a key of
   * which the block drops an update, and those keys were indexed exactly before.
   */
  lemma CoalescingIsInvisible(lib: Lib, w: Work, block: uint64, ops: seq<Operation>)
    requires Sound(w)
    ensures var full, coalesced := RunOperations(lib, w, block, ops, false), RunOperations(lib, w, block, ops, true);
            && (full.Done? <==> coalesced.Done? && DropsAreLive(w.db.current.Keys, ops))
            && (full.Done? ==> full.work == WithIndex(coalesced.work, full.work.db.strings, full.work.db.numbers))
            && (full.Done? && Tidy(w, Dropped(ops)) && CleanCreates(w.db.current.Keys, Dropped(ops), ops)
                ==> full == coalesced)
  {
    CoalescingKeepsTables(lib, w, block, ops);
    if RunOperations(lib, w, block, ops, false).Done?
       && Tidy(w, Dropped(ops)) && CleanCreates(w.db.current.Keys, Dropped(ops), ops) {
      AlikeItself(w, Pending(ops), Dropped(ops));
      RunsEndEqual(lib, w, w, block, ops, Dropped(ops));
    }
  }

  /** From a valid state, with creates of keys that are not live, the index is the same. */
  lemma FreshCoalescing(lib: Lib, w: Work, block: uint64, ops: seq<Operation>)
    requires Valid(w) && FreshCreates(w.db.current.Keys, ops) && RunOperations(lib, w, block, ops, false).Done?
    ensures RunOperations(lib, w, block, ops, false) == RunOperations(lib, w, block, ops, true)
  {
    ValidIsTidy(w, Dropped(ops));
    FreshIsClean(w.db.current.Keys, Dropped(ops), ops);
    CoalescingIsInvisible(lib, w, block, ops);
  }

  lemma UpdateBeforeCreate(live: set<Key>, c: Content, ops: seq<Operation>)
    requires c.key !in live
    requires |ops| == 3 && ops[0].action == Update(c) && ops[1].action == Create(c) && ops[2].action == Update(c)
    ensures FreshCreates(live, ops) && AllApplicable(live, ops, true) && !AllApplicable(live, ops, false)
  {
    assert Updates(ops[2], c.key) && Superseded(ops);
    var rest := ops[1..];
    var last := rest[1..];
    assert last[0] == ops[2] && last[1..] == [];
    assert FreshCreates(live + {c.key}, last) && AllApplicable(live + {c.key}, last, true);
    assert FreshCreates(live, rest) && AllApplicable(live, rest, true);
  }

  /** Update, create, update of a key that is not live: in full the first update fails, coalesced it is never tried. */
  lemma CoalescingHidesFailure(lib: Lib, w: Work, block: uint64, c: Content, ops: seq<Operation>)
    requires Sound(w) && c.key !in w.db.current
    requires |ops| == 3 && ops[0].action == Update(c) && ops[1].action == Create(c) && ops[2].action == Update(c)
    ensures RunOperations(lib, w, block, ops, false).Failed? && RunOperations(lib, w, block, ops, true).Done?
  {
    UpdateBeforeCreate(w.db.current.Keys, c, ops);
    OperationsKeepValid(lib, w, block, ops, false);
    OperationsKeepValid(lib, w, block, ops, true);
  }

  /** The operations of a block without each update that a later one of its key follows. */
  function LastUpdates(ops: seq<Operation>): seq<Operation>
    decreases ops
  {
    if |ops| == 0 then []
    else if ops[0].action.Update?
            && exists j :: 0 < j < |ops| && ops[j].action.Update?
                           && ops[j].action.content.key == ops[0].action.content.key
    then LastUpdates(ops[1..])
    else [ops[0]] + LastUpdates(ops[1..])
  }

  /** The coalesced run is the plain run of what is left. */
  lemma {:induction false} CoalescedRuns(lib: Lib, w: Work, block: uint64, ops: seq<Operation>)
    ensures RunOperations(lib, w, block, ops, true) == RunOperations(lib, w, block, LastUpdates(ops), false)
    decreases ops
  {
    if |ops| > 0 {
      if Superseded(ops) {
        CoalescedRuns(lib, w, block, ops[1..]);
      } else {
        assert LastUpdates(ops)[0] == ops[0] && LastUpdates(ops)[1..] == LastUpdates(ops[1..]);
        match Step(lib, w, block, ops[0])
        case Done(u) => CoalescedRuns(lib, u, block, ops[1..]);
        case Failed(_) =>
      }
    }
  }

  /** A plain run makes its steps in order, the last one on what the others left, and stops at the first failure. */
  lemma {:induction false} OperationsExtend(lib: Lib, w: Work, block: uint64, ops: seq<Operation>, o: Operation)
    ensures RunOperations(lib, w, block, [], false) == Done(w)
    ensures RunOperations(lib, w, block, ops + [o], false)
            == match RunOperations(lib, w, block, ops, false)
               case Done(u) => Step(lib, u, block, o)
               case Failed(n) => Failed(n)
    decreases ops
  {
    var all := ops + [o];
    if |ops| == 0 {
      RunOne(lib, w, block, all, false);
    } else {
      assert all[0] == ops[0] && all[1..] == ops[1..] + [o];
      match Step(lib, w, block, ops[0])
      case Done(u) => OperationsExtend(lib, u, block, ops[1..], o);
      case Failed(_) =>
    }
  }

  lemma RunOne(lib: Lib, w: Work, block: uint64, ops: seq<Operation>, coalesce: bool)
    requires |ops| == 1
    ensures RunOperations(lib, w, block, ops, coalesce) == Step(lib, w, block, ops[0])
  {
    assert ops[1..] == [];
    match Step(lib, w, block, ops[0])
    case Done(u) => assert RunOperations(lib, u, block, ops[1..], coalesce) == Done(u);
    case Failed(_) =>
  }

  // ----- An update dropped before a create over its key -----

  /** What a create and an update leave of the bits of an entity: those that neither of them writes stay behind. */
  lemma BitsLeftBehind<V(!new)>(ix: I.Index<V>, attrs: map<Str, V>, created: map<Str, V>, updated: map<Str, V>, id: nat)
    requires ExactAt(ix, attrs, id)
    ensures var r := Apply(Apply(ix, Insert(created), id), Replace(created, updated), id);
            forall n, v :: id in I.Look(r, n, v) <==>
              (I.Has(attrs, n, v) && !I.Has(created, n, v)) || I.Has(updated, n, v)
  {
    var added := I.AddAll(ix, created, id);
    AddAllAt(ix, created, id);
    RemoveAllAt(added, created, id);
    AddAllAt(I.RemoveAll(added, created, id), updated, id);
  }

  /** Of two sets of attributes, a create and an update leave the same behind. */
  ghost predicate SameLeftovers<V(!new)>(x: map<Str, V>, y: map<Str, V>, created: map<Str, V>, updated: map<Str, V>) {
    forall n, v :: !I.Has(created, n, v) && !I.Has(updated, n, v) ==> (I.Has(x, n, v) <==> I.Has(y, n, v))
  }

  lemma LeftoversDecide<V(!new)>(a: I.Index<V>, b: I.Index<V>, x: map<Str, V>, y: map<Str, V>,
                                 created: map<Str, V>, updated: map<Str, V>, id: nat)
    requires ExactAt(a, x, id) && ExactAt(b, y, id)
    ensures SameAt(Apply(Apply(a, Insert(created), id), Replace(created, updated), id),
                   Apply(Apply(b, Insert(created), id), Replace(created, updated), id), id)
            <==> SameLeftovers(x, y, created, updated)
  {
    BitsLeftBehind(a, x, created, updated, id);
    BitsLeftBehind(b, y, created, updated, id);
  }

  /** The bits of one ID after a create over its key and an update; those of the others stay. */
  lemma CreateThenUpdate(lib: Lib, w: Work, block: uint64, o: Operation, c: Content, o': Operation, c': Content)
    requires Sound(w) && o.action == Create(c) && o'.action == Update(c')
    requires c.key == c'.key && c.key in w.db.current
    ensures Step(lib, w, block, o).Done?
    ensures var created := CreatedRow(lib, block, o, c);
            var updated := UpdatedRow(lib, block, c', created);
            var id := w.db.current[c.key];
            match Step(lib, Step(lib, w, block, o).work, block, o')
            case Failed(_) => false
            case Done(u) =>
              && u.db.strings == Apply(Apply(w.db.strings, Insert(created.strings), id),
                                       Replace(created.strings, updated.strings), id)
              && u.db.numbers == Apply(Apply(w.db.numbers, Insert(Indexed(created.numbers)), id),
                                       Replace(Indexed(created.numbers), Indexed(updated.numbers)), id)
  {
    var v := Step(lib, w, block, o).work;
    StepKeepsSound(lib, w, block, o);
    StepKeepsSound(lib, v, block, o');
    StepChanges(lib, w, block, o);
    StepChanges(lib, v, block, o');
    StepRows(lib, w, block, o, w.db.current[c.key]);
  }

  lemma TwiceElsewhere<V(!new)>(ix: I.Index<V>, c: Change<V>, d: Change<V>, id: nat, j: nat)
    requires j != id
    ensures SameAt(Apply(Apply(ix, c, id), d, id), ix, j)
  {
    ApplyElsewhere(ix, c, id, j);
    ApplyElsewhere(Apply(ix, c, id), d, id, j);
  }

  lemma TwiceNoEmpty<V(!new)>(ix: I.Index<V>, c: Change<V>, d: Change<V>, id: nat)
    requires I.NoEmpty(ix)
    ensures I.NoEmpty(Apply(Apply(ix, c, id), d, id))
  {
    ApplyNoEmpty(ix, c, id);
    ApplyNoEmpty(Apply(ix, c, id), d, id);
  }

  lemma SameApart<V(!new)>(r: I.Index<V>, s: I.Index<V>, a: I.Index<V>, b: I.Index<V>, id: nat)
    requires I.NoEmpty(r) && I.NoEmpty(s) && SameAt(r, s, id)
    requires forall j: nat :: j != id ==> SameAt(r, a, j) && SameAt(s, b, j) && SameAt(a, b, j)
    ensures r == s
  {
    forall j: nat
      ensures SameAt(r, s, j)
    {
      if j != id {
        assert SameAt(r, a, j) && SameAt(s, b, j) && SameAt(a, b, j);
      }
    }
    SameEverywhere(r, s);
  }

  /** Two indexes that differ at one ID at most, after a create over its key and an update. */
  lemma LeftoversDecideAll<V(!new)>(a: I.Index<V>, b: I.Index<V>, x: map<Str, V>, y: map<Str, V>,
                                    created: map<Str, V>, updated: map<Str, V>, id: nat)
    requires I.NoEmpty(a) && I.NoEmpty(b) && ExactAt(a, x, id) && ExactAt(b, y, id)
    requires forall j: nat :: j != id ==> SameAt(a, b, j)
    ensures Apply(Apply(a, Insert(created), id), Replace(created, updated), id)
            == Apply(Apply(b, Insert(created), id), Replace(created, updated), id)
            <==> SameLeftovers(x, y, created, updated)
  {
    var c, d := Insert(created), Replace(created, updated);
    var r, s := Apply(Apply(a, c, id), d, id), Apply(Apply(b, c, id), d, id);
    LeftoversDecide(a, b, x, y, created, updated, id);
    if SameLeftovers(x, y, created, updated) {
      forall j: nat | j != id
        ensures SameAt(r, a, j) && SameAt(s, b, j)
      {
        TwiceElsewhere(a, c, d, id, j);
        TwiceElsewhere(b, c, d, id, j);
      }
      TwiceNoEmpty(a, c, d, id);
      TwiceNoEmpty(b, c, d, id);
      SameApart(r, s, a, b, id);
    } else {
      SameItself(r, id);
    }
  }

  lemma SameItself<V(!new)>(r: I.Index<V>, id: nat)
    ensures SameAt(r, r, id)
  {
  }

  /** Update, create and update of one live key. */
  predicate CreateBetween(ops: seq<Operation>, live: set<Key>, first: Content, second: Content, third: Content) {
    && |ops| == 3
    && ops[0].action == Update(first) && ops[1].action == Create(second) && ops[2].action == Update(third)
    && first.key == second.key == third.key && first.key in live
  }

  lemma RunTwo(lib: Lib, w: Work, block: uint64, ops: seq<Operation>, coalesce: bool)
    requires |ops| == 2 && !Superseded(ops) && Step(lib, w, block, ops[0]).Done?
    ensures RunOperations(lib, w, block, ops, coalesce) == Step(lib, Step(lib, w, block, ops[0]).work, block, ops[1])
  {
    var u := Step(lib, w, block, ops[0]).work;
    var last := ops[1..];
    assert last[0] == ops[1] && last[1..] == [];
    assert !Superseded(last);
    match Step(lib, u, block, ops[1])
    case Done(v) => assert RunOperations(lib, v, block, last[1..], coalesce) == Done(v);
    case Failed(_) =>
  }

  lemma CreateBetweenShape(ops: seq<Operation>, live: set<Key>, first: Content, second: Content, third: Content)
    requires CreateBetween(ops, live, first, second, third)
    ensures Superseded(ops) && !Superseded(ops[1..]) && DropsAreLive(live, ops)
  {
    var rest := ops[1..];
    var last := rest[1..];
    assert rest[0] == ops[1] && last[0] == ops[2] && last[1..] == [];
    assert Updates(ops[2], first.key);
    assert !Superseded(last) && DropsAreLive(live + {second.key}, last);
    assert DropsAreLive(live, rest);
  }

  lemma CreateBetweenSucceeds(lib: Lib, w: Work, block: uint64, ops: seq<Operation>,
                              first: Content, second: Content, third: Content)
    requires Sound(w) && CreateBetween(ops, w.db.current.Keys, first, second, third)
    ensures Step(lib, w, block, ops[0]).Done? && Step(lib, w, block, ops[1]).Done?
    ensures Step(lib, Step(lib, w, block, ops[0]).work, block, ops[1]).Done?
  {
    StepKeepsSound(lib, w, block, ops[0]);
    StepKeepsSound(lib, w, block, ops[1]);
    StepKeepsSound(lib, Step(lib, w, block, ops[0]).work, block, ops[1]);
  }

  lemma CreateBetweenRuns(lib: Lib, w: Work, block: uint64, ops: seq<Operation>,
                          first: Content, second: Content, third: Content)
    requires Sound(w) && CreateBetween(ops, w.db.current.Keys, first, second, third)
    ensures Step(lib, w, block, ops[0]).Done? && Step(lib, w, block, ops[1]).Done?
    ensures var updated := Step(lib, w, block, ops[0]).work;
            && Step(lib, updated, block, ops[1]).Done?
            && RunOperations(lib, w, block, ops, false)
               == Step(lib, Step(lib, updated, block, ops[1]).work, block, ops[2])
            && RunOperations(lib, w, block, ops, true) == Step(lib, Step(lib, w, block, ops[1]).work, block, ops[2])
  {
    CreateBetweenSucceeds(lib, w, block, ops, first, second, third);
    var updated := Step(lib, w, block, ops[0]).work;
    CreateBetweenShape(ops, w.db.current.Keys, first, second, third);
    RunTwo(lib, w, block, ops[1..], true);
    RunTwo(lib, updated, block, ops[1..], false);
  }

  lemma SameButIndex(a: Work, b: Work)
    requires a == WithIndex(b, a.db.strings, a.db.numbers)
    ensures a == b <==> a.db.strings == b.db.strings && a.db.numbers == b.db.numbers
  {
  }

  /** After the first update the key is live under its ID with the bits of the updated row; all others are as before. */
  lemma UpdatedIndex(lib: Lib, w: Work, v: Work, block: uint64, o: Operation, c: Content, id: nat)
    requires Valid(w) && o.action == Update(c) && c.key in w.db.current && w.db.current[c.key] == id
    requires Step(lib, w, block, o) == Done(v)
    ensures Sound(v) && c.key in v.db.current && v.db.current[c.key] == id
    ensures var was := w.db.payloads[id];
            RowExactAt(w.db, was, id) && RowExactAt(v.db, UpdatedRow(lib, block, c, was), id)
    ensures I.NoEmpty(w.db.strings) && I.NoEmpty(w.db.numbers) && I.NoEmpty(v.db.strings) && I.NoEmpty(v.db.numbers)
    ensures forall j: nat :: j != id ==> SameAt(v.db.strings, w.db.strings, j) && SameAt(v.db.numbers, w.db.numbers, j)
  {
    ValidIsTidy(w, {c.key});
    StepKeepsSound(lib, w, block, o);
    StepKeepsTidy(lib, w, block, o, {c.key});
    StepRows(lib, w, block, o, id);
    forall j: nat | j != id
      ensures SameAt(v.db.strings, w.db.strings, j) && SameAt(v.db.numbers, w.db.numbers, j)
    {
      StepLeavesOthers(lib, w, block, o, j);
    }
  }

  /**
   * The index after update, create and update of one live key: dropping the
   * first update cannot be seen iff its row and the old row agree on every
   * attribute that neither the create nor the last update writes.
   */
  lemma CreateBetweenExactly(lib: Lib, w: Work, block: uint64, ops: seq<Operation>,
                             first: Content, second: Content, third: Content)
    requires Valid(w) && CreateBetween(ops, w.db.current.Keys, first, second, third)
    ensures RunOperations(lib, w, block, ops, false).Done? && RunOperations(lib, w, block, ops, true).Done?
    ensures DropsAreLive(w.db.current.Keys, ops)
    ensures var was := w.db.payloads[w.db.current[first.key]];
            var updated := UpdatedRow(lib, block, first, was);
            var created := CreatedRow(lib, block, ops[1], second);
            var last := UpdatedRow(lib, block, third, created);
            RunOperations(lib, w, block, ops, false) == RunOperations(lib, w, block, ops, true) <==>
            && SameLeftovers(updated.strings, was.strings, created.strings, last.strings)
            && SameLeftovers(Indexed(updated.numbers), Indexed(was.numbers),
                             Indexed(created.numbers), Indexed(last.numbers))
  {
    var id := w.db.current[first.key];
    var v := Step(lib, w, block, ops[0]).work;
    CreateBetweenShape(ops, w.db.current.Keys, first, second, third);
    CreateBetweenRuns(lib, w, block, ops, first, second, third);
    UpdatedIndex(lib, w, v, block, ops[0], first, id);
    CreateThenUpdate(lib, w, block, ops[1], second, ops[2], third);
    CreateThenUpdate(lib, v, block, ops[1], second, ops[2], third);
    CoalescingIsInvisible(lib, w, block, ops);
    var was := w.db.payloads[id];
    var updated := UpdatedRow(lib, block, first, was);
    var created := CreatedRow(lib, block, ops[1], second);
    var last := UpdatedRow(lib, block, third, created);
    LeftoversDecideAll(v.db.strings, w.db.strings, updated.strings, was.strings, created.strings, last.strings, id);
    LeftoversDecideAll<uint64>(v.db.numbers, w.db.numbers, Indexed(updated.numbers), Indexed(was.numbers),
                               Indexed(created.numbers), Indexed(last.numbers), id);
    SameButIndex(RunOperations(lib, w, block, ops, false).work, RunOperations(lib, w, block, ops, true).work);
  }

  /**
   * A value that only the dropped update writes: in full it stays behind in the
   * index, coalesced it never gets there, although both runs succeed and every
   * dropped update names a live key.
   */
  lemma LostBitExample(lib: Lib, w: Work, block: uint64, ops: seq<Operation>,
                       first: Content, second: Content, third: Content, name: Str, value: Str)
    requires Valid(w) && CreateBetween(ops, w.db.current.Keys, first, second, third) && !SyntheticString(name)
    requires I.Has(first.strings, name, value) && !I.Has(w.db.payloads[w.db.current[first.key]].strings, name, value)
    requires !I.Has(second.strings, name, value) && !I.Has(third.strings, name, value)
    ensures RunOperations(lib, w, block, ops, false).Done? && RunOperations(lib, w, block, ops, true).Done?
    ensures DropsAreLive(w.db.current.Keys, ops)
    ensures RunOperations(lib, w, block, ops, false) != RunOperations(lib, w, block, ops, true)
  {
    CreateBetweenExactly(lib, w, block, ops, first, second, third);
    var was := w.db.payloads[w.db.current[first.key]];
    var created := CreatedRow(lib, block, ops[1], second);
    CreatedCarries(lib, block, ops[1], second);
    UpdatedCarries(lib, block, first, was);
    UpdatedCarries(lib, block, third, created);
    assert I.Has(UpdatedRow(lib, block, first, was).strings, name, value);
    assert !I.Has(created.strings, name, value);
    assert !I.Has(UpdatedRow(lib, block, third, created).strings, name, value);
  }
}
