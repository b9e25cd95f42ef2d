/** Runs of the store: committed batches, failed batches and restarts. */
module Runs {
  import opened Base
  import opened Store
  import opened Events
  import opened Invariants
  import opened Batching
  import opened EntityHistory
  import opened EntityIndex
  import opened Lifecycle

  /**
   * What can happen to a store: a batch is delivered, a batch is abandoned
   * after taking some IDs, or the process restarts on the same database.
   */
  datatype Event = Deliver(blocks: seq<Block>) | Abandon(taken: nat) | Reopen

  /** NewPebbleStore: load the counter, and count the pointers if no count is stored. */
  function Open(db: Db): Work {
    Work(if db.count.Some? then db else db.(count := Some(|db.current|)), Counter(db))
  }

  function React(lib: Lib, w: Work, e: Event): Work
    requires e.Deliver? ==> |e.blocks| > 0
  {
    match e
    case Deliver(blocks) =>
      (match RunBatch(RunBlock(lib), w, blocks) case Done(u) => u case Failed(n) => Work(w.db, n))
    case Abandon(taken) => Work(w.db, w.next + taken)
    case Reopen => Open(w.db)
  }

  /** A delivery does to the store what the follower's message loop does. */
  lemma DeliveryIsMessage(lib: Lib, w: Work, blocks: seq<Block>)
    requires |blocks| > 0
    ensures React(lib, w, Deliver(blocks)) == RunMessages(RunBlock(lib), w, [Batch(blocks)]).0
  {
    var messages := [Batch(blocks)];
    assert messages[1..] == [];
    match RunBatch(RunBlock(lib), w, blocks)
    case Done(u) => assert RunMessages(RunBlock(lib), u, messages[1..]) == (u, true);
    case Failed(_) =>
  }

  predicate Feeds(lib: Lib, w: Work, events: seq<Event>, orderly: bool)
    decreases events
  {
    NoEmptyDelivery(events) && (|events| > 0 ==>
      assert events[0] in events;
      && (events[0].Deliver? ==> Feed(lib, w, events[0].blocks, orderly))
      && Feeds(lib, React(lib, w, events[0]), events[1..], orderly))
  }

  predicate NoEmptyDelivery(events: seq<Event>) {
    forall e :: e in events && e.Deliver? ==> |e.blocks| > 0
  }

  function RunEvents(lib: Lib, w: Work, events: seq<Event>): Work
    requires NoEmptyDelivery(events)
    decreases events
  {
    if |events| == 0 then w else assert events[0] in events; RunEvents(lib, React(lib, w, events[0]), events[1..])
  }

  // ----- The IDs creations are given -----

  /** The ID an operation gives to the entity it creates. */
  function CreatedId(w: Work, o: Operation): seq<nat> {
    if o.action.Create? && o.action.content.key !in w.db.current then [UpsertId(w, o.action.content.key)] else []
  }

  /** The IDs given by the operations of a block that runs through, in order. */
  function CreatedByOperations(lib: Lib, w: Work, block: uint64, ops: seq<Operation>): seq<nat>
    decreases ops
  {
    if |ops| == 0 then []
    else if Superseded(ops) then CreatedByOperations(lib, w, block, ops[1..])
    else
      match Step(lib, w, block, ops[0])
      case Done(u) => CreatedId(w, ops[0]) + CreatedByOperations(lib, u, block, ops[1..])
      case Failed(_) => []
  }

  function CreatedByBlocks(lib: Lib, w: Work, last: uint64, blocks: seq<Block>): seq<nat>
    decreases blocks
  {
    if |blocks| == 0 then []
    else if blocks[0].number <= last then CreatedByBlocks(lib, w, last, blocks[1..])
    else
      match RunBlock(lib)(w, blocks[0])
      case Done(u) =>
        CreatedByOperations(lib, w, blocks[0].number, blocks[0].operations) + CreatedByBlocks(lib, u, last, blocks[1..])
      case Failed(_) => []
  }

  /** The IDs given by a batch that commits. */
  function TakenBy(lib: Lib, w: Work, e: Event): seq<nat>
    requires e.Deliver? ==> |e.blocks| > 0
  {
    if e.Deliver? && RunBatch(RunBlock(lib), w, e.blocks).Done?
    then CreatedByBlocks(lib, w, LastBlock(w.db), e.blocks)
    else []
  }

  /** The IDs given by committed creations, in order. */
  function CommittedIds(lib: Lib, w: Work, events: seq<Event>): seq<nat>
    requires NoEmptyDelivery(events)
    decreases events
  {
    if |events| == 0 then []
    else assert events[0] in events; TakenBy(lib, w, events[0]) + CommittedIds(lib, React(lib, w, events[0]),
        events[1..])
  }

  function Range(lo: nat, hi: nat): (r: seq<nat>)
    requires lo <= hi
    ensures |r| == hi - lo && forall i :: 0 <= i < |r| ==> r[i] == lo + i
    ensures forall id :: id in r <==> lo <= id < hi
  {
    if lo == hi then [] else Range(lo, hi - 1) + [hi - 1]
  }

  lemma RangesJoin(lo: nat, mid: nat, hi: nat)
    requires lo <= mid <= hi
    ensures Range(lo, mid) + Range(mid, hi) == Range(lo, hi)
  {
  }

  lemma EffectCreates(w: Work, u: Work, written: Option<Row>, key: Key)
    requires Effect(w, u, written, key) && (written.Some? ==> written.value.key == key)
    ensures u.next == if key in w.db.current then w.next else w.next + 1
  {
  }

  lemma StepCreates(lib: Lib, w: Work, block: uint64, o: Operation)
    ensures match Step(lib, w, block, o)
            case Done(u) => w.next <= u.next && CreatedId(w, o) == Range(w.next, u.next)
            case Failed(_) => true
  {
    match Step(lib, w, block, o)
    case Failed(_) =>
    case Done(u) =>
      StepEffect(lib, w, block, o);
      EffectCreates(w, u, Written(lib, w, block, o), KeyOf(o).value);
      if !o.action.Create? {
        LiveUnlessCreated(lib, w, block, o);
      }
      assert Range(w.next, w.next) == [] && Range(w.next, w.next + 1) == [w.next];
  }

  lemma {:induction false} OperationsCreate(lib: Lib, w: Work, block: uint64, ops: seq<Operation>)
    ensures match RunOperations(lib, w, block, ops, true)
            case Done(u) => w.next <= u.next && CreatedByOperations(lib, w, block, ops) == Range(w.next, u.next)
            case Failed(_) => true
    decreases ops
  {
    if |ops| > 0 {
      if Superseded(ops) {
        OperationsCreate(lib, w, block, ops[1..]);
      } else {
        StepCreates(lib, w, block, ops[0]);
        match Step(lib, w, block, ops[0])
        case Failed(_) =>
        case Done(u) =>
          OperationsCreate(lib, u, block, ops[1..]);
          match RunOperations(lib, u, block, ops[1..], true)
          case Failed(_) =>
          case Done(v) => RangesJoin(w.next, u.next, v.next);
      }
    }
  }

  /** The creations that a batch executes are given the IDs from the counter on, without a gap, in order. */
  lemma {:induction false} BlocksCreate(lib: Lib, w: Work, last: uint64, blocks: seq<Block>)
    ensures match RunBlocks(RunBlock(lib), w, last, blocks)
            case Done(u) => w.next <= u.next && CreatedByBlocks(lib, w, last, blocks) == Range(w.next, u.next)
            case Failed(_) => true
    decreases blocks
  {
    if |blocks| > 0 {
      if blocks[0].number <= last {
        BlocksCreate(lib, w, last, blocks[1..]);
      } else {
        OperationsCreate(lib, w, blocks[0].number, blocks[0].operations);
        match RunBlock(lib)(w, blocks[0])
        case Failed(_) =>
        case Done(u) =>
          BlocksCreate(lib, u, last, blocks[1..]);
          match RunBlocks(RunBlock(lib), u, last, blocks[1..])
          case Failed(_) =>
          case Done(v) => RangesJoin(w.next, u.next, v.next);
      }
    }
  }

  // ----- Runs stay in good states -----

  /** The migration scan makes the count right for a database that has none. */
  lemma OpenIsSound(db: Db)
    requires Inverse(db.current, db.payloads) && Counted(db)
    requires db.count.Some? ==> db.count.value == |db.current|
    ensures Sound(Open(db))
  {
  }

  lemma OpenKeepsRest(lib: Lib, db: Db, bound: nat)
    ensures RowsOk(lib, Open(db).db) <==> RowsOk(lib, db)
    ensures Ordered(Open(db).db, bound) <==> Ordered(db, bound)
  {
  }

  lemma OpenKeepsReached(lib: Lib, db: Db, orderly: bool)
    requires RowsOk(lib, db) && (orderly ==> Ordered(db, BlockBound(LastBlock(db) + 1)))
    requires Inverse(db.current, db.payloads) && Counted(db) && IndexAgrees(db)
    requires db.count.Some? ==> db.count.value == |db.current|
    ensures Reached(lib, Open(db), orderly)
  {
    OpenIsSound(db);
    OpenKeepsRest(lib, db, BlockBound(LastBlock(db) + 1));
    TablesIgnoreOthers(Open(db).db, db);
    ValidFrom(Open(db), db.strings, db.numbers);
  }

  lemma ReactKeepsReached(lib: Lib, w: Work, e: Event, orderly: bool)
    requires LowerIsIdempotent(lib) && Reached(lib, w, orderly) && (e.Deliver? ==> Feed(lib, w, e.blocks, orderly))
    ensures Reached(lib, React(lib, w, e), orderly)
    ensures orderly ==> LastBlock(React(lib, w, e).db) >= LastBlock(w.db)
  {
    match e
    case Deliver(blocks) => BatchKeepsReached(lib, w, blocks, orderly);
    case Abandon(_) =>
    case Reopen =>
      if w.db.count.None? {
        assert |w.db.current| == 0;
      }
      OpenKeepsReached(lib, w.db, orderly);
  }

  /** A fresh store is reached. */
  lemma FreshIsReached(lib: Lib, orderly: bool)
    ensures Reached(lib, Open(EmptyDb()), orderly)
  {
  }

  /**
   * Every run of commits, failures and restarts stays in good states; an orderly
   * one never moves the last block back.
   */
  lemma {:induction false} RunsStayReached(lib: Lib, w: Work, events: seq<Event>, orderly: bool)
    requires LowerIsIdempotent(lib) && Reached(lib, w, orderly) && Feeds(lib, w, events, orderly)
    ensures Reached(lib, RunEvents(lib, w, events), orderly)
    ensures orderly ==> LastBlock(RunEvents(lib, w, events).db) >= LastBlock(w.db)
    decreases events
  {
    if |events| > 0 {
      assert events[0] in events;
      ReactKeepsReached(lib, w, events[0], orderly);
      RunsStayReached(lib, React(lib, w, events[0]), events[1..], orderly);
    }
  }

  /** ids is strictly increasing, from lo up to but not including hi. */
  predicate Ascends(ids: seq<nat>, lo: nat, hi: nat) {
    && (forall i, j :: 0 <= i < j < |ids| ==> ids[i] < ids[j])
    && (forall i :: 0 <= i < |ids| ==> lo <= ids[i] < hi)
  }

  lemma AscendsAppend(a: seq<nat>, b: seq<nat>, lo: nat, mid: nat, hi: nat)
    requires Ascends(a, lo, mid) && Ascends(b, mid, hi) && lo <= mid <= hi
    ensures Ascends(a + b, lo, hi)
  {
  }

  lemma ReactKeepsSound(lib: Lib, w: Work, e: Event)
    requires Sound(w) && (e.Deliver? ==> |e.blocks| > 0)
    ensures Sound(React(lib, w, e))
  {
    match e
    case Deliver(blocks) => BatchKeepsValid(lib, w, blocks);
    case Abandon(_) =>
    case Reopen => OpenIsSound(w.db);
  }

  /** One event: the IDs it takes lie between the persisted counters before and after, and account for all new rows. */
  lemma ReactTakes(lib: Lib, w: Work, e: Event)
    requires Sound(w) && (e.Deliver? ==> |e.blocks| > 0)
    ensures var v := React(lib, w, e);
            && Counter(w.db) <= Counter(v.db) && Ascends(TakenBy(lib, w, e), Counter(w.db), Counter(v.db))
            && forall id :: id in v.db.payloads ==> id in w.db.payloads || id in TakenBy(lib, w, e)
  {
    if e.Deliver? {
      BlocksAllocate(lib, w, LastBlock(w.db), e.blocks);
      BlocksCreate(lib, w, LastBlock(w.db), e.blocks);
    }
  }

  /**
   * Over any run whatever, creates over live keys included, the tables stay
   * sound, and IDs are never reused: the IDs that committed creations of new
   * entities are given, also of those deleted again in the same batch, are
   * strictly increasing and all below the persisted counter, whatever batches
   * failed or restarts happened in between; and every stored ID is one of them.
   */
  lemma {:induction false} IdsNeverReused(lib: Lib, w: Work, events: seq<Event>)
    requires NoEmptyDelivery(events) && Sound(w)
    ensures var ids, u := CommittedIds(lib, w, events), RunEvents(lib, w, events);
            && Sound(u) && Ascends(ids, Counter(w.db), Counter(u.db)) && Counter(w.db) <= Counter(u.db) <= u.next
            && (forall id :: id in u.db.payloads ==> id in w.db.payloads || id in ids)
    decreases events
  {
    if |events| > 0 {
      assert events[0] in events;
      var v := React(lib, w, events[0]);
      ReactKeepsSound(lib, w, events[0]);
      ReactTakes(lib, w, events[0]);
      IdsNeverReused(lib, v, events[1..]);
      AscendsAppend(TakenBy(lib, w, events[0]), CommittedIds(lib, v, events[1..]),
                    Counter(w.db), Counter(v.db), Counter(RunEvents(lib, v, events[1..]).db));
    }
  }

  // ----- A live key keeps its ID -----

  predicate NoDeletion(events: seq<Event>, key: Key) {
    forall e :: e in events && e.Deliver? ==> NoDelete(e.blocks, key)
  }

  /** As long as nothing that deletes it is delivered, a key stays live under its ID, through failures and restarts. */
  lemma {:induction false} EventsKeepId(lib: Lib, w: Work, events: seq<Event>, key: Key, id: nat)
    requires NoEmptyDelivery(events) && NoDeletion(events, key) && LiveAs(w, key, id)
    ensures LiveAs(RunEvents(lib, w, events), key, id)
    decreases events
  {
    if |events| > 0 {
      assert events[0] in events && forall e :: e in events[1..] ==> e in events;
      if events[0].Deliver? {
        BlocksKeepId(lib, w, LastBlock(w.db), events[0].blocks, key, id);
      }
      EventsKeepId(lib, React(lib, w, events[0]), events[1..], key, id);
    }
  }

  // ----- A live entity keeps its origin -----

  /** The operation does not delete the key or create over it. */
  predicate Spares(o: Operation, key: Key) {
    !Deletes(o, key) && !CreatesOver(o, key)
  }

  predicate AllSpare(blocks: seq<Block>, key: Key) {
    forall b, o :: b in blocks && o in b.operations ==> Spares(o, key)
  }

  /** In u the key is live under its ID, with the origin it has in the row. */
  predicate HasOrigin(u: Work, key: Key, id: nat, origin: Row) {
    Sound(u) && LiveAs(u, key, id) && SameOrigin(u.db.payloads[id], origin)
  }

  lemma StepKeepsOrigin(lib: Lib, w: Work, block: uint64, o: Operation, key: Key, id: nat, origin: Row)
    requires HasOrigin(w, key, id, origin) && Spares(o, key)
    ensures match Step(lib, w, block, o) case Done(u) => HasOrigin(u, key, id, origin) case Failed(_) => true
  {
    StepKeepsSound(lib, w, block, o);
    StepKeepsId(lib, w, block, o, key, id);
    OriginNeverChanges(lib, w, block, o, id);
  }

  lemma {:induction false} OperationsKeepOrigin(
    lib: Lib, w: Work, block: uint64, ops: seq<Operation>, key: Key, id: nat, origin: Row)
    requires HasOrigin(w, key, id, origin) && forall o :: o in ops ==> Spares(o, key)
    ensures match RunOperations(lib, w, block, ops, true)
            case Done(u) => HasOrigin(u, key, id, origin)
            case Failed(_) => true
    decreases ops
  {
    if |ops| > 0 {
      assert ops[0] in ops;
      if Superseded(ops) {
        OperationsKeepOrigin(lib, w, block, ops[1..], key, id, origin);
      } else {
        StepKeepsOrigin(lib, w, block, ops[0], key, id, origin);
        match Step(lib, w, block, ops[0])
        case Done(u) => OperationsKeepOrigin(lib, u, block, ops[1..], key, id, origin);
        case Failed(_) =>
      }
    }
  }

  lemma {:induction false} BlocksKeepOrigin(
    lib: Lib, w: Work, last: uint64, blocks: seq<Block>, key: Key, id: nat, origin: Row)
    requires HasOrigin(w, key, id, origin) && AllSpare(blocks, key)
    ensures match RunBlocks(RunBlock(lib), w, last, blocks)
            case Done(u) => HasOrigin(u, key, id, origin)
            case Failed(_) => true
    decreases blocks
  {
    if |blocks| > 0 {
      assert blocks[0] in blocks && forall b :: b in blocks[1..] ==> b in blocks;
      if blocks[0].number <= last {
        BlocksKeepOrigin(lib, w, last, blocks[1..], key, id, origin);
      } else {
        OperationsKeepOrigin(lib, w, blocks[0].number, blocks[0].operations, key, id, origin);
        match RunBlock(lib)(w, blocks[0])
        case Done(u) => BlocksKeepOrigin(lib, u, last, blocks[1..], key, id, origin);
        case Failed(_) =>
      }
    }
  }

  lemma ReactKeepsOrigin(lib: Lib, w: Work, e: Event, key: Key, id: nat, origin: Row)
    requires HasOrigin(w, key, id, origin) && (e.Deliver? ==> |e.blocks| > 0 && AllSpare(e.blocks, key))
    ensures HasOrigin(React(lib, w, e), key, id, origin)
  {
    match e
    case Deliver(blocks) =>
      BlocksKeepOrigin(lib, w, LastBlock(w.db), blocks, key, id, origin);
      BatchKeepsValid(lib, w, blocks);
    case Abandon(_) =>
    case Reopen => OpenIsSound(w.db);
  }

  /**
   * Over any run of batches, failures and restarts that does not delete it or
   * create over it, an entity keeps its ID, key, creator, creation block,
   * sequence number and position.
   */
  lemma {:induction false} EventsKeepOrigin(lib: Lib, w: Work, events: seq<Event>, key: Key, id: nat, origin: Row)
    requires NoEmptyDelivery(events) && HasOrigin(w, key, id, origin)
    requires forall e :: e in events && e.Deliver? ==> AllSpare(e.blocks, key)
    ensures HasOrigin(RunEvents(lib, w, events), key, id, origin)
    decreases events
  {
    if |events| > 0 {
      assert events[0] in events && forall e :: e in events[1..] ==> e in events;
      ReactKeepsOrigin(lib, w, events[0], key, id, origin);
      EventsKeepOrigin(lib, React(lib, w, events[0]), events[1..], key, id, origin);
    }
  }

  // ----- An entity stays indexed exactly -----

  /** No delivered create that names one of the keys finds it live. */
  predicate CleanEvents(lib: Lib, w: Work, events: seq<Event>, keys: set<Key>)
    requires NoEmptyDelivery(events)
    decreases events
  {
    |events| > 0 ==>
      assert events[0] in events;
      && (events[0].Deliver? ==> CleanBlocks(w.db.current.Keys, keys, LastBlock(w.db), events[0].blocks))
      && CleanEvents(lib, React(lib, w, events[0]), events[1..], keys)
  }

  lemma ReactKeepsTidy(lib: Lib, w: Work, e: Event, keys: set<Key>)
    requires Sound(w) && Tidy(w, keys)
    requires e.Deliver? ==> |e.blocks| > 0 && CleanBlocks(w.db.current.Keys, keys, LastBlock(w.db), e.blocks)
    ensures Tidy(React(lib, w, e), keys)
  {
    match e
    case Abandon(_) => TidyIgnoresOthers(w, React(lib, w, e), keys);
    case Reopen => TidyIgnoresOthers(w, React(lib, w, e), keys);
    case Deliver(blocks) =>
      BlocksKeepTidy(lib, w, LastBlock(w.db), blocks, keys);
      match RunBlocks(RunBlock(lib), w, LastBlock(w.db), blocks)
      case Failed(_) => TidyIgnoresOthers(w, React(lib, w, e), keys);
      case Done(u) => TidyIgnoresOthers(u, React(lib, w, e), keys);
  }

  /**
   * Index agreement entity by entity, over any run: the live entities of keys
   * that no create finds live are in the bitmaps of their attributes and in no
   * others, whatever is created over other keys.
   */
  lemma {:induction false} EventsKeepTidy(lib: Lib, w: Work, events: seq<Event>, keys: set<Key>)
    requires NoEmptyDelivery(events) && Sound(w) && Tidy(w, keys) && CleanEvents(lib, w, events, keys)
    ensures Tidy(RunEvents(lib, w, events), keys)
    decreases events
  {
    if |events| > 0 {
      assert events[0] in events;
      ReactKeepsSound(lib, w, events[0]);
      ReactKeepsTidy(lib, w, events[0], keys);
      EventsKeepTidy(lib, React(lib, w, events[0]), events[1..], keys);
    }
  }

  // ----- A new store -----

  /** What opening reads: the stored counter and count, or 1 and the number of pointers. */
  lemma OpenLoads(db: Db)
    ensures db.idCounter.Some? ==> Open(db).next == db.idCounter.value
    ensures db.idCounter.None? ==> Open(db).next == 1
    ensures Open(db).db.count == Some(if db.count.Some? then db.count.value else |db.current|)
    ensures Open(db).db == db.(count := Open(db).db.count)
  {
  }

  lemma FirstUpsert(row: Row)
    ensures var u := Upsert(Open(EmptyDb()), row);
            && u.next == 2 && u.db.idCounter == Some(2) && u.db.count == Some(1) && u.db.lastBlock == None
            && u.db.current == map[row.key := 1] && u.db.payloads.Keys == {1}
  {
  }

  /** The first entity of a new store has ID 1; 2 is the next one, and one entity is counted. */
  lemma FirstEntity(lib: Lib, block: uint64, o: Operation, c: Content)
    requires o.action == Create(c)
    ensures match Step(lib, Open(EmptyDb()), block, o)
            case Failed(_) => false
            case Done(u) =>
              && u.next == 2 && u.db.idCounter == Some(2) && u.db.count == Some(1)
              && u.db.current == map[c.key := 1] && u.db.payloads.Keys == {1} && u.db.lastBlock == None
  {
    FirstUpsert(CreatedRow(lib, block, o, c));
    StepEffect(lib, Open(EmptyDb()), block, o);
  }

  /** A new store runs every block of a chain from 1 on, once and in order; only a block 0 is passed over. */
  lemma NewStoreRuns(run: BlockRun, chain: seq<Block>)
    requires Increasing(chain) && |chain| > 0
    ensures RunBatch(run, Open(EmptyDb()), chain)
            == match RunAll(run, Open(EmptyDb()), if chain[0].number == 0 then chain[1..] else chain)
               case Done(u) => Done(u.(db := u.db.(lastBlock := Some(chain[|chain| - 1].number))))
               case Failed(n) => Failed(n)
  {
    FreshStoreRuns(run, Open(EmptyDb()), chain);
  }

  // ----- Crashes -----

  /** The state NewPebbleStore leaves: the counter is the persisted one, and the count is stored. */
  predicate Opened(w: Work) {
    w.next == Counter(w.db) && w.db.count.Some?
  }

  lemma OpenedIsOpen(w: Work)
    ensures Opened(w) <==> w.db.count.Some? && Open(w.db) == w
  {
  }

  lemma StepKeepsOpened(lib: Lib, w: Work, block: uint64, o: Operation)
    requires Opened(w)
    ensures match Step(lib, w, block, o) case Done(u) => Opened(u) case Failed(_) => true
  {
    match Step(lib, w, block, o)
    case Failed(_) =>
    case Done(_) =>
      StepEffect(lib, w, block, o);
      match Written(lib, w, block, o)
      case Some(row) => assert Opened(Upsert(w, row));
      case None =>
        var d := DeleteCurrent(w.db, o.action.key).value;
        assert d.count.Some? && d.idCounter == w.db.idCounter;
  }

  lemma {:induction false} OperationsKeepOpened(lib: Lib, w: Work, block: uint64, ops: seq<Operation>)
    requires Opened(w)
    ensures match RunOperations(lib, w, block, ops, true) case Done(u) => Opened(u) case Failed(_) => true
    decreases ops
  {
    if |ops| > 0 {
      if Superseded(ops) {
        OperationsKeepOpened(lib, w, block, ops[1..]);
      } else {
        StepKeepsOpened(lib, w, block, ops[0]);
        match Step(lib, w, block, ops[0])
        case Done(u) => OperationsKeepOpened(lib, u, block, ops[1..]);
        case Failed(_) =>
      }
    }
  }

  lemma {:induction false} BlocksKeepOpened(lib: Lib, w: Work, last: uint64, blocks: seq<Block>)
    requires Opened(w)
    ensures match RunBlocks(RunBlock(lib), w, last, blocks) case Done(u) => Opened(u) case Failed(_) => true
    decreases blocks
  {
    if |blocks| > 0 {
      if blocks[0].number <= last {
        BlocksKeepOpened(lib, w, last, blocks[1..]);
      } else {
        OperationsKeepOpened(lib, w, blocks[0].number, blocks[0].operations);
        match RunBlock(lib)(w, blocks[0])
        case Done(u) => BlocksKeepOpened(lib, u, last, blocks[1..]);
        case Failed(_) =>
      }
    }
  }

  /** A batch abandoned half-way is a crash: the process comes back before anything else is delivered. */
  predicate Restarted(events: seq<Event>) {
    forall i :: 0 <= i < |events| && events[i].Abandon? ==> i + 1 < |events| && events[i + 1].Reopen?
  }

  /** The batches delivered to the end, as the iterator would have sent them to one process. */
  function Deliveries(events: seq<Event>): seq<Message>
    decreases events
  {
    if |events| == 0 then []
    else
      (if events[0].Deliver? then [Batch(events[0].blocks)] else []) + Deliveries(events[1..])
  }

  lemma OneDelivery(lib: Lib, w: Work, events: seq<Event>)
    requires NoEmptyDelivery(events) && |events| > 0 && events[0].Deliver? && Opened(w)
    requires RunMessages(RunBlock(lib), w, Deliveries(events)).1
    ensures |events[0].blocks| > 0
    ensures var u := React(lib, w, events[0]);
            Opened(u) && RunMessages(RunBlock(lib), u, Deliveries(events[1..]))
                == RunMessages(RunBlock(lib), w, Deliveries(events))
  {
    assert events[0] in events;
    assert Deliveries(events)[0] == Batch(events[0].blocks) && Deliveries(events)[1..] == Deliveries(events[1..]);
    BlocksKeepOpened(lib, w, LastBlock(w.db), events[0].blocks);
  }

  lemma RestAfterCrash(events: seq<Event>)
    requires NoEmptyDelivery(events) && Restarted(events) && |events| > 0 && events[0].Abandon?
    ensures |events| > 1 && events[1].Reopen? && events[1..][1..] == events[2..] && events[1..][0] == events[1]
    ensures NoEmptyDelivery(events[1..]) && NoEmptyDelivery(events[2..]) && Restarted(events[2..])
    ensures Deliveries(events) == Deliveries(events[2..])
  {
    var rest := events[1..];
    assert rest[1..] == events[2..];
    assert Deliveries(events) == Deliveries(rest) == Deliveries(rest[1..]);
  }

  /** Crashes and restarts between batches that commit leave no trace, not even in the IDs. */
  lemma {:induction false} CrashesAreInvisible(lib: Lib, w: Work, events: seq<Event>)
    requires NoEmptyDelivery(events) && Opened(w) && Restarted(events)
    requires RunMessages(RunBlock(lib), w, Deliveries(events)).1
    ensures RunEvents(lib, w, events) == RunMessages(RunBlock(lib), w, Deliveries(events)).0
    decreases |events|
  {
    if |events| > 0 {
      assert events[0] in events;
      if events[0].Deliver? {
        OneDelivery(lib, w, events);
        CrashesAreInvisible(lib, React(lib, w, events[0]), events[1..]);
      } else {
        OpenedIsOpen(w);
        if events[0].Reopen? {
          assert Deliveries(events) == Deliveries(events[1..]);
          CrashesAreInvisible(lib, w, events[1..]);
        } else {
          RestAfterCrash(events);
          CrashesAreInvisible(lib, w, events[2..]);
          var abandoned := React(lib, w, events[0]);
          assert React(lib, abandoned, events[1]) == w;
          assert RunEvents(lib, abandoned, events[1..]) == RunEvents(lib, w, events[2..]);
        }
      }
    }
  }

  /**
   * Exactly once across crashes: deliver the chain in overlapping cuts, crash
   * and restart anywhere between them and half-way through them, and the store
   * is that of one uninterrupted process running every new block once.
   */
  lemma ExactlyOnceAcrossCrashes(lib: Lib, w: Work, chain: seq<Block>, cuts: seq<(nat, nat)>, events: seq<Event>)
    requires NoEmptyDelivery(events) && Opened(w) && Restarted(events)
    requires Increasing(chain) && Cuts(cuts, |chain|) && Contiguous(cuts) && |cuts| > 0
    requires LastBlock(w.db) <= chain[cuts[0].1 - 1].number
    requires Deliveries(events) == CutMessages(chain, cuts)
    requires RunAll(RunBlock(lib), w, NewBlocks(LastBlock(w.db), chain[..cuts[|cuts| - 1].1])).Done?
    ensures var end := cuts[|cuts| - 1].1;
            RunEvents(lib, w, events)
            == WithLastBlock(RunAll(RunBlock(lib), w, NewBlocks(LastBlock(w.db), chain[..end])).work,
                chain[end - 1].number)
  {
    FollowerIgnoresLastBlock(lib);
    AllCutsCommit(RunBlock(lib), w, chain, cuts);
    CrashesAreInvisible(lib, w, events);
  }

  // ----- Order -----

  lemma OrderedBothWays(db: Db, bound: nat, i: nat, j: nat)
    requires Ordered(db, bound) && i in db.payloads && j in db.payloads
    ensures i < j <==> SequenceOf(db.payloads[i]) < SequenceOf(db.payloads[j])
  {
    assert SequenceOf(db.payloads[j]) < SequenceOf(db.payloads[i]) || i <= j;
  }

  /** Newest first by ID is descending `$sequence`, in every state an orderly run reaches. */
  lemma NewestFirst(lib: Lib, w: Work, i: nat, j: nat)
    requires Reached(lib, w, true) && i in w.db.payloads && j in w.db.payloads
    ensures SEQUENCE in w.db.payloads[i].numbers && SEQUENCE in w.db.payloads[j].numbers
    ensures i < j <==> w.db.payloads[i].numbers[SEQUENCE] < w.db.payloads[j].numbers[SEQUENCE]
  {
    OrderedBothWays(w.db, BlockBound(LastBlock(w.db) + 1), i, j);
    assert RowOk(lib, w.db.payloads[i]) && RowOk(lib, w.db.payloads[j]);
  }
}
