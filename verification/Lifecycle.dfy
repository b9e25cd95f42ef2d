/** What a delivered batch keeps beyond the index: the shape of rows, the IDs, the order by sequence number. */
module Lifecycle {
  import opened Base
  import opened Language
  import opened Encoding
  import opened Sequence
  import opened Store
  import opened Events
  import opened Invariants
  import opened Batching

  // ----- Rows of a reachable database -----

  /**
   * The synthetic attributes are present, in lower case; every key of the row is
   * addressable, and its record decodes.
   */
  predicate RowOk(lib: Lib, row: Row) {
    && OWNER in row.strings && CREATOR in row.strings && KEY in row.strings && SEQUENCE in row.numbers
    && row.strings[KEY] == lib.lower(lib.hexKey(row.key))
    && lib.lower(row.strings[OWNER]) == row.strings[OWNER]
    && lib.lower(row.strings[CREATOR]) == row.strings[CREATOR]
    && |row.contentType| < TWO16
    && (forall n :: n in row.strings ==> StringFits(n, row.strings[n]))
    && (forall n :: n in row.numbers ==> NumericFits(n))
  }

  predicate RowsOk(lib: Lib, db: Db) {
    forall id :: id in db.payloads ==> RowOk(lib, db.payloads[id])
  }

  predicate ContentFits(lib: Lib, c: Content) {
    && |c.contentType| < TWO16
    && (forall n :: n in c.strings ==> StringFits(n, c.strings[n]))
    && (forall n :: n in c.numbers ==> NumericFits(n))
    && StringFits(CREATOR, lib.lower(c.owner)) && StringFits(KEY, lib.lower(lib.hexKey(c.key)))
  }

  /** What an operation brings fits the 16-bit lengths of keys and records. */
  predicate OperationFits(lib: Lib, o: Operation) {
    match o.action
    case Create(c) => ContentFits(lib, c)
    case Update(c) => ContentFits(lib, c)
    case ChangeOwner(_, owner) => StringFits(OWNER, lib.lower(owner))
    case _ => true
  }

  lemma CreatedRowOk(lib: Lib, block: uint64, o: Operation, c: Content)
    requires LowerIsIdempotent(lib) && ContentFits(lib, c)
    ensures RowOk(lib, CreatedRow(lib, block, o, c))
  {
  }

  lemma UpdatedRowOk(lib: Lib, block: uint64, c: Content, was: Row)
    requires LowerIsIdempotent(lib) && ContentFits(lib, c) && RowOk(lib, was)
    ensures RowOk(lib, UpdatedRow(lib, block, c, was))
  {
  }

  lemma ExtendedRowOk(lib: Lib, key: Key, btl: uint64, was: Row)
    requires RowOk(lib, was) && was.key == key
    ensures RowOk(lib, ExtendedRow(key, btl, was))
  {
  }

  lemma ReownedRowOk(lib: Lib, key: Key, owner: Str, was: Row)
    requires LowerIsIdempotent(lib) && RowOk(lib, was) && was.key == key && StringFits(OWNER, lib.lower(owner))
    ensures RowOk(lib, ReownedRow(lib, key, owner, was))
  {
  }

  lemma WrittenRowOk(lib: Lib, w: Work, block: uint64, o: Operation)
    requires LowerIsIdempotent(lib) && OperationFits(lib, o)
    requires Inverse(w.db.current, w.db.payloads) && RowsOk(lib, w.db)
    ensures match Written(lib, w, block, o) case Some(row) => RowOk(lib, row) case None => true
  {
    var a := o.action;
    if a.Create? {
      CreatedRowOk(lib, block, o, a.content);
    } else if a.Update? && a.content.key in w.db.current {
      UpdatedRowOk(lib, block, a.content, w.db.payloads[w.db.current[a.content.key]]);
    } else if a.ExtendBTL? && a.key in w.db.current {
      ExtendedRowOk(lib, a.key, a.btl, w.db.payloads[w.db.current[a.key]]);
    } else if a.ChangeOwner? && a.key in w.db.current {
      ReownedRowOk(lib, a.key, a.owner, w.db.payloads[w.db.current[a.key]]);
    }
  }

  lemma EffectKeepsRows(lib: Lib, w: Work, u: Work, written: Option<Row>, key: Key)
    requires Effect(w, u, written, key) && RowsOk(lib, w.db) && (written.Some? ==> RowOk(lib, written.value))
    ensures RowsOk(lib, u.db)
  {
  }

  lemma StepKeepsRows(lib: Lib, w: Work, block: uint64, o: Operation)
    requires LowerIsIdempotent(lib) && OperationFits(lib, o)
    requires Inverse(w.db.current, w.db.payloads) && RowsOk(lib, w.db)
    ensures match Step(lib, w, block, o) case Done(u) => RowsOk(lib, u.db) case Failed(_) => true
  {
    match Step(lib, w, block, o)
    case Failed(_) =>
    case Done(u) =>
      StepEffect(lib, w, block, o);
      WrittenRowOk(lib, w, block, o);
      EffectKeepsRows(lib, w, u, Written(lib, w, block, o), KeyOf(o).value);
  }

  // ----- IDs -----

  /** From w to u, new entities took the IDs from w.next up to u.next, and the counter was persisted. */
  predicate Allocates(w: Work, u: Work) {
    && w.next <= u.next
    && Counter(u.db) == (if w.next < u.next then u.next else Counter(w.db))
    && forall id :: id in u.db.payloads && id !in w.db.payloads ==> w.next <= id < u.next
  }

  /** Only a create of a key that is not live takes an ID, and it takes the next one. */
  lemma StepAllocates(lib: Lib, w: Work, block: uint64, o: Operation)
    requires Sound(w) && Step(lib, w, block, o).Done?
    ensures var u := Step(lib, w, block, o).work;
            && Allocates(w, u)
            && (if o.action.Create? && o.action.content.key !in w.db.current
                then u.next == w.next + 1 && o.action.content.key in u.db.current
                     && u.db.current[o.action.content.key] == w.next
                else u.next == w.next)
  {
    StepEffect(lib, w, block, o);
    if !o.action.Create? {
      LiveUnlessCreated(lib, w, block, o);
    }
    EffectAllocates(w, Step(lib, w, block, o).work, Written(lib, w, block, o), KeyOf(o).value);
  }

  lemma EffectAllocates(w: Work, u: Work, written: Option<Row>, key: Key)
    requires Sound(w) && Effect(w, u, written, key) && (written.Some? ==> written.value.key == key)
    ensures Allocates(w, u)
    ensures u.next == (if key in w.db.current then w.next else w.next + 1)
    ensures key !in w.db.current ==> key in u.db.current && u.db.current[key] == w.next
  {
  }

  lemma LiveUnlessCreated(lib: Lib, w: Work, block: uint64, o: Operation)
    requires Step(lib, w, block, o).Done? && !o.action.Create?
    ensures KeyOf(o).Some? && KeyOf(o).value in w.db.current
  {
  }

  lemma AllocatesTransitively(u: Work, v: Work, w: Work)
    requires Allocates(u, v) && Allocates(v, w)
    ensures Allocates(u, w)
  {
  }

  lemma {:induction false} OperationsAllocate(lib: Lib, w: Work, block: uint64, ops: seq<Operation>)
    requires Sound(w)
    ensures match RunOperations(lib, w, block, ops, true)
            case Done(u) => Sound(u) && Allocates(w, u)
            case Failed(_) => true
    decreases ops
  {
    if |ops| > 0 {
      if Superseded(ops) {
        OperationsAllocate(lib, w, block, ops[1..]);
      } else {
        StepKeepsSound(lib, w, block, ops[0]);
        match Step(lib, w, block, ops[0])
        case Failed(_) =>
        case Done(u) =>
          StepAllocates(lib, w, block, ops[0]);
          OperationsAllocate(lib, u, block, ops[1..]);
          match RunOperations(lib, u, block, ops[1..], true)
          case Failed(_) =>
          case Done(v) => AllocatesTransitively(w, u, v);
      }
    }
  }

  lemma {:induction false} BlocksAllocate(lib: Lib, w: Work, last: uint64, blocks: seq<Block>)
    requires Sound(w)
    ensures match RunBlocks(RunBlock(lib), w, last, blocks)
            case Done(u) => Sound(u) && Allocates(w, u)
            case Failed(_) => true
    decreases blocks
  {
    if |blocks| > 0 {
      if blocks[0].number <= last {
        BlocksAllocate(lib, w, last, blocks[1..]);
      } else {
        OperationsAllocate(lib, w, blocks[0].number, blocks[0].operations);
        match RunBlock(lib)(w, blocks[0])
        case Failed(_) =>
        case Done(u) =>
          BlocksAllocate(lib, u, last, blocks[1..]);
          match RunBlocks(RunBlock(lib), u, last, blocks[1..])
          case Failed(_) =>
          case Done(v) => AllocatesTransitively(w, u, v);
      }
    }
  }

  predicate Deletes(o: Operation, key: Key) {
    (o.action.Delete? || o.action.Expire?) && o.action.key == key
  }

  /** The key is live under this ID. */
  predicate LiveAs(w: Work, key: Key, id: nat) {
    key in w.db.current && w.db.current[key] == id
  }

  /** A live key keeps its ID through every operation but its own deletion. */
  lemma StepKeepsId(lib: Lib, w: Work, block: uint64, o: Operation, key: Key, id: nat)
    requires LiveAs(w, key, id) && !Deletes(o, key)
    ensures match Step(lib, w, block, o) case Done(u) => LiveAs(u, key, id) case Failed(_) => true
  {
    match Step(lib, w, block, o)
    case Failed(_) =>
    case Done(u) => StepEffect(lib, w, block, o);
  }

  /** No operation of the blocks deletes the key. */
  predicate NoDelete(blocks: seq<Block>, key: Key) {
    forall b, o :: b in blocks && o in b.operations ==> !Deletes(o, key)
  }

  lemma {:induction false} OperationsKeepId(lib: Lib, w: Work, block: uint64, ops: seq<Operation>, key: Key, id: nat)
    requires LiveAs(w, key, id) && forall o :: o in ops ==> !Deletes(o, key)
    ensures match RunOperations(lib, w, block, ops, true) case Done(u) => LiveAs(u, key, id) case Failed(_) => true
    decreases ops
  {
    if |ops| > 0 {
      assert ops[0] in ops;
      if Superseded(ops) {
        OperationsKeepId(lib, w, block, ops[1..], key, id);
      } else {
        StepKeepsId(lib, w, block, ops[0], key, id);
        match Step(lib, w, block, ops[0])
        case Done(u) => OperationsKeepId(lib, u, block, ops[1..], key, id);
        case Failed(_) =>
      }
    }
  }

  lemma {:induction false} BlocksKeepId(lib: Lib, w: Work, last: uint64, blocks: seq<Block>, key: Key, id: nat)
    requires LiveAs(w, key, id) && NoDelete(blocks, key)
    ensures match RunBlocks(RunBlock(lib), w, last, blocks) case Done(u) => LiveAs(u, key, id) case Failed(_) => true
    decreases blocks
  {
    if |blocks| > 0 {
      assert blocks[0] in blocks && forall b :: b in blocks[1..] ==> b in blocks;
      if blocks[0].number <= last {
        BlocksKeepId(lib, w, last, blocks[1..], key, id);
      } else {
        OperationsKeepId(lib, w, blocks[0].number, blocks[0].operations, key, id);
        match RunBlock(lib)(w, blocks[0])
        case Done(u) => BlocksKeepId(lib, u, last, blocks[1..], key, id);
        case Failed(_) =>
      }
    }
  }

  // ----- Order by ID and order by $sequence -----

  function SequenceOf(row: Row): uint64 {
    ValueOr(row.numbers, SEQUENCE, 0)
  }

  /** Newer IDs carry larger sequence numbers, all below the bound. */
  predicate Ordered(db: Db, bound: nat) {
    && (forall i, j :: i in db.payloads && j in db.payloads && i < j
                       ==> SequenceOf(db.payloads[i]) < SequenceOf(db.payloads[j]))
    && (forall i :: i in db.payloads ==> SequenceOf(db.payloads[i]) < bound)
  }

  /** Updates and changes keep the sequence number; a create packs its position. */
  lemma WrittenSequence(lib: Lib, w: Work, block: uint64, o: Operation)
    requires Inverse(w.db.current, w.db.payloads)
    ensures match Written(lib, w, block, o)
            case None => true
            case Some(row) =>
              if o.action.Create? then SequenceOf(row) == Pack(block, o.txIndex, o.opIndex)
              else row.key in w.db.current && SequenceOf(row) == SequenceOf(w.db.payloads[w.db.current[row.key]])
  {
  }

  lemma EffectKeepsOrder(w: Work, u: Work, written: Option<Row>, key: Key, before: nat, after: nat)
    requires Valid(w) && Effect(w, u, written, key) && Ordered(w.db, before) && before <= after
    requires match written
             case None => true
             case Some(row) =>
               if row.key in w.db.current then SequenceOf(row) == SequenceOf(w.db.payloads[w.db.current[row.key]])
               else before <= SequenceOf(row) < after
    ensures Ordered(u.db, after)
  {
  }

  /** A create later in the chain than everything stored keeps order by ID and by sequence number the same. */
  lemma StepKeepsOrder(lib: Lib, w: Work, block: uint64, o: Operation, bound: nat)
    requires Valid(w) && Fresh(w.db.current.Keys, o)
    requires Ordered(w.db, bound) && bound <= Pack(block, o.txIndex, o.opIndex)
    ensures match Step(lib, w, block, o)
            case Done(u) => Ordered(u.db, Pack(block, o.txIndex, o.opIndex) + 1)
            case Failed(_) => true
  {
    match Step(lib, w, block, o)
    case Failed(_) =>
    case Done(u) =>
      StepEffect(lib, w, block, o);
      WrittenSequence(lib, w, block, o);
      EffectKeepsOrder(w, u, Written(lib, w, block, o), KeyOf(o).value, bound, Pack(block, o.txIndex, o.opIndex) + 1);
  }

  // ----- Blocks and batches -----

  /** Operations come in the order of their positions in the block, and the positions fit their fields. */
  predicate OperationsInOrder(block: uint64, ops: seq<Operation>) {
    && (forall i :: 0 <= i < |ops| ==> InBounds(block, ops[i].txIndex, ops[i].opIndex))
    && (forall i, j :: 0 <= i < j < |ops|
                       ==> Earlier(block, ops[i].txIndex, ops[i].opIndex, block, ops[j].txIndex, ops[j].opIndex))
  }

  /** The operations fit; an orderly block also has its operations in order. */
  predicate BlockOk(lib: Lib, b: Block, orderly: bool) {
    && (forall o :: o in b.operations ==> OperationFits(lib, o))
    && (orderly ==> b.number < TWO32 && OperationsInOrder(b.number, b.operations))
  }

  /**
   * What a caller can check of a batch before delivering it: creates name keys
   * that are not live, and attributes fit. An orderly batch also has its
   * blocks in order and does not end before the stored last block.
   */
  predicate Feed(lib: Lib, w: Work, blocks: seq<Block>, orderly: bool) {
    && |blocks| > 0
    && FreshBlocks(w.db.current.Keys, LastBlock(w.db), blocks)
    && (forall b :: b in blocks ==> BlockOk(lib, b, orderly))
    && (orderly ==> Increasing(blocks) && LastBlock(w.db) <= blocks[|blocks| - 1].number)
  }

  ghost predicate Good(lib: Lib, w: Work, orderly: bool, bound: nat) {
    Valid(w) && RowsOk(lib, w.db) && (orderly ==> Ordered(w.db, bound))
  }

  function BlockBound(number: nat): nat {
    number * TWO32
  }

  lemma LaterPacksAbove(block: uint64, ops: seq<Operation>)
    requires |ops| > 0 && OperationsInOrder(block, ops)
    ensures OperationsInOrder(block, ops[1..])
    ensures Pack(block, ops[0].txIndex, ops[0].opIndex) < BlockBound(block + 1)
    ensures forall o :: o in ops[1..] ==>
              Pack(block, ops[0].txIndex, ops[0].opIndex) < Pack(block, o.txIndex, o.opIndex)
  {
    PackIsSum(block, ops[0].txIndex, ops[0].opIndex);
    forall o | o in ops[1..]
      ensures Pack(block, ops[0].txIndex, ops[0].opIndex) < Pack(block, o.txIndex, o.opIndex)
    {
      var j :| 0 < j < |ops| && ops[j] == o;
      PackMonotone(block, ops[0].txIndex, ops[0].opIndex, block, o.txIndex, o.opIndex);
    }
  }

  lemma StepKeepsGood(lib: Lib, w: Work, block: uint64, o: Operation, orderly: bool, bound: nat)
    requires LowerIsIdempotent(lib) && Good(lib, w, orderly, bound)
    requires Fresh(w.db.current.Keys, o) && OperationFits(lib, o)
    requires orderly ==> bound <= Pack(block, o.txIndex, o.opIndex)
    ensures match Step(lib, w, block, o)
            case Failed(_) => true
            case Done(u) =>
              Good(lib, u, orderly, Pack(block, o.txIndex, o.opIndex) + 1) && Allocates(w, u)
              && u.db.current.Keys == LiveAfter(w.db.current.Keys, o)
  {
    match Step(lib, w, block, o)
    case Failed(_) =>
    case Done(_) =>
      StepKeepsValid(lib, w, block, o);
      StepKeepsRows(lib, w, block, o);
      StepAllocates(lib, w, block, o);
      if orderly {
        StepKeepsOrder(lib, w, block, o, bound);
      }
  }

  lemma {:induction false} OperationsKeepGood(lib: Lib, w: Work, block: uint64, ops: seq<Operation>, orderly: bool,
      bound: nat)
    requires LowerIsIdempotent(lib) && Good(lib, w, orderly, bound)
    requires FreshCreates(w.db.current.Keys, ops) && forall o :: o in ops ==> OperationFits(lib, o)
    requires orderly ==>
               && bound <= BlockBound(block + 1) && OperationsInOrder(block, ops)
               && forall o :: o in ops ==> bound <= Pack(block, o.txIndex, o.opIndex)
    requires RunOperations(lib, w, block, ops, true).Done?
    ensures var u := RunOperations(lib, w, block, ops, true).work;
            Good(lib, u, orderly, BlockBound(block + 1)) && Allocates(w, u)
    decreases ops
  {
    if |ops| > 0 {
      if orderly {
        LaterPacksAbove(block, ops);
      }
      assert ops[0] in ops;
      if Superseded(ops) {
        OperationsKeepGood(lib, w, block, ops[1..], orderly, bound);
      } else {
        var u := Step(lib, w, block, ops[0]).work;
        StepKeepsGood(lib, w, block, ops[0], orderly, bound);
        OperationsKeepGood(lib, u, block, ops[1..], orderly, Pack(block, ops[0].txIndex, ops[0].opIndex) + 1);
        AllocatesTransitively(w, u, RunOperations(lib, u, block, ops[1..], true).work);
      }
    }
  }

  lemma OperationsPackAbove(b: Block)
    requires b.number < TWO32 && OperationsInOrder(b.number, b.operations)
    ensures forall o :: o in b.operations ==> BlockBound(b.number) <= Pack(b.number, o.txIndex, o.opIndex)
  {
    forall o | o in b.operations
      ensures BlockBound(b.number) <= Pack(b.number, o.txIndex, o.opIndex)
    {
      PackIsSum(b.number, o.txIndex, o.opIndex);
    }
  }

  lemma BlockKeepsGood(lib: Lib, w: Work, b: Block, orderly: bool, bound: nat)
    requires LowerIsIdempotent(lib) && Good(lib, w, orderly, bound)
    requires FreshCreates(w.db.current.Keys, b.operations) && BlockOk(lib, b, orderly)
    requires orderly ==> bound <= BlockBound(b.number)
    requires RunBlock(lib)(w, b).Done?
    ensures var u := RunBlock(lib)(w, b).work;
            && Good(lib, u, orderly, BlockBound(b.number + 1)) && Allocates(w, u)
            && u.db.current.Keys == LiveAfterAll(w.db.current.Keys, b.operations)
  {
    if orderly {
      OperationsPackAbove(b);
    }
    OperationsKeepGood(lib, w, b.number, b.operations, orderly, bound);
    OperationsKeepValid(lib, w, b.number, b.operations, true);
  }

  lemma {:induction false} BlocksKeepGood(
    lib: Lib, w: Work, last: uint64, blocks: seq<Block>, orderly: bool, bound: nat, final: nat)
    requires LowerIsIdempotent(lib) && Good(lib, w, orderly, bound)
    requires FreshBlocks(w.db.current.Keys, last, blocks) && forall b :: b in blocks ==> BlockOk(lib, b, orderly)
    requires orderly ==>
               && Increasing(blocks) && bound <= final
               && (forall b :: b in blocks ==> BlockBound(b.number + 1) <= final)
               && (forall b :: b in blocks && b.number > last ==> bound <= BlockBound(b.number))
    requires RunBlocks(RunBlock(lib), w, last, blocks).Done?
    ensures var u := RunBlocks(RunBlock(lib), w, last, blocks).work; Good(lib, u, orderly, final) && Allocates(w, u)
    decreases blocks
  {
    if |blocks| > 0 {
      var b := blocks[0];
      assert b in blocks;
      if b.number <= last {
        BlocksKeepGood(lib, w, last, blocks[1..], orderly, bound, final);
      } else {
        BlockKeepsGood(lib, w, b, orderly, bound);
        var u := RunBlock(lib)(w, b).work;
        BlocksKeepGood(lib, u, last, blocks[1..], orderly, BlockBound(b.number + 1), final);
        AllocatesTransitively(w, u, RunBlocks(RunBlock(lib), u, last, blocks[1..]).work);
      }
    }
  }

  /** Valid, with well-formed rows; if orderly, with every sequence number below the first one of the next block. */
  ghost predicate Reached(lib: Lib, w: Work, orderly: bool) {
    Good(lib, w, orderly, BlockBound(LastBlock(w.db) + 1))
  }

  lemma GoodIgnoresLastBlock(lib: Lib, u: Work, orderly: bool, bound: nat, number: uint64)
    requires Good(lib, u, orderly, bound)
    ensures Good(lib, WithLastBlock(u, number), orderly, bound)
  {
    TablesIgnoreOthers(u.db, WithLastBlock(u, number).db);
  }

  lemma AllocatesIgnoresLastBlock(w: Work, u: Work, number: uint64)
    requires Allocates(w, u)
    ensures Allocates(w, WithLastBlock(u, number))
  {
  }

  /** A delivered batch, whether it commits or fails. */
  lemma BatchKeepsReached(lib: Lib, w: Work, blocks: seq<Block>, orderly: bool)
    requires LowerIsIdempotent(lib) && Reached(lib, w, orderly) && Feed(lib, w, blocks, orderly)
    ensures match RunBatch(RunBlock(lib), w, blocks)
            case Done(u) => Reached(lib, u, orderly) && Allocates(w, u) && (orderly
                ==> LastBlock(u.db) >= LastBlock(w.db))
            case Failed(n) => n >= w.next
  {
    var end: nat := blocks[|blocks| - 1].number;
    match RunBlocks(RunBlock(lib), w, LastBlock(w.db), blocks)
    case Failed(_) =>
      BlocksKeepValid(lib, w, LastBlock(w.db), blocks);
    case Done(u) =>
      BlocksKeepGood(lib, w, LastBlock(w.db), blocks, orderly, BlockBound(LastBlock(w.db) + 1), BlockBound(end + 1));
      GoodIgnoresLastBlock(lib, u, orderly, BlockBound(end + 1), end);
      AllocatesIgnoresLastBlock(w, u, end);
      assert LastBlock(WithLastBlock(u, end).db) == end;
  }
}
