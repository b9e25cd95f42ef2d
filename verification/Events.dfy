/** What the follower does to the database, operation by operation, block by block, batch by batch. */
module Events {
  import opened Base
  import opened Language
  import opened Index
  import opened Sequence
  import opened Store

  const EXPIRATION: Str := [36, 101, 120, 112, 105, 114, 97, 116, 105, 111, 110]       // "$expiration"
  const SEQUENCE: Str := [36, 115, 101, 113, 117, 101, 110, 99, 101]                   // "$sequence"
  const CREATED_AT_BLOCK: Str :=
    [36, 99, 114, 101, 97, 116, 101, 100, 65, 116, 66, 108, 111, 99, 107]              // "$createdAtBlock"
  const LAST_MODIFIED_AT_BLOCK: Str :=
    [36, 108, 97, 115, 116, 77, 111, 100, 105, 102, 105, 101, 100, 65, 116, 66, 108, 111, 99, 107]
                                                                                       // "$lastModifiedAtBlock"

  /** The body shared by OPCreate and OPUpdate; owner is the checksummed hex text of the address. */
  datatype Content = Content(
    key: Key,
    payload: Bytes,
    contentType: Str,
    btl: uint64,
    owner: Str,
    strings: map<Str, Str>,
    numbers: map<Str, uint64>)

  datatype Action =
    | Create(content: Content)
    | Update(content: Content)
    | Delete(key: Key)
    | Expire(key: Key)
    | ExtendBTL(key: Key, btl: uint64)
    | ChangeOwner(key: Key, owner: Str)
    | Malformed

  datatype Operation = Operation(txIndex: uint64, opIndex: uint64, action: Action)

  datatype Block = Block(number: uint64, operations: seq<Operation>)

  /** Reading a Go map at an absent key gives the zero value. */
  function ValueOr<V>(attrs: map<Str, V>, name: Str, zero: V): V {
    if name in attrs then attrs[name] else zero
  }

  // ----- Rows written by each operation -----

  function CreatedRow(lib: Lib, block: uint64, o: Operation, c: Content): Row {
    Row(c.key, c.payload, c.contentType,
        c.strings[OWNER := lib.lower(c.owner)]
                 [CREATOR := lib.lower(c.owner)]
                 [KEY := lib.lower(lib.hexKey(c.key))],
        c.numbers[EXPIRATION := Add64(block, c.btl)]
                 [CREATED_AT_BLOCK := block]
                 [LAST_MODIFIED_AT_BLOCK := block]
                 [SEQUENCE := Pack(block, o.txIndex, o.opIndex)]
                 [TX_INDEX := o.txIndex]
                 [OP_INDEX := o.opIndex])
  }

  function UpdatedRow(lib: Lib, block: uint64, c: Content, was: Row): Row {
    Row(c.key, c.payload, c.contentType,
        c.strings[OWNER := lib.lower(c.owner)]
                 [CREATOR := ValueOr(was.strings, CREATOR, [])]
                 [KEY := lib.lower(lib.hexKey(c.key))],
        c.numbers[EXPIRATION := Add64(block, c.btl)]
                 [CREATED_AT_BLOCK := ValueOr(was.numbers, CREATED_AT_BLOCK, 0)]
                 [SEQUENCE := ValueOr(was.numbers, SEQUENCE, 0)]
                 [TX_INDEX := ValueOr(was.numbers, TX_INDEX, 0)]
                 [OP_INDEX := ValueOr(was.numbers, OP_INDEX, 0)]
                 [LAST_MODIFIED_AT_BLOCK := block])
  }

  function ExtendedExpiration(was: Row, btl: uint64): uint64 {
    Add64(ValueOr(was.numbers, EXPIRATION, 0), btl)
  }

  function ExtendedRow(key: Key, btl: uint64, was: Row): Row {
    was.(key := key, numbers := was.numbers[EXPIRATION := ExtendedExpiration(was, btl)])
  }

  function ReownedRow(lib: Lib, key: Key, owner: Str, was: Row): Row {
    was.(key := key, strings := was.strings[OWNER := lib.lower(owner)])
  }

  // ----- One operation, with the index written directly -----

  /** Success with the new state, or failure with the ID counter the failed batch leaves behind. */
  datatype Outcome = Done(work: Work) | Failed(next: nat)

  function WithIndex(w: Work, strings: Index<Str>, numbers: Index<uint64>): Work {
    w.(db := w.db.(strings := strings, numbers := numbers))
  }

  function StepCreate(lib: Lib, w: Work, block: uint64, o: Operation, c: Content): Work {
    var row := CreatedRow(lib, block, o, c);
    var id := UpsertId(w, c.key);
    WithIndex(Upsert(w, row), AddAll(w.db.strings, row.strings, id), AddAll(w.db.numbers, Indexed(row.numbers), id))
  }

  function StepUpdate(lib: Lib, w: Work, block: uint64, c: Content): Outcome {
    match GetCurrent(w.db, c.key)
    case None => Failed(w.next)
    case Some((id, was)) =>
      var row := UpdatedRow(lib, block, c, was);
      Done(WithIndex(Upsert(w, row),
                     AddAll(RemoveAll(w.db.strings, was.strings, id), row.strings, id),
                     AddAll(RemoveAll(w.db.numbers, Indexed(was.numbers), id), Indexed(row.numbers), id)))
  }

  function StepDelete(w: Work, key: Key): Outcome {
    match GetCurrent(w.db, key)
    case None => Failed(w.next)
    case Some((id, was)) =>
      match DeleteCurrent(w.db, key)
      case None => Failed(w.next)
      case Some(db) =>
        Done(WithIndex(Work(db, w.next),
                       RemoveAll(w.db.strings, was.strings, id),
                       RemoveAll(w.db.numbers, Indexed(was.numbers), id)))
  }

  function StepExtend(w: Work, key: Key, btl: uint64): Outcome {
    match GetCurrent(w.db, key)
    case None => Failed(w.next)
    case Some((id, was)) =>
      Done(WithIndex(Upsert(w, ExtendedRow(key, btl, was)),
                     w.db.strings,
                     Add(Remove(w.db.numbers, EXPIRATION, ValueOr(was.numbers, EXPIRATION, 0), id),
                         EXPIRATION, ExtendedExpiration(was, btl), id)))
  }

  function StepReown(lib: Lib, w: Work, key: Key, owner: Str): Outcome {
    match GetCurrent(w.db, key)
    case None => Failed(w.next)
    case Some((id, was)) =>
      Done(WithIndex(Upsert(w, ReownedRow(lib, key, owner, was)),
                     Add(Remove(w.db.strings, OWNER, ValueOr(was.strings, OWNER, []), id), OWNER, lib.lower(owner), id),
                     w.db.numbers))
  }

  function Step(lib: Lib, w: Work, block: uint64, o: Operation): Outcome {
    match o.action
    case Create(c) => Done(StepCreate(lib, w, block, o, c))
    case Update(c) => StepUpdate(lib, w, block, c)
    case Delete(key) => StepDelete(w, key)
    case Expire(key) => StepDelete(w, key)
    case ExtendBTL(key, btl) => StepExtend(w, key, btl)
    case ChangeOwner(key, owner) => StepReown(lib, w, key, owner)
    case Malformed => Failed(w.next)
  }

  /** The row an operation writes; None when it writes none. */
  function Written(lib: Lib, w: Work, block: uint64, o: Operation): Option<Row> {
    match o.action
    case Create(c) => Some(CreatedRow(lib, block, o, c))
    case Update(c) =>
      (match GetCurrent(w.db, c.key) case Some((_, was)) => Some(UpdatedRow(lib, block, c, was)) case None => None)
    case ExtendBTL(key, btl) =>
      (match GetCurrent(w.db, key) case Some((_, was)) => Some(ExtendedRow(key, btl, was)) case None => None)
    case ChangeOwner(key, owner) =>
      (match GetCurrent(w.db, key) case Some((_, was)) => Some(ReownedRow(lib, key, owner, was)) case None => None)
    case _ => None
  }

  /** Index apart, u is w with one row upserted, or with the live entity of one key removed. */
  predicate Effect(w: Work, u: Work, written: Option<Row>, key: Key) {
    match written
    case Some(row) => u == WithIndex(Upsert(w, row), u.db.strings, u.db.numbers)
    case None =>
      && key in w.db.current
      && u.next == w.next && u.db.idCounter == w.db.idCounter
      && u.db.payloads == w.db.payloads - {w.db.current[key]}
      && u.db.current == w.db.current - {key}
  }

  function KeyOf(o: Operation): Option<Key> {
    match o.action
    case Create(c) => Some(c.key)
    case Update(c) => Some(c.key)
    case Malformed => None
    case _ => Some(o.action.key)
  }

  lemma StepEffect(lib: Lib, w: Work, block: uint64, o: Operation)
    requires Step(lib, w, block, o).Done?
    ensures KeyOf(o).Some? && Effect(w, Step(lib, w, block, o).work, Written(lib, w, block, o), KeyOf(o).value)
    ensures Written(lib, w, block, o).Some? ==> Written(lib, w, block, o).value.key == KeyOf(o).value
  {
  }

  // ----- Blocks and batches -----

  predicate Updates(o: Operation, key: Key) {
    o.action.Update? && o.action.content.key == key
  }

  /** ops[0] is an update that a later update of the same key in the block replaces. */
  predicate Superseded(ops: seq<Operation>)
    requires |ops| > 0
  {
    ops[0].action.Update? && exists j :: 0 < j < |ops| && Updates(ops[j], ops[0].action.content.key)
  }

  /** Run operations in order, with or without dropping superseded updates. */
  function RunOperations(lib: Lib, w: Work, block: uint64, ops: seq<Operation>, coalesce: bool): Outcome
    decreases ops
  {
    if |ops| == 0 then Done(w)
    else if coalesce && Superseded(ops) then RunOperations(lib, w, block, ops[1..], coalesce)
    else
      match Step(lib, w, block, ops[0])
      case Done(w') => RunOperations(lib, w', block, ops[1..], coalesce)
      case Failed(n) => Failed(n)
  }

  /** How one block is run; RunBlock(lib) is the follower's way. */
  type BlockRun = (Work, Block) -> Outcome

  function RunBlock(lib: Lib): BlockRun {
    (w: Work, b: Block) => RunOperations(lib, w, b.number, b.operations, true)
  }

  /** The blocks of a batch, skipping those at or below the last block stored when the batch began. */
  function RunBlocks(run: BlockRun, w: Work, last: uint64, blocks: seq<Block>): Outcome
    decreases blocks
  {
    if |blocks| == 0 then Done(w)
    else if blocks[0].number <= last then RunBlocks(run, w, last, blocks[1..])
    else
      match run(w, blocks[0])
      case Done(w') => RunBlocks(run, w', last, blocks[1..])
      case Failed(n) => Failed(n)
  }

  function WithLastBlock(w: Work, number: uint64): Work {
    w.(db := w.db.(lastBlock := Some(number)))
  }

  function Stamp(o: Outcome, number: uint64): Outcome {
    match o
    case Done(w) => Done(WithLastBlock(w, number))
    case Failed(n) => Failed(n)
  }

  /** A whole batch: the state a commit leaves, or the failure that leaves the database alone. */
  function RunBatch(run: BlockRun, w: Work, blocks: seq<Block>): Outcome
    requires |blocks| > 0
  {
    Stamp(RunBlocks(run, w, LastBlock(w.db), blocks), blocks[|blocks| - 1].number)
  }

  /** A message of the batch iterator: an error, or a batch of blocks. */
  datatype Message = ReceiveError | Batch(blocks: seq<Block>)

  /**
   * The store after a sequence of messages, and whether it consumed them all:
   * it stops at an error, at a batch that fails, and at an empty batch, whose
   * first block the source reads without a test.
   */
  function RunMessages(run: BlockRun, w: Work, messages: seq<Message>): (Work, bool)
    decreases messages
  {
    if |messages| == 0 then (w, true)
    else if messages[0].ReceiveError? || |messages[0].blocks| == 0 then (w, false)
    else
      match RunBatch(run, w, messages[0].blocks)
      case Done(u) => RunMessages(run, u, messages[1..])
      case Failed(n) => (Work(w.db, n), false)
  }
}
