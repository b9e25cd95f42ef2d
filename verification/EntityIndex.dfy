/** The index seen one entity at a time: what each operation does to the bits of one ID. */
module EntityIndex {
  import opened Base
  import opened Language
  import opened Index
  import opened Store
  import opened Events
  import opened Invariants

  /** The bits of the ID are exactly these attributes. */
  ghost predicate ExactAt<V(!new)>(ix: Index<V>, attrs: map<Str, V>, id: nat) {
    forall n, v {:trigger id in Look(ix, n, v)} {:trigger Has(attrs, n, v)} ::
      id in Look(ix, n, v) <==> Has(attrs, n, v)
  }

  /** The ID has the same bits in both. */
  ghost predicate SameAt<V(!new)>(x: Index<V>, y: Index<V>, id: nat) {
    forall n, v {:trigger id in Look(x, n, v)} {:trigger id in Look(y, n, v)} ::
      id in Look(x, n, v) <==> id in Look(y, n, v)
  }

  // ----- Changes to the bits of one ID -----

  datatype Change<V> =
    | Keep
    | Insert(attrs: map<Str, V>)
    | Replace(was: map<Str, V>, attrs: map<Str, V>)
    | Erase(was: map<Str, V>)
    | Move(name: Str, from: V, to: V)

  function Apply<V>(ix: Index<V>, c: Change<V>, id: nat): Index<V> {
    match c
    case Keep => ix
    case Insert(attrs) => AddAll(ix, attrs, id)
    case Replace(was, attrs) => AddAll(RemoveAll(ix, was, id), attrs, id)
    case Erase(was) => RemoveAll(ix, was, id)
    case Move(name, from, to) => Add(Remove(ix, name, from, id), name, to, id)
  }

  /** The change was made for an entity with these attributes; an insertion for one with none. */
  predicate MadeFor<V(==)>(c: Change<V>, was: map<Str, V>) {
    match c
    case Keep => true
    case Insert(_) => was == map[]
    case Replace(old', _) => old' == was
    case Erase(old') => old' == was
    case Move(name, from, _) => name in was ==> was[name] == from
  }

  function Result<V>(c: Change<V>, was: map<Str, V>): map<Str, V> {
    match c
    case Keep => was
    case Insert(attrs) => attrs
    case Replace(_, attrs) => attrs
    case Erase(_) => map[]
    case Move(name, _, to) => was[name := to]
  }

  lemma AddAllAt<V(!new)>(ix: Index<V>, attrs: map<Str, V>, id: nat)
    ensures forall n, v, j ::
              j in Look(AddAll(ix, attrs, id), n, v) <==> j in Look(ix, n, v) || (j == id && Has(attrs, n, v))
    ensures NoEmpty(ix) ==> NoEmpty(AddAll(ix, attrs, id))
  {
    AddAllLook(ix, attrs, id);
  }

  lemma RemoveAllAt<V(!new)>(ix: Index<V>, attrs: map<Str, V>, id: nat)
    ensures forall n, v, j ::
              j in Look(RemoveAll(ix, attrs, id), n, v) <==> j in Look(ix, n, v) && !(j == id && Has(attrs, n, v))
    ensures NoEmpty(ix) ==> NoEmpty(RemoveAll(ix, attrs, id))
  {
    RemoveAllLook(ix, attrs, id);
  }

  lemma MoveAt<V(!new)>(ix: Index<V>, name: Str, from: V, to: V, id: nat)
    ensures var r := Add(Remove(ix, name, from, id), name, to, id);
            && (forall n, v, j :: j in Look(r, n, v) <==>
                  || (j in Look(ix, n, v) && !(j == id && n == name && v == from))
                  || (j == id && n == name && v == to))
            && (NoEmpty(ix) ==> NoEmpty(r))
  {
    var removed := Remove(ix, name, from, id);
    WriteLook(ix, name, from, Look(ix, name, from) - {id});
    WriteLook(removed, name, to, Look(removed, name, to) + {id});
  }

  /** Other IDs keep their bits, and no empty bitmap appears. */
  lemma ApplyElsewhere<V(!new)>(ix: Index<V>, c: Change<V>, id: nat, j: nat)
    requires j != id
    ensures SameAt(Apply(ix, c, id), ix, j)
  {
    match c
    case Keep =>
    case Insert(attrs) => AddAllAt(ix, attrs, id);
    case Replace(was, attrs) =>
      RemoveAllAt(ix, was, id);
      AddAllAt(RemoveAll(ix, was, id), attrs, id);
    case Erase(was) => RemoveAllAt(ix, was, id);
    case Move(name, from, to) => MoveAt(ix, name, from, to, id);
  }

  lemma ApplyNoEmpty<V(!new)>(ix: Index<V>, c: Change<V>, id: nat)
    requires NoEmpty(ix)
    ensures NoEmpty(Apply(ix, c, id))
  {
    match c
    case Keep =>
    case Insert(attrs) => AddAllAt(ix, attrs, id);
    case Replace(was, attrs) =>
      RemoveAllAt(ix, was, id);
      AddAllAt(RemoveAll(ix, was, id), attrs, id);
    case Erase(was) => RemoveAllAt(ix, was, id);
    case Move(name, from, to) => MoveAt(ix, name, from, to, id);
  }

  /** Made for the attributes the bits stand for, a change leaves bits that stand for its result. */
  lemma ApplyExact<V(!new)>(ix: Index<V>, was: map<Str, V>, c: Change<V>, id: nat)
    requires ExactAt(ix, was, id) && MadeFor(c, was)
    ensures ExactAt(Apply(ix, c, id), Result(c, was), id)
  {
    match c
    case Keep =>
    case Insert(attrs) => AddAllAt(ix, attrs, id);
    case Replace(_, attrs) =>
      RemoveAllAt(ix, was, id);
      AddAllAt(RemoveAll(ix, was, id), attrs, id);
    case Erase(_) => RemoveAllAt(ix, was, id);
    case Move(name, from, to) => MoveAt(ix, name, from, to, id);
  }

  /** The same change keeps equal bits equal. */
  lemma ApplySame<V(!new)>(x: Index<V>, y: Index<V>, c: Change<V>, id: nat)
    requires SameAt(x, y, id)
    ensures SameAt(Apply(x, c, id), Apply(y, c, id), id)
  {
    match c
    case Keep =>
    case Insert(attrs) =>
      AddAllAt(x, attrs, id);
      AddAllAt(y, attrs, id);
    case Replace(was, attrs) =>
      RemoveAllAt(x, was, id);
      RemoveAllAt(y, was, id);
      AddAllAt(RemoveAll(x, was, id), attrs, id);
      AddAllAt(RemoveAll(y, was, id), attrs, id);
    case Erase(was) =>
      RemoveAllAt(x, was, id);
      RemoveAllAt(y, was, id);
    case Move(name, from, to) =>
      MoveAt(x, name, from, to, id);
      MoveAt(y, name, from, to, id);
  }

  /** The same bits at every ID: the same index. */
  lemma SameEverywhere<V(!new)>(x: Index<V>, y: Index<V>)
    requires NoEmpty(x) && NoEmpty(y) && forall id: nat :: SameAt(x, y, id)
    ensures x == y
  {
    forall n, v
      ensures Look(x, n, v) == Look(y, n, v)
    {
      forall id
        ensures id in Look(x, n, v) <==> id in Look(y, n, v)
      {
        assert SameAt(x, y, id);
      }
    }
    SameAnswers(x, y);
  }

  // ----- The change each operation makes -----

  /** The ID of the entity an operation works on. */
  function ChangedId(w: Work, o: Operation): nat {
    match KeyOf(o)
    case Some(key) => UpsertId(w, key)
    case None => 0
  }

  function StringChange(lib: Lib, w: Work, block: uint64, o: Operation): Change<Str> {
    match o.action
    case Create(c) => Insert(CreatedRow(lib, block, o, c).strings)
    case Update(c) =>
      (match GetCurrent(w.db, c.key)
       case Some((_, was)) => Replace(was.strings, UpdatedRow(lib, block, c, was).strings)
       case None => Keep)
    case Delete(key) => StringErasure(w, key)
    case Expire(key) => StringErasure(w, key)
    case ExtendBTL(_, _) => Keep
    case ChangeOwner(key, owner) =>
      (match GetCurrent(w.db, key)
       case Some((_, was)) => Move(OWNER, ValueOr(was.strings, OWNER, []), lib.lower(owner))
       case None => Keep)
    case Malformed => Keep
  }

  function StringErasure(w: Work, key: Key): Change<Str> {
    match GetCurrent(w.db, key)
    case Some((_, was)) => Erase(was.strings)
    case None => Keep
  }

  function NumberChange(lib: Lib, w: Work, block: uint64, o: Operation): Change<uint64> {
    match o.action
    case Create(c) => Insert(Indexed(CreatedRow(lib, block, o, c).numbers))
    case Update(c) =>
      (match GetCurrent(w.db, c.key)
       case Some((_, was)) => Replace(Indexed(was.numbers), Indexed(UpdatedRow(lib, block, c, was).numbers))
       case None => Keep)
    case Delete(key) => NumberErasure(w, key)
    case Expire(key) => NumberErasure(w, key)
    case ExtendBTL(key, btl) =>
      (match GetCurrent(w.db, key)
       case Some((_, was)) => Move(EXPIRATION, ValueOr(was.numbers, EXPIRATION, 0), ExtendedExpiration(was, btl))
       case None => Keep)
    case ChangeOwner(_, _) => Keep
    case Malformed => Keep
  }

  function NumberErasure(w: Work, key: Key): Change<uint64> {
    match GetCurrent(w.db, key)
    case Some((_, was)) => Erase(Indexed(was.numbers))
    case None => Keep
  }

  lemma StepChangesStrings(lib: Lib, w: Work, block: uint64, o: Operation)
    ensures match Step(lib, w, block, o)
            case Failed(_) => true
            case Done(u) => u.db.strings == Apply(w.db.strings, StringChange(lib, w, block, o), ChangedId(w, o))
  {
  }

  lemma StepChangesNumbers(lib: Lib, w: Work, block: uint64, o: Operation)
    ensures match Step(lib, w, block, o)
            case Failed(_) => true
            case Done(u) => u.db.numbers == Apply(w.db.numbers, NumberChange(lib, w, block, o), ChangedId(w, o))
  {
  }

  /** A step changes the index by these two changes at the ID of its entity. */
  lemma StepChanges(lib: Lib, w: Work, block: uint64, o: Operation)
    ensures match Step(lib, w, block, o)
            case Failed(_) => true
            case Done(u) =>
              && u.db.strings == Apply(w.db.strings, StringChange(lib, w, block, o), ChangedId(w, o))
              && u.db.numbers == Apply(w.db.numbers, NumberChange(lib, w, block, o), ChangedId(w, o))
  {
    StepChangesStrings(lib, w, block, o);
    StepChangesNumbers(lib, w, block, o);
  }

  // ----- Entities that are indexed exactly -----

  /** The bits of the ID are the row's indexed attributes. */
  ghost predicate RowExactAt(db: Db, row: Row, id: nat) {
    ExactAt(db.strings, row.strings, id) && ExactAt(db.numbers, Indexed(row.numbers), id)
  }

  ghost predicate NoBitsAt(db: Db, id: nat) {
    ExactAt<Str>(db.strings, map[], id) && ExactAt<uint64>(db.numbers, map[], id)
  }

  /** No empty bitmap, no bit of an ID still to be given, and exact bits for the live entities of some keys. */
  ghost predicate Tidy(w: Work, keys: set<Key>) {
    && NoEmpty(w.db.strings) && NoEmpty(w.db.numbers)
    && (forall id :: id >= Counter(w.db) ==> NoBitsAt(w.db, id))
    && forall id :: id in w.db.payloads && w.db.payloads[id].key in keys ==> RowExactAt(w.db, w.db.payloads[id], id)
  }

  lemma MirrorsIsExact<V(!new)>(ix: Index<V>, table: map<nat, map<Str, V>>, id: nat)
    requires Mirrors(ix, table)
    ensures ExactAt(ix, if id in table then table[id] else map[], id)
  {
  }

  /** In a valid state every entity is indexed exactly. */
  lemma ValidIsTidy(w: Work, keys: set<Key>)
    requires Valid(w)
    ensures Tidy(w, keys)
  {
    forall id: nat
      ensures id >= Counter(w.db) ==> NoBitsAt(w.db, id)
      ensures id in w.db.payloads ==> RowExactAt(w.db, w.db.payloads[id], id)
    {
      MirrorsIsExact(w.db.strings, StringTable(w.db), id);
      MirrorsIsExact<uint64>(w.db.numbers, NumberTable(w.db), id);
    }
  }

  /** What the bits of the operation's entity stand for before it: its row if it is live, nothing if it is not. */
  function StringsBefore(w: Work, o: Operation): map<Str, Str> {
    var id := ChangedId(w, o);
    if KeyOf(o).Some? && KeyOf(o).value in w.db.current && id in w.db.payloads then w.db.payloads[id].strings else map[]
  }

  function NumbersBefore(w: Work, o: Operation): map<Str, uint64> {
    var id := ChangedId(w, o);
    if KeyOf(o).Some? && KeyOf(o).value in w.db.current && id in w.db.payloads then Indexed(w.db.payloads[id].numbers)
    else map[]
  }

  /** Each operation makes its change for the attributes the entity has, unless it is a create over a live key. */
  lemma ChangesAreMade(lib: Lib, w: Work, block: uint64, o: Operation)
    requires Sound(w) && Applicable(w.db.current.Keys, o) && Fresh(w.db.current.Keys, o)
    ensures MadeFor(StringChange(lib, w, block, o), StringsBefore(w, o))
    ensures MadeFor(NumberChange(lib, w, block, o), NumbersBefore(w, o))
  {
  }

  /** Its result is what the entity's row holds afterwards; nothing, if the entity is deleted. */
  lemma ChangesResult(lib: Lib, w: Work, block: uint64, o: Operation)
    requires Sound(w) && Applicable(w.db.current.Keys, o) && Fresh(w.db.current.Keys, o)
    ensures match Written(lib, w, block, o)
            case Some(row) =>
              && Result(StringChange(lib, w, block, o), StringsBefore(w, o)) == row.strings
              && Result(NumberChange(lib, w, block, o), NumbersBefore(w, o)) == Indexed(row.numbers)
            case None =>
              && Result(StringChange(lib, w, block, o), StringsBefore(w, o)) == map[]
              && Result(NumberChange(lib, w, block, o), NumbersBefore(w, o)) == map[]
  {
    if o.action.ExtendBTL? && o.action.key in w.db.current {
      var was := w.db.payloads[w.db.current[o.action.key]];
      IndexedUpdate(was.numbers, EXPIRATION, ExtendedExpiration(was, o.action.btl));
    }
  }

  lemma SameKeepsExact(a: Db, b: Db, row: Row, id: nat)
    requires SameAt(a.strings, b.strings, id) && SameAt(a.numbers, b.numbers, id)
    ensures RowExactAt(a, row, id) <==> RowExactAt(b, row, id)
  {
  }

  /** An operation leaves the bits of all other entities alone. */
  lemma StepLeavesOthers(lib: Lib, w: Work, block: uint64, o: Operation, j: nat)
    requires Step(lib, w, block, o).Done? && j != ChangedId(w, o)
    ensures var u := Step(lib, w, block, o).work;
            SameAt(u.db.strings, w.db.strings, j) && SameAt(u.db.numbers, w.db.numbers, j)
  {
    StepChanges(lib, w, block, o);
    ApplyElsewhere(w.db.strings, StringChange(lib, w, block, o), ChangedId(w, o), j);
    ApplyElsewhere<uint64>(w.db.numbers, NumberChange(lib, w, block, o), ChangedId(w, o), j);
  }

  lemma StepKeepsNoEmpty(lib: Lib, w: Work, block: uint64, o: Operation)
    requires NoEmpty(w.db.strings) && NoEmpty(w.db.numbers)
    ensures match Step(lib, w, block, o)
            case Done(u) => NoEmpty(u.db.strings) && NoEmpty(u.db.numbers)
            case Failed(_) => true
  {
    StepChanges(lib, w, block, o);
    ApplyNoEmpty(w.db.strings, StringChange(lib, w, block, o), ChangedId(w, o));
    ApplyNoEmpty<uint64>(w.db.numbers, NumberChange(lib, w, block, o), ChangedId(w, o));
  }

  /** The bits of the operation's entity are exact before it. */
  ghost predicate ExactBefore(w: Work, o: Operation) {
    && ExactAt(w.db.strings, StringsBefore(w, o), ChangedId(w, o))
    && ExactAt(w.db.numbers, NumbersBefore(w, o), ChangedId(w, o))
  }

  lemma TidyIsExactBefore(w: Work, o: Operation, keys: set<Key>)
    requires Sound(w) && Tidy(w, keys) && KeyOf(o).Some?
    requires KeyOf(o).value in w.db.current ==> KeyOf(o).value in keys
    ensures ExactBefore(w, o)
  {
    var id := ChangedId(w, o);
    if KeyOf(o).value in w.db.current {
      assert RowExactAt(w.db, w.db.payloads[id], id);
    } else {
      assert NoBitsAt(w.db, id);
    }
  }

  /** Exact bits before an operation, other than a create over a live key, are exact bits after it. */
  lemma StepMakesExact(lib: Lib, w: Work, block: uint64, o: Operation)
    requires Sound(w) && Fresh(w.db.current.Keys, o) && ExactBefore(w, o)
    ensures match Step(lib, w, block, o)
            case Failed(_) => true
            case Done(u) =>
              match Written(lib, w, block, o)
              case Some(row) => RowExactAt(u.db, row, ChangedId(w, o))
              case None => NoBitsAt(u.db, ChangedId(w, o))
  {
    StepKeepsSound(lib, w, block, o);
    match Step(lib, w, block, o)
    case Failed(_) =>
    case Done(_) =>
      StepChanges(lib, w, block, o);
      ChangesAreMade(lib, w, block, o);
      ChangesResult(lib, w, block, o);
      ApplyExact(w.db.strings, StringsBefore(w, o), StringChange(lib, w, block, o), ChangedId(w, o));
      ApplyExact<uint64>(w.db.numbers, NumbersBefore(w, o), NumberChange(lib, w, block, o), ChangedId(w, o));
  }

  /** The tables after an operation, entity by entity. */
  lemma StepRows(lib: Lib, w: Work, block: uint64, o: Operation, j: nat)
    requires Sound(w) && Step(lib, w, block, o).Done?
    ensures KeyOf(o).Some?
    ensures var u := Step(lib, w, block, o).work;
            && (j != ChangedId(w, o) ==>
                  (j in u.db.payloads <==> j in w.db.payloads)
                  && (j in w.db.payloads ==>
                        u.db.payloads[j] == w.db.payloads[j] && w.db.payloads[j].key != KeyOf(o).value))
            && (j == ChangedId(w, o) ==>
                  match Written(lib, w, block, o)
                  case Some(row) => j in u.db.payloads && u.db.payloads[j] == row && row.key == KeyOf(o).value
                  case None => j !in u.db.payloads)
            && Counter(w.db) <= Counter(u.db) && ChangedId(w, o) < Counter(u.db)
  {
    StepEffect(lib, w, block, o);
    StepKeepsSound(lib, w, block, o);
  }

  /** A create that names one of the keys finds it not live. */
  predicate Clean(live: set<Key>, keys: set<Key>, o: Operation) {
    o.action.Create? && o.action.content.key in keys ==> o.action.content.key !in live
  }

  lemma EntityStaysExact(lib: Lib, w: Work, block: uint64, o: Operation, keys: set<Key>, j: nat)
    requires Sound(w) && Tidy(w, keys) && Clean(w.db.current.Keys, keys, o) && Step(lib, w, block, o).Done?
    ensures var u := Step(lib, w, block, o).work;
            && (j >= Counter(u.db) ==> NoBitsAt(u.db, j))
            && (j in u.db.payloads && u.db.payloads[j].key in keys ==> RowExactAt(u.db, u.db.payloads[j], j))
  {
    var u := Step(lib, w, block, o).work;
    StepRows(lib, w, block, o, j);
    if j != ChangedId(w, o) {
      StepLeavesOthers(lib, w, block, o, j);
      if j in w.db.payloads {
        SameKeepsExact(u.db, w.db, w.db.payloads[j], j);
      } else if j >= Counter(w.db) {
        assert NoBitsAt(w.db, j);
        SameKeepsNone(u.db, w.db, j);
      }
    } else if KeyOf(o).value in keys {
      TidyIsExactBefore(w, o, keys);
      StepMakesExact(lib, w, block, o);
    }
  }

  lemma SameKeepsNone(a: Db, b: Db, id: nat)
    requires SameAt(a.strings, b.strings, id) && SameAt(a.numbers, b.numbers, id)
    ensures NoBitsAt(a, id) <==> NoBitsAt(b, id)
  {
  }

  /** Entities of the keys stay indexed exactly, whatever is created over others. */
  lemma StepKeepsTidy(lib: Lib, w: Work, block: uint64, o: Operation, keys: set<Key>)
    requires Sound(w) && Tidy(w, keys) && Clean(w.db.current.Keys, keys, o)
    ensures match Step(lib, w, block, o) case Done(u) => Tidy(u, keys) case Failed(_) => true
  {
    StepKeepsNoEmpty(lib, w, block, o);
    match Step(lib, w, block, o)
    case Failed(_) =>
    case Done(u) =>
      forall j: nat
        ensures j >= Counter(u.db) ==> NoBitsAt(u.db, j)
        ensures j in u.db.payloads && u.db.payloads[j].key in keys ==> RowExactAt(u.db, u.db.payloads[j], j)
      {
        EntityStaysExact(lib, w, block, o, keys, j);
      }
  }

  /** Every create that names one of the keys finds it not live at its turn. */
  predicate CleanCreates(live: set<Key>, keys: set<Key>, ops: seq<Operation>)
    decreases ops
  {
    |ops| > 0 ==> Clean(live, keys, ops[0]) && CleanCreates(LiveAfter(live, ops[0]), keys, ops[1..])
  }

  lemma {:induction false} FreshIsClean(live: set<Key>, keys: set<Key>, ops: seq<Operation>)
    requires FreshCreates(live, ops)
    ensures CleanCreates(live, keys, ops)
    decreases ops
  {
    if |ops| > 0 {
      FreshIsClean(LiveAfter(live, ops[0]), keys, ops[1..]);
    }
  }

  /** Over a block: index agreement, entity by entity. */
  lemma {:induction false} OperationsKeepTidy(
    lib: Lib, w: Work, block: uint64, ops: seq<Operation>, coalesce: bool, keys: set<Key>)
    requires Sound(w) && Tidy(w, keys) && CleanCreates(w.db.current.Keys, keys, ops)
    ensures match RunOperations(lib, w, block, ops, coalesce) case Done(u) => Tidy(u, keys) case Failed(_) => true
    decreases ops
  {
    if |ops| > 0 {
      if coalesce && Superseded(ops) {
        OperationsKeepTidy(lib, w, block, ops[1..], coalesce, keys);
      } else {
        StepKeepsSound(lib, w, block, ops[0]);
        match Step(lib, w, block, ops[0])
        case Failed(_) =>
        case Done(u) =>
          StepKeepsTidy(lib, w, block, ops[0], keys);
          OperationsKeepTidy(lib, u, block, ops[1..], coalesce, keys);
      }
    }
  }

  /** The same for the blocks of a batch that are not skipped. */
  predicate CleanBlocks(live: set<Key>, keys: set<Key>, last: uint64, blocks: seq<Block>)
    decreases blocks
  {
    |blocks| > 0 ==>
      if blocks[0].number <= last then CleanBlocks(live, keys, last, blocks[1..])
      else CleanCreates(live, keys, blocks[0].operations)
           && CleanBlocks(LiveAfterAll(live, blocks[0].operations), keys, last, blocks[1..])
  }

  lemma {:induction false} BlocksKeepTidy(lib: Lib, w: Work, last: uint64, blocks: seq<Block>, keys: set<Key>)
    requires Sound(w) && Tidy(w, keys) && CleanBlocks(w.db.current.Keys, keys, last, blocks)
    ensures match RunBlocks(RunBlock(lib), w, last, blocks) case Done(u) => Tidy(u, keys) case Failed(_) => true
    decreases blocks
  {
    if |blocks| > 0 {
      if blocks[0].number <= last {
        BlocksKeepTidy(lib, w, last, blocks[1..], keys);
      } else {
        OperationsKeepValid(lib, w, blocks[0].number, blocks[0].operations, true);
        OperationsKeepTidy(lib, w, blocks[0].number, blocks[0].operations, true, keys);
        match RunBlock(lib)(w, blocks[0])
        case Done(u) => BlocksKeepTidy(lib, u, last, blocks[1..], keys);
        case Failed(_) =>
      }
    }
  }

  lemma TidyIgnoresOthers(w: Work, u: Work, keys: set<Key>)
    requires Tidy(w, keys) && Counter(u.db) == Counter(w.db)
    requires u.db.payloads == w.db.payloads && u.db.strings == w.db.strings && u.db.numbers == w.db.numbers
    ensures Tidy(u, keys)
  {
    forall id: nat
      ensures id >= Counter(u.db) ==> NoBitsAt(u.db, id)
      ensures id in u.db.payloads && u.db.payloads[id].key in keys ==> RowExactAt(u.db, u.db.payloads[id], id)
    {
      assert id >= Counter(w.db) ==> NoBitsAt(w.db, id);
    }
  }
}
