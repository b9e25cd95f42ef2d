/** How the attributes of one entity develop over its life. */
module EntityHistory {
  import opened Base
  import opened Language
  import opened Sequence
  import opened Store
  import opened Events
  import opened Invariants

  /** What an update takes over from the row it replaces. */
  predicate SameOrigin(a: Row, b: Row) {
    && a.key == b.key
    && ValueOr(a.strings, CREATOR, []) == ValueOr(b.strings, CREATOR, [])
    && ValueOr(a.numbers, CREATED_AT_BLOCK, 0) == ValueOr(b.numbers, CREATED_AT_BLOCK, 0)
    && ValueOr(a.numbers, SEQUENCE, 0) == ValueOr(b.numbers, SEQUENCE, 0)
    && ValueOr(a.numbers, TX_INDEX, 0) == ValueOr(b.numbers, TX_INDEX, 0)
    && ValueOr(a.numbers, OP_INDEX, 0) == ValueOr(b.numbers, OP_INDEX, 0)
  }

  predicate SyntheticString(name: Str) {
    Special(name)
  }

  predicate SyntheticNumber(name: Str) {
    name in {EXPIRATION, CREATED_AT_BLOCK, LAST_MODIFIED_AT_BLOCK, SEQUENCE, TX_INDEX, OP_INDEX}
  }

  /** The attributes that came with the operation are stored as they are, and no others but the synthetic ones. */
  ghost predicate CarriesAttributes(row: Row, c: Content) {
    && row.key == c.key && row.payload == c.payload && row.contentType == c.contentType
    && (forall n :: !SyntheticString(n) ==> (n in row.strings <==> n in c.strings))
    && (forall n :: !SyntheticString(n) && n in c.strings ==> row.strings[n] == c.strings[n])
    && (forall n :: !SyntheticNumber(n) ==> (n in row.numbers <==> n in c.numbers))
    && (forall n :: !SyntheticNumber(n) && n in c.numbers ==> row.numbers[n] == c.numbers[n])
  }

  lemma NamesDiffer()
    ensures OWNER != CREATOR && OWNER != KEY && CREATOR != KEY
    ensures EXPIRATION !in {CREATED_AT_BLOCK, LAST_MODIFIED_AT_BLOCK, SEQUENCE, TX_INDEX, OP_INDEX}
    ensures CREATED_AT_BLOCK !in {LAST_MODIFIED_AT_BLOCK, SEQUENCE, TX_INDEX, OP_INDEX}
    ensures LAST_MODIFIED_AT_BLOCK !in {SEQUENCE, TX_INDEX, OP_INDEX}
    ensures SEQUENCE !in {TX_INDEX, OP_INDEX} && TX_INDEX != OP_INDEX
  {
    assert |EXPIRATION| == 11 && |CREATED_AT_BLOCK| == 15 && |LAST_MODIFIED_AT_BLOCK| == 20 && |SEQUENCE| == 9;
    assert |TX_INDEX| == |OP_INDEX| == 8 && TX_INDEX[1] != OP_INDEX[1];
  }

  /** Six writes under different names are all there afterwards. */
  lemma SixWrites(m: map<Str, uint64>, a: Str, x: uint64, b: Str, y: uint64, c: Str, z: uint64,
                  d: Str, u: uint64, e: Str, v: uint64, f: Str, w: uint64)
    requires a !in {b, c, d, e, f} && b !in {c, d, e, f} && c !in {d, e, f} && d !in {e, f} && e != f
    ensures var r := m[a := x][b := y][c := z][d := u][e := v][f := w];
            && a in r && b in r && c in r && d in r && e in r && f in r
            && r[a] == x && r[b] == y && r[c] == z && r[d] == u && r[e] == v && r[f] == w
  {
  }

  lemma CreatedCarries(lib: Lib, block: uint64, o: Operation, c: Content)
    ensures CarriesAttributes(CreatedRow(lib, block, o, c), c)
  {
    var row := CreatedRow(lib, block, o, c);
    forall n | !SyntheticString(n)
      ensures (n in row.strings <==> n in c.strings) && (n in c.strings ==> row.strings[n] == c.strings[n])
    {
    }
    forall n | !SyntheticNumber(n)
      ensures (n in row.numbers <==> n in c.numbers) && (n in c.numbers ==> row.numbers[n] == c.numbers[n])
    {
    }
  }

  lemma UpdatedCarries(lib: Lib, block: uint64, c: Content, was: Row)
    ensures CarriesAttributes(UpdatedRow(lib, block, c, was), c)
  {
    var row := UpdatedRow(lib, block, c, was);
    forall n | !SyntheticString(n)
      ensures (n in row.strings <==> n in c.strings) && (n in c.strings ==> row.strings[n] == c.strings[n])
    {
    }
    forall n | !SyntheticNumber(n)
      ensures (n in row.numbers <==> n in c.numbers) && (n in c.numbers ==> row.numbers[n] == c.numbers[n])
    {
    }
  }

  predicate Stamped(numbers: map<Str, uint64>, expiration: uint64, created: uint64, modified: uint64,
                    sequence: uint64, tx: uint64, op: uint64) {
    && EXPIRATION in numbers && numbers[EXPIRATION] == expiration
    && CREATED_AT_BLOCK in numbers && numbers[CREATED_AT_BLOCK] == created
    && LAST_MODIFIED_AT_BLOCK in numbers && numbers[LAST_MODIFIED_AT_BLOCK] == modified
    && SEQUENCE in numbers && numbers[SEQUENCE] == sequence
    && TX_INDEX in numbers && numbers[TX_INDEX] == tx
    && OP_INDEX in numbers && numbers[OP_INDEX] == op
  }

  predicate Attributed(strings: map<Str, Str>, owner: Str, creator: Str, key: Str) {
    && OWNER in strings && strings[OWNER] == owner
    && CREATOR in strings && strings[CREATOR] == creator
    && KEY in strings && strings[KEY] == key
  }

  lemma Sum64(a: uint64, b: uint64)
    ensures Add64(a, b) == (a + b) % TWO64
  {
  }

  lemma CreatedStamps(lib: Lib, block: uint64, o: Operation, c: Content)
    ensures Attributed(CreatedRow(lib, block, o, c).strings, lib.lower(c.owner), lib.lower(c.owner),
            lib.lower(lib.hexKey(c.key)))
    ensures Stamped(CreatedRow(lib, block, o, c).numbers, (block + c.btl) % TWO64, block, block,
                    Pack(block, o.txIndex, o.opIndex), o.txIndex, o.opIndex)
  {
    NamesDiffer();
    Sum64(block, c.btl);
    SixWrites(c.numbers, EXPIRATION, Add64(block, c.btl), CREATED_AT_BLOCK, block, LAST_MODIFIED_AT_BLOCK, block,
              SEQUENCE, Pack(block, o.txIndex, o.opIndex), TX_INDEX, o.txIndex, OP_INDEX, o.opIndex);
  }

  lemma UpdatedStamps(lib: Lib, block: uint64, c: Content, was: Row)
    ensures Attributed(UpdatedRow(lib, block, c, was).strings, lib.lower(c.owner), ValueOr(was.strings, CREATOR, []),
                       lib.lower(lib.hexKey(c.key)))
    ensures Stamped(UpdatedRow(lib, block, c, was).numbers, (block + c.btl) % TWO64,
                    ValueOr(was.numbers, CREATED_AT_BLOCK, 0), block, ValueOr(was.numbers, SEQUENCE, 0),
                    ValueOr(was.numbers, TX_INDEX, 0), ValueOr(was.numbers, OP_INDEX, 0))
  {
    NamesDiffer();
    Sum64(block, c.btl);
    SixWrites(c.numbers, EXPIRATION, Add64(block, c.btl), CREATED_AT_BLOCK, ValueOr(was.numbers, CREATED_AT_BLOCK, 0),
              SEQUENCE, ValueOr(was.numbers, SEQUENCE, 0), TX_INDEX, ValueOr(was.numbers, TX_INDEX, 0),
              OP_INDEX, ValueOr(was.numbers, OP_INDEX, 0), LAST_MODIFIED_AT_BLOCK, block);
  }

  /** A created entity carries its operation's attributes, with the synthetic ones winning over equal names. */
  lemma CreatedAttributes(lib: Lib, block: uint64, o: Operation, c: Content)
    ensures var row := CreatedRow(lib, block, o, c);
            && CarriesAttributes(row, c)
            && Attributed(row.strings, lib.lower(c.owner), lib.lower(c.owner), lib.lower(lib.hexKey(c.key)))
            && Stamped(row.numbers, (block + c.btl) % TWO64, block, block,
                       Pack(block, o.txIndex, o.opIndex), o.txIndex, o.opIndex)
  {
    CreatedCarries(lib, block, o, c);
    CreatedStamps(lib, block, o, c);
  }

  /**
   * An update replaces every attribute, except that creator, creation block,
   * sequence and position are the old row's.
   */
  lemma UpdatedAttributes(lib: Lib, block: uint64, c: Content, was: Row)
    ensures var row := UpdatedRow(lib, block, c, was);
            && CarriesAttributes(row, c)
            && Attributed(row.strings, lib.lower(c.owner), ValueOr(was.strings, CREATOR, []),
                lib.lower(lib.hexKey(c.key)))
            && Stamped(row.numbers, (block + c.btl) % TWO64, ValueOr(was.numbers, CREATED_AT_BLOCK, 0), block,
                       ValueOr(was.numbers, SEQUENCE, 0), ValueOr(was.numbers, TX_INDEX, 0),
                       ValueOr(was.numbers, OP_INDEX, 0))
  {
    UpdatedCarries(lib, block, c, was);
    UpdatedStamps(lib, block, c, was);
  }

  /** An update reads nothing but the origin of the old row, and keeps it. */
  lemma UpdateKeepsOrigin(lib: Lib, block: uint64, c: Content, was: Row)
    requires was.key == c.key
    ensures SameOrigin(UpdatedRow(lib, block, c, was), was)
  {
  }

  lemma UpdateReadsOrigin(lib: Lib, block: uint64, c: Content, a: Row, b: Row)
    requires SameOrigin(a, b)
    ensures UpdatedRow(lib, block, c, a) == UpdatedRow(lib, block, c, b)
  {
  }

  /** An extension changes the expiration and nothing else; an owner change the owner. */
  lemma ChangesOneAttribute(lib: Lib, key: Key, btl: uint64, owner: Str, was: Row, name: Str)
    requires was.key == key
    ensures var row := ExtendedRow(key, btl, was);
            && row.key == key && row.payload == was.payload && row.contentType == was.contentType
                && row.strings == was.strings
            && EXPIRATION in row.numbers
            && row.numbers[EXPIRATION] == (ValueOr(was.numbers, EXPIRATION, 0) + btl) % TWO64
            && (name != EXPIRATION ==> (name in row.numbers <==> name in was.numbers)
                                       && ValueOr(row.numbers, name, 0) == ValueOr(was.numbers, name, 0))
    ensures var row := ReownedRow(lib, key, owner, was);
            && row.key == key && row.payload == was.payload && row.contentType == was.contentType
                && row.numbers == was.numbers
            && OWNER in row.strings && row.strings[OWNER] == lib.lower(owner)
            && (name != OWNER ==> (name in row.strings <==> name in was.strings)
                                  && ValueOr(row.strings, name, []) == ValueOr(was.strings, name, []))
  {
  }

  lemma Add64Associates(a: uint64, b: uint64, c: uint64)
    ensures Add64(Add64(a, b), c) == Add64(a, Add64(b, c))
  {
  }

  /** Two extensions in a row are one by the sum, in 64-bit arithmetic. */
  lemma ExtensionsAdd(key: Key, a: uint64, b: uint64, was: Row)
    ensures ExtendedRow(key, b, ExtendedRow(key, a, was)) == ExtendedRow(key, (a + b) % TWO64, was)
  {
    var e: uint64 := ValueOr(was.numbers, EXPIRATION, 0);
    Add64Associates(e, a, b);
    var sum := Add64(e, a);
    assert was.numbers[EXPIRATION := sum][EXPIRATION := Add64(sum, b)] == was.numbers[EXPIRATION := Add64(sum, b)];
  }

  /** Of two owner changes the last one counts, and they commute with extensions. */
  lemma LastOwnerWins(lib: Lib, key: Key, first: Str, second: Str, btl: uint64, was: Row)
    ensures ReownedRow(lib, key, second, ReownedRow(lib, key, first, was)) == ReownedRow(lib, key, second, was)
    ensures ReownedRow(lib, key, second, ExtendedRow(key, btl, was))
            == ExtendedRow(key, btl, ReownedRow(lib, key, second, was))
  {
    var once := was.strings[OWNER := lib.lower(first)];
    assert once[OWNER := lib.lower(second)] == was.strings[OWNER := lib.lower(second)];
  }

  /** ASCII text as bytes; characters beyond it do not occur in the names. */
  function Ascii(text: string): Str {
    seq(|text|, i requires 0 <= i < |text| => text[i] as int % 256)
  }

  lemma StringNamesAreSpelled()
    ensures KEY == Ascii("$key") && OWNER == Ascii("$owner") && CREATOR == Ascii("$creator")
  {
  }

  lemma ShortNamesAreSpelled()
    ensures EXPIRATION == Ascii("$expiration") && SEQUENCE == Ascii("$sequence")
    ensures TX_INDEX == Ascii("$txIndex") && OP_INDEX == Ascii("$opIndex")
  {
  }

  lemma BlockNamesAreSpelled()
    ensures CREATED_AT_BLOCK == Ascii("$createdAtBlock")
    ensures LAST_MODIFIED_AT_BLOCK == Ascii("$lastModifiedAtBlock")
  {
  }

  /** The names of the synthetic attributes, as they are spelled in queries. */
  lemma NamesAreSpelled()
    ensures KEY == Ascii("$key") && OWNER == Ascii("$owner") && CREATOR == Ascii("$creator")
    ensures EXPIRATION == Ascii("$expiration") && SEQUENCE == Ascii("$sequence")
    ensures TX_INDEX == Ascii("$txIndex") && OP_INDEX == Ascii("$opIndex")
    ensures CREATED_AT_BLOCK == Ascii("$createdAtBlock")
    ensures LAST_MODIFIED_AT_BLOCK == Ascii("$lastModifiedAtBlock")
  {
    StringNamesAreSpelled();
    ShortNamesAreSpelled();
    BlockNamesAreSpelled();
  }

  /** After a deletion the key is not live, its row is gone, and one entity less is counted; the others stay. */
  lemma DeleteStores(lib: Lib, w: Work, block: uint64, o: Operation, key: Key)
    requires o.action == Delete(key) || o.action == Expire(key)
    requires Sound(w) && key in w.db.current
    ensures match Step(lib, w, block, o)
            case Failed(_) => false
            case Done(u) =>
              && u.db.current == w.db.current - {key} && u.db.payloads == w.db.payloads - {w.db.current[key]}
              && u.next == w.next && u.db.idCounter == w.db.idCounter && u.db.lastBlock == w.db.lastBlock
              && u.db.count == Some(|w.db.current| - 1)
  {
    StepKeepsSound(lib, w, block, o);
    assert |w.db.current| > 0;
  }

  // ----- What is stored after each operation -----

  /** The row an operation writes is the one stored under its key afterwards. */
  lemma WrittenIsStored(lib: Lib, w: Work, block: uint64, o: Operation)
    ensures match Step(lib, w, block, o)
            case Failed(_) => true
            case Done(u) =>
              match Written(lib, w, block, o)
              case None => true
              case Some(row) =>
                KeyOf(o) == Some(row.key) && row.key in u.db.current
                && u.db.current[row.key] in u.db.payloads && u.db.payloads[u.db.current[row.key]] == row
  {
    match Step(lib, w, block, o)
    case Failed(_) =>
    case Done(_) => StepEffect(lib, w, block, o);
  }

  /** After a create at a block, the entity expires BTL blocks later, in 64 bits, and has the origin of its position. */
  lemma CreateStores(lib: Lib, w: Work, block: uint64, o: Operation, c: Content)
    requires o.action == Create(c)
    ensures match Step(lib, w, block, o)
            case Failed(_) => false
            case Done(u) =>
              && c.key in u.db.current && u.db.current[c.key] in u.db.payloads
              && var row := u.db.payloads[u.db.current[c.key]];
                 && row.key == c.key && row.payload == c.payload && row.contentType == c.contentType
                 && OWNER in row.strings && row.strings[OWNER] == lib.lower(c.owner)
                 && CREATOR in row.strings && row.strings[CREATOR] == lib.lower(c.owner)
                 && KEY in row.strings && row.strings[KEY] == lib.lower(lib.hexKey(c.key))
                 && EXPIRATION in row.numbers && row.numbers[EXPIRATION] == (block + c.btl) % 0x1_0000_0000_0000_0000
                 && CREATED_AT_BLOCK in row.numbers && row.numbers[CREATED_AT_BLOCK] == block
                 && LAST_MODIFIED_AT_BLOCK in row.numbers && row.numbers[LAST_MODIFIED_AT_BLOCK] == block
                 && TX_INDEX in row.numbers && row.numbers[TX_INDEX] == o.txIndex
                 && OP_INDEX in row.numbers && row.numbers[OP_INDEX] == o.opIndex
  {
    CreatedAttributes(lib, block, o, c);
    WrittenIsStored(lib, w, block, o);
  }

  /** After an update at a block, the entity expires BTL blocks later, and keeps the origin it had. */
  lemma UpdateStores(lib: Lib, w: Work, block: uint64, o: Operation, c: Content)
    requires o.action == Update(c) && c.key in w.db.current && w.db.current[c.key] in w.db.payloads
    ensures match Step(lib, w, block, o)
            case Failed(_) => false
            case Done(u) =>
              && c.key in u.db.current && u.db.current[c.key] in u.db.payloads
              && var was, row := w.db.payloads[w.db.current[c.key]], u.db.payloads[u.db.current[c.key]];
                 && row.key == c.key && row.payload == c.payload && row.contentType == c.contentType
                 && OWNER in row.strings && row.strings[OWNER] == lib.lower(c.owner)
                 && (CREATOR in was.strings ==> CREATOR in row.strings && row.strings[CREATOR] == was.strings[CREATOR])
                 && EXPIRATION in row.numbers && row.numbers[EXPIRATION] == (block + c.btl) % 0x1_0000_0000_0000_0000
                 && LAST_MODIFIED_AT_BLOCK in row.numbers && row.numbers[LAST_MODIFIED_AT_BLOCK] == block
                 && forall n :: n in {CREATED_AT_BLOCK, SEQUENCE, TX_INDEX, OP_INDEX} && n in was.numbers ==>
                      n in row.numbers && row.numbers[n] == was.numbers[n]
  {
    UpdatedAttributes(lib, block, c, w.db.payloads[w.db.current[c.key]]);
    WrittenIsStored(lib, w, block, o);
  }

  /** After an extension the entity expires that many blocks later than before, in 64 bits; nothing else changes. */
  lemma ExtensionStores(lib: Lib, w: Work, block: uint64, o: Operation, key: Key, btl: uint64)
    requires o.action == ExtendBTL(key, btl) && key in w.db.current && w.db.current[key] in w.db.payloads
    requires w.db.payloads[w.db.current[key]].key == key
    ensures match Step(lib, w, block, o)
            case Failed(_) => false
            case Done(u) =>
              && key in u.db.current && u.db.current[key] in u.db.payloads
              && var was, row := w.db.payloads[w.db.current[key]], u.db.payloads[u.db.current[key]];
                 && row == was.(numbers := row.numbers) && EXPIRATION in row.numbers
                 && row.numbers[EXPIRATION]
                    == ((if EXPIRATION in was.numbers then was.numbers[EXPIRATION] else 0) + btl)
                       % 0x1_0000_0000_0000_0000
                 && row.numbers - {EXPIRATION} == was.numbers - {EXPIRATION}
  {
    WrittenIsStored(lib, w, block, o);
  }

  lemma OwnerChangeStores(lib: Lib, w: Work, block: uint64, o: Operation, key: Key, owner: Str)
    requires o.action == ChangeOwner(key, owner) && key in w.db.current && w.db.current[key] in w.db.payloads
    requires w.db.payloads[w.db.current[key]].key == key
    ensures match Step(lib, w, block, o)
            case Failed(_) => false
            case Done(u) =>
              && key in u.db.current && u.db.current[key] in u.db.payloads
              && var was, row := w.db.payloads[w.db.current[key]], u.db.payloads[u.db.current[key]];
                 && row == was.(strings := row.strings) && OWNER in row.strings
                 && row.strings[OWNER] == lib.lower(owner)
                 && row.strings - {OWNER} == was.strings - {OWNER}
  {
    WrittenIsStored(lib, w, block, o);
  }

  lemma WrittenKeepsOrigin(lib: Lib, w: Work, block: uint64, o: Operation)
    requires Inverse(w.db.current, w.db.payloads) && !o.action.Create?
    ensures match Written(lib, w, block, o)
            case None => true
            case Some(row) => row.key in w.db.current && SameOrigin(row, w.db.payloads[w.db.current[row.key]])
  {
    var a := o.action;
    if a.Update? && a.content.key in w.db.current {
      UpdateKeepsOrigin(lib, block, a.content, w.db.payloads[w.db.current[a.content.key]]);
    }
  }

  /** The operation is a create that names the key. */
  predicate CreatesOver(o: Operation, key: Key) {
    o.action.Create? && o.action.content.key == key
  }

  lemma EffectKeepsOrigin(w: Work, u: Work, written: Option<Row>, key: Key, id: nat)
    requires Sound(w) && Effect(w, u, written, key) && id in w.db.payloads && id in u.db.payloads
    requires written.Some? && written.value.key in w.db.current && w.db.current[written.value.key] == id
             ==> SameOrigin(written.value, w.db.payloads[id])
    ensures SameOrigin(u.db.payloads[id], w.db.payloads[id])
  {
  }

  /**
   * While an entity lives, whatever is done to it or to another, short of
   * creating over it, its key, creator, creation block, sequence number and
   * position never change.
   */
  lemma OriginNeverChanges(lib: Lib, w: Work, block: uint64, o: Operation, id: nat)
    requires Sound(w) && id in w.db.payloads && !CreatesOver(o, w.db.payloads[id].key)
    ensures match Step(lib, w, block, o)
            case Done(u) => id in u.db.payloads ==> SameOrigin(u.db.payloads[id], w.db.payloads[id])
            case Failed(_) => true
  {
    match Step(lib, w, block, o)
    case Failed(_) =>
    case Done(u) =>
      if id in u.db.payloads {
        StepEffect(lib, w, block, o);
        if !o.action.Create? {
          WrittenKeepsOrigin(lib, w, block, o);
        }
        EffectKeepsOrigin(w, u, Written(lib, w, block, o), KeyOf(o).value, id);
      }
  }
}
