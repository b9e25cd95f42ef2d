/** The bitmap index as a value: which entity IDs carry which attribute. */
module Index {
  import opened Base

  /** Bitmaps by attribute name and value; a pair that is absent has the empty bitmap. */
  type Index<V(==)> = map<(Str, V), set<nat>>

  function Look<V>(ix: Index<V>, name: Str, value: V): set<nat> {
    if (name, value) in ix then ix[(name, value)] else {}
  }

  /** Store a bitmap, or delete the entry when it is empty. */
  function Write<V>(ix: Index<V>, name: Str, value: V, ids: set<nat>): Index<V> {
    if ids == {} then ix - {(name, value)} else ix[(name, value) := ids]
  }

  function Add<V>(ix: Index<V>, name: Str, value: V, id: nat): Index<V> {
    Write(ix, name, value, Look(ix, name, value) + {id})
  }

  function Remove<V>(ix: Index<V>, name: Str, value: V, id: nat): Index<V> {
    Write(ix, name, value, Look(ix, name, value) - {id})
  }

  predicate Has<V(==)>(attrs: map<Str, V>, name: Str, value: V) {
    name in attrs && attrs[name] == value
  }

  function AddAll<V>(ix: Index<V>, attrs: map<Str, V>, id: nat): Index<V> {
    map k | k in ix.Keys + attrs.Items
      :: Look(ix, k.0, k.1) + if Has(attrs, k.0, k.1) then {id} else {}
  }

  function RemoveAll<V>(ix: Index<V>, attrs: map<Str, V>, id: nat): Index<V> {
    map k | k in ix && (Has(attrs, k.0, k.1) ==> ix[k] - {id} != {})
      :: if Has(attrs, k.0, k.1) then ix[k] - {id} else ix[k]
  }

  predicate NoEmpty<V(==)>(ix: Index<V>) {
    forall k :: k in ix ==> ix[k] != {}
  }

  /** The index says exactly what the attribute table says. */
  ghost predicate Agrees<V(!new)>(ix: Index<V>, table: map<nat, map<Str, V>>) {
    forall n, v, id {:trigger id in Look(ix, n, v)} {:trigger Has(table[id], n, v)} ::
      id in Look(ix, n, v) <==> id in table && Has(table[id], n, v)
  }

  /** Right answers and no empty bitmaps. */
  ghost predicate Mirrors<V(!new)>(ix: Index<V>, table: map<nat, map<Str, V>>) {
    Agrees(ix, table) && NoEmpty(ix)
  }

  /** An index without empty bitmaps is determined by what it answers. */
  lemma SameAnswers<V(!new)>(a: Index<V>, b: Index<V>)
    requires NoEmpty(a) && NoEmpty(b)
    requires forall n, v :: Look(a, n, v) == Look(b, n, v)
    ensures a == b
  {
    forall k: (Str, V)
      ensures k in a <==> k in b
      ensures k in a ==> a[k] == b[k]
    {
      assert Look(a, k.0, k.1) == Look(b, k.0, k.1);
    }
  }

  lemma AgreementDetermines<V(!new)>(a: Index<V>, b: Index<V>, table: map<nat, map<Str, V>>)
    requires Mirrors(a, table) && Mirrors(b, table)
    ensures a == b
  {
    forall n, v
      ensures Look(a, n, v) == Look(b, n, v)
    {
      forall id
        ensures id in Look(a, n, v) <==> id in Look(b, n, v)
      {
        assert id in Look(a, n, v) <==> id in table && Has(table[id], n, v);
      }
    }
    SameAnswers(a, b);
  }

  lemma WriteLook<V(!new)>(ix: Index<V>, name: Str, value: V, ids: set<nat>)
    ensures forall n, v :: Look(Write(ix, name, value, ids), n, v) == if n == name
            && v == value then ids else Look(ix, n, v)
    ensures NoEmpty(ix) ==> NoEmpty(Write(ix, name, value, ids))
  {
  }

  lemma AddAllLook<V(!new)>(ix: Index<V>, attrs: map<Str, V>, id: nat)
    ensures forall n, v :: Look(AddAll(ix, attrs, id), n, v) == Look(ix, n, v) + if Has(attrs, n, v) then {id} else {}
    ensures NoEmpty(ix) ==> NoEmpty(AddAll(ix, attrs, id))
  {
    forall n, v
      ensures Look(AddAll(ix, attrs, id), n, v) == Look(ix, n, v) + if Has(attrs, n, v) then {id} else {}
    {
      assert Has(attrs, n, v) ==> (n, v) in attrs.Items;
    }
  }

  lemma RemoveAllLook<V(!new)>(ix: Index<V>, attrs: map<Str, V>, id: nat)
    ensures forall n, v :: Look(RemoveAll(ix, attrs, id), n, v) ==
              Look(ix, n, v) - if Has(attrs, n, v) then {id} else {}
    ensures NoEmpty(ix) ==> NoEmpty(RemoveAll(ix, attrs, id))
  {
  }

  /** The index of a new entity. */
  lemma MirrorsAfterInsert<V(!new)>(ix: Index<V>, table: map<nat, map<Str, V>>, attrs: map<Str, V>, id: nat)
    requires Mirrors(ix, table) && id !in table
    ensures Mirrors(AddAll(ix, attrs, id), table[id := attrs])
  {
    AddAllLook(ix, attrs, id);
  }

  /** Remove every old value, then add every new one: an attribute in both sets ends up present. */
  lemma MirrorsAfterReplace<V(!new)>(ix: Index<V>, table: map<nat, map<Str, V>>, attrs: map<Str, V>, id: nat)
    requires Mirrors(ix, table) && id in table
    ensures Mirrors(AddAll(RemoveAll(ix, table[id], id), attrs, id), table[id := attrs])
  {
    var removed := RemoveAll(ix, table[id], id);
    var added := AddAll(removed, attrs, id);
    RemoveAllLook(ix, table[id], id);
    AddAllLook(removed, attrs, id);
    forall n, v, i
      ensures i in Look(added, n, v) <==> i in table[id := attrs] && Has(table[id := attrs][i], n, v)
    {
      assert i in Look(added, n, v) <==> i in Look(removed, n, v) || (i == id && Has(attrs, n, v));
      assert i in Look(removed, n, v) <==> i in Look(ix, n, v) && !(i == id && Has(table[id], n, v));
    }
  }

  lemma MirrorsAfterDelete<V(!new)>(ix: Index<V>, table: map<nat, map<Str, V>>, id: nat)
    requires Mirrors(ix, table) && id in table
    ensures Mirrors(RemoveAll(ix, table[id], id), table - {id})
  {
    RemoveAllLook(ix, table[id], id);
  }

  /** One attribute moves from `old` to `new`; `old` may be a default standing for "absent". */
  lemma MirrorsAfterMove<V(!new)>(ix: Index<V>, table: map<nat, map<Str, V>>, name: Str, old': V, new': V, id: nat)
    requires Mirrors(ix, table) && id in table
    requires name in table[id] ==> table[id][name] == old'
    ensures Mirrors(Add(Remove(ix, name, old', id), name, new', id), table[id := table[id][name := new']])
  {
    var removed := Remove(ix, name, old', id);
    WriteLook(ix, name, old', Look(ix, name, old') - {id});
    WriteLook(removed, name, new', Look(removed, name, new') + {id});
  }

  /** Adding without removing, as a create over a live ID does, keeps agreement iff nothing old is left behind. */
  lemma MirrorsAfterOverwrite<V(!new)>(ix: Index<V>, table: map<nat, map<Str, V>>, attrs: map<Str, V>, id: nat)
    requires Mirrors(ix, table) && id in table
    ensures Mirrors(AddAll(ix, attrs, id), table[id := attrs]) <==> forall n :: n in table[id] ==>
                                                                      Has(attrs, n, table[id][n])
  {
    AddAllLook(ix, attrs, id);
    var after := table[id := attrs];
    if Agrees(AddAll(ix, attrs, id), after) {
      forall n | n in table[id]
        ensures Has(attrs, n, table[id][n])
      {
        assert id in Look(ix, n, table[id][n]);
        assert id in Look(AddAll(ix, attrs, id), n, table[id][n]);
        assert Has(after[id], n, table[id][n]);
      }
    }
  }

  // ----- The attribute loops, one attribute at a time -----

  lemma AddAllNone<V(!new)>(ix: Index<V>, id: nat)
    ensures AddAll(ix, map[], id) == ix && RemoveAll(ix, map[], id) == ix
  {
    var none: map<Str, V> := map[];
    forall k | k in ix
      ensures AddAll(ix, none, id)[k] == ix[k]
    {
      assert AddAll(ix, none, id)[k] == Look(ix, k.0, k.1) + {};
    }
  }

  lemma AddAllOneMore<V(!new)>(ix: Index<V>, done: map<Str, V>, name: Str, value: V, id: nat)
    requires NoEmpty(ix) && name !in done
    ensures AddAll(ix, done[name := value], id) == Add(AddAll(ix, done, id), name, value, id)
  {
    var before := AddAll(ix, done, id);
    AddAllLook(ix, done, id);
    AddAllLook(ix, done[name := value], id);
    WriteLook(before, name, value, Look(before, name, value) + {id});
    SameAnswers(AddAll(ix, done[name := value], id), Add(before, name, value, id));
  }

  lemma RemoveAllOneMore<V(!new)>(ix: Index<V>, done: map<Str, V>, name: Str, value: V, id: nat)
    requires NoEmpty(ix) && name !in done
    ensures RemoveAll(ix, done[name := value], id) == Remove(RemoveAll(ix, done, id), name, value, id)
  {
    var before := RemoveAll(ix, done, id);
    RemoveAllLook(ix, done, id);
    RemoveAllLook(ix, done[name := value], id);
    WriteLook(before, name, value, Look(before, name, value) - {id});
    SameAnswers(RemoveAll(ix, done[name := value], id), Remove(before, name, value, id));
  }

  /** attrs without what is skipped and what is still to do, as the loop takes up name. */
  lemma DoneGrows<V>(attrs: map<Str, V>, skip: set<Str>, todo: set<Str>, name: Str)
    requires name in todo && todo <= attrs.Keys
    ensures attrs - skip - (todo - {name})
            == if name in skip then attrs - skip - todo else (attrs - skip - todo)[name := attrs[name]]
  {
  }

  lemma AddAllStep<V(!new)>(ix: Index<V>, attrs: map<Str, V>, skip: set<Str>, todo: set<Str>, name: Str, id: nat)
    requires NoEmpty(ix) && name in todo && todo <= attrs.Keys
    ensures var before := AddAll(ix, attrs - skip - todo, id);
            AddAll(ix, attrs - skip - (todo - {name}), id)
            == if name in skip then before else Add(before, name, attrs[name], id)
  {
    DoneGrows(attrs, skip, todo, name);
    AddAllOneMore(ix, attrs - skip - todo, name, attrs[name], id);
  }

  lemma RemoveAllStep<V(!new)>(ix: Index<V>, attrs: map<Str, V>, skip: set<Str>, todo: set<Str>, name: Str, id: nat)
    requires NoEmpty(ix) && name in todo && todo <= attrs.Keys
    ensures var before := RemoveAll(ix, attrs - skip - todo, id);
            RemoveAll(ix, attrs - skip - (todo - {name}), id)
            == if name in skip then before else Remove(before, name, attrs[name], id)
  {
    DoneGrows(attrs, skip, todo, name);
    RemoveAllOneMore(ix, attrs - skip - todo, name, attrs[name], id);
  }

  lemma StepsBounds<V(!new)>(ix: Index<V>, attrs: map<Str, V>, skip: set<Str>, id: nat)
    ensures AddAll(ix, attrs - skip - attrs.Keys, id) == ix == RemoveAll(ix, attrs - skip - attrs.Keys, id)
    ensures attrs - skip - {} == attrs - skip
  {
    var none: map<Str, V> := map[];
    assert attrs - skip - attrs.Keys == none;
    AddAllNone(ix, id);
  }
}
