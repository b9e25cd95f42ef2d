/** From the query text's syntax tree to the IDs of the entities it is true of. */
module Query {
  import opened Base
  import opened Language
  import opened Normalize
  import opened Semantics
  import opened NormalForm
  import I = Index
  import opened Store
  import opened Lifecycle
  import opened Encoding
  import opened ValueQueries
  import opened CurrentScan
  import opened BitmapCache
  import opened Evaluate

  /** What queries can see of a stored entity. */
  function EntityOf(row: Row): Entity {
    Entity(row.strings, Indexed(row.numbers))
  }

  /** The reference answer: the live entities of which the query, as written, is Kleene-true. */
  function Matches(lib: Lib, db: Db, t: TopLevel): set<nat> {
    set id | id in db.payloads && (t.All? || Kleene(lib, t.expression, EntityOf(db.payloads[id])) == True)
  }

  lemma TermSelects(lib: Lib, db: Db, t: Term, id: nat)
    requires IndexAgrees(db)
    ensures id in TermIds(lib, db, t) <==> id in db.payloads && Holds(lib, EntityOf(db.payloads[id]))(t)
  {
    if StringTyped(t) {
      var f := (v: Str) => StringHolds(lib, false, t, v);
      SelectionByTable(db.strings, StringTable(db), t.name, f, id);
    } else {
      var f := (v: uint64) => NumberHolds(t, v);
      SelectionByTable<uint64>(db.numbers, NumberTable(db), t.name, f, id);
    }
  }

  lemma SelectionByTable<V(!new)>(ix: I.Index<V>, table: map<nat, map<Str, V>>, name: Str, f: V -> bool, id: nat)
    requires I.Mirrors(ix, table)
    ensures id in Selected(ix, name, f) <==> id in table && name in table[id] && f(table[id][name])
  {
    if id in Selected(ix, name, f) {
      var k :| k in ix && k.0 == name && f(k.1) && id in ix[k];
      assert id in I.Look(ix, k.0, k.1);
    }
    if id in table && name in table[id] && f(table[id][name]) {
      assert I.Has(table[id], name, table[id][name]);
      assert id in I.Look(ix, name, table[id][name]);
      var k := (name, table[id][name]);
      assert k in ix && k.0 == name && f(k.1) && id in ix[k];
    }
  }

  lemma {:induction false} ConjunctionSelects(lib: Lib, db: Db, c: Conjunction, id: nat)
    requires IndexAgrees(db) && |c| > 0
    ensures id in ConjunctionIds(lib, db, c)
            <==> id in db.payloads && ConjunctionTrue(c, Holds(lib, EntityOf(db.payloads[id])))
  {
    var m := |c| - 1;
    TermSelects(lib, db, c[m], id);
    if m > 0 {
      ConjunctionSelects(lib, db, c[..m], id);
      assert forall t :: t in c <==> t in c[..m] || t == c[m];
    }
  }

  lemma {:induction false} DisjunctionSelects(lib: Lib, db: Db, d: Disjunction, id: nat)
    requires IndexAgrees(db) && forall c :: c in d ==> |c| > 0
    ensures id in DisjunctionIds(lib, db, d)
            <==> id in db.payloads && DisjunctionTrue(d, Holds(lib, EntityOf(db.payloads[id])))
  {
    if |d| > 0 {
      var m := |d| - 1;
      DisjunctionSelects(lib, db, d[..m], id);
      assert d[m] in d;
      ConjunctionSelects(lib, db, d[m], id);
      assert forall c :: c in d <==> c in d[..m] || c == d[m];
    }
  }

  lemma RowsAreCanonical(lib: Lib, row: Row)
    requires LowerIsIdempotent(lib) && RowOk(lib, row)
    ensures Canonical(lib, EntityOf(row))
  {
  }

  /** In a reached state, evaluating the normal form of a query gives its reference answer. */
  lemma NormalFormSelectsMatches(lib: Lib, w: Work, x: Expression)
    requires LowerIsIdempotent(lib) && Reached(lib, w, false) && Safe(x) && LosesNothing(x, false)
    ensures Proper(Dnf(lib, x, false, false))
    ensures DisjunctionIds(lib, w.db, Dnf(lib, x, false, false)) == Matches(lib, w.db, Query(x))
  {
    var d := Dnf(lib, x, false, false);
    NormalFormShape(lib, x);
    forall id
      ensures id in DisjunctionIds(lib, w.db, d) <==> id in Matches(lib, w.db, Query(x))
    {
      DisjunctionSelects(lib, w.db, d, id);
      if id in w.db.payloads {
        RowsAreCanonical(lib, w.db.payloads[id]);
        NormalizePreservesMeaning(lib, x, false, EntityOf(w.db.payloads[id]));
      }
    }
  }

  /** The query panics exactly if it compares a special name with a number. */
  predicate Answerable(t: TopLevel) {
    t.Query? ==> Safe(t.expression)
  }

  /** The IDs the code answers with: all live ones, or those the normal form selects. */
  function AnswerIds(lib: Lib, db: Db, t: TopLevel): set<nat>
    requires Answerable(t)
  {
    if t.All? then db.payloads.Keys
    else
      NormalFormShape(lib, t.expression);
      DisjunctionIds(lib, db, Dnf(lib, t.expression, false, false))
  }

  /** No comparison of the query is changed by the fields normalisation drops. */
  predicate Faultless(t: TopLevel) {
    t.Query? ==> LosesNothing(t.expression, false)
  }

  /**
   * In a reached state the code answers with live entities, and with exactly the
   * reference answer if the query loses nothing.
   */
  lemma AnswerIsMatches(lib: Lib, w: Work, t: TopLevel)
    requires LowerIsIdempotent(lib) && Reached(lib, w, false) && Answerable(t)
    ensures AnswerIds(lib, w.db, t) <= w.db.payloads.Keys
    ensures Faultless(t) ==> AnswerIds(lib, w.db, t) == Matches(lib, w.db, t)
  {
    if t.Query? {
      var d := Dnf(lib, t.expression, false, false);
      NormalFormShape(lib, t.expression);
      forall id | id in DisjunctionIds(lib, w.db, d)
        ensures id in w.db.payloads
      {
        DisjunctionSelects(lib, w.db, d, id);
      }
      if Faultless(t) {
        NormalFormSelectsMatches(lib, w, t.expression);
      }
    }
  }

  /** Index entries of a reached state come from rows, so their keys are addressable. */
  lemma ReachedFits(lib: Lib, w: Work)
    requires Reached(lib, w, false)
    ensures Fits(w.db)
  {
    forall p | p in w.db.strings
      ensures StringFits(p.0, p.1)
    {
      var id :| id in w.db.strings[p];
      assert id in I.Look(w.db.strings, p.0, p.1);
      assert RowOk(lib, w.db.payloads[id]) && I.Has(w.db.payloads[id].strings, p.0, p.1);
    }
    forall p | p in w.db.numbers
      ensures NumericFits(p.0)
    {
      var id :| id in w.db.numbers[p];
      assert id in I.Look(w.db.numbers, p.0, p.1);
      assert RowOk(lib, w.db.payloads[id]) && I.Has(Indexed(w.db.payloads[id].numbers), p.0, p.1);
    }
  }

  method EvaluateAST(lib: Lib, r: Reader, ast: AST) returns (bm: Bitmap)
    requires Faithful(r) && Inverse(r.db.current, r.db.payloads) && (ast.Matching? ==> Proper(ast.or))
    ensures fresh(bm)
    ensures bm.ids == if ast.AllEntities? then r.db.payloads.Keys else DisjunctionIds(lib, r.db, ast.or)
  {
    match ast
    case AllEntities =>
      var ids := EvaluateAllCurrent(r);
      bm := new Bitmap();
      for i := 0 to |ids|
        invariant fresh(bm) && bm.ids == set j | 0 <= j < i :: ids[j]
      {
        bm.Add(ids[i]);
      }
      assert bm.ids == r.db.payloads.Keys;
    case Matching(or) =>
      bm := EvaluateExpr(lib, r, or);
  }

  /**
   * End to end: in every reached state, over any snapshot of it, a query that
   * loses no IsNot selects exactly the live entities of which it is
   * Kleene-true as written; `$all` selects every live entity.
   */
  method Answer(lib: Lib, ghost w: Work, r: Reader, t: TopLevel) returns (bm: Bitmap?)
    requires LowerIsIdempotent(lib) && Reached(lib, w, false)
    requires Faithful(r) && r.db == w.db
    ensures bm == null <==> !Answerable(t)
    ensures bm != null ==> fresh(bm) && bm.ids == AnswerIds(lib, w.db, t)
    ensures bm != null && Faultless(t) ==> bm.ids == Matches(lib, w.db, t)
  {
    var ast := NormalizeTopLevel(lib, t);
    if ast.None? {
      return null;
    }
    AnswerIsMatches(lib, w, t);
    if t.Query? {
      NormalFormShape(lib, t.expression);
    }
    bm := EvaluateAST(lib, r, ast.value);
  }

  lemma AnswerSelects(lib: Lib, w: Work, x: Expression, id: nat)
    requires Reached(lib, w, false) && Safe(x) && id in w.db.payloads
    ensures id in AnswerIds(lib, w.db, Query(x)) <==>
            DisjunctionTrue(Dnf(lib, x, false, false), Holds(lib, EntityOf(w.db.payloads[id])))
  {
    NormalFormShape(lib, x);
    DisjunctionSelects(lib, w.db, Dnf(lib, x, false, false), id);
  }

  lemma ReachedIsCanonical(lib: Lib, w: Work, id: nat)
    requires LowerIsIdempotent(lib) && Reached(lib, w, false) && id in w.db.payloads
    ensures Canonical(lib, EntityOf(w.db.payloads[id]))
  {
    RowsAreCanonical(lib, w.db.payloads[id]);
  }

  /**
   * Over a reached state, the code's answers to a query and to its negation
   * are disjoint if no string inclusion is over a special name, and cover every
   * entity that has the attributes mentioned if neither loses anything.
   */
  lemma NegationPartitions(lib: Lib, w: Work, x: Expression, id: nat)
    requires LowerIsIdempotent(lib) && Reached(lib, w, false) && id in w.db.payloads && Safe(x)
    ensures Safe(Negated(x))
    ensures (forall t :: t in Leaves(x, false) ==> Contradictable(t))
            ==> !(id in AnswerIds(lib, w.db, Query(x)) && id in AnswerIds(lib, w.db, Query(Negated(x))))
    ensures LosesNothing(x, false) && LosesNothing(x, true) && CarriesAll(EntityOf(w.db.payloads[id]), x)
            ==> id in AnswerIds(lib, w.db, Query(x)) || id in AnswerIds(lib, w.db, Query(Negated(x)))
  {
    ReachedIsCanonical(lib, w, id);
    QueryOrNegation(lib, x, EntityOf(w.db.payloads[id]));
    AnswerSelects(lib, w, x, id);
    AnswerSelects(lib, w, Negated(x), id);
  }
}
