/** Evaluating a normal form over the bitmaps of a snapshot. */
module Evaluate {
  import opened Base
  import opened Language
  import opened Semantics
  import opened NormalForm
  import opened Encoding
  import I = Index
  import opened Store
  import opened ValueQueries
  import opened BitmapCache

  // ----- What each step computes, as a set of IDs -----

  /** The union of the bitmaps of a name whose value passes a filter. */
  function Selected<V>(ix: I.Index<V>, name: Str, filter: V -> bool): set<nat> {
    set k, id | k in ix && k.0 == name && filter(k.1) && id in ix[k] :: id
  }

  function TermIds(lib: Lib, db: Db, t: Term): set<nat> {
    if StringTyped(t) then Selected(db.strings, t.name, (v: Str) => StringHolds(lib, false, t, v))
    else Selected(db.numbers, t.name, (v: uint64) => NumberHolds(t, v))
  }

  function ConjunctionIds(lib: Lib, db: Db, c: Conjunction): set<nat>
    requires |c| > 0
  {
    if |c| == 1 then TermIds(lib, db, c[0])
    else ConjunctionIds(lib, db, c[..|c| - 1]) * TermIds(lib, db, c[|c| - 1])
  }

  function DisjunctionIds(lib: Lib, db: Db, d: Disjunction): set<nat>
    requires forall c :: c in d ==> |c| > 0
  {
    if |d| == 0 then {} else DisjunctionIds(lib, db, d[..|d| - 1]) + ConjunctionIds(lib, db, d[|d| - 1])
  }

  // ----- reconstruct*BitmapsOR -----

  method ReconstructBitmapsOR<V(==,!new)>(ix: I.Index<V>, name: Str, values: seq<V>) returns (bm: Bitmap)
    ensures fresh(bm) && forall id :: id in bm.ids <==> exists v :: v in values && id in I.Look(ix, name, v)
  {
    bm := new Bitmap();
    for i := 0 to |values|
      invariant fresh(bm)
      invariant forall id :: id in bm.ids <==> exists v :: v in values[..i] && id in I.Look(ix, name, v)
    {
      var b := GetBitmap(ix, name, values[i]);
      bm.Or(b);
      assert forall v :: v in values[..i + 1] <==> v in values[..i] || v == values[i];
    }
    assert values[..|values|] == values;
  }

  /** Scan for the values that pass, then OR their bitmaps: a name too long to be stored selects nothing. */
  method EvaluateStringScan(r: Reader, name: Str, filter: Str -> bool) returns (bm: Bitmap)
    requires Faithful(r)
    ensures fresh(bm) && bm.ids == Selected(r.db.strings, name, filter)
  {
    var values := ScanDistinctStringValues(r, name, filter);
    bm := ReconstructBitmapsOR(r.db.strings, name, values);
    forall id
      ensures id in bm.ids <==> id in Selected(r.db.strings, name, filter)
    {
      if id in Selected(r.db.strings, name, filter) {
        var k :| k in r.db.strings && k.0 == name && filter(k.1) && id in r.db.strings[k];
        assert k == (name, k.1) && StringFits(k.0, k.1);
        assert k.1 in values && id in I.Look(r.db.strings, name, k.1);
      }
      if v :| v in values && id in I.Look(r.db.strings, name, v) {
        assert (name, v) in r.db.strings && StringFits((name, v).0, (name, v).1);
      }
    }
  }

  method EvaluateNumericScan(r: Reader, name: Str, filter: uint64 -> bool) returns (bm: Bitmap)
    requires Faithful(r)
    ensures fresh(bm) && bm.ids == Selected(r.db.numbers, name, filter)
  {
    var values := ScanDistinctNumericValues(r, name, filter);
    bm := ReconstructBitmapsOR<uint64>(r.db.numbers, name, values);
    forall id
      ensures id in bm.ids <==> id in Selected(r.db.numbers, name, filter)
    {
      if id in Selected(r.db.numbers, name, filter) {
        var k :| k in r.db.numbers && k.0 == name && filter(k.1) && id in r.db.numbers[k];
        assert k == (name, k.1) && NumericFits(k.0);
        assert k.1 in values && id in I.Look(r.db.numbers, name, k.1);
      }
      if v: uint64 :| v in values && id in I.Look(r.db.numbers, name, v) {
        assert (name, v) in r.db.numbers && NumericFits((name, v).0);
      }
    }
  }

  /** Filters that agree select the same. */
  lemma SameSelection<V(!new)>(ix: I.Index<V>, name: Str, f: V -> bool, g: V -> bool)
    requires forall v :: f(v) == g(v)
    ensures Selected(ix, name, f) == Selected(ix, name, g)
  {
  }

  // ----- The leaf evaluators -----

  method EvaluateGlob(lib: Lib, r: Reader, t: Term) returns (bm: Bitmap)
    requires Faithful(r) && t.Glob?
    ensures fresh(bm) && bm.ids == TermIds(lib, r.db, t)
  {
    var f := if t.isNot then (v: Str) => !lib.glob(t.pattern, v) else (v: Str) => lib.glob(t.pattern, v);
    bm := EvaluateStringScan(r, t.name, f);
    SameSelection(r.db.strings, t.name, f, (v: Str) => StringHolds(lib, false, t, v));
  }

  method EvaluateComparison(lib: Lib, r: Reader, t: Term) returns (bm: Bitmap)
    requires Faithful(r) && (t.LessThan? || t.LessOrEqualThan? || t.GreaterThan? || t.GreaterOrEqualThan?)
    ensures fresh(bm) && bm.ids == TermIds(lib, r.db, t)
  {
    if t.value.StringValue? {
      var s := t.value.s;
      var f := if t.LessThan? then (v: Str) => Less(v, s)
               else if t.LessOrEqualThan? then (v: Str) => !Less(s, v)
               else if t.GreaterThan? then (v: Str) => Less(s, v)
               else (v: Str) => !Less(v, s);
      bm := EvaluateStringScan(r, t.name, f);
      SameSelection(r.db.strings, t.name, f, (v: Str) => StringHolds(lib, false, t, v));
    } else {
      var n := t.value.n;
      var f := if t.LessThan? then (v: uint64) => v < n
               else if t.LessOrEqualThan? then (v: uint64) => v <= n
               else if t.GreaterThan? then (v: uint64) => v > n
               else (v: uint64) => v >= n;
      bm := EvaluateNumericScan(r, t.name, f);
      SameSelection<uint64>(r.db.numbers, t.name, f, (v: uint64) => NumberHolds(t, v));
    }
  }

  /** Equality reads one bitmap; inequality scans. */
  method EvaluateEquality(lib: Lib, r: Reader, t: Term) returns (bm: Bitmap)
    requires Faithful(r) && t.Equality?
    ensures fresh(bm) && bm.ids == TermIds(lib, r.db, t)
  {
    if t.value.StringValue? {
      var s := t.value.s;
      if t.isNot {
        var f := (v: Str) => v != s;
        bm := EvaluateStringScan(r, t.name, f);
        SameSelection(r.db.strings, t.name, f, (v: Str) => StringHolds(lib, false, t, v));
      } else {
        bm := GetBitmap(r.db.strings, t.name, s);
        SelectOne(r.db.strings, t.name, s, (v: Str) => StringHolds(lib, false, t, v));
      }
    } else {
      var n := t.value.n;
      if t.isNot {
        var f := (v: uint64) => v != n;
        bm := EvaluateNumericScan(r, t.name, f);
        SameSelection<uint64>(r.db.numbers, t.name, f, (v: uint64) => NumberHolds(t, v));
      } else {
        bm := GetBitmap<uint64>(r.db.numbers, t.name, n);
        SelectOne<uint64>(r.db.numbers, t.name, n, (v: uint64) => NumberHolds(t, v));
      }
    }
  }

  lemma SelectOne<V(!new)>(ix: I.Index<V>, name: Str, value: V, f: V -> bool)
    requires forall v :: f(v) <==> v == value
    ensures Selected(ix, name, f) == I.Look(ix, name, value)
  {
    forall id
      ensures id in Selected(ix, name, f) <==> id in I.Look(ix, name, value)
    {
      if id in Selected(ix, name, f) {
        var k :| k in ix && k.0 == name && f(k.1) && id in ix[k];
        assert k == (name, value);
      }
      if id in I.Look(ix, name, value) {
        assert (name, value) in ix && f((name, value).1);
      }
    }
  }

  method EvaluateInclusion(lib: Lib, r: Reader, t: Term) returns (bm: Bitmap)
    requires Faithful(r) && t.Inclusion?
    ensures fresh(bm) && bm.ids == TermIds(lib, r.db, t)
  {
    if |t.values.strings| != 0 {
      var wanted: set<Str> := {};
      for i := 0 to |t.values.strings|
        invariant wanted == set j | 0 <= j < i :: t.values.strings[j]
      {
        wanted := wanted + {t.values.strings[i]};
      }
      var f := if t.isNot then (v: Str) => v !in wanted else (v: Str) => v in wanted;
      bm := EvaluateStringScan(r, t.name, f);
      SameSelection(r.db.strings, t.name, f, (v: Str) => StringHolds(lib, false, t, v));
    } else {
      var wanted: set<uint64> := {};
      for i := 0 to |t.values.numbers|
        invariant wanted == set j | 0 <= j < i :: t.values.numbers[j]
      {
        wanted := wanted + {t.values.numbers[i]};
      }
      var f := if t.isNot then (v: uint64) => v !in wanted else (v: uint64) => v in wanted;
      bm := EvaluateNumericScan(r, t.name, f);
      SameSelection<uint64>(r.db.numbers, t.name, f, (v: uint64) => NumberHolds(t, v));
    }
  }

  method EvaluateTerm(lib: Lib, r: Reader, t: Term) returns (bm: Bitmap)
    requires Faithful(r)
    ensures fresh(bm) && bm.ids == TermIds(lib, r.db, t)
  {
    if t.Equality? {
      bm := EvaluateEquality(lib, r, t);
    } else if t.Inclusion? {
      bm := EvaluateInclusion(lib, r, t);
    } else if t.Glob? {
      bm := EvaluateGlob(lib, r, t);
    } else {
      bm := EvaluateComparison(lib, r, t);
    }
  }

  /** tmp stays nil only if there is no term. */
  method EvaluateAnd(lib: Lib, r: Reader, terms: Conjunction) returns (tmp: Bitmap?)
    requires Faithful(r)
    ensures tmp == null <==> |terms| == 0
    ensures tmp != null ==> fresh(tmp) && tmp.ids == ConjunctionIds(lib, r.db, terms)
  {
    tmp := null;
    for i := 0 to |terms|
      invariant tmp == null <==> i == 0
      invariant tmp != null ==> fresh(tmp) && tmp.ids == ConjunctionIds(lib, r.db, terms[..i])
    {
      var bm := EvaluateTerm(lib, r, terms[i]);
      assert terms[..i + 1][..i] == terms[..i];
      if tmp == null {
        tmp := bm;
      } else {
        tmp.And(bm);
      }
    }
    assert terms[..|terms|] == terms;
  }

  /** The normal form has a conjunction, and every conjunction a term, so no bitmap is ever nil. */
  method EvaluateExpr(lib: Lib, r: Reader, or: Disjunction) returns (bm: Bitmap)
    requires Faithful(r) && Proper(or)
    ensures fresh(bm) && bm.ids == DisjunctionIds(lib, r.db, or)
  {
    var tmp: Bitmap? := null;
    for i := 0 to |or|
      invariant tmp == null <==> i == 0
      invariant forall c :: c in or[..i] ==> |c| > 0
      invariant tmp != null ==> fresh(tmp) && tmp.ids == DisjunctionIds(lib, r.db, or[..i])
    {
      var b := EvaluateAnd(lib, r, or[i]);
      assert or[i] in or;
      assert or[..i + 1][..i] == or[..i];
      if tmp == null {
        tmp := b;
      } else {
        tmp.Or(b);
      }
    }
    assert or[..|or|] == or;
    bm := tmp;
  }
}
