/**
 * What the code answers, read off the stored rows: for one comparison in
 * numbers, in byte order and in globs, and for AND, OR and NOT as set operations.
 */
module Answers {
  import opened Base
  import opened Language
  import opened Normalize
  import opened Semantics
  import opened NormalForm
  import I = Index
  import opened Store
  import opened Evaluate
  import opened Query

  // ----- What is indexed -----

  /** The position attributes have no bitmaps. */
  lemma PositionsNotIndexed(db: Db, name: Str, value: uint64)
    requires IndexAgrees(db) && (name == TX_INDEX || name == OP_INDEX)
    ensures (name, value) !in db.numbers
  {
    if (name, value) in db.numbers {
      var some :| some in db.numbers[(name, value)];
      TableDecides(db.numbers, NumberTable(db), name, value, some);
    }
  }

  lemma TableDecides<V(!new)>(ix: I.Index<V>, table: map<nat, map<Str, V>>, name: Str, value: V, id: nat)
    requires I.Mirrors(ix, table)
    ensures (name, value) in ix && id in ix[(name, value)] <==>
            id in table && name in table[id] && table[id][name] == value
  {
    assert id in I.Look(ix, name, value) <==> id in table && I.Has(table[id], name, value);
  }

  /** The bitmap of any other number names exactly the live entities that have it. */
  lemma NumbersIndexed(db: Db, name: Str, value: uint64, id: nat)
    requires IndexAgrees(db) && name != TX_INDEX && name != OP_INDEX
    ensures (name, value) in db.numbers && id in db.numbers[(name, value)] <==>
            id in db.payloads && name in db.payloads[id].numbers && db.payloads[id].numbers[name] == value
  {
    TableDecides(db.numbers, NumberTable(db), name, value, id);
  }

  lemma StringsIndexed(db: Db, name: Str, value: Str, id: nat)
    requires IndexAgrees(db)
    ensures (name, value) in db.strings && id in db.strings[(name, value)] <==>
            id in db.payloads && name in db.payloads[id].strings && db.payloads[id].strings[name] == value
  {
    TableDecides(db.strings, StringTable(db), name, value, id);
  }

  // ----- One comparison -----

  /** A live entity has an indexed number of that name. */
  predicate HasNumber(db: Db, id: nat, name: Str) {
    id in db.payloads && name in db.payloads[id].numbers && name != TX_INDEX && name != OP_INDEX
  }

  predicate HasString(db: Db, id: nat, name: Str) {
    id in db.payloads && name in db.payloads[id].strings
  }

  lemma AnswerHolds(lib: Lib, db: Db, x: Expression, id: nat)
    requires IndexAgrees(db) && Safe(x)
    ensures id in AnswerIds(lib, db, Query(x)) <==>
            id in db.payloads && DisjunctionTrue(Dnf(lib, x, false, false), Holds(lib, EntityOf(db.payloads[id])))
  {
    NormalFormShape(lib, x);
    DisjunctionSelects(lib, db, Dnf(lib, x, false, false), id);
  }

  /** The ID is in the answer to the comparison; negated, in the answer to its negation. */
  predicate Answered(lib: Lib, db: Db, t: Term, neg: bool, id: nat)
    requires SafeTerm(t)
  {
    SingleNormalForm(lib, t, false);
    NegatedNormalForm(lib, Single(t), false);
    id in AnswerIds(lib, db, Query(if neg then Negated(Single(t)) else Single(t)))
  }

  lemma AnsweredHolds(lib: Lib, db: Db, t: Term, neg: bool, id: nat)
    requires IndexAgrees(db) && SafeTerm(t)
    ensures Answered(lib, db, t, neg, id) <==>
            id in db.payloads && Holds(lib, EntityOf(db.payloads[id]))(NormalTerm(lib, Signed(t, neg), false))
  {
    SingleNormalForm(lib, t, neg);
    if neg {
      NegatedNormalForm(lib, Single(t), false);
      AnswerHolds(lib, db, Negated(Single(t)), id);
    } else {
      AnswerHolds(lib, db, Single(t), id);
    }
    if id in db.payloads {
      SingleHolds(NormalTerm(lib, Signed(t, neg), false), Holds(lib, EntityOf(db.payloads[id])));
    }
  }

  /** A negated comparison holds of the values its opposite does, and of none where the attribute is missing. */
  lemma NumberTests(lib: Lib, e: Entity, name: Str, n: uint64, neg: bool)
    requires !Special(name)
    ensures Holds(lib, e)(NormalTerm(lib, Signed(LessThan(name, NumberValue(n)), neg), false)) <==>
            name in e.numbers && (e.numbers[name] < n) == !neg
    ensures Holds(lib, e)(NormalTerm(lib, Signed(LessOrEqualThan(name, NumberValue(n)), neg), false)) <==>
            name in e.numbers && (e.numbers[name] <= n) == !neg
    ensures Holds(lib, e)(NormalTerm(lib, Signed(GreaterThan(name, NumberValue(n)), neg), false)) <==>
            name in e.numbers && (e.numbers[name] > n) == !neg
    ensures Holds(lib, e)(NormalTerm(lib, Signed(GreaterOrEqualThan(name, NumberValue(n)), neg), false)) <==>
            name in e.numbers && (e.numbers[name] >= n) == !neg
  {
  }

  /** The literal as it is compared: in lower case for a special name. */
  function Literal(lib: Lib, name: Str, s: Str): Str {
    if name in {KEY, OWNER, CREATOR} then lib.lower(s) else s
  }

  lemma StringTests(lib: Lib, e: Entity, name: Str, s: Str, neg: bool)
    ensures Holds(lib, e)(NormalTerm(lib, Signed(LessThan(name, StringValue(s)), neg), false)) <==>
            name in e.strings && Less(e.strings[name], Literal(lib, name, s)) == !neg
    ensures Holds(lib, e)(NormalTerm(lib, Signed(LessOrEqualThan(name, StringValue(s)), neg), false)) <==>
            name in e.strings && Less(Literal(lib, name, s), e.strings[name]) == neg
    ensures Holds(lib, e)(NormalTerm(lib, Signed(GreaterThan(name, StringValue(s)), neg), false)) <==>
            name in e.strings && Less(Literal(lib, name, s), e.strings[name]) == !neg
    ensures Holds(lib, e)(NormalTerm(lib, Signed(GreaterOrEqualThan(name, StringValue(s)), neg), false)) <==>
            name in e.strings && Less(e.strings[name], Literal(lib, name, s)) == neg
  {
  }

  /** What queries see of a row: all its strings, and its numbers but for the position. */
  lemma Seen(db: Db, id: nat, name: Str)
    requires id in db.payloads
    ensures name in EntityOf(db.payloads[id]).numbers <==> HasNumber(db, id, name)
    ensures HasNumber(db, id, name) ==> EntityOf(db.payloads[id]).numbers[name] == db.payloads[id].numbers[name]
    ensures EntityOf(db.payloads[id]).strings == db.payloads[id].strings
  {
  }

  /** `name < n` answers with the entities whose number is less; its negation, with those whose number is not. */
  lemma LessThanAnswers(lib: Lib, db: Db, name: Str, n: uint64, neg: bool, id: nat)
    requires IndexAgrees(db) && !Special(name)
    ensures Answered(lib, db, LessThan(name, NumberValue(n)), neg, id) <==>
            HasNumber(db, id, name) && (db.payloads[id].numbers[name] < n) == !neg
  {
    AnsweredHolds(lib, db, LessThan(name, NumberValue(n)), neg, id);
    if id in db.payloads {
      Seen(db, id, name);
      NumberTests(lib, EntityOf(db.payloads[id]), name, n, neg);
    }
  }

  lemma LessOrEqualAnswers(lib: Lib, db: Db, name: Str, n: uint64, neg: bool, id: nat)
    requires IndexAgrees(db) && !Special(name)
    ensures Answered(lib, db, LessOrEqualThan(name, NumberValue(n)), neg, id) <==>
            HasNumber(db, id, name) && (db.payloads[id].numbers[name] <= n) == !neg
  {
    AnsweredHolds(lib, db, LessOrEqualThan(name, NumberValue(n)), neg, id);
    if id in db.payloads {
      Seen(db, id, name);
      NumberTests(lib, EntityOf(db.payloads[id]), name, n, neg);
    }
  }

  lemma GreaterThanAnswers(lib: Lib, db: Db, name: Str, n: uint64, neg: bool, id: nat)
    requires IndexAgrees(db) && !Special(name)
    ensures Answered(lib, db, GreaterThan(name, NumberValue(n)), neg, id) <==>
            HasNumber(db, id, name) && (db.payloads[id].numbers[name] > n) == !neg
  {
    AnsweredHolds(lib, db, GreaterThan(name, NumberValue(n)), neg, id);
    if id in db.payloads {
      Seen(db, id, name);
      NumberTests(lib, EntityOf(db.payloads[id]), name, n, neg);
    }
  }

  lemma GreaterOrEqualAnswers(lib: Lib, db: Db, name: Str, n: uint64, neg: bool, id: nat)
    requires IndexAgrees(db) && !Special(name)
    ensures Answered(lib, db, GreaterOrEqualThan(name, NumberValue(n)), neg, id) <==>
            HasNumber(db, id, name) && (db.payloads[id].numbers[name] >= n) == !neg
  {
    AnsweredHolds(lib, db, GreaterOrEqualThan(name, NumberValue(n)), neg, id);
    if id in db.payloads {
      Seen(db, id, name);
      NumberTests(lib, EntityOf(db.payloads[id]), name, n, neg);
    }
  }

  lemma NumberEqualityAnswers(lib: Lib, db: Db, name: Str, n: uint64, isNot: bool, neg: bool, id: nat)
    requires IndexAgrees(db) && !Special(name)
    ensures Answered(lib, db, Equality(name, isNot, NumberValue(n)), neg, id) <==>
            HasNumber(db, id, name) && (db.payloads[id].numbers[name] == n) == (isNot == neg)
  {
    AnsweredHolds(lib, db, Equality(name, isNot, NumberValue(n)), neg, id);
    if id in db.payloads {
      Seen(db, id, name);
    }
  }

  lemma NumberInclusionAnswers(lib: Lib, db: Db, name: Str, ns: seq<uint64>, isNot: bool, neg: bool, id: nat)
    requires IndexAgrees(db) && !Special(name)
    ensures Answered(lib, db, Inclusion(name, isNot, Values([], ns)), neg, id) <==>
            HasNumber(db, id, name) && (db.payloads[id].numbers[name] in ns) == (isNot == neg)
  {
    AnsweredHolds(lib, db, Inclusion(name, isNot, Values([], ns)), neg, id);
    if id in db.payloads {
      Seen(db, id, name);
    }
  }

  /** Strings compare byte by byte from the left. */
  lemma StringLessThanAnswers(lib: Lib, db: Db, name: Str, s: Str, neg: bool, id: nat)
    requires IndexAgrees(db)
    ensures Answered(lib, db, LessThan(name, StringValue(s)), neg, id) <==>
            HasString(db, id, name) && Less(db.payloads[id].strings[name], Literal(lib, name, s)) == !neg
  {
    AnsweredHolds(lib, db, LessThan(name, StringValue(s)), neg, id);
    if id in db.payloads {
      Seen(db, id, name);
      StringTests(lib, EntityOf(db.payloads[id]), name, s, neg);
    }
  }

  lemma StringLessOrEqualAnswers(lib: Lib, db: Db, name: Str, s: Str, neg: bool, id: nat)
    requires IndexAgrees(db)
    ensures Answered(lib, db, LessOrEqualThan(name, StringValue(s)), neg, id) <==>
            HasString(db, id, name) && Less(Literal(lib, name, s), db.payloads[id].strings[name]) == neg
  {
    AnsweredHolds(lib, db, LessOrEqualThan(name, StringValue(s)), neg, id);
    if id in db.payloads {
      Seen(db, id, name);
      StringTests(lib, EntityOf(db.payloads[id]), name, s, neg);
    }
  }

  lemma StringGreaterThanAnswers(lib: Lib, db: Db, name: Str, s: Str, neg: bool, id: nat)
    requires IndexAgrees(db)
    ensures Answered(lib, db, GreaterThan(name, StringValue(s)), neg, id) <==>
            HasString(db, id, name) && Less(Literal(lib, name, s), db.payloads[id].strings[name]) == !neg
  {
    AnsweredHolds(lib, db, GreaterThan(name, StringValue(s)), neg, id);
    if id in db.payloads {
      Seen(db, id, name);
      StringTests(lib, EntityOf(db.payloads[id]), name, s, neg);
    }
  }

  lemma StringGreaterOrEqualAnswers(lib: Lib, db: Db, name: Str, s: Str, neg: bool, id: nat)
    requires IndexAgrees(db)
    ensures Answered(lib, db, GreaterOrEqualThan(name, StringValue(s)), neg, id) <==>
            HasString(db, id, name) && Less(db.payloads[id].strings[name], Literal(lib, name, s)) == neg
  {
    AnsweredHolds(lib, db, GreaterOrEqualThan(name, StringValue(s)), neg, id);
    if id in db.payloads {
      Seen(db, id, name);
      StringTests(lib, EntityOf(db.payloads[id]), name, s, neg);
    }
  }

  lemma StringEqualityAnswers(lib: Lib, db: Db, name: Str, s: Str, isNot: bool, neg: bool, id: nat)
    requires IndexAgrees(db)
    ensures Answered(lib, db, Equality(name, isNot, StringValue(s)), neg, id) <==>
            HasString(db, id, name) && (db.payloads[id].strings[name] == Literal(lib, name, s)) == (isNot == neg)
  {
    AnsweredHolds(lib, db, Equality(name, isNot, StringValue(s)), neg, id);
    if id in db.payloads {
      Seen(db, id, name);
    }
  }

  lemma StringInclusionAnswers(lib: Lib, db: Db, name: Str, ss: seq<Str>, isNot: bool, neg: bool, id: nat)
    requires IndexAgrees(db) && !Special(name) && ss != []
    ensures Answered(lib, db, Inclusion(name, isNot, Values(ss, [])), neg, id) <==>
            HasString(db, id, name) && (db.payloads[id].strings[name] in ss) == (isNot == neg)
  {
    AnsweredHolds(lib, db, Inclusion(name, isNot, Values(ss, [])), neg, id);
    if id in db.payloads {
      Seen(db, id, name);
    }
  }

  /** A glob asks path.Match for its pattern and the stored value, in this order and as they are. */
  lemma GlobAnswers(lib: Lib, db: Db, name: Str, pattern: Str, isNot: bool, neg: bool, id: nat)
    requires IndexAgrees(db)
    ensures Answered(lib, db, Glob(name, isNot, pattern), neg, id) <==>
            HasString(db, id, name) && lib.glob(pattern, db.payloads[id].strings[name]) == (isNot == neg)
  {
    AnsweredHolds(lib, db, Glob(name, isNot, pattern), neg, id);
    if id in db.payloads {
      Seen(db, id, name);
    }
  }

  /** Over a special name an inclusion answers with the entities listed, negated or not. */
  lemma SpecialInclusionAnswers(lib: Lib, db: Db, name: Str, ss: seq<Str>, isNot: bool, neg: bool, id: nat)
    requires IndexAgrees(db) && name in {KEY, OWNER, CREATOR} && ss != []
    ensures Answered(lib, db, Inclusion(name, isNot, Values(ss, [])), neg, id) <==>
            HasString(db, id, name) && exists i :: 0 <= i < |ss| && db.payloads[id].strings[name] == lib.lower(ss[i])
  {
    var t := Inclusion(name, isNot, Values(ss, []));
    AnsweredHolds(lib, db, t, neg, id);
    var n := NormalTerm(lib, Signed(t, neg), false);
    assert n == Inclusion(name, false, Values(LowerAll(lib, ss), []));
    assert forall i :: 0 <= i < |ss| ==> n.values.strings[i] == lib.lower(ss[i]);
  }

  /** Listing numbers, it answers with nothing. */
  lemma SpecialNumbersAnswer(lib: Lib, db: Db, name: Str, ns: seq<uint64>, isNot: bool, neg: bool, id: nat)
    requires IndexAgrees(db) && name in {KEY, OWNER, CREATOR}
    ensures !Answered(lib, db, Inclusion(name, isNot, Values([], ns)), neg, id)
  {
    AnsweredHolds(lib, db, Inclusion(name, isNot, Values([], ns)), neg, id);
  }

  // ----- AND, OR and NOT -----

  /** The query that is one operand of an AND. */
  function Operand(e: EqualExpr): Expression {
    Expression(OrExpression(AndExpression(e, []), []))
  }

  /** The query that is one operand of an OR. */
  function Alternative(a: AndExpression): Expression {
    Expression(OrExpression(a, []))
  }

  lemma OperandNormalForm(lib: Lib, e: EqualExpr, neg: bool)
    requires SafeEqual(e)
    ensures Safe(Operand(e)) && Dnf(lib, Operand(e), neg, false) == DnfEqual(lib, e, neg, false)
  {
    var a := AndExpression(e, []);
    var d := DnfEqual(lib, e, neg, false);
    assert EqualParts(lib, a, neg, false) == [d];
    CrossWithUnit(d);
    ConcatUnit(d);
    assert AndParts(lib, Operand(e).or, neg, false) == [d];
  }

  lemma AlternativeNormalForm(lib: Lib, a: AndExpression, neg: bool)
    requires SafeAnd(a)
    ensures Safe(Alternative(a)) && Dnf(lib, Alternative(a), neg, false) == DnfAnd(lib, a, neg, false)
  {
    var d := DnfAnd(lib, a, neg, false);
    assert AndParts(lib, Alternative(a).or, neg, false) == [d];
    CrossWithUnit(d);
    ConcatUnit(d);
  }

  /** The ID is in the answer to the query, or to its negation. */
  predicate InAnswer(lib: Lib, db: Db, x: Expression, neg: bool, id: nat)
    requires Safe(x)
  {
    NegatedNormalForm(lib, x, false);
    id in AnswerIds(lib, db, Query(if neg then Negated(x) else x))
  }

  lemma InAnswerHolds(lib: Lib, db: Db, x: Expression, neg: bool, id: nat)
    requires IndexAgrees(db) && Safe(x)
    ensures InAnswer(lib, db, x, neg, id) <==>
            id in db.payloads && DisjunctionTrue(Dnf(lib, x, neg, false), Holds(lib, EntityOf(db.payloads[id])))
  {
    NegatedNormalForm(lib, x, false);
    AnswerHolds(lib, db, if neg then Negated(x) else x, id);
  }

  lemma OperandHolds(lib: Lib, db: Db, e: EqualExpr, neg: bool, id: nat)
    requires IndexAgrees(db) && SafeEqual(e) && id in db.payloads
    ensures Safe(Operand(e))
    ensures InAnswer(lib, db, Operand(e), neg, id) <==>
            DisjunctionTrue(DnfEqual(lib, e, neg, false), Holds(lib, EntityOf(db.payloads[id])))
  {
    OperandNormalForm(lib, e, neg);
    InAnswerHolds(lib, db, Operand(e), neg, id);
  }

  lemma AlternativeHolds(lib: Lib, db: Db, a: AndExpression, neg: bool, id: nat)
    requires IndexAgrees(db) && SafeAnd(a) && id in db.payloads
    ensures Safe(Alternative(a))
    ensures InAnswer(lib, db, Alternative(a), neg, id) <==>
            DisjunctionTrue(DnfAnd(lib, a, neg, false), Holds(lib, EntityOf(db.payloads[id])))
  {
    AlternativeNormalForm(lib, a, neg);
    InAnswerHolds(lib, db, Alternative(a), neg, id);
  }

  lemma FirstAndRest(parts: seq<Disjunction>, holds: Term -> bool)
    requires |parts| > 0
    ensures (forall i :: 0 <= i < |parts| ==> DisjunctionTrue(parts[i], holds)) <==>
            DisjunctionTrue(parts[0], holds) && forall p :: p in parts[1..] ==> DisjunctionTrue(p, holds)
    ensures (exists i :: 0 <= i < |parts| && DisjunctionTrue(parts[i], holds)) <==>
            DisjunctionTrue(parts[0], holds) || exists p :: p in parts[1..] && DisjunctionTrue(p, holds)
  {
    var rest := parts[1..];
    assert forall i :: 0 < i < |parts| ==> parts[i] == rest[i - 1];
    assert forall p :: p in rest ==> p in parts;
  }

  /** The answer to an AND is the intersection of its operands' answers. */
  lemma AndAnswers(lib: Lib, db: Db, a: AndExpression, id: nat)
    requires IndexAgrees(db) && SafeAnd(a) && id in db.payloads
    ensures Safe(Alternative(a)) && Safe(Operand(a.left))
    ensures forall i :: 0 <= i < |a.right| ==> Safe(Operand(a.right[i]))
    ensures InAnswer(lib, db, Alternative(a), false, id) <==>
            && InAnswer(lib, db, Operand(a.left), false, id)
            && forall i :: 0 <= i < |a.right| ==> InAnswer(lib, db, Operand(a.right[i]), false, id)
  {
    var holds := Holds(lib, EntityOf(db.payloads[id]));
    var parts := EqualParts(lib, a, false, false);
    OperandHolds(lib, db, a.left, false, id);
    forall i | 0 <= i < |a.right|
      ensures Safe(Operand(a.right[i]))
      ensures InAnswer(lib, db, Operand(a.right[i]), false, id) <==> DisjunctionTrue(parts[1..][i], holds)
    {
      OperandHolds(lib, db, a.right[i], false, id);
    }
    AlternativeHolds(lib, db, a, false, id);
    CrossAllMeaning(parts, holds);
    FirstAndRest(parts, holds);
  }

  /** The answer to the negation of an AND is the union of its negated operands' answers. */
  lemma NotAndAnswers(lib: Lib, db: Db, a: AndExpression, id: nat)
    requires IndexAgrees(db) && SafeAnd(a) && id in db.payloads
    ensures Safe(Alternative(a)) && Safe(Operand(a.left))
    ensures forall i :: 0 <= i < |a.right| ==> Safe(Operand(a.right[i]))
    ensures InAnswer(lib, db, Alternative(a), true, id) <==>
            || InAnswer(lib, db, Operand(a.left), true, id)
            || exists i :: 0 <= i < |a.right| && InAnswer(lib, db, Operand(a.right[i]), true, id)
  {
    var holds := Holds(lib, EntityOf(db.payloads[id]));
    var parts := EqualParts(lib, a, true, false);
    OperandHolds(lib, db, a.left, true, id);
    forall i | 0 <= i < |a.right|
      ensures Safe(Operand(a.right[i]))
      ensures InAnswer(lib, db, Operand(a.right[i]), true, id) <==> DisjunctionTrue(parts[1..][i], holds)
    {
      OperandHolds(lib, db, a.right[i], true, id);
    }
    AlternativeHolds(lib, db, a, true, id);
    ConcatMeaning(parts, holds);
    FirstAndRest(parts, holds);
  }

  /** The answer to an OR is the union of its alternatives' answers. */
  lemma OrAnswers(lib: Lib, db: Db, o: OrExpression, id: nat)
    requires IndexAgrees(db) && SafeOr(o) && id in db.payloads
    ensures Safe(Expression(o)) && Safe(Alternative(o.left))
    ensures forall i :: 0 <= i < |o.right| ==> Safe(Alternative(o.right[i]))
    ensures InAnswer(lib, db, Expression(o), false, id) <==>
            || InAnswer(lib, db, Alternative(o.left), false, id)
            || exists i :: 0 <= i < |o.right| && InAnswer(lib, db, Alternative(o.right[i]), false, id)
  {
    var holds := Holds(lib, EntityOf(db.payloads[id]));
    var parts := AndParts(lib, o, false, false);
    AlternativeHolds(lib, db, o.left, false, id);
    forall i | 0 <= i < |o.right|
      ensures Safe(Alternative(o.right[i]))
      ensures InAnswer(lib, db, Alternative(o.right[i]), false, id) <==> DisjunctionTrue(parts[1..][i], holds)
    {
      AlternativeHolds(lib, db, o.right[i], false, id);
    }
    InAnswerHolds(lib, db, Expression(o), false, id);
    ConcatMeaning(parts, holds);
    FirstAndRest(parts, holds);
  }

  /** The answer to the negation of an OR is the intersection of its negated alternatives' answers. */
  lemma NotOrAnswers(lib: Lib, db: Db, o: OrExpression, id: nat)
    requires IndexAgrees(db) && SafeOr(o) && id in db.payloads
    ensures Safe(Expression(o)) && Safe(Alternative(o.left))
    ensures forall i :: 0 <= i < |o.right| ==> Safe(Alternative(o.right[i]))
    ensures InAnswer(lib, db, Expression(o), true, id) <==>
            && InAnswer(lib, db, Alternative(o.left), true, id)
            && forall i :: 0 <= i < |o.right| ==> InAnswer(lib, db, Alternative(o.right[i]), true, id)
  {
    var holds := Holds(lib, EntityOf(db.payloads[id]));
    var parts := AndParts(lib, o, true, false);
    AlternativeHolds(lib, db, o.left, true, id);
    forall i | 0 <= i < |o.right|
      ensures Safe(Alternative(o.right[i]))
      ensures InAnswer(lib, db, Alternative(o.right[i]), true, id) <==> DisjunctionTrue(parts[1..][i], holds)
    {
      AlternativeHolds(lib, db, o.right[i], true, id);
    }
    InAnswerHolds(lib, db, Expression(o), true, id);
    CrossAllMeaning(parts, holds);
    FirstAndRest(parts, holds);
  }

  /** A parenthesis answers as its query does, and a negated one as the negation. */
  lemma ParenAnswers(lib: Lib, db: Db, p: Paren, neg: bool, id: nat)
    requires IndexAgrees(db) && Safe(p.nested) && id in db.payloads
    ensures Safe(Operand(ParenExpr(p)))
    ensures InAnswer(lib, db, Operand(ParenExpr(p)), neg, id) <==> InAnswer(lib, db, p.nested, p.isNot != neg, id)
  {
    OperandHolds(lib, db, ParenExpr(p), neg, id);
    InAnswerHolds(lib, db, p.nested, p.isNot != neg, id);
  }

  /** `$all` answers with every live entity, and no query answers with anything else. */
  lemma OnlyLiveAnswers(lib: Lib, db: Db, x: Expression, id: nat)
    requires IndexAgrees(db) && Safe(x)
    ensures AnswerIds(lib, db, All) == db.payloads.Keys
    ensures id in AnswerIds(lib, db, Query(x)) ==> id in db.payloads
  {
    AnswerHolds(lib, db, x, id);
  }
}
