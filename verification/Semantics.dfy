/** What a query means for one entity: Kleene's strong three-valued logic. */
module Semantics {
  import opened Base
  import opened Language

  datatype Tri = True | False | Unknown

  /** The attributes of one entity that queries can see. */
  datatype Entity = Entity(strings: map<Str, Str>, numbers: map<Str, uint64>)

  function Truth(b: bool): Tri {
    if b then True else False
  }

  function Not(a: Tri): Tri {
    match a
    case True => False
    case False => True
    case Unknown => Unknown
  }

  /** Disjunction: the strongest of its operands. */
  function AnyOf(ts: seq<Tri>): Tri {
    if True in ts then True else if Unknown in ts then Unknown else False
  }

  /** Conjunction: the weakest of its operands. */
  function AllOf(ts: seq<Tri>): Tri {
    if False in ts then False else if Unknown in ts then Unknown else True
  }

  /** Does the term look at string values, or at numbers? */
  predicate StringTyped(t: Term) {
    match t
    case Inclusion(_, _, vs) => vs.strings != []
    case Glob(_, _, _) => true
    case _ => t.value.StringValue?
  }

  /** With fold set, values of the special names compare without regard to case. */
  function Case(lib: Lib, fold: bool, name: Str, s: Str): Str {
    if fold && Special(name) then lib.lower(s) else s
  }

  predicate StringHolds(lib: Lib, fold: bool, t: Term, stored: Str)
    requires StringTyped(t)
  {
    var v := Case(lib, fold, t.name, stored);
    match t
    case Equality(n, b, w) => (v == Case(lib, fold, n, w.s)) != b
    case Inclusion(n, b, ws) => (exists i :: 0 <= i < |ws.strings| && v == Case(lib, fold, n, ws.strings[i])) != b
    case LessThan(n, w) => Less(v, Case(lib, fold, n, w.s))
    case LessOrEqualThan(n, w) => !Less(Case(lib, fold, n, w.s), v)
    case GreaterThan(n, w) => Less(Case(lib, fold, n, w.s), v)
    case GreaterOrEqualThan(n, w) => !Less(v, Case(lib, fold, n, w.s))
    case Glob(_, b, p) => lib.glob(p, v) != b
  }

  predicate NumberHolds(t: Term, v: uint64)
    requires !StringTyped(t)
  {
    match t
    case Equality(_, b, w) => (v == w.n) != b
    case Inclusion(_, b, ws) => (v in ws.numbers) != b
    case LessThan(_, w) => v < w.n
    case LessOrEqualThan(_, w) => v <= w.n
    case GreaterThan(_, w) => v > w.n
    case GreaterOrEqualThan(_, w) => v >= w.n
  }

  /** A term is unknown on an entity without an attribute of that name and type. */
  function TermTri(lib: Lib, fold: bool, t: Term, e: Entity): Tri {
    if StringTyped(t) then
      if t.name in e.strings then Truth(StringHolds(lib, fold, t, e.strings[t.name])) else Unknown
    else
      if t.name in e.numbers then Truth(NumberHolds(t, e.numbers[t.name])) else Unknown
  }

  function KleeneEqual(lib: Lib, x: EqualExpr, e: Entity): Tri
    decreases x
  {
    match x
    case ParenExpr(p) =>
      var v := KleeneOr(lib, p.nested.or, e);
      if p.isNot then Not(v) else v
    case TermExpr(t) => TermTri(lib, true, t, e)
  }

  function EqualTris(lib: Lib, a: AndExpression, e: Entity): seq<Tri>
    decreases a, 0
  {
    [KleeneEqual(lib, a.left, e)] + seq(|a.right|, i requires 0 <= i < |a.right| => KleeneEqual(lib, a.right[i], e))
  }

  function KleeneAnd(lib: Lib, a: AndExpression, e: Entity): Tri
    decreases a, 1
  {
    AllOf(EqualTris(lib, a, e))
  }

  function AndTris(lib: Lib, o: OrExpression, e: Entity): seq<Tri>
    decreases o, 0
  {
    [KleeneAnd(lib, o.left, e)] + seq(|o.right|, i requires 0 <= i < |o.right| => KleeneAnd(lib, o.right[i], e))
  }

  function KleeneOr(lib: Lib, o: OrExpression, e: Entity): Tri
    decreases o, 1
  {
    AnyOf(AndTris(lib, o, e))
  }

  /** The meaning of a source query, before any rewriting. */
  function Kleene(lib: Lib, x: Expression, e: Entity): Tri {
    KleeneOr(lib, x.or, e)
  }

  /** Special values are stored in lower case. */
  predicate Canonical(lib: Lib, e: Entity) {
    forall n :: n in e.strings && Special(n) ==> lib.lower(e.strings[n]) == e.strings[n]
  }

  // ----- Truth of a normal form -----

  predicate ConjunctionTrue(c: Conjunction, holds: Term -> bool) {
    forall t :: t in c ==> holds(t)
  }

  predicate DisjunctionTrue(d: Disjunction, holds: Term -> bool) {
    exists c :: c in d && ConjunctionTrue(c, holds)
  }

  /** What the index can decide: exact comparison with the stored value. */
  function Holds(lib: Lib, e: Entity): Term -> bool {
    t => TermTri(lib, false, t, e) == True
  }

  /** The query in parentheses behind a `!`. */
  function Negated(x: Expression): Expression {
    Expression(OrExpression(AndExpression(ParenExpr(Paren(true, x)), []), []))
  }
}
