/**
 * The query normaliser. The methods follow the source: negations are pushed
 * down one layer at a time by Invert*, then AND is distributed over OR by the
 * cross-product loop. `Dnf` is what they are proved to compute: a single
 * structural recursion that carries the polarity instead of rewriting.
 */
module Normalize {
  import opened Base
  import opened Language

  // ----- Leaves -----

  /** Negates a term, as the leaf `invert` methods do. */
  function InvertTerm(t: Term): Term {
    match t
    case Equality(n, b, v) => Equality(n, !b, v)
    case Inclusion(n, b, vs) => Inclusion(n, !b, vs)
    case LessThan(n, v) => GreaterOrEqualThan(n, v)
    case LessOrEqualThan(n, v) => GreaterThan(n, v)
    case GreaterThan(n, v) => LessOrEqualThan(n, v)
    case GreaterOrEqualThan(n, v) => LessThan(n, v)
    case Glob(n, b, p) => Glob(n, !b, p)
  }

  function Signed(t: Term, neg: bool): Term {
    if neg then InvertTerm(t) else t
  }

  /** The leaf `Normalize` methods dereference the string literal of a special name. */
  predicate SafeTerm(t: Term) {
    t.Inclusion? || t.Glob? || (Special(t.name) ==> t.value.StringValue?)
  }

  function LowerAll(lib: Lib, ss: seq<Str>): seq<Str> {
    seq(|ss|, i requires 0 <= i < |ss| => lib.lower(ss[i]))
  }

  /**
   * The leaf `Normalize` methods. With `keep` false this is the code, which
   * loses IsNot and Numbers on an inclusion over a special name; with `keep`
   * true it is the same code with those fields copied.
   */
  function NormalTerm(lib: Lib, t: Term, keep: bool): Term
    requires SafeTerm(t)
  {
    if !Special(t.name) || t.Glob? then t
    else if t.Inclusion? then
      Inclusion(t.name, keep && t.isNot,
                Values(LowerAll(lib, t.values.strings), if keep then t.values.numbers else []))
    else t.(value := StringValue(lib.lower(t.value.s)))
  }

  // ----- One-layer inversion -----

  function InvertEqual(e: EqualExpr): EqualExpr {
    match e
    case ParenExpr(p) => ParenExpr(Paren(!p.isNot, p.nested))
    case TermExpr(t) => TermExpr(InvertTerm(t))
  }

  function InvertAnd(a: AndExpression): OrExpression {
    OrExpression(AndExpression(InvertEqual(a.left), []),
                 seq(|a.right|, i requires 0 <= i < |a.right| => AndExpression(InvertEqual(a.right[i]), [])))
  }

  function Wrap(o: OrExpression): EqualExpr {
    ParenExpr(Paren(false, Expression(o)))
  }

  function InvertOr(o: OrExpression): AndExpression {
    AndExpression(Wrap(InvertAnd(o.left)),
                  seq(|o.right|, i requires 0 <= i < |o.right| => Wrap(InvertAnd(o.right[i]))))
  }

  function InvertExpression(e: Expression): Expression {
    if |e.or.right| == 0 then Expression(InvertAnd(e.or.left))
    else Expression(OrExpression(InvertOr(e.or), []))
  }

  /** The query that is one comparison. */
  function Single(t: Term): Expression {
    Expression(OrExpression(AndExpression(TermExpr(t), []), []))
  }

  // ----- The structural specification -----

  predicate SafeEqual(e: EqualExpr) {
    match e
    case ParenExpr(p) => SafeOr(p.nested.or)
    case TermExpr(t) => SafeTerm(t)
  }

  predicate SafeAnd(a: AndExpression) {
    SafeEqual(a.left) && forall i :: 0 <= i < |a.right| ==> SafeEqual(a.right[i])
  }

  predicate SafeOr(o: OrExpression) {
    SafeAnd(o.left) && forall i :: 0 <= i < |o.right| ==> SafeAnd(o.right[i])
  }

  /** No comparison on a special name has a number literal. */
  predicate Safe(e: Expression) {
    SafeOr(e.or)
  }

  function Concat(parts: seq<Disjunction>): Disjunction {
    if |parts| == 0 then [] else Concat(parts[..|parts| - 1]) + parts[|parts| - 1]
  }

  function Extend(c: Conjunction, d: Disjunction): Disjunction {
    seq(|d|, i requires 0 <= i < |d| => c + d[i])
  }

  function Cross(a: Disjunction, b: Disjunction): Disjunction {
    if |a| == 0 then [] else Cross(a[..|a| - 1], b) + Extend(a[|a| - 1], b)
  }

  function CrossAll(parts: seq<Disjunction>): Disjunction {
    if |parts| == 0 then [[]] else Cross(CrossAll(parts[..|parts| - 1]), parts[|parts| - 1])
  }

  function EqualParts(lib: Lib, a: AndExpression, neg: bool, keep: bool): seq<Disjunction>
    requires SafeAnd(a)
    decreases a, 0
  {
    [DnfEqual(lib, a.left, neg, keep)]
    + seq(|a.right|, i requires 0 <= i < |a.right| => DnfEqual(lib, a.right[i], neg, keep))
  }

  function AndParts(lib: Lib, o: OrExpression, neg: bool, keep: bool): seq<Disjunction>
    requires SafeOr(o)
    decreases o, 0
  {
    [DnfAnd(lib, o.left, neg, keep)]
    + seq(|o.right|, i requires 0 <= i < |o.right| => DnfAnd(lib, o.right[i], neg, keep))
  }

  function DnfEqual(lib: Lib, e: EqualExpr, neg: bool, keep: bool): Disjunction
    requires SafeEqual(e)
    decreases e
  {
    match e
    case ParenExpr(p) => DnfOr(lib, p.nested.or, p.isNot != neg, keep)
    case TermExpr(t) => [[NormalTerm(lib, Signed(t, neg), keep)]]
  }

  function DnfAnd(lib: Lib, a: AndExpression, neg: bool, keep: bool): Disjunction
    requires SafeAnd(a)
    decreases a, 1
  {
    var parts := EqualParts(lib, a, neg, keep);
    if neg then Concat(parts) else CrossAll(parts)
  }

  function DnfOr(lib: Lib, o: OrExpression, neg: bool, keep: bool): Disjunction
    requires SafeOr(o)
    decreases o, 1
  {
    var parts := AndParts(lib, o, neg, keep);
    if neg then CrossAll(parts) else Concat(parts)
  }

  /** The normal form of e, or of its negation when neg is set. */
  function Dnf(lib: Lib, e: Expression, neg: bool, keep: bool): Disjunction
    requires Safe(e)
  {
    DnfOr(lib, e.or, neg, keep)
  }

  // ----- Inversion agrees with polarity -----

  lemma CrossWithUnit(d: Disjunction)
    ensures CrossAll([d]) == d
  {
    var unit: Disjunction := [[]];
    assert [d][..0] == [];
    assert unit[..0] == [];
    assert Cross(unit, d) == Extend([], d);
    assert forall i :: 0 <= i < |d| ==> Extend([], d)[i] == d[i];
  }

  lemma ConcatUnit(d: Disjunction)
    ensures Concat([d]) == d
  {
    assert [d][..0] == [];
  }

  lemma InvertEqualFlips(lib: Lib, e: EqualExpr)
    requires SafeEqual(e)
    ensures SafeEqual(InvertEqual(e))
    ensures DnfEqual(lib, InvertEqual(e), false, false) == DnfEqual(lib, e, true, false)
  {
  }

  lemma InvertAndFlips(lib: Lib, a: AndExpression)
    requires SafeAnd(a)
    ensures SafeOr(InvertAnd(a))
    ensures DnfOr(lib, InvertAnd(a), false, false) == DnfAnd(lib, a, true, false)
  {
    var o := InvertAnd(a);
    InvertEqualFlips(lib, a.left);
    forall i | 0 <= i < |a.right|
      ensures SafeAnd(o.right[i])
    {
      InvertEqualFlips(lib, a.right[i]);
    }
    SingleAnd(lib, InvertEqual(a.left));
    forall i | 0 <= i < |a.right|
      ensures DnfAnd(lib, o.right[i], false, false) == DnfEqual(lib, a.right[i], true, false)
    {
      InvertEqualFlips(lib, a.right[i]);
      SingleAnd(lib, InvertEqual(a.right[i]));
    }
    assert AndParts(lib, o, false, false) == EqualParts(lib, a, true, false);
  }

  lemma SingleAnd(lib: Lib, e: EqualExpr)
    requires SafeEqual(e)
    ensures DnfAnd(lib, AndExpression(e, []), false, false) == DnfEqual(lib, e, false, false)
  {
    assert EqualParts(lib, AndExpression(e, []), false, false) == [DnfEqual(lib, e, false, false)];
    CrossWithUnit(DnfEqual(lib, e, false, false));
  }

  lemma InvertOrFlips(lib: Lib, o: OrExpression)
    requires SafeOr(o)
    ensures SafeAnd(InvertOr(o))
    ensures DnfAnd(lib, InvertOr(o), false, false) == DnfOr(lib, o, true, false)
  {
    var a := InvertOr(o);
    InvertAndFlips(lib, o.left);
    forall i | 0 <= i < |o.right|
      ensures SafeEqual(a.right[i])
      ensures DnfEqual(lib, a.right[i], false, false) == DnfAnd(lib, o.right[i], true, false)
    {
      InvertAndFlips(lib, o.right[i]);
    }
    assert EqualParts(lib, a, false, false) == AndParts(lib, o, true, false);
  }

  /**
   * Rewriting an expression to its inverse and normalising that gives, term by
   * term and in the same order, the normal form at negative polarity; the
   * shortcut for a single disjunct included.
   */
  lemma InvertFlipsPolarity(lib: Lib, e: Expression)
    requires Safe(e)
    ensures Safe(InvertExpression(e))
    ensures Dnf(lib, InvertExpression(e), false, false) == Dnf(lib, e, true, false)
  {
    if |e.or.right| == 0 {
      InvertAndFlips(lib, e.or.left);
      assert AndParts(lib, e.or, true, false) == [DnfAnd(lib, e.or.left, true, false)];
      CrossWithUnit(DnfAnd(lib, e.or.left, true, false));
    } else {
      InvertOrFlips(lib, e.or);
      var o := OrExpression(InvertOr(e.or), []);
      assert AndParts(lib, o, false, false) == [DnfAnd(lib, InvertOr(e.or), false, false)];
      ConcatUnit(DnfAnd(lib, InvertOr(e.or), false, false));
    }
  }

  /** Inverting never turns a safe query into an unsafe one, nor back. */
  lemma InvertKeepsSafety(e: Expression)
    ensures Safe(InvertExpression(e)) <==> Safe(e)
  {
    InvertAndKeepsSafety(e.or.left);
    forall i | 0 <= i < |e.or.right|
      ensures SafeOr(InvertAnd(e.or.right[i])) <==> SafeAnd(e.or.right[i])
    {
      InvertAndKeepsSafety(e.or.right[i]);
    }
    var a := InvertOr(e.or);
    assert SafeEqual(a.left) <==> SafeAnd(e.or.left);
    assert forall i :: 0 <= i < |a.right| ==> (SafeEqual(a.right[i]) <==> SafeAnd(e.or.right[i]));
    assert SafeAnd(a) <==> SafeOr(e.or);
  }

  lemma InvertAndKeepsSafety(a: AndExpression)
    ensures SafeOr(InvertAnd(a)) <==> SafeAnd(a)
  {
    var o := InvertAnd(a);
    assert SafeAnd(o.left) <==> SafeEqual(a.left);
    assert forall i :: 0 <= i < |a.right| ==> (SafeAnd(o.right[i]) <==> SafeEqual(a.right[i]));
  }

  // ----- Termination measure -----

  function Sum(s: seq<nat>): nat {
    if |s| == 0 then 0 else Sum(s[..|s| - 1]) + s[|s| - 1]
  }

  lemma {:induction false} SumBounds(s: seq<nat>, i: int)
    requires 0 <= i < |s|
    ensures s[i] <= Sum(s)
  {
    if i < |s| - 1 {
      SumBounds(s[..|s| - 1], i);
    }
  }

  lemma {:induction false} SumMonotone(s: seq<nat>, t: seq<nat>)
    requires |s| == |t| && forall i :: 0 <= i < |s| ==> s[i] <= t[i]
    ensures Sum(s) <= Sum(t)
  {
    if |s| > 0 {
      SumMonotone(s[..|s| - 1], t[..|t| - 1]);
    }
  }

  /**
   * Work left in normalising a node, counted at the polarity it will be met
   * with: a node under a negation also pays for the layers `invert` adds.
   */
  function EqualWork(e: EqualExpr, neg: bool): nat {
    match e
    case ParenExpr(p) => 3 + OrWork(p.nested.or, p.isNot != neg)
    case TermExpr(_) => 1
  }

  function EqualWorks(a: AndExpression, neg: bool): seq<nat>
    decreases a, 0
  {
    seq(|a.right|, i requires 0 <= i < |a.right| => Toll(neg) + EqualWork(a.right[i], neg))
  }

  function AndWork(a: AndExpression, neg: bool): nat
    decreases a, 1
  {
    1 + Toll(neg) + EqualWork(a.left, neg) + Sum(EqualWorks(a, neg))
  }

  function AndWorks(o: OrExpression, neg: bool): seq<nat>
    decreases o, 0
  {
    seq(|o.right|, i requires 0 <= i < |o.right| => Toll(neg) + AndWork(o.right[i], neg))
  }

  function OrWork(o: OrExpression, neg: bool): nat
    decreases o, 1
  {
    1 + Toll(neg) + AndWork(o.left, neg) + Sum(AndWorks(o, neg))
  }

  function Toll(neg: bool): nat {
    if neg then 4 else 0
  }

  lemma SingleAndWork(e: EqualExpr)
    ensures AndWork(AndExpression(InvertEqual(e), []), false) == 1 + EqualWork(e, true)
  {
    assert EqualWorks(AndExpression(InvertEqual(e), []), false) == [];
  }

  lemma InvertAndWork(a: AndExpression)
    ensures OrWork(InvertAnd(a), false) <= AndWork(a, true)
  {
    var o := InvertAnd(a);
    SingleAndWork(a.left);
    forall i | 0 <= i < |a.right|
      ensures AndWorks(o, false)[i] <= EqualWorks(a, true)[i]
    {
      SingleAndWork(a.right[i]);
    }
    SumMonotone(AndWorks(o, false), EqualWorks(a, true));
  }

  lemma InvertOrWork(o: OrExpression)
    ensures AndWork(InvertOr(o), false) < OrWork(o, true)
  {
    var a := InvertOr(o);
    InvertAndWork(o.left);
    forall i | 0 <= i < |o.right|
      ensures EqualWork(a.right[i], false) <= 4 + AndWork(o.right[i], true)
    {
      InvertAndWork(o.right[i]);
    }
    SumMonotone(EqualWorks(a, false), AndWorks(o, true));
  }

  /** The measure that falls at the `nested.invert()` call of Paren.Normalize. */
  lemma InvertExpressionWork(e: Expression)
    ensures OrWork(InvertExpression(e).or, false) <= OrWork(e.or, true)
  {
    if |e.or.right| == 0 {
      InvertAndWork(e.or.left);
    } else {
      InvertOrWork(e.or);
    }
  }

  // ----- The normaliser -----

  /** Expression.invert: the `else` branch of the panic test is never reached. */
  method InvertExpressionNode(e: Expression) returns (r: Expression)
    ensures r == InvertExpression(e)
  {
    var newLeft := InvertOrNode(e.or);
    if |newLeft.right| == 0 {
      // By construction a Paren: reading the field proves the panic dead.
      r := newLeft.left.paren.nested;
    } else {
      r := Expression(OrExpression(newLeft, []));
    }
  }

  method InvertOrNode(o: OrExpression) returns (r: AndExpression)
    ensures r == InvertOr(o)
  {
    var left := InvertAndNode(o.left);
    var newRight: seq<EqualExpr> := [];
    for i := 0 to |o.right|
      invariant newRight == InvertOr(o).right[..i]
    {
      var inverted := InvertAndNode(o.right[i]);
      newRight := newRight + [Wrap(inverted)];
    }
    r := AndExpression(Wrap(left), newRight);
  }

  method InvertAndNode(a: AndExpression) returns (r: OrExpression)
    ensures r == InvertAnd(a)
  {
    var newRight: seq<AndExpression> := [];
    for i := 0 to |a.right|
      invariant newRight == InvertAnd(a).right[..i]
    {
      newRight := newRight + [AndExpression(InvertEqual(a.right[i]), [])];
    }
    r := OrExpression(AndExpression(InvertEqual(a.left), []), newRight);
  }

  /** The switch of the leaf `Normalize` methods on one literal; None is the dereference of a nil String. */
  function NormalizeLiteral(lib: Lib, name: Str, v: Value): Option<Value> {
    if name == KEY || name == OWNER || name == CREATOR then
      match v
      case StringValue(s) => Some(StringValue(lib.lower(s)))
      case NumberValue(_) => None
    else Some(v)
  }

  /** Inclusion.Normalize: the strings are lowered one by one; IsNot and Numbers are not copied. */
  method NormalizeInclusion(lib: Lib, name: Str, isNot: bool, values: Values) returns (r: Term)
    ensures r == NormalTerm(lib, Inclusion(name, isNot, values), false)
  {
    if name == KEY || name == OWNER || name == CREATOR {
      var vals: seq<Str> := [];
      for i := 0 to |values.strings|
        invariant vals == LowerAll(lib, values.strings)[..i]
      {
        vals := vals + [lib.lower(values.strings[i])];
      }
      assert vals == LowerAll(lib, values.strings);
      return Inclusion(name, false, Values(vals, []));
    }
    return Inclusion(name, isNot, values);
  }

  /**
   * EqualExpr.Normalize on a leaf: the seven cases dereference their literals
   * as they go, and none of those dereferences fails exactly on a safe term.
   */
  method NormalizeTerm(lib: Lib, t: Term) returns (r: Option<Term>)
    ensures r == if SafeTerm(t) then Some(NormalTerm(lib, t, false)) else None
  {
    match t
    case LessThan(name, value) =>
      var v := NormalizeLiteral(lib, name, value);
      r := if v.Some? then Some(LessThan(name, v.value)) else None;
    case LessOrEqualThan(name, value) =>
      var v := NormalizeLiteral(lib, name, value);
      r := if v.Some? then Some(LessOrEqualThan(name, v.value)) else None;
    case GreaterThan(name, value) =>
      var v := NormalizeLiteral(lib, name, value);
      r := if v.Some? then Some(GreaterThan(name, v.value)) else None;
    case GreaterOrEqualThan(name, value) =>
      var v := NormalizeLiteral(lib, name, value);
      r := if v.Some? then Some(GreaterOrEqualThan(name, v.value)) else None;
    case Glob(_, _, _) =>
      r := Some(t);
    case Equality(name, isNot, value) =>
      var v := NormalizeLiteral(lib, name, value);
      r := if v.Some? then Some(Equality(name, isNot, v.value)) else None;
    case Inclusion(name, isNot, values) =>
      var inclusion := NormalizeInclusion(lib, name, isNot, values);
      r := Some(inclusion);
  }

  method NormalizeParen(lib: Lib, p: Paren) returns (r: Option<Disjunction>)
    ensures r == if Safe(p.nested) then Some(Dnf(lib, p.nested, p.isNot, false)) else None
    decreases 2 + OrWork(p.nested.or, p.isNot)
  {
    var nested := p.nested;
    if p.isNot {
      InvertExpressionWork(nested);
      InvertKeepsSafety(nested);
      if Safe(nested) {
        InvertFlipsPolarity(lib, nested);
      }
      nested := InvertExpressionNode(nested);
    }
    r := NormalizeExpression(lib, nested);
  }

  method ConvertToTerms(lib: Lib, e: EqualExpr) returns (r: Option<Disjunction>)
    ensures r == if SafeEqual(e) then Some(DnfEqual(lib, e, false, false)) else None
    decreases EqualWork(e, false)
  {
    match e
    case ParenExpr(p) =>
      var normalised := NormalizeParen(lib, p);
      if normalised.None? {
        return None;
      }
      var es: Disjunction := [];
      for i := 0 to |normalised.value|
        invariant es == normalised.value[..i]
      {
        es := es + [normalised.value[i]];
      }
      assert es == normalised.value;
      r := Some(es);
    case TermExpr(t) =>
      var term := NormalizeTerm(lib, t);
      r := if term.Some? then Some([[term.value]]) else None;
  }

  /** The cross-product loop of AndExpression.Normalize. */
  method Distribute(terms: seq<Disjunction>) returns (ast: Disjunction)
    ensures ast == CrossAll(terms)
  {
    ast := [[]];
    for k := 0 to |terms|
      invariant ast == CrossAll(terms[..k])
    {
      var disjunctions := terms[k];
      var tmpAst: Disjunction := [];
      for i := 0 to |ast|
        invariant tmpAst == Cross(ast[..i], disjunctions)
      {
        var row: Disjunction := [];
        ghost var before := tmpAst;
        for j := 0 to |disjunctions|
          invariant row == Extend(ast[i], disjunctions)[..j]
          invariant tmpAst == before + row
        {
          var combined := ast[i] + disjunctions[j];
          tmpAst := tmpAst + [combined];
          row := row + [combined];
        }
        assert ast[..i + 1][..i] == ast[..i];
      }
      assert ast[..|ast|] == ast;
      assert terms[..k + 1][..k] == terms[..k];
      ast := tmpAst;
    }
    assert terms[..|terms|] == terms;
  }

  method NormalizeAnd(lib: Lib, a: AndExpression) returns (r: Option<Disjunction>)
    ensures r == if SafeAnd(a) then Some(DnfAnd(lib, a, false, false)) else None
    decreases AndWork(a, false)
  {
    var left := ConvertToTerms(lib, a.left);
    if left.None? {
      return None;
    }
    var terms := [left.value];
    for i := 0 to |a.right|
      invariant |terms| == i + 1 && terms[0] == DnfEqual(lib, a.left, false, false)
      invariant forall j :: 0 <= j < i ==>
                  SafeEqual(a.right[j]) && terms[j + 1] == DnfEqual(lib, a.right[j], false, false)
    {
      SumBounds(EqualWorks(a, false), i);
      var next := ConvertToTerms(lib, a.right[i]);
      if next.None? {
        return None;
      }
      terms := terms + [next.value];
    }
    assert terms == EqualParts(lib, a, false, false);
    var ast := Distribute(terms);
    r := Some(ast);
  }

  method NormalizeOr(lib: Lib, o: OrExpression) returns (r: Option<Disjunction>)
    ensures r == if SafeOr(o) then Some(DnfOr(lib, o, false, false)) else None
    decreases OrWork(o, false)
  {
    var left := NormalizeAnd(lib, o.left);
    if left.None? {
      return None;
    }
    var terms := left.value;
    ghost var parts := [left.value];
    ConcatUnit(left.value);
    for i := 0 to |o.right|
      invariant |parts| == i + 1 && parts[0] == DnfAnd(lib, o.left, false, false)
      invariant forall j :: 0 <= j < i ==> SafeAnd(o.right[j]) && parts[j + 1] == DnfAnd(lib, o.right[j], false, false)
      invariant terms == Concat(parts)
    {
      SumBounds(AndWorks(o, false), i);
      var next := NormalizeAnd(lib, o.right[i]);
      if next.None? {
        return None;
      }
      terms := terms + next.value;
      assert (parts + [next.value])[..i + 1] == parts;
      parts := parts + [next.value];
    }
    assert parts == AndParts(lib, o, false, false);
    r := Some(terms);
  }

  /**
   * Expression.Normalize always returns, and panics exactly on a comparison of
   * a special name with a number literal.
   */
  method NormalizeExpression(lib: Lib, e: Expression) returns (r: Option<Disjunction>)
    ensures r == if Safe(e) then Some(Dnf(lib, e, false, false)) else None
    decreases 1 + OrWork(e.or, false)
  {
    r := NormalizeOr(lib, e.or);
  }

  /** `$owner = 5` panics, and so does its negation. */
  lemma NilDereferenceExample()
    ensures var q := Single(Equality(OWNER, false, NumberValue(5)));
            !Safe(q) && !Safe(InvertExpression(q))
  {
    InvertKeepsSafety(Single(Equality(OWNER, false, NumberValue(5))));
  }

  method NormalizeTopLevel(lib: Lib, t: TopLevel) returns (r: Option<AST>)
    ensures t.All? ==> r == Some(AllEntities)
    ensures t.Query? ==>
              r == if Safe(t.expression) then Some(Matching(Dnf(lib, t.expression, false, false))) else None
  {
    match t
    case All => r := Some(AllEntities);
    case Query(e) =>
      var d := NormalizeExpression(lib, e);
      r := if d.Some? then Some(Matching(d.value)) else None;
  }
}
