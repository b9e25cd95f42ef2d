/** Properties of the normal form: its shape, its terms and its meaning. */
module NormalForm {
  import opened Base
  import opened Language
  import opened Normalize
  import opened Semantics

  // ----- Shape -----

  /** At least one conjunction, and no empty conjunction. */
  predicate Proper(d: Disjunction) {
    |d| > 0 && forall c :: c in d ==> |c| > 0
  }

  function Product(s: seq<nat>): nat {
    if |s| == 0 then 1 else Product(s[..|s| - 1]) * s[|s| - 1]
  }

  /** How many conjunctions a node yields: sums under OR, products under AND, swapped under a negation. */
  function CountEqual(e: EqualExpr, neg: bool): nat {
    match e
    case ParenExpr(p) => CountOr(p.nested.or, p.isNot != neg)
    case TermExpr(_) => 1
  }

  function EqualCounts(a: AndExpression, neg: bool): seq<nat>
    decreases a, 0
  {
    [CountEqual(a.left, neg)] + seq(|a.right|, i requires 0 <= i < |a.right| => CountEqual(a.right[i], neg))
  }

  function CountAnd(a: AndExpression, neg: bool): nat
    decreases a, 1
  {
    if neg then Sum(EqualCounts(a, neg)) else Product(EqualCounts(a, neg))
  }

  function AndCounts(o: OrExpression, neg: bool): seq<nat>
    decreases o, 0
  {
    [CountAnd(o.left, neg)] + seq(|o.right|, i requires 0 <= i < |o.right| => CountAnd(o.right[i], neg))
  }

  function CountOr(o: OrExpression, neg: bool): nat
    decreases o, 1
  {
    if neg then Product(AndCounts(o, neg)) else Sum(AndCounts(o, neg))
  }

  predicate Sized(parts: seq<Disjunction>, sizes: seq<nat>) {
    |parts| == |sizes| && forall i :: 0 <= i < |parts| ==> |parts[i]| == sizes[i]
  }

  lemma {:induction false} ConcatShape(parts: seq<Disjunction>, sizes: seq<nat>)
    requires Sized(parts, sizes) && forall p :: p in parts ==> Proper(p)
    ensures |Concat(parts)| == Sum(sizes)
    ensures |parts| > 0 ==> Proper(Concat(parts))
  {
    if |parts| > 0 {
      ConcatShape(parts[..|parts| - 1], sizes[..|parts| - 1]);
      assert parts[|parts| - 1] in parts;
    }
  }

  /** c is a conjunction of a followed by one of b. */
  predicate Joined(a: Disjunction, b: Disjunction, c: Conjunction) {
    exists i, j :: 0 <= i < |a| && 0 <= j < |b| && c == a[i] + b[j]
  }

  lemma {:induction false} CrossSize(a: Disjunction, b: Disjunction)
    ensures |Cross(a, b)| == |a| * |b|
  {
    if |a| > 0 {
      CrossSize(a[..|a| - 1], b);
    }
  }

  lemma JoinedSplits(a: Disjunction, b: Disjunction, c: Conjunction)
    requires |a| > 0
    ensures Joined(a, b, c) <==> Joined(a[..|a| - 1], b, c) || c in Extend(a[|a| - 1], b)
  {
    var m := |a| - 1;
    var init := a[..m];
    if i, j :| 0 <= i < |a| && 0 <= j < |b| && c == a[i] + b[j] {
      if i == m {
        assert c == Extend(a[m], b)[j];
      } else {
        assert c == init[i] + b[j];
      }
    }
    if i, j :| 0 <= i < |init| && 0 <= j < |b| && c == init[i] + b[j] {
      assert c == a[i] + b[j];
    }
    if c in Extend(a[m], b) {
      var j :| 0 <= j < |b| && c == Extend(a[m], b)[j];
      assert c == a[m] + b[j];
    }
  }

  /** The cross product joins every conjunction of one side with every conjunction of the other. */
  lemma {:induction false} CrossShape(a: Disjunction, b: Disjunction)
    ensures |Cross(a, b)| == |a| * |b|
    ensures forall c :: c in Cross(a, b) <==> Joined(a, b, c)
  {
    CrossSize(a, b);
    if |a| > 0 {
      CrossShape(a[..|a| - 1], b);
      forall c
        ensures c in Cross(a, b) <==> Joined(a, b, c)
      {
        JoinedSplits(a, b, c);
      }
    }
  }

  lemma {:induction false} CrossAllShape(parts: seq<Disjunction>, sizes: seq<nat>)
    requires Sized(parts, sizes) && forall p :: p in parts ==> Proper(p)
    ensures |CrossAll(parts)| == Product(sizes) > 0
    ensures |parts| > 0 ==> Proper(CrossAll(parts))
  {
    if |parts| > 0 {
      var m := |parts| - 1;
      CrossAllShape(parts[..m], sizes[..m]);
      assert Proper(parts[m]);
      CrossShape(CrossAll(parts[..m]), parts[m]);
      assert forall j :: 0 <= j < |parts[m]| ==> parts[m][j] in parts[m];
    }
  }

  lemma EqualShape(lib: Lib, e: EqualExpr, neg: bool, keep: bool)
    requires SafeEqual(e)
    ensures Proper(DnfEqual(lib, e, neg, keep)) && |DnfEqual(lib, e, neg, keep)| == CountEqual(e, neg)
    decreases e
  {
    match e
    case ParenExpr(p) => OrShape(lib, p.nested.or, p.isNot != neg, keep);
    case TermExpr(_) =>
  }

  lemma AndShape(lib: Lib, a: AndExpression, neg: bool, keep: bool)
    requires SafeAnd(a)
    ensures Proper(DnfAnd(lib, a, neg, keep)) && |DnfAnd(lib, a, neg, keep)| == CountAnd(a, neg)
    decreases a
  {
    var parts, sizes := EqualParts(lib, a, neg, keep), EqualCounts(a, neg);
    forall i | 0 <= i < |parts|
      ensures Proper(parts[i]) && |parts[i]| == sizes[i]
    {
      EqualShape(lib, if i == 0 then a.left else a.right[i - 1], neg, keep);
    }
    if neg {
      ConcatShape(parts, sizes);
    } else {
      CrossAllShape(parts, sizes);
    }
  }

  lemma OrShape(lib: Lib, o: OrExpression, neg: bool, keep: bool)
    requires SafeOr(o)
    ensures Proper(DnfOr(lib, o, neg, keep)) && |DnfOr(lib, o, neg, keep)| == CountOr(o, neg)
    decreases o
  {
    var parts, sizes := AndParts(lib, o, neg, keep), AndCounts(o, neg);
    forall i | 0 <= i < |parts|
      ensures Proper(parts[i]) && |parts[i]| == sizes[i]
    {
      AndShape(lib, if i == 0 then o.left else o.right[i - 1], neg, keep);
    }
    if neg {
      CrossAllShape(parts, sizes);
    } else {
      ConcatShape(parts, sizes);
    }
  }

  /**
   * The normal form has exactly as many conjunctions as the sum-of-products
   * count of the source, at least one, and none of them is empty: evaluation
   * never returns the nil bitmap its loops start from.
   */
  lemma NormalFormShape(lib: Lib, e: Expression)
    requires Safe(e)
    ensures |Dnf(lib, e, false, false)| == CountOr(e.or, false)
    ensures Proper(Dnf(lib, e, false, false))
  {
    OrShape(lib, e.or, false, false);
  }

  // ----- Meaning -----

  lemma {:induction false} ConcatMeaning(parts: seq<Disjunction>, holds: Term -> bool)
    ensures DisjunctionTrue(Concat(parts), holds) <==> exists i :: 0 <= i < |parts| && DisjunctionTrue(parts[i], holds)
  {
    if |parts| > 0 {
      var m := |parts| - 1;
      ConcatMeaning(parts[..m], holds);
      if i :| 0 <= i < |parts| && DisjunctionTrue(parts[i], holds) {
        if i < m {
          assert DisjunctionTrue(parts[..m][i], holds);
        }
      }
    }
  }

  lemma CrossMeaning(a: Disjunction, b: Disjunction, holds: Term -> bool)
    ensures DisjunctionTrue(Cross(a, b), holds) <==> DisjunctionTrue(a, holds) && DisjunctionTrue(b, holds)
  {
    CrossShape(a, b);
    if c :| c in Cross(a, b) && ConjunctionTrue(c, holds) {
      var i, j :| 0 <= i < |a| && 0 <= j < |b| && c == a[i] + b[j];
      assert ConjunctionTrue(a[i], holds) && ConjunctionTrue(b[j], holds);
    }
    if DisjunctionTrue(a, holds) && DisjunctionTrue(b, holds) {
      var c :| c in a && ConjunctionTrue(c, holds);
      var d :| d in b && ConjunctionTrue(d, holds);
      assert c + d in Cross(a, b) && ConjunctionTrue(c + d, holds);
    }
  }

  lemma {:induction false} CrossAllMeaning(parts: seq<Disjunction>, holds: Term -> bool)
    ensures DisjunctionTrue(CrossAll(parts), holds) <==> forall i :: 0 <= i < |parts| ==>
                                                           DisjunctionTrue(parts[i], holds)
  {
    if |parts| == 0 {
      var unit: Disjunction := [[]];
      assert unit[0] in unit && ConjunctionTrue(unit[0], holds);
    } else {
      var m := |parts| - 1;
      CrossAllMeaning(parts[..m], holds);
      CrossMeaning(CrossAll(parts[..m]), parts[m], holds);
      assert forall i :: 0 <= i < m ==> parts[..m][i] == parts[i];
    }
  }

  /** A leaf, negated or not, normalised with every field kept, decides the folded comparison. */
  lemma TermMeaning(lib: Lib, t: Term, neg: bool, e: Entity)
    requires LowerIsIdempotent(lib) && Canonical(lib, e) && SafeTerm(t)
    ensures Holds(lib, e)(NormalTerm(lib, Signed(t, neg), true)) <==> TermTri(lib, true, t, e) == Truth(!neg)
  {
    var s := Signed(t, neg);
    var n := NormalTerm(lib, s, true);
    if t.Inclusion? && Special(t.name) {
      assert forall i :: 0 <= i < |t.values.strings| ==> n.values.strings[i] == lib.lower(t.values.strings[i]);
    }
  }

  lemma EqualMeaning(lib: Lib, x: EqualExpr, neg: bool, e: Entity)
    requires LowerIsIdempotent(lib) && Canonical(lib, e) && SafeEqual(x)
    ensures DisjunctionTrue(DnfEqual(lib, x, neg, true), Holds(lib, e)) <==> KleeneEqual(lib, x, e) == Truth(!neg)
    decreases x
  {
    match x
    case ParenExpr(p) => OrMeaning(lib, p.nested.or, p.isNot != neg, e);
    case TermExpr(t) =>
      TermMeaning(lib, t, neg, e);
      var d := DnfEqual(lib, x, neg, true);
      assert d[0] in d && d[0][0] in d[0];
  }

  lemma AndMeaning(lib: Lib, a: AndExpression, neg: bool, e: Entity)
    requires LowerIsIdempotent(lib) && Canonical(lib, e) && SafeAnd(a)
    ensures DisjunctionTrue(DnfAnd(lib, a, neg, true), Holds(lib, e)) <==> KleeneAnd(lib, a, e) == Truth(!neg)
    decreases a
  {
    var parts, tris := EqualParts(lib, a, neg, true), EqualTris(lib, a, e);
    forall i | 0 <= i < |parts|
      ensures DisjunctionTrue(parts[i], Holds(lib, e)) <==> tris[i] == Truth(!neg)
    {
      EqualMeaning(lib, if i == 0 then a.left else a.right[i - 1], neg, e);
    }
    if neg {
      ConcatMeaning(parts, Holds(lib, e));
    } else {
      CrossAllMeaning(parts, Holds(lib, e));
    }
  }

  lemma OrMeaning(lib: Lib, o: OrExpression, neg: bool, e: Entity)
    requires LowerIsIdempotent(lib) && Canonical(lib, e) && SafeOr(o)
    ensures DisjunctionTrue(DnfOr(lib, o, neg, true), Holds(lib, e)) <==> KleeneOr(lib, o, e) == Truth(!neg)
    decreases o
  {
    var parts, tris := AndParts(lib, o, neg, true), AndTris(lib, o, e);
    forall i | 0 <= i < |parts|
      ensures DisjunctionTrue(parts[i], Holds(lib, e)) <==> tris[i] == Truth(!neg)
    {
      AndMeaning(lib, if i == 0 then o.left else o.right[i - 1], neg, e);
    }
    if neg {
      CrossAllMeaning(parts, Holds(lib, e));
    } else {
      ConcatMeaning(parts, Holds(lib, e));
    }
  }

  // ----- Which terms survive -----

  function LeavesEqual(e: EqualExpr, neg: bool): set<Term> {
    match e
    case ParenExpr(p) => LeavesOr(p.nested.or, p.isNot != neg)
    case TermExpr(t) => {Signed(t, neg)}
  }

  function Union(leaves: seq<set<Term>>): set<Term> {
    set i, t | 0 <= i < |leaves| && t in leaves[i] :: t
  }

  lemma UnionUnit(ls: set<Term>)
    ensures Union([ls]) == ls
  {
    forall t | t in ls
      ensures t in Union([ls])
    {
      assert t in [ls][0];
    }
  }

  function EqualLeaves(a: AndExpression, neg: bool): seq<set<Term>>
    decreases a, 0
  {
    [LeavesEqual(a.left, neg)] + seq(|a.right|, i requires 0 <= i < |a.right| => LeavesEqual(a.right[i], neg))
  }

  function LeavesAnd(a: AndExpression, neg: bool): set<Term>
    decreases a, 1
  {
    Union(EqualLeaves(a, neg))
  }

  function AndLeaves(o: OrExpression, neg: bool): seq<set<Term>>
    decreases o, 0
  {
    [LeavesAnd(o.left, neg)] + seq(|o.right|, i requires 0 <= i < |o.right| => LeavesAnd(o.right[i], neg))
  }

  function LeavesOr(o: OrExpression, neg: bool): set<Term>
    decreases o, 1
  {
    Union(AndLeaves(o, neg))
  }

  /** The comparisons of a query, each inverted if it stands under an odd number of negations. */
  function Leaves(e: Expression, neg: bool): set<Term> {
    LeavesOr(e.or, neg)
  }

  /** n is the normalised form of a leaf in ls. */
  predicate FromLeaf(lib: Lib, ls: set<Term>, keep: bool, n: Term) {
    exists t :: t in ls && SafeTerm(t) && n == NormalTerm(lib, t, keep)
  }

  predicate Occurs(n: Term, d: Disjunction) {
    exists c :: c in d && n in c
  }

  lemma {:induction false} ConcatOccurs(parts: seq<Disjunction>, n: Term)
    ensures Occurs(n, Concat(parts)) <==> exists i :: 0 <= i < |parts| && Occurs(n, parts[i])
  {
    if |parts| > 0 {
      var m := |parts| - 1;
      ConcatOccurs(parts[..m], n);
      if i :| 0 <= i < |parts| && Occurs(n, parts[i]) {
        if i < m {
          assert Occurs(n, parts[..m][i]);
        }
      }
    }
  }

  lemma CrossOccurs(a: Disjunction, b: Disjunction, n: Term)
    requires |a| > 0 && |b| > 0
    ensures Occurs(n, Cross(a, b)) <==> Occurs(n, a) || Occurs(n, b)
  {
    CrossShape(a, b);
    if i :| 0 <= i < |a| && n in a[i] {
      assert a[i] + b[0] in Cross(a, b);
    }
    if j :| 0 <= j < |b| && n in b[j] {
      assert a[0] + b[j] in Cross(a, b);
    }
  }

  lemma {:induction false} CrossAllProper(parts: seq<Disjunction>)
    requires forall p :: p in parts ==> Proper(p)
    ensures |CrossAll(parts)| > 0
  {
    if |parts| > 0 {
      var m := |parts| - 1;
      CrossAllProper(parts[..m]);
      assert Proper(parts[m]);
      CrossSize(CrossAll(parts[..m]), parts[m]);
    }
  }

  lemma {:induction false} CrossAllOccurs(parts: seq<Disjunction>, n: Term)
    requires forall p :: p in parts ==> Proper(p)
    ensures Occurs(n, CrossAll(parts)) <==> exists i :: 0 <= i < |parts| && Occurs(n, parts[i])
  {
    if |parts| > 0 {
      var m := |parts| - 1;
      CrossAllOccurs(parts[..m], n);
      CrossAllProper(parts[..m]);
      assert Proper(parts[m]);
      CrossOccurs(CrossAll(parts[..m]), parts[m], n);
      assert forall i :: 0 <= i < m ==> parts[..m][i] == parts[i];
    }
  }

  lemma EqualTerms(lib: Lib, e: EqualExpr, neg: bool, keep: bool, n: Term)
    requires SafeEqual(e)
    ensures Occurs(n, DnfEqual(lib, e, neg, keep)) <==> FromLeaf(lib, LeavesEqual(e, neg), keep, n)
    decreases e
  {
    match e
    case ParenExpr(p) => OrTerms(lib, p.nested.or, p.isNot != neg, keep, n);
    case TermExpr(t) =>
      var d := DnfEqual(lib, e, neg, keep);
      assert d[0] in d && d[0][0] in d[0];
  }

  lemma AndTerms(lib: Lib, a: AndExpression, neg: bool, keep: bool, n: Term)
    requires SafeAnd(a)
    ensures Occurs(n, DnfAnd(lib, a, neg, keep)) <==> FromLeaf(lib, LeavesAnd(a, neg), keep, n)
    decreases a
  {
    var parts := EqualParts(lib, a, neg, keep);
    var leaves := EqualLeaves(a, neg);
    forall i | 0 <= i < |parts|
      ensures Proper(parts[i])
      ensures Occurs(n, parts[i]) <==> FromLeaf(lib, leaves[i], keep, n)
    {
      var x := if i == 0 then a.left else a.right[i - 1];
      EqualTerms(lib, x, neg, keep, n);
      EqualShape(lib, x, neg, keep);
    }
    if neg {
      ConcatOccurs(parts, n);
    } else {
      CrossAllOccurs(parts, n);
    }
    FromLeafSplits(lib, leaves, keep, n);
  }

  lemma FromLeafSplits(lib: Lib, leaves: seq<set<Term>>, keep: bool, n: Term)
    ensures FromLeaf(lib, Union(leaves), keep, n)
            <==> exists i :: 0 <= i < |leaves| && FromLeaf(lib, leaves[i], keep, n)
  {
    if t :| t in Union(leaves) && SafeTerm(t) && n == NormalTerm(lib, t, keep) {
      var i :| 0 <= i < |leaves| && t in leaves[i];
      assert FromLeaf(lib, leaves[i], keep, n);
    }
  }

  lemma OrTerms(lib: Lib, o: OrExpression, neg: bool, keep: bool, n: Term)
    requires SafeOr(o)
    ensures Occurs(n, DnfOr(lib, o, neg, keep)) <==> FromLeaf(lib, LeavesOr(o, neg), keep, n)
    decreases o
  {
    var parts := AndParts(lib, o, neg, keep);
    var leaves := AndLeaves(o, neg);
    forall i | 0 <= i < |parts|
      ensures Proper(parts[i])
      ensures Occurs(n, parts[i]) <==> FromLeaf(lib, leaves[i], keep, n)
    {
      var x := if i == 0 then o.left else o.right[i - 1];
      AndTerms(lib, x, neg, keep, n);
      AndShape(lib, x, neg, keep);
    }
    if neg {
      CrossAllOccurs(parts, n);
    } else {
      ConcatOccurs(parts, n);
    }
    FromLeafSplits(lib, leaves, keep, n);
  }

  /** Every leaf reaches the normal form with the polarity of its position, and nothing else does. */
  lemma NormalFormTerms(lib: Lib, e: Expression, neg: bool, n: Term)
    requires Safe(e)
    ensures Occurs(n, Dnf(lib, e, neg, false)) <==> FromLeaf(lib, Leaves(e, neg), false, n)
  {
    OrTerms(lib, e.or, neg, false, n);
  }

  // ----- The lost IsNot -----

  /** Inclusion.Normalize copies only Var and Strings for a special name. */
  predicate Kept(t: Term) {
    t.Inclusion? && Special(t.name) ==> !t.isNot && t.values.numbers == []
  }

  /** No inclusion on a special name ends up negated, or lists numbers. */
  predicate LosesNothing(e: Expression, neg: bool) {
    forall t :: t in Leaves(e, neg) ==> Kept(t)
  }

  lemma EqualKeeps(lib: Lib, e: EqualExpr, neg: bool)
    requires SafeEqual(e) && forall t :: t in LeavesEqual(e, neg) ==> Kept(t)
    ensures DnfEqual(lib, e, neg, false) == DnfEqual(lib, e, neg, true)
    decreases e
  {
    match e
    case ParenExpr(p) => OrKeeps(lib, p.nested.or, p.isNot != neg);
    case TermExpr(t) =>
      assert Signed(t, neg) in LeavesEqual(e, neg);
  }

  lemma AndKeeps(lib: Lib, a: AndExpression, neg: bool)
    requires SafeAnd(a) && forall t :: t in LeavesAnd(a, neg) ==> Kept(t)
    ensures DnfAnd(lib, a, neg, false) == DnfAnd(lib, a, neg, true)
    decreases a
  {
    var leaves := EqualLeaves(a, neg);
    forall i | 0 <= i < |leaves|
      ensures EqualParts(lib, a, neg, false)[i] == EqualParts(lib, a, neg, true)[i]
    {
      assert leaves[i] <= Union(leaves);
      EqualKeeps(lib, if i == 0 then a.left else a.right[i - 1], neg);
    }
    assert EqualParts(lib, a, neg, false) == EqualParts(lib, a, neg, true);
  }

  lemma OrKeeps(lib: Lib, o: OrExpression, neg: bool)
    requires SafeOr(o) && forall t :: t in LeavesOr(o, neg) ==> Kept(t)
    ensures DnfOr(lib, o, neg, false) == DnfOr(lib, o, neg, true)
    decreases o
  {
    var leaves := AndLeaves(o, neg);
    forall i | 0 <= i < |leaves|
      ensures AndParts(lib, o, neg, false)[i] == AndParts(lib, o, neg, true)[i]
    {
      assert leaves[i] <= Union(leaves);
      AndKeeps(lib, if i == 0 then o.left else o.right[i - 1], neg);
    }
    assert AndParts(lib, o, neg, false) == AndParts(lib, o, neg, true);
  }

  /**
   * The code computes the normal form a full copy of the fields would give
   * exactly on the queries in which no inclusion over a special name is
   * effectively negated or numeric.
   */
  lemma LostNotExactly(lib: Lib, e: Expression, neg: bool)
    requires Safe(e)
    ensures Dnf(lib, e, neg, false) == Dnf(lib, e, neg, true) <==> LosesNothing(e, neg)
  {
    if LosesNothing(e, neg) {
      OrKeeps(lib, e.or, neg);
    } else if Dnf(lib, e, neg, false) == Dnf(lib, e, neg, true) {
      var t :| t in Leaves(e, neg) && !Kept(t);
      LeavesAreSafe(e.or, neg, t);
      var n := NormalTerm(lib, t, true);
      OrTerms(lib, e.or, neg, true, n);
      assert FromLeaf(lib, Leaves(e, neg), true, n);
      OrTerms(lib, e.or, neg, false, n);
      assert false;
    }
  }

  lemma LeavesAreSafe(o: OrExpression, neg: bool, t: Term)
    requires SafeOr(o) && t in LeavesOr(o, neg)
    ensures SafeTerm(t)
    decreases o
  {
    var leaves := AndLeaves(o, neg);
    var i :| 0 <= i < |leaves| && t in leaves[i];
    AndLeavesAreSafe(if i == 0 then o.left else o.right[i - 1], neg, t);
  }

  lemma AndLeavesAreSafe(a: AndExpression, neg: bool, t: Term)
    requires SafeAnd(a) && t in LeavesAnd(a, neg)
    ensures SafeTerm(t)
    decreases a
  {
    var leaves := EqualLeaves(a, neg);
    var i :| 0 <= i < |leaves| && t in leaves[i];
    EqualLeavesAreSafe(if i == 0 then a.left else a.right[i - 1], neg, t);
  }

  lemma EqualLeavesAreSafe(x: EqualExpr, neg: bool, t: Term)
    requires SafeEqual(x) && t in LeavesEqual(x, neg)
    ensures SafeTerm(t)
    decreases x
  {
    match x
    case ParenExpr(p) => LeavesAreSafe(p.nested.or, p.isNot != neg, t);
    case TermExpr(_) =>
  }

  /**
   * Normalisation preserves meaning, for every query and at both polarities:
   * with every field kept, the normal form is true of an entity, by exact
   * comparison with its stored values, iff the source query is Kleene-true of
   * it (at negative polarity: Kleene-false). As coded the same holds of every
   * query that loses nothing.
   */
  lemma NormalizePreservesMeaning(lib: Lib, x: Expression, neg: bool, e: Entity)
    requires LowerIsIdempotent(lib) && Canonical(lib, e) && Safe(x)
    ensures DisjunctionTrue(Dnf(lib, x, neg, true), Holds(lib, e)) <==> Kleene(lib, x, e) == Truth(!neg)
    ensures LosesNothing(x, neg) ==>
              (DisjunctionTrue(Dnf(lib, x, neg, false), Holds(lib, e)) <==> Kleene(lib, x, e) == Truth(!neg))
  {
    LostNotExactly(lib, x, neg);
    OrMeaning(lib, x.or, neg, e);
  }

  /** Some number is missing from any list a machine can hold. */
  lemma MissingNumber(s: seq<uint64>) returns (x: uint64)
    requires |s| < TWO64
    ensures x !in s
  {
    var listed := set n | n in s;
    var small := UpTo(|s|);
    ListedAtMost(s);
    CountUpTo(|s|);
    if small <= listed {
      SubsetSize(small, listed);
    }
    x :| x in small && x !in listed;
  }

  lemma {:induction false} ListedAtMost(s: seq<int>)
    ensures |set n | n in s| <= |s|
  {
    if |s| > 0 {
      var m := |s| - 1;
      ListedAtMost(s[..m]);
      assert (set n | n in s) == (set n | n in s[..m]) + {s[m]};
    }
  }

  function UpTo(k: nat): (r: set<int>)
    ensures forall n :: n in r <==> 0 <= n <= k
  {
    if k == 0 then {0} else UpTo(k - 1) + {k}
  }

  lemma {:induction false} CountUpTo(k: nat)
    ensures |UpTo(k)| == k + 1
  {
    if k > 0 {
      CountUpTo(k - 1);
    }
  }

  lemma {:induction false} SubsetSize<T>(a: set<T>, b: set<T>)
    requires a <= b
    ensures |a| <= |b|
  {
    if |a| > 0 {
      var x :| x in a;
      SubsetSize(a - {x}, b - {x});
    }
  }

  /** The coded normal form of t decides t, for every entity the store can hold. */
  ghost predicate Decides(lib: Lib, t: Term)
    requires SafeTerm(t)
  {
    forall e :: Canonical(lib, e) ==> (Holds(lib, e)(NormalTerm(lib, t, false)) <==> TermTri(lib, true, t, e) == True)
  }

  /**
   * A leaf, in the polarity it is met with, is normalised to something that
   * means the same exactly if it is not a negated or numeric inclusion over a
   * special name.
   */
  lemma KeptExactly(lib: Lib, t: Term)
    requires LowerIsIdempotent(lib) && SafeTerm(t)
    requires t.Inclusion? ==> (t.values.strings == [] <==> t.values.numbers != []) && |t.values.numbers| < TWO64
    ensures Decides(lib, t) <==> Kept(t)
  {
    if Kept(t) {
      forall e | Canonical(lib, e)
        ensures Holds(lib, e)(NormalTerm(lib, t, false)) <==> TermTri(lib, true, t, e) == True
      {
        TermMeaning(lib, t, false, e);
      }
    } else {
      var e := LostWitness(lib, t);
      assert !Decides(lib, t);
    }
  }

  lemma LostWitness(lib: Lib, t: Term) returns (e: Entity)
    requires LowerIsIdempotent(lib) && SafeTerm(t) && !Kept(t)
    requires t.Inclusion? ==> (t.values.strings == [] <==> t.values.numbers != []) && |t.values.numbers| < TWO64
    ensures Canonical(lib, e)
    ensures Holds(lib, e)(NormalTerm(lib, t, false)) <==> TermTri(lib, true, t, e) != True
  {
    var n := NormalTerm(lib, t, false);
    if t.values.strings != [] {
      e := Entity(map[t.name := lib.lower(t.values.strings[0])], map[]);
      assert n.values.strings[0] == e.strings[t.name];
      assert StringHolds(lib, false, n, e.strings[t.name]) && !StringHolds(lib, true, t, e.strings[t.name]);
    } else {
      var v: uint64 := t.values.numbers[0];
      if t.isNot {
        v := MissingNumber(t.values.numbers);
      }
      e := Entity(map[], map[t.name := v]);
      assert NumberHolds(t, v) && !NumberHolds(n, v);
    }
  }

  lemma SingleNormalForm(lib: Lib, t: Term, neg: bool)
    requires SafeTerm(t)
    ensures Safe(Single(t)) && Dnf(lib, Single(t), neg, false) == [[NormalTerm(lib, Signed(t, neg), false)]]
    ensures Leaves(Single(t), neg) == {Signed(t, neg)}
  {
    var x := TermExpr(t);
    var a := AndExpression(x, []);
    var d := DnfEqual(lib, x, neg, false);
    assert EqualParts(lib, a, neg, false) == [d];
    CrossWithUnit(d);
    ConcatUnit(d);
    assert AndParts(lib, Single(t).or, neg, false) == [d];
    UnionUnit({Signed(t, neg)});
    assert EqualLeaves(a, neg) == [{Signed(t, neg)}] && AndLeaves(Single(t).or, neg) == [LeavesAnd(a, neg)];
  }

  lemma SingleMeaning(lib: Lib, t: Term, e: Entity)
    ensures Kleene(lib, Single(t), e) == TermTri(lib, true, t, e)
  {
    var a := AndExpression(TermExpr(t), []);
    assert EqualTris(lib, a, e) == [TermTri(lib, true, t, e)];
    assert AndTris(lib, Single(t).or, e) == [KleeneAnd(lib, a, e)];
  }

  /** `$owner not in ("a")` is normalised to `$owner in ("a")`: an entity owned by "a" matches. */
  lemma LostNotExample(lib: Lib, e: Entity)
    requires lib.lower([97]) == [97] && e == Entity(map[OWNER := [97]], map[])
    ensures var q := Single(Inclusion(OWNER, true, Values([[97]], [])));
            Safe(q) && Canonical(lib, e) && !LosesNothing(q, false)
            && Kleene(lib, q, e) == False && DisjunctionTrue(Dnf(lib, q, false, false), Holds(lib, e))
  {
    var t := Inclusion(OWNER, true, Values([[97]], []));
    var q := Single(t);
    SingleNormalForm(lib, t, false);
    SingleMeaning(lib, t, e);
    assert t in Leaves(q, false);
    assert t.values.strings[0] == [97];
    var n := NormalTerm(lib, t, false);
    assert n.values.strings[0] == [97];
    assert [n] in [[n]] && ConjunctionTrue([n], Holds(lib, e));
  }

  // ----- A query and its negation -----

  lemma NegatedNormalForm(lib: Lib, x: Expression, neg: bool)
    requires Safe(x)
    ensures Safe(Negated(x)) && Dnf(lib, Negated(x), neg, false) == Dnf(lib, x, !neg, false)
    ensures Leaves(Negated(x), neg) == Leaves(x, !neg)
  {
    var a := AndExpression(ParenExpr(Paren(true, x)), []);
    var d := Dnf(lib, x, !neg, false);
    assert EqualParts(lib, a, neg, false) == [d];
    assert EqualLeaves(a, neg) == [Leaves(x, !neg)];
    assert AndLeaves(Negated(x).or, neg) == [LeavesAnd(a, neg)];
    UnionUnit(Leaves(x, !neg));
    assert AndParts(lib, Negated(x).or, neg, false) == [DnfAnd(lib, a, neg, false)];
    CrossWithUnit(d);
    ConcatUnit(d);
  }

  /** `!(!(q))` and q have the very same normal form. */
  lemma DoubleNegation(lib: Lib, x: Expression)
    requires Safe(x)
    ensures Safe(Negated(Negated(x)))
    ensures Dnf(lib, Negated(Negated(x)), false, false) == Dnf(lib, x, false, false)
  {
    NegatedNormalForm(lib, x, true);
    NegatedNormalForm(lib, Negated(x), false);
  }

  /** The entity has an attribute of the right type for the leaf. */
  predicate Carries(e: Entity, t: Term) {
    if StringTyped(t) then t.name in e.strings else t.name in e.numbers
  }

  /** The entity has every attribute the query mentions. */
  predicate CarriesAll(e: Entity, x: Expression) {
    forall t :: t in Leaves(x, false) ==> Carries(e, t)
  }

  lemma EqualKnown(lib: Lib, x: EqualExpr, e: Entity, neg: bool)
    requires forall t :: t in LeavesEqual(x, neg) ==> Carries(e, t)
    ensures KleeneEqual(lib, x, e) != Unknown
    decreases x
  {
    match x
    case ParenExpr(p) => OrKnown(lib, p.nested.or, e, p.isNot != neg);
    case TermExpr(t) =>
      assert Carries(e, Signed(t, neg));
  }

  lemma AndKnown(lib: Lib, a: AndExpression, e: Entity, neg: bool)
    requires forall t :: t in LeavesAnd(a, neg) ==> Carries(e, t)
    ensures KleeneAnd(lib, a, e) != Unknown
    decreases a
  {
    var leaves := EqualLeaves(a, neg);
    forall i | 0 <= i < |leaves|
      ensures EqualTris(lib, a, e)[i] != Unknown
    {
      assert leaves[i] <= Union(leaves);
      EqualKnown(lib, if i == 0 then a.left else a.right[i - 1], e, neg);
    }
  }

  lemma OrKnown(lib: Lib, o: OrExpression, e: Entity, neg: bool)
    requires forall t :: t in LeavesOr(o, neg) ==> Carries(e, t)
    ensures KleeneOr(lib, o, e) != Unknown
    decreases o
  {
    var leaves := AndLeaves(o, neg);
    forall i | 0 <= i < |leaves|
      ensures AndTris(lib, o, e)[i] != Unknown
    {
      assert leaves[i] <= Union(leaves);
      AndKnown(lib, if i == 0 then o.left else o.right[i - 1], e, neg);
    }
  }

  lemma SingleHolds(t: Term, holds: Term -> bool)
    ensures DisjunctionTrue([[t]], holds) <==> holds(t)
  {
    assert [t] in [[t]] && t in [t];
  }

  /** Not a string inclusion over a special name, which as coded is its own negation. */
  predicate Contradictable(t: Term) {
    !(t.Inclusion? && Special(t.name) && t.values.strings != [])
  }

  /** A comparison and its negation, normalised as coded, are not both true of an entity. */
  lemma TermOrNegation(lib: Lib, t: Term, e: Entity)
    requires LowerIsIdempotent(lib) && Canonical(lib, e) && SafeTerm(t) && Contradictable(t)
    ensures !(Holds(lib, e)(NormalTerm(lib, t, false)) && Holds(lib, e)(NormalTerm(lib, InvertTerm(t), false)))
  {
    if !(t.Inclusion? && Special(t.name)) {
      TermMeaning(lib, t, false, e);
      TermMeaning(lib, t, true, e);
    }
  }

  /** If no part is true in both lists, not both of one of the first and all of the second are. */
  lemma PartsDisjoint(some: seq<Disjunction>, all: seq<Disjunction>, holds: Term -> bool)
    requires |some| == |all|
    requires forall i :: 0 <= i < |some| ==> !(DisjunctionTrue(some[i], holds) && DisjunctionTrue(all[i], holds))
    ensures !(DisjunctionTrue(Concat(some), holds) && DisjunctionTrue(CrossAll(all), holds))
  {
    ConcatMeaning(some, holds);
    CrossAllMeaning(all, holds);
  }

  lemma EqualDisjoint(lib: Lib, x: EqualExpr, neg: bool, e: Entity)
    requires LowerIsIdempotent(lib) && Canonical(lib, e) && SafeEqual(x)
    requires forall t :: t in LeavesEqual(x, neg) ==> Contradictable(t)
    ensures !(DisjunctionTrue(DnfEqual(lib, x, neg, false), Holds(lib, e))
              && DisjunctionTrue(DnfEqual(lib, x, !neg, false), Holds(lib, e)))
    decreases x
  {
    match x
    case ParenExpr(p) => OrDisjoint(lib, p.nested.or, p.isNot != neg, e);
    case TermExpr(t) =>
      assert Signed(t, neg) in LeavesEqual(x, neg);
      TermOrNegation(lib, Signed(t, neg), e);
      SingleHolds(NormalTerm(lib, Signed(t, neg), false), Holds(lib, e));
      SingleHolds(NormalTerm(lib, Signed(t, !neg), false), Holds(lib, e));
  }

  lemma AndDisjoint(lib: Lib, a: AndExpression, neg: bool, e: Entity)
    requires LowerIsIdempotent(lib) && Canonical(lib, e) && SafeAnd(a)
    requires forall t :: t in LeavesAnd(a, neg) ==> Contradictable(t)
    ensures !(DisjunctionTrue(DnfAnd(lib, a, neg, false), Holds(lib, e))
              && DisjunctionTrue(DnfAnd(lib, a, !neg, false), Holds(lib, e)))
    decreases a
  {
    var leaves := EqualLeaves(a, neg);
    var some, all := EqualParts(lib, a, true, false), EqualParts(lib, a, false, false);
    forall i | 0 <= i < |leaves|
      ensures !(DisjunctionTrue(some[i], Holds(lib, e)) && DisjunctionTrue(all[i], Holds(lib, e)))
    {
      assert leaves[i] <= Union(leaves);
      EqualDisjoint(lib, if i == 0 then a.left else a.right[i - 1], neg, e);
    }
    PartsDisjoint(some, all, Holds(lib, e));
  }

  lemma OrDisjoint(lib: Lib, o: OrExpression, neg: bool, e: Entity)
    requires LowerIsIdempotent(lib) && Canonical(lib, e) && SafeOr(o)
    requires forall t :: t in LeavesOr(o, neg) ==> Contradictable(t)
    ensures !(DisjunctionTrue(DnfOr(lib, o, neg, false), Holds(lib, e))
              && DisjunctionTrue(DnfOr(lib, o, !neg, false), Holds(lib, e)))
    decreases o
  {
    var leaves := AndLeaves(o, neg);
    var some, all := AndParts(lib, o, false, false), AndParts(lib, o, true, false);
    forall i | 0 <= i < |leaves|
      ensures !(DisjunctionTrue(some[i], Holds(lib, e)) && DisjunctionTrue(all[i], Holds(lib, e)))
    {
      assert leaves[i] <= Union(leaves);
      AndDisjoint(lib, if i == 0 then o.left else o.right[i - 1], neg, e);
    }
    PartsDisjoint(some, all, Holds(lib, e));
  }

  /**
   * A query and its negation, as coded, never both match an entity if no
   * string inclusion is over a special name; and one of them does match an
   * entity that has every attribute mentioned, if neither loses anything.
   */
  lemma QueryOrNegation(lib: Lib, x: Expression, e: Entity)
    requires LowerIsIdempotent(lib) && Canonical(lib, e) && Safe(x)
    ensures Safe(Negated(x))
    ensures var yes := DisjunctionTrue(Dnf(lib, x, false, false), Holds(lib, e));
            var no := DisjunctionTrue(Dnf(lib, Negated(x), false, false), Holds(lib, e));
            && ((forall t :: t in Leaves(x, false) ==> Contradictable(t)) ==> !(yes && no))
            && (LosesNothing(x, false) && LosesNothing(x, true) && CarriesAll(e, x) ==> yes || no)
  {
    NegatedNormalForm(lib, x, false);
    if forall t :: t in Leaves(x, false) ==> Contradictable(t) {
      OrDisjoint(lib, x.or, false, e);
    }
    if LosesNothing(x, false) && LosesNothing(x, true) && CarriesAll(e, x) {
      NormalizePreservesMeaning(lib, x, false, e);
      NormalizePreservesMeaning(lib, x, true, e);
      OrKnown(lib, x.or, e, false);
    }
  }

  /** A query and its negation, as coded, never both select an entity the store can hold. */
  ghost predicate Exclusive(lib: Lib, x: Expression)
    requires Safe(x) && Safe(Negated(x))
  {
    forall e :: Canonical(lib, e) ==>
                  !(DisjunctionTrue(Dnf(lib, x, false, false), Holds(lib, e))
                    && DisjunctionTrue(Dnf(lib, Negated(x), false, false), Holds(lib, e)))
  }

  /**
   * A comparison and its negation are exclusive iff the comparison is not a
   * string inclusion over a special name, which is its own negation as coded.
   */
  lemma ExclusiveExactly(lib: Lib, t: Term)
    requires LowerIsIdempotent(lib) && SafeTerm(t)
    ensures Safe(Single(t)) && Safe(Negated(Single(t)))
    ensures Exclusive(lib, Single(t)) <==> Contradictable(t)
  {
    var n, m := NormalTerm(lib, t, false), NormalTerm(lib, InvertTerm(t), false);
    SingleNormalForm(lib, t, false);
    SingleNormalForm(lib, t, true);
    NegatedNormalForm(lib, Single(t), false);
    if !Contradictable(t) {
      var e := Entity(map[t.name := lib.lower(t.values.strings[0])], map[]);
      assert n == m && n.values.strings[0] == e.strings[t.name];
      assert StringHolds(lib, false, n, e.strings[t.name]);
      SingleHolds(n, Holds(lib, e));
      assert !Exclusive(lib, Single(t));
    } else {
      forall e | Canonical(lib, e)
        ensures !(DisjunctionTrue([[n]], Holds(lib, e)) && DisjunctionTrue([[m]], Holds(lib, e)))
      {
        SingleHolds(n, Holds(lib, e));
        SingleHolds(m, Holds(lib, e));
        TermOrNegation(lib, t, e);
      }
    }
  }

  /** Of a query and its negation, as coded, exactly one selects each entity that has the attributes mentioned. */
  ghost predicate Partitions(lib: Lib, x: Expression)
    requires Safe(x) && Safe(Negated(x))
  {
    forall e :: Canonical(lib, e) && CarriesAll(e, x) ==>
                  (DisjunctionTrue(Dnf(lib, x, false, false), Holds(lib, e))
                   <==> !DisjunctionTrue(Dnf(lib, Negated(x), false, false), Holds(lib, e)))
  }

  /** An entity with the attribute, for which as many of the two match as should not: both, or neither. */
  lemma UnpartitionedWitness(lib: Lib, t: Term) returns (e: Entity)
    requires LowerIsIdempotent(lib) && t.Inclusion? && Special(t.name)
    requires t.values.strings == [] <==> t.values.numbers != []
    ensures Canonical(lib, e) && Carries(e, t)
    ensures Holds(lib, e)(NormalTerm(lib, t, false)) <==> Holds(lib, e)(NormalTerm(lib, InvertTerm(t), false))
  {
    if t.values.strings != [] {
      e := Entity(map[t.name := lib.lower(t.values.strings[0])], map[]);
    } else {
      e := Entity(map[], map[t.name := t.values.numbers[0]]);
    }
    assert NormalTerm(lib, t, false) == NormalTerm(lib, InvertTerm(t), false);
  }

  /**
   * A comparison and its negation part the entities that have its attribute
   * iff the comparison is not an inclusion over a special name.
   */
  lemma PartitionsExactly(lib: Lib, t: Term)
    requires LowerIsIdempotent(lib) && SafeTerm(t)
    requires t.Inclusion? ==> (t.values.strings == [] <==> t.values.numbers != [])
    ensures Safe(Single(t)) && Safe(Negated(Single(t)))
    ensures Partitions(lib, Single(t)) <==> !(t.Inclusion? && Special(t.name))
  {
    var n, m := NormalTerm(lib, t, false), NormalTerm(lib, InvertTerm(t), false);
    SingleNormalForm(lib, t, false);
    SingleNormalForm(lib, t, true);
    NegatedNormalForm(lib, Single(t), false);
    if t.Inclusion? && Special(t.name) {
      var e := UnpartitionedWitness(lib, t);
      SingleHolds(n, Holds(lib, e));
      SingleHolds(m, Holds(lib, e));
      assert !Partitions(lib, Single(t));
    } else {
      forall e | Canonical(lib, e) && Carries(e, t)
        ensures DisjunctionTrue([[n]], Holds(lib, e)) <==> !DisjunctionTrue([[m]], Holds(lib, e))
      {
        SingleHolds(n, Holds(lib, e));
        SingleHolds(m, Holds(lib, e));
        TermMeaning(lib, t, false, e);
        TermMeaning(lib, t, true, e);
      }
      assert t in Leaves(Single(t), false);
    }
  }

  /** An entity with numeric `$owner` 5 matches neither `$owner in (5)` nor `!($owner in (5))`. */
  lemma NeitherMatchesExample(lib: Lib, e: Entity)
    requires e == Entity(map[], map[OWNER := 5])
    ensures var q := Single(Inclusion(OWNER, false, Values([], [5])));
            && Safe(q) && Safe(Negated(q)) && Canonical(lib, e)
            && CarriesAll(e, q) && !DisjunctionTrue(Dnf(lib, q, false, false), Holds(lib, e))
            && !DisjunctionTrue(Dnf(lib, Negated(q), false, false), Holds(lib, e))
  {
    var t := Inclusion(OWNER, false, Values([], [5]));
    var n := NormalTerm(lib, t, false);
    SingleNormalForm(lib, t, false);
    SingleNormalForm(lib, t, true);
    NegatedNormalForm(lib, Single(t), false);
    assert n == Inclusion(OWNER, false, Values([], []));
    SingleHolds(n, Holds(lib, e));
  }

  /** `$owner in ("a")` and `!($owner in ("a"))` have the same normal form, and both select an entity owned by "a". */
  lemma BothMatchExample(lib: Lib, e: Entity)
    requires lib.lower([97]) == [97] && e == Entity(map[OWNER := [97]], map[])
    ensures var q := Single(Inclusion(OWNER, false, Values([[97]], [])));
            && Safe(q) && Safe(Negated(q)) && Canonical(lib, e)
            && Dnf(lib, q, false, false) == Dnf(lib, Negated(q), false, false)
            && DisjunctionTrue(Dnf(lib, q, false, false), Holds(lib, e))
  {
    var t := Inclusion(OWNER, false, Values([[97]], []));
    var n := NormalTerm(lib, t, false);
    SingleNormalForm(lib, t, false);
    SingleNormalForm(lib, t, true);
    NegatedNormalForm(lib, Single(t), false);
    assert n.values.strings[0] == [97] && StringHolds(lib, false, n, [97]);
    SingleHolds(n, Holds(lib, e));
  }
}
