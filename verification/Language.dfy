/** The query syntax trees: what the parser produces and what the evaluator consumes. */
module Language {
  import opened Base

  const KEY: Str := [36, 107, 101, 121]                              // "$key"
  const CREATOR: Str := [36, 99, 114, 101, 97, 116, 111, 114]        // "$creator"
  const OWNER: Str := [36, 111, 119, 110, 101, 114]                  // "$owner"

  /** A literal: exactly one of the two pointers of the source struct is set. */
  datatype Value = StringValue(s: Str) | NumberValue(n: uint64)

  datatype Values = Values(strings: seq<Str>, numbers: seq<uint64>)

  /** One comparison. The same seven alternatives serve EqualExpr and ASTTerm. */
  datatype Term =
    | Equality(name: Str, isNot: bool, value: Value)
    | Inclusion(name: Str, isNot: bool, values: Values)
    | LessThan(name: Str, value: Value)
    | LessOrEqualThan(name: Str, value: Value)
    | GreaterThan(name: Str, value: Value)
    | GreaterOrEqualThan(name: Str, value: Value)
    | Glob(name: Str, isNot: bool, pattern: Str)

  datatype Paren = Paren(isNot: bool, nested: Expression)

  datatype EqualExpr = ParenExpr(paren: Paren) | TermExpr(term: Term)

  datatype AndExpression = AndExpression(left: EqualExpr, right: seq<EqualExpr>)

  datatype OrExpression = OrExpression(left: AndExpression, right: seq<AndExpression>)

  datatype Expression = Expression(or: OrExpression)

  /** `$all` and `*` parse to All. */
  datatype TopLevel = All | Query(expression: Expression)

  /** A conjunction of terms (ASTAnd) and a disjunction of those (ASTOr). */
  type Conjunction = seq<Term>
  type Disjunction = seq<Conjunction>

  datatype AST = AllEntities | Matching(or: Disjunction)

  /** The names whose values are stored in lower case. */
  predicate Special(name: Str) {
    name == KEY || name == OWNER || name == CREATOR
  }
}
