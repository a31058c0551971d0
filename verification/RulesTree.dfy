/** Parse trees of the policy language and the tokens they are made of. */
module RulesTree {
  import opened Wrappers
  import opened RulesTokens

  datatype Tree =
    | OrExpr(left: Tree, right: Tree)
    | AndExpr(left: Tree, right: Tree)
    | NotExpr(operand: Tree)
    | ParenExpr(inner: Tree)
    | CompareExpr(column: string, op: Token, rhs: Token)
    | RangeExpr(column: string, low: Token, high: Token)

  datatype Statement = Statement(severity: Token, quotedLabel: string, condition: Tree)

  datatype Program = Program(version: Option<string>, statements: seq<Statement>)

  predicate IsCompOp(token: Token) {
    token in {EQ, NE, LT, GT, LE, GE}
  }

  predicate IsNumberToken(token: Token) {
    token.VERSIONID? || token.NUMBER?
  }

  predicate IsValueToken(token: Token) {
    token.STRING? || IsNumberToken(token) || token.IDENT?
  }

  predicate IsSeverity(token: Token) {
    token == WARN || token == ERROR
  }

  /** The tokens of a tree, left to right. */
  function Leaves(e: Tree): (leaves: seq<Token>)
    ensures |leaves| > 0
  {
    match e
    case OrExpr(l, r) => Leaves(l) + [OR] + Leaves(r)
    case AndExpr(l, r) => Leaves(l) + [AND] + Leaves(r)
    case NotExpr(x) => [NOT] + Leaves(x)
    case ParenExpr(x) => [LPAREN] + Leaves(x) + [RPAREN]
    case CompareExpr(column, op, rhs) => [IDENT(column), op, rhs]
    case RangeExpr(column, low, high) => [IDENT(column), IN, RANGE, LPAREN, low, COMMA, high, RPAREN]
  }

  /** The tree ends in a `not` that no parenthesis closes. */
  predicate EndsInNot(e: Tree) {
    match e
    case OrExpr(_, r) => EndsInNot(r)
    case AndExpr(_, r) => EndsInNot(r)
    case NotExpr(_) => true
    case _ => false
  }

  /** OR binds tighter than AND, both are left-associative, and no left operand
      ends in an unparenthesised `not`. */
  predicate Canonical(e: Tree) {
    match e
    case OrExpr(l, r) =>
      && Canonical(l) && Canonical(r)
      && !l.AndExpr? && !r.AndExpr? && !r.OrExpr? && !EndsInNot(l)
    case AndExpr(l, r) => Canonical(l) && Canonical(r) && !r.AndExpr? && !EndsInNot(l)
    case NotExpr(x) => Canonical(x)
    case ParenExpr(x) => Canonical(x)
    case CompareExpr(_, op, rhs) => IsCompOp(op) && IsValueToken(rhs)
    case RangeExpr(_, low, high) => IsNumberToken(low) && IsNumberToken(high)
  }

  function StatementLeaves(s: Statement): seq<Token> {
    [s.severity, STRING(s.quotedLabel)] + Leaves(s.condition)
  }

  predicate CanonicalStatement(s: Statement) {
    IsSeverity(s.severity) && Canonical(s.condition)
  }

  function StatementsLeaves(statements: seq<Statement>): seq<Token> {
    if statements == [] then []
    else StatementLeaves(statements[0]) + StatementsLeaves(statements[1..])
  }

  function ProgramLeaves(p: Program): seq<Token> {
    (if p.version.Some? then [VERSION, VERSIONID(p.version.value)] else [])
    + StatementsLeaves(p.statements)
  }

  predicate CanonicalStatements(statements: seq<Statement>) {
    statements != [] && forall i :: 0 <= i < |statements| ==> CanonicalStatement(statements[i])
  }

  predicate CanonicalProgram(p: Program) {
    CanonicalStatements(p.statements)
  }
}
