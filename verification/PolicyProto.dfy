/** The rule messages that parse trees are compiled to, and the compiler. */
module PolicyProto {
  import opened Wrappers
  import opened Doubles
  import opened PolicyValues
  import opened RulesTokens
  import opened RulesTree

  datatype ComparisonOp = UNSPECIFIED | CMP_EQ | CMP_NE | CMP_GT | CMP_GE | CMP_LT | CMP_LE
  datatype LogicOp = LOGIC_AND | LOGIC_OR

  datatype Expr =
    | Comparison(column: string, op: ComparisonOp, value: string)
    | RangeCheck(rangeColumn: string, low: Double, high: Double)
    | Not(expr: Expr)
    | Logical(logicOp: LogicOp, operands: seq<Expr>)
    | KindNotSet

  datatype Severity = SEVERITY_WARN | SEVERITY_ERROR
  datatype Rule = Rule(severity: Severity, labelText: string, condition: Expr)
  datatype RuleSet = RuleSet(version: string, rules: seq<Rule>)

  /** A text without its first and last characters. */
  function Unquote(text: string): string
    requires |text| >= 2
  {
    text[1..|text| - 1]
  }

  /** The comparison operator of a compOp token, by its text. */
  function VisitCompOp(op: Token): Option<ComparisonOp> {
    var text := Text(op);
    if text == "==" then Some(CMP_EQ)
    else if text == "!=" then Some(CMP_NE)
    else if text == ">" then Some(CMP_GT)
    else if text == ">=" then Some(CMP_GE)
    else if text == "<" then Some(CMP_LT)
    else if text == "<=" then Some(CMP_LE)
    else None
  }

  /** The value text: a string literal loses its quotes, anything else is kept. */
  function VisitValue(token: Token): string {
    var raw := Text(token);
    if raw != "" && raw[0] == '"' && raw[|raw| - 1] == '"'
    then if |raw| == 1 then "" else Unquote(raw)
    else raw
  }

  /** visitExprTree. None is the exception that `std::stod` throws on a range
      bound, or an unknown operator. */
  function VisitExpr(e: Tree, lib: Library): Option<Expr> {
    match e
    case OrExpr(l, r) =>
      (match (VisitExpr(l, lib), VisitExpr(r, lib))
       case (Some(a), Some(b)) => Some(Logical(LOGIC_OR, [a, b]))
       case _ => None)
    case AndExpr(l, r) =>
      (match (VisitExpr(l, lib), VisitExpr(r, lib))
       case (Some(a), Some(b)) => Some(Logical(LOGIC_AND, [a, b]))
       case _ => None)
    case NotExpr(x) =>
      (match VisitExpr(x, lib)
       case Some(a) => Some(Not(a))
       case None => None)
    case ParenExpr(x) => VisitExpr(x, lib)
    case CompareExpr(column, op, rhs) =>
      (match VisitCompOp(op)
       case Some(cmp) => Some(Comparison(column, cmp, VisitValue(rhs)))
       case None => None)
    case RangeExpr(column, low, high) =>
      (match (lib.stod(Text(low)), lib.stod(Text(high)))
       case (Some(a), Some(b)) => Some(RangeCheck(column, a, b))
       case _ => None)
  }

  /** getSeverity, by the text of the token. */
  function GetSeverity(text: string): Option<Severity> {
    if text == "warn" then Some(SEVERITY_WARN)
    else if text == "error" then Some(SEVERITY_ERROR)
    else None
  }

  /** visitStatement. */
  function VisitStatement(s: Statement, lib: Library): Option<Rule> {
    match (GetSeverity(Text(s.severity)), VisitExpr(s.condition, lib))
    case (Some(severity), Some(condition)) =>
      Some(Rule(severity, if |s.quotedLabel| < 2 then "" else Unquote(s.quotedLabel), condition))
    case _ => None
  }

  function VisitStatements(statements: seq<Statement>, lib: Library): Option<seq<Rule>> {
    if statements == [] then Some([])
    else
      match (VisitStatement(statements[0], lib), VisitStatements(statements[1..], lib))
      case (Some(rule), Some(rules)) => Some([rule] + rules)
      case _ => None
  }
}
