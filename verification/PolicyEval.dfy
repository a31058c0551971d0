/** The evaluator of compiled rules, with the exceptions it throws, and the
    algebra of its three outcomes. */
module PolicyEval {
  import opened Wrappers
  import opened Doubles
  import opened PolicyValues
  import opened PolicyProto

  /** What evaluating a condition gives: true, false, or an exception. */
  datatype Outcome = Truth(b: bool) | Thrown

  function EvalStrings(op: ComparisonOp, lhs: string, rhs: string): Outcome {
    match op
    case CMP_EQ => Truth(lhs == rhs)
    case CMP_NE => Truth(lhs != rhs)
    case _ => Thrown
  }

  function EvalDoubles(op: ComparisonOp, lhs: Double, rhs: Double): Outcome {
    match op
    case CMP_EQ => Truth(Equal(lhs, rhs))
    case CMP_NE => Truth(!Equal(lhs, rhs))
    case CMP_LT => Truth(Less(lhs, rhs))
    case CMP_LE => Truth(LessEqual(lhs, rhs))
    case CMP_GT => Truth(Less(rhs, lhs))
    case CMP_GE => Truth(LessEqual(rhs, lhs))
    case UNSPECIFIED => Thrown
  }

  /** eval_comparison: false for a missing column or a side that is no number;
      a right-hand side that names a column is that column. */
  function EvalComparison(column: string, op: ComparisonOp, value: string,
                          dict: Dictionary, lib: Library): Outcome {
    if column !in dict then Truth(false)
    else
      var val := dict[column];
      if val.StringValue? then
        EvalStrings(op, ToString(val, lib), if value in dict then ToString(dict[value], lib) else value)
      else
        match ToDouble(val)
        case None => Truth(false)
        case Some(lhs) =>
          match if value in dict then ToDouble(dict[value]) else lib.stod(value)
          case None => Truth(false)
          case Some(rhs) => EvalDoubles(op, lhs, rhs)
  }

  function EvalRange(column: string, low: Double, high: Double, dict: Dictionary): Outcome {
    if column !in dict then Truth(false)
    else
      match ToDouble(dict[column])
      case None => Truth(false)
      case Some(val) => Truth(LessEqual(low, val) && LessEqual(val, high))
  }

  function Negate(o: Outcome): Outcome {
    match o
    case Truth(b) => Truth(!b)
    case Thrown => Thrown
  }

  /** eval_expr. */
  function EvalExpr(expr: Expr, dict: Dictionary, lib: Library): Outcome
    decreases expr, 1
  {
    match expr
    case Comparison(column, op, value) => EvalComparison(column, op, value, dict, lib)
    case RangeCheck(column, low, high) => EvalRange(column, low, high, dict)
    case Not(e) => Negate(EvalExpr(e, dict, lib))
    case Logical(op, operands) => EvalLogical(op, operands, dict, lib)
    case KindNotSet => Truth(false)
  }

  /** eval_logical: operands left to right, up to the first that decides. */
  function EvalLogical(op: LogicOp, operands: seq<Expr>, dict: Dictionary, lib: Library): Outcome
    decreases operands, 0
  {
    if operands == [] then Truth(op == LOGIC_AND)
    else
      match EvalExpr(operands[0], dict, lib)
      case Thrown => Thrown
      case Truth(b) =>
        if b == (op == LOGIC_OR) then Truth(b) else EvalLogical(op, operands[1..], dict, lib)
  }

  // ----- algebra -----

  /** Two conditions that no dictionary tells apart, exceptions included. */
  ghost predicate Equivalent(a: Expr, b: Expr, lib: Library) {
    forall dict: Dictionary :: EvalExpr(a, dict, lib) == EvalExpr(b, dict, lib)
  }

  /** Sequencing of outcomes: the second counts only when the first does not
      decide. */
  function Then(op: LogicOp, first: Outcome, second: Outcome): Outcome {
    match first
    case Thrown => Thrown
    case Truth(b) => if b == (op == LOGIC_OR) then first else second
  }

  lemma {:induction false} EvalConcat(op: LogicOp, a: seq<Expr>, b: seq<Expr>, dict: Dictionary, lib: Library)
    ensures EvalLogical(op, a + b, dict, lib)
         == Then(op, EvalLogical(op, a, dict, lib), EvalLogical(op, b, dict, lib))
  {
    if a == [] {
      assert a + b == b;
    } else {
      assert (a + b)[1..] == a[1..] + b;
      EvalConcat(op, a[1..], b, dict, lib);
    }
  }

  lemma EvalOne(op: LogicOp, e: Expr, dict: Dictionary, lib: Library)
    ensures EvalLogical(op, [e], dict, lib) == EvalExpr(e, dict, lib)
  {
    assert [e][1..] == [];
  }

  /** Operands of the same connective can be grouped or ungrouped anywhere. */
  lemma Regroup(op: LogicOp, a: seq<Expr>, b: seq<Expr>, c: seq<Expr>, lib: Library)
    ensures Equivalent(Logical(op, a + [Logical(op, b)] + c), Logical(op, a + b + c), lib)
  {
    forall dict: Dictionary
      ensures EvalLogical(op, a + [Logical(op, b)] + c, dict, lib) == EvalLogical(op, a + b + c, dict, lib)
    {
      EvalConcat(op, a + [Logical(op, b)], c, dict, lib);
      EvalConcat(op, a, [Logical(op, b)], dict, lib);
      EvalOne(op, Logical(op, b), dict, lib);
      EvalConcat(op, a + b, c, dict, lib);
      EvalConcat(op, a, b, dict, lib);
    }
  }

  /** The left-nested binary chain of a nonempty list of operands. */
  function Chain(op: LogicOp, es: seq<Expr>): Expr
    requires es != []
  {
    if |es| == 1 then es[0] else Logical(op, [Chain(op, es[..|es| - 1]), es[|es| - 1]])
  }

  /** A left-nested chain has the outcome of one connective over all operands. */
  lemma {:induction false} ChainIsNary(op: LogicOp, es: seq<Expr>, lib: Library)
    requires es != []
    ensures Equivalent(Chain(op, es), Logical(op, es), lib)
  {
    forall dict: Dictionary
      ensures EvalExpr(Chain(op, es), dict, lib) == EvalLogical(op, es, dict, lib)
    {
      if |es| == 1 {
        assert es == [es[0]];
        EvalOne(op, es[0], dict, lib);
      } else {
        var init, last := es[..|es| - 1], es[|es| - 1];
        ChainIsNary(op, init, lib);
        assert EvalExpr(Chain(op, init), dict, lib) == EvalExpr(Logical(op, init), dict, lib);
        assert es == init + [last] && [Chain(op, init), last] == [Chain(op, init)] + [last];
        EvalConcat(op, init, [last], dict, lib);
        EvalConcat(op, [Chain(op, init)], [last], dict, lib);
        EvalOne(op, Chain(op, init), dict, lib);
      }
    }
  }

  function NotAll(es: seq<Expr>): (ns: seq<Expr>)
    ensures |ns| == |es|
  {
    seq(|es|, i requires 0 <= i < |es| => Not(es[i]))
  }

  function Dual(op: LogicOp): LogicOp {
    if op == LOGIC_AND then LOGIC_OR else LOGIC_AND
  }

  lemma {:induction false} NegatedOperands(op: LogicOp, es: seq<Expr>, dict: Dictionary, lib: Library)
    ensures EvalLogical(Dual(op), NotAll(es), dict, lib) == Negate(EvalLogical(op, es, dict, lib))
  {
    if es == [] {
    } else {
      assert NotAll(es)[1..] == NotAll(es[1..]);
      NegatedOperands(op, es[1..], dict, lib);
    }
  }

  /** De Morgan, both ways: negating a connective negates its operands under the
      other one, with the same exceptions. */
  lemma DeMorgan(op: LogicOp, es: seq<Expr>, lib: Library)
    ensures Equivalent(Not(Logical(op, es)), Logical(Dual(op), NotAll(es)), lib)
  {
    forall dict: Dictionary
      ensures EvalExpr(Not(Logical(op, es)), dict, lib) == EvalExpr(Logical(Dual(op), NotAll(es)), dict, lib)
    {
      NegatedOperands(op, es, dict, lib);
    }
  }

  lemma DoubleNegation(e: Expr, lib: Library)
    ensures Equivalent(Not(Not(e)), e, lib)
  {
  }

  // ----- what the outcomes are -----

  /** A column that converts to a number, against a right-hand side that does: the
      six operators are those of the reals. */
  lemma ComparedNumbers(column: string, value: string, dict: Dictionary, lib: Library, x: real, y: real)
    requires column in dict && ToDouble(dict[column]) == Some(Finite(x))
    requires (if value in dict then ToDouble(dict[value]) else lib.stod(value)) == Some(Finite(y))
    ensures EvalExpr(Comparison(column, CMP_EQ, value), dict, lib) == Truth(x == y)
    ensures EvalExpr(Comparison(column, CMP_NE, value), dict, lib) == Truth(x != y)
    ensures EvalExpr(Comparison(column, CMP_LT, value), dict, lib) == Truth(x < y)
    ensures EvalExpr(Comparison(column, CMP_LE, value), dict, lib) == Truth(x <= y)
    ensures EvalExpr(Comparison(column, CMP_GT, value), dict, lib) == Truth(x > y)
    ensures EvalExpr(Comparison(column, CMP_GE, value), dict, lib) == Truth(x >= y)
  {
    hide Less, LessEqual, Equal;
    LessMeaning(x, y);
    LessMeaning(y, x);
  }

  /** With NaN on either side only "not equal" is true. */
  lemma ComparedNaN(column: string, op: ComparisonOp, value: string, dict: Dictionary, lib: Library,
                    x: Double, y: Double)
    requires op != UNSPECIFIED && (x == NaN || y == NaN)
    requires column in dict && ToDouble(dict[column]) == Some(x)
    requires (if value in dict then ToDouble(dict[value]) else lib.stod(value)) == Some(y)
    ensures EvalExpr(Comparison(column, op, value), dict, lib) == Truth(op == CMP_NE)
  {
    hide Less, LessEqual, Equal;
    Trichotomy(x, y);
    Trichotomy(y, x);
  }

  /** A string column is compared as a text, and only for equality. */
  lemma ComparedTexts(column: string, op: ComparisonOp, value: string, dict: Dictionary, lib: Library)
    requires column in dict && dict[column].StringValue?
    ensures var l, r := dict[column].s, if value in dict then ToString(dict[value], lib) else value;
      EvalExpr(Comparison(column, op, value), dict, lib)
      == match op case CMP_EQ => Truth(l == r) case CMP_NE => Truth(l != r) case _ => Thrown
  {
  }

  /** A missing column, one of a type that does not convert, and a right-hand side
      that is no number make a comparison or range false. */
  lemma NothingToCompare(column: string, op: ComparisonOp, value: string, low: Double, high: Double,
                         dict: Dictionary, lib: Library)
    requires
      || column !in dict
      || dict[column].UnsignedValue? || dict[column].LongValue?
      || (!dict[column].StringValue? && (if value in dict then ToDouble(dict[value]) else lib.stod(value)) == None)
    ensures EvalExpr(Comparison(column, op, value), dict, lib) == Truth(false)
    ensures column !in dict || dict[column].UnsignedValue? || dict[column].LongValue? ==>
      EvalExpr(RangeCheck(column, low, high), dict, lib) == Truth(false)
  {
  }

  /** A range includes both of its bounds. */
  lemma RangeIsClosed(column: string, low: real, high: real, dict: Dictionary, lib: Library, x: real)
    requires column in dict && ToDouble(dict[column]) == Some(Finite(x))
    ensures EvalExpr(RangeCheck(column, Finite(low), Finite(high)), dict, lib) == Truth(low <= x <= high)
  {
    hide LessEqual;
    LessMeaning(low, x);
    LessMeaning(x, high);
  }

  /** The first n operands all have that outcome. */
  predicate AllGive(es: seq<Expr>, n: nat, o: Outcome, dict: Dictionary, lib: Library)
    requires n <= |es|
  {
    forall i :: 0 <= i < n ==> EvalExpr(es[i], dict, lib) == o
  }

  /** `and` is true when every operand is, and otherwise has the outcome of the
      first that is not; `or` is false when every operand is, and otherwise has
      the outcome of the first that is not. */
  lemma {:induction false} FirstThatDecides(op: LogicOp, es: seq<Expr>, k: nat, dict: Dictionary, lib: Library)
    requires k <= |es| && AllGive(es, k, Truth(op == LOGIC_AND), dict, lib)
    requires k < |es| ==> EvalExpr(es[k], dict, lib) != Truth(op == LOGIC_AND)
    ensures EvalExpr(Logical(op, es), dict, lib)
         == if k < |es| then EvalExpr(es[k], dict, lib) else Truth(op == LOGIC_AND)
    decreases k
  {
    if k == 0 {
    } else {
      forall i | 0 <= i < k - 1 ensures EvalExpr(es[1..][i], dict, lib) == Truth(op == LOGIC_AND) {
        assert es[1..][i] == es[i + 1];
      }
      FirstThatDecides(op, es[1..], k - 1, dict, lib);
      assert EvalExpr(es[0], dict, lib) == Truth(op == LOGIC_AND);
    }
  }

  /** `not` swaps true and false and lets an exception through. */
  lemma NotMeaning(e: Expr, dict: Dictionary, lib: Library)
    ensures EvalExpr(Not(e), dict, lib)
         == match EvalExpr(e, dict, lib)
            case Truth(b) => Truth(!b)
            case Thrown => Thrown
  {
  }
}
