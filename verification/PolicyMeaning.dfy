/** The direct meaning of a parse tree, and the proof that compiling it to a
    rule message and evaluating that gives the same outcome. */
module PolicyMeaning {
  import opened Wrappers
  import opened Doubles
  import opened PolicyValues
  import opened RulesTokens
  import opened RulesTree
  import opened PolicyProto
  import opened PolicyEval
  import opened RulesShapes
  import opened RulesLexer

  /** What a comparison compares: nothing, two texts, or two numbers. */
  datatype Sides = Nothing | Texts(l: string, r: string) | Numbers(x: Double, y: Double)

  /** The text of a value in a rule, without the quotes of a string literal. */
  function Literal(token: Token): string {
    match token
    case STRING(quoted) => if |quoted| < 2 then "" else quoted[1..|quoted| - 1]
    case _ => Text(token)
  }

  /** The column decides between text and number; the value is looked up as a
      column first and taken literally otherwise. */
  function SidesOf(column: string, rhs: Token, dict: Dictionary, lib: Library): Sides {
    var text := Literal(rhs);
    if column !in dict then Nothing
    else
      match (dict[column], ToDouble(dict[column]))
      case (StringValue(s), _) => Texts(s, if text in dict then ToString(dict[text], lib) else text)
      case (_, None) => Nothing
      case (_, Some(x)) =>
        match if text in dict then ToDouble(dict[text]) else lib.stod(text)
        case None => Nothing
        case Some(y) => Numbers(x, y)
  }

  /** Comparing nothing is false; texts can only be equal or not; numbers compare
      as doubles do. */
  function Relate(op: Token, sides: Sides): Outcome {
    match sides
    case Nothing => Truth(false)
    case Texts(l, r) =>
      if op == EQ then Truth(l == r) else if op == NE then Truth(l != r) else Thrown
    case Numbers(x, y) =>
      Truth(
        if op == EQ then Equal(x, y) else if op == NE then !Equal(x, y)
        else if op == LT then Less(x, y) else if op == LE then LessEqual(x, y)
        else if op == GT then Less(y, x) else LessEqual(y, x))
  }

  /** Every range bound in the tree is the text of a number. */
  predicate BoundsAreNumbers(e: Tree, lib: Library) {
    match e
    case OrExpr(l, r) => BoundsAreNumbers(l, lib) && BoundsAreNumbers(r, lib)
    case AndExpr(l, r) => BoundsAreNumbers(l, lib) && BoundsAreNumbers(r, lib)
    case NotExpr(x) => BoundsAreNumbers(x, lib)
    case ParenExpr(x) => BoundsAreNumbers(x, lib)
    case CompareExpr(_, _, _) => true
    case RangeExpr(_, low, high) => lib.stod(Text(low)).Some? && lib.stod(Text(high)).Some?
  }

  /** The meaning of a condition, left to right with short circuits. */
  function Meaning(e: Tree, dict: Dictionary, lib: Library): Outcome
    requires BoundsAreNumbers(e, lib)
  {
    match e
    case OrExpr(l, r) =>
      (match Meaning(l, dict, lib)
       case Truth(false) => Meaning(r, dict, lib)
       case decided => decided)
    case AndExpr(l, r) =>
      (match Meaning(l, dict, lib)
       case Truth(true) => Meaning(r, dict, lib)
       case decided => decided)
    case NotExpr(x) =>
      (match Meaning(x, dict, lib)
       case Truth(b) => Truth(!b)
       case Thrown => Thrown)
    case ParenExpr(x) => Meaning(x, dict, lib)
    case CompareExpr(column, op, rhs) => Relate(op, SidesOf(column, rhs, dict, lib))
    case RangeExpr(column, low, high) =>
      if column !in dict then Truth(false)
      else
        match ToDouble(dict[column])
        case None => Truth(false)
        case Some(v) =>
          Truth(LessEqual(lib.stod(Text(low)).value, v) && LessEqual(v, lib.stod(Text(high)).value))
  }

  /** The tokens of the tree are ones the lexer can produce. */
  predicate LexableLeaves(e: Tree) {
    AllLexable(Leaves(e))
  }

  lemma LexableParts(e: Tree)
    requires LexableLeaves(e)
    ensures match e
      case OrExpr(l, r) => LexableLeaves(l) && LexableLeaves(r)
      case AndExpr(l, r) => LexableLeaves(l) && LexableLeaves(r)
      case NotExpr(x) => LexableLeaves(x)
      case ParenExpr(x) => LexableLeaves(x)
      case CompareExpr(_, _, rhs) => Lexable(rhs)
      case RangeExpr(_, low, high) => Lexable(low) && Lexable(high)
  {
    hide Lexable;
    var ts := Leaves(e);
    match e
    case OrExpr(l, r) => LexableSlice(ts, Leaves(l), [OR], Leaves(r));
    case AndExpr(l, r) => LexableSlice(ts, Leaves(l), [AND], Leaves(r));
    case NotExpr(x) => LexableSlice(ts, [NOT], Leaves(x), []);
    case ParenExpr(x) => LexableSlice(ts, [LPAREN], Leaves(x), [RPAREN]);
    case CompareExpr(_, _, rhs) => assert Lexable(ts[2]);
    case RangeExpr(_, low, high) => assert Lexable(ts[4]) && Lexable(ts[6]);
  }

  lemma LexableSlice(ts: seq<Token>, a: seq<Token>, b: seq<Token>, c: seq<Token>)
    requires ts == a + b + c && AllLexable(ts)
    ensures AllLexable(a) && AllLexable(b) && AllLexable(c)
  {
    hide Lexable;
    forall i | 0 <= i < |a| ensures Lexable(a[i]) { assert a[i] == ts[i]; }
    forall i | 0 <= i < |b| ensures Lexable(b[i]) { assert b[i] == ts[|a| + i]; }
    forall i | 0 <= i < |c| ensures Lexable(c[i]) { assert c[i] == ts[|a| + |b| + i]; }
  }

  lemma {:induction false} StringTailEndsInQuote(w: string)
    requires IsStringTail(w)
    ensures w != "" && w[|w| - 1] == '"'
    decreases |w|
  {
    if w[0] == '"' {
    } else if w[0] == '\\' {
      StringTailEndsInQuote(w[2..]);
    } else {
      StringTailEndsInQuote(w[1..]);
    }
  }

  /** The visitor keeps exactly the literal text of a value. */
  lemma VisitValueIsLiteral(token: Token)
    requires Lexable(token)
    ensures VisitValue(token) == Literal(token)
  {
    hide Lexable;
    TokenStart(token);
    if token.STRING? { StringTailEndsInQuote(Text(token)[1..]); }
  }

  lemma CompareMeaning(column: string, op: Token, rhs: Token, dict: Dictionary, lib: Library)
    requires IsCompOp(op) && Lexable(rhs)
    ensures VisitCompOp(op).Some?
    ensures EvalComparison(column, VisitCompOp(op).value, VisitValue(rhs), dict, lib)
         == Relate(op, SidesOf(column, rhs, dict, lib))
  {
    hide Lexable, Equal, Less, LessEqual, VisitValue, Literal;
    VisitValueIsLiteral(rhs);
  }

  /** A canonical tree compiles exactly when all its range bounds are numbers. */
  lemma {:induction false} CompilesIffBoundsAreNumbers(e: Tree, lib: Library)
    requires Canonical(e)
    ensures VisitExpr(e, lib).Some? <==> BoundsAreNumbers(e, lib)
  {
    match e
    case OrExpr(l, r) => CompilesIffBoundsAreNumbers(l, lib); CompilesIffBoundsAreNumbers(r, lib);
    case AndExpr(l, r) => CompilesIffBoundsAreNumbers(l, lib); CompilesIffBoundsAreNumbers(r, lib);
    case NotExpr(x) => CompilesIffBoundsAreNumbers(x, lib);
    case ParenExpr(x) => CompilesIffBoundsAreNumbers(x, lib);
    case _ =>
  }

  lemma EvalPair(op: LogicOp, a: Expr, b: Expr, dict: Dictionary, lib: Library)
    ensures EvalExpr(Logical(op, [a, b]), dict, lib)
         == Then(op, EvalExpr(a, dict, lib), EvalExpr(b, dict, lib))
  {
    EvalConcat(op, [a], [b], dict, lib);
    EvalOne(op, a, dict, lib);
    EvalOne(op, b, dict, lib);
    assert [a, b] == [a] + [b];
  }

  /** Compiling keeps the meaning: the rule message has the outcome of the tree
      for every dictionary, so parentheses matter only through the tree's shape. */
  lemma {:induction false} CompilePreservesMeaning(e: Tree, dict: Dictionary, lib: Library)
    requires Canonical(e) && LexableLeaves(e) && BoundsAreNumbers(e, lib)
    ensures VisitExpr(e, lib).Some?
    ensures EvalExpr(VisitExpr(e, lib).value, dict, lib) == Meaning(e, dict, lib)
  {
    hide LexableLeaves, EvalComparison, SidesOf, Relate, VisitValue, VisitCompOp;
    CompilesIffBoundsAreNumbers(e, lib);
    LexableParts(e);
    match e
    case OrExpr(l, r) =>
      CompilePreservesMeaning(l, dict, lib);
      CompilePreservesMeaning(r, dict, lib);
      EvalPair(LOGIC_OR, VisitExpr(l, lib).value, VisitExpr(r, lib).value, dict, lib);
    case AndExpr(l, r) =>
      CompilePreservesMeaning(l, dict, lib);
      CompilePreservesMeaning(r, dict, lib);
      EvalPair(LOGIC_AND, VisitExpr(l, lib).value, VisitExpr(r, lib).value, dict, lib);
    case NotExpr(x) => CompilePreservesMeaning(x, dict, lib);
    case ParenExpr(x) => CompilePreservesMeaning(x, dict, lib);
    case CompareExpr(column, op, rhs) => CompareMeaning(column, op, rhs, dict, lib);
    case RangeExpr(_, _, _) =>
  }

  // ----- chains in the source -----

  /** `e1 and e2 and ... en` as the parser nests it. */
  function AndChain(es: seq<Tree>): Tree
    requires es != []
  {
    if |es| == 1 then es[0] else AndExpr(AndChain(es[..|es| - 1]), es[|es| - 1])
  }

  function OrChain(es: seq<Tree>): Tree
    requires es != []
  {
    if |es| == 1 then es[0] else OrExpr(OrChain(es[..|es| - 1]), es[|es| - 1])
  }

  /** The compiled operands of a chain. */
  predicate CompilesTo(es: seq<Tree>, ps: seq<Expr>, lib: Library) {
    |es| == |ps| && forall i :: 0 <= i < |es| ==> VisitExpr(es[i], lib) == Some(ps[i])
  }

  /** The visitor emits the left-nested chain of the compiled operands. */
  lemma {:induction false} VisitChain(es: seq<Tree>, ps: seq<Expr>, lib: Library)
    requires es != [] && CompilesTo(es, ps, lib)
    ensures VisitExpr(AndChain(es), lib) == Some(Chain(LOGIC_AND, ps))
    ensures VisitExpr(OrChain(es), lib) == Some(Chain(LOGIC_OR, ps))
  {
    if |es| == 1 {
    } else {
      VisitChain(es[..|es| - 1], ps[..|ps| - 1], lib);
    }
  }

  /** So a chain of one connective in the source has the outcome of one n-ary
      connective over its operands. */
  lemma ChainMeansNary(es: seq<Tree>, ps: seq<Expr>, lib: Library)
    requires es != [] && CompilesTo(es, ps, lib)
    ensures var chain := VisitExpr(AndChain(es), lib);
      chain.Some? && Equivalent(chain.value, Logical(LOGIC_AND, ps), lib)
    ensures var chain := VisitExpr(OrChain(es), lib);
      chain.Some? && Equivalent(chain.value, Logical(LOGIC_OR, ps), lib)
  {
    VisitChain(es, ps, lib);
    ChainIsNary(LOGIC_AND, ps, lib);
    ChainIsNary(LOGIC_OR, ps, lib);
  }

  // ----- what conditions mean -----

  /** A string literal stands for the text between its quotes, and any other value
      for its own text. */
  lemma LiteralMeaning(s: string)
    ensures Literal(STRING("\"" + s + "\"")) == s
    ensures Literal(IDENT(s)) == s && Literal(NUMBER(s)) == s && Literal(VERSIONID(s)) == s
  {
  }

  /** The right-hand side of a comparison as a number: that of the column it
      names, and else of its text. */
  function RightNumber(rhs: Token, dict: Dictionary, lib: Library): Option<Double> {
    if Literal(rhs) in dict then ToDouble(dict[Literal(rhs)]) else lib.stod(Literal(rhs))
  }

  /** Comparisons of numbers are those of the reals. */
  lemma NumbersCompare(column: string, rhs: Token, dict: Dictionary, lib: Library, x: real, y: real)
    requires column in dict && ToDouble(dict[column]) == Some(Finite(x))
    requires RightNumber(rhs, dict, lib) == Some(Finite(y))
    ensures Meaning(CompareExpr(column, EQ, rhs), dict, lib) == Truth(x == y)
    ensures Meaning(CompareExpr(column, NE, rhs), dict, lib) == Truth(x != y)
    ensures Meaning(CompareExpr(column, LT, rhs), dict, lib) == Truth(x < y)
    ensures Meaning(CompareExpr(column, LE, rhs), dict, lib) == Truth(x <= y)
    ensures Meaning(CompareExpr(column, GT, rhs), dict, lib) == Truth(x > y)
    ensures Meaning(CompareExpr(column, GE, rhs), dict, lib) == Truth(x >= y)
  {
    hide Literal, Less, LessEqual, Equal;
    LessMeaning(x, y);
    LessMeaning(y, x);
  }

  /** With NaN on either side only `!=` is true. */
  lemma NaNCompares(column: string, op: Token, rhs: Token, dict: Dictionary, lib: Library, x: Double, y: Double)
    requires op in {EQ, NE, LT, LE, GT, GE} && (x == NaN || y == NaN)
    requires column in dict && ToDouble(dict[column]) == Some(x) && RightNumber(rhs, dict, lib) == Some(y)
    ensures Meaning(CompareExpr(column, op, rhs), dict, lib) == Truth(op == NE)
  {
    hide Literal, Less, LessEqual, Equal;
    Trichotomy(x, y);
    Trichotomy(y, x);
  }

  /** Texts can only be compared for equality; any other operator throws. */
  lemma TextsCompare(column: string, op: Token, rhs: Token, dict: Dictionary, lib: Library, l: string, r: string)
    requires column in dict && dict[column] == StringValue(l)
    requires r == if Literal(rhs) in dict then ToString(dict[Literal(rhs)], lib) else Literal(rhs)
    ensures op == EQ ==> Meaning(CompareExpr(column, op, rhs), dict, lib) == Truth(l == r)
    ensures op == NE ==> Meaning(CompareExpr(column, op, rhs), dict, lib) == Truth(l != r)
    ensures op != EQ && op != NE ==> Meaning(CompareExpr(column, op, rhs), dict, lib) == Thrown
  {
    hide Literal;
  }

  /** Where there is nothing to compare the condition is false. */
  lemma NothingCompares(column: string, op: Token, rhs: Token, low: Token, high: Token,
                        dict: Dictionary, lib: Library)
    requires BoundsAreNumbers(RangeExpr(column, low, high), lib)
    requires
      || column !in dict
      || dict[column].UnsignedValue? || dict[column].LongValue?
      || (!dict[column].StringValue? && RightNumber(rhs, dict, lib) == None)
    ensures Meaning(CompareExpr(column, op, rhs), dict, lib) == Truth(false)
    ensures column !in dict || dict[column].UnsignedValue? || dict[column].LongValue? ==>
      Meaning(RangeExpr(column, low, high), dict, lib) == Truth(false)
  {
    hide Literal;
  }

  /** A range includes both of its bounds, in the order they are written. */
  lemma RangeMeaning(column: string, low: Token, high: Token, dict: Dictionary, lib: Library,
                     x: real, a: real, b: real)
    requires column in dict && ToDouble(dict[column]) == Some(Finite(x))
    requires lib.stod(Text(low)) == Some(Finite(a)) && lib.stod(Text(high)) == Some(Finite(b))
    ensures Meaning(RangeExpr(column, low, high), dict, lib) == Truth(a <= x <= b)
  {
    hide LessEqual, Text;
    LessMeaning(a, x);
    LessMeaning(x, b);
  }

  /** The connectives: an exception on the left comes first; an operand that
      decides hides the one after it; otherwise they are those of logic. */
  lemma ConnectiveMeaning(l: Tree, r: Tree, dict: Dictionary, lib: Library)
    requires BoundsAreNumbers(l, lib) && BoundsAreNumbers(r, lib)
    ensures var a, b := Meaning(l, dict, lib), Meaning(r, dict, lib);
      var both, either := Meaning(AndExpr(l, r), dict, lib), Meaning(OrExpr(l, r), dict, lib);
      && (a == Thrown ==> both == either == Thrown)
      && (a == Truth(false) ==> both == Truth(false))
      && (a == Truth(true) ==> either == Truth(true))
      && (a.Truth? && b.Truth? ==> both == Truth(a.b && b.b) && either == Truth(a.b || b.b))
      && (a == Truth(true) && b == Thrown ==> both == Thrown)
      && (a == Truth(false) && b == Thrown ==> either == Thrown)
    ensures Meaning(NotExpr(l), dict, lib).Truth? <==> Meaning(l, dict, lib).Truth?
    ensures Meaning(l, dict, lib).Truth? ==>
      Meaning(NotExpr(l), dict, lib) == Truth(!Meaning(l, dict, lib).b)
    ensures Meaning(ParenExpr(l), dict, lib) == Meaning(l, dict, lib)
  {
  }
}
