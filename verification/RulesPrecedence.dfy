/** What the parser makes of the tokens of an expression, stated by the tokens
    themselves: which comparisons and ranges there are, and how operators nest. */
module RulesPrecedence {
  import opened Wrappers
  import opened RulesTokens
  import opened RulesShapes
  import opened RulesLexer
  import opened RulesTree
  import opened RulesGrammar

  /** A comparison has one of six operators and one of four kinds of value. */
  lemma ParsesComparison(column: string, op: Token, value: Token)
    ensures ParseExpr([IDENT(column), op, value], 0) == Some((CompareExpr(column, op, value), []))
       <==> ((op == EQ || op == NE || op == LT || op == GT || op == LE || op == GE)
             && (value.STRING? || value.NUMBER? || value.VERSIONID? || value.IDENT?))
  {
    ParseExprIffCanonical([IDENT(column), op, value], CompareExpr(column, op, value));
  }

  /** A range has two bounds, the lower one first, each of two kinds of number. */
  lemma ParsesRange(column: string, low: Token, high: Token)
    ensures ParseExpr([IDENT(column), IN, RANGE, LPAREN, low, COMMA, high, RPAREN], 0)
            == Some((RangeExpr(column, low, high), []))
       <==> (low.NUMBER? || low.VERSIONID?) && (high.NUMBER? || high.VERSIONID?)
  {
    ParseExprIffCanonical([IDENT(column), IN, RANGE, LPAREN, low, COMMA, high, RPAREN],
                          RangeExpr(column, low, high));
  }

  /** A comparison or a range. */
  predicate IsAtom(e: Tree) {
    (e.CompareExpr? || e.RangeExpr?) && Canonical(e)
  }

  lemma PairsAreCanonical(a: Tree, b: Tree)
    requires IsAtom(a) && IsAtom(b)
    ensures Canonical(OrExpr(a, b)) && !EndsInNot(OrExpr(a, b))
    ensures Canonical(AndExpr(a, b)) && !EndsInNot(AndExpr(a, b))
  {
  }

  /** The tree that tokens parse to, None on a syntax error or with tokens left. */
  function Parsed(ts: seq<Token>): Option<Tree> {
    match ParseExpr(ts, 0)
    case None => None
    case Some((e, rest)) => if rest == [] then Some(e) else None
  }

  lemma ParsesTo(ts: seq<Token>, e: Tree)
    requires Canonical(e) && Leaves(e) == ts
    ensures Parsed(ts) == Some(e)
  {
    hide ParseExpr, Canonical, Leaves;
    ParseExprIffCanonical(ts, e);
  }

  /** `or` binds tighter than `and`, on either side. */
  lemma OrBindsTighter(a: Tree, b: Tree, c: Tree)
    requires IsAtom(a) && IsAtom(b) && IsAtom(c)
    ensures Parsed(Leaves(a) + [AND] + Leaves(b) + [OR] + Leaves(c)) == Some(AndExpr(a, OrExpr(b, c)))
    ensures Parsed(Leaves(a) + [OR] + Leaves(b) + [AND] + Leaves(c)) == Some(AndExpr(OrExpr(a, b), c))
  {
    hide ParseExpr, Parsed;
    AndOfOr(a, b, c);
    PairsAreCanonical(a, b);
    assert Leaves(AndExpr(OrExpr(a, b), c)) == Leaves(a) + [OR] + Leaves(b) + [AND] + Leaves(c);
    ParsesTo(Leaves(a) + [OR] + Leaves(b) + [AND] + Leaves(c), AndExpr(OrExpr(a, b), c));
  }

  lemma AndOfOr(a: Tree, b: Tree, c: Tree)
    requires IsAtom(a) && IsAtom(b) && IsAtom(c)
    ensures Parsed(Leaves(a) + [AND] + Leaves(b) + [OR] + Leaves(c)) == Some(AndExpr(a, OrExpr(b, c)))
  {
    hide ParseExpr, Parsed;
    var ts := Leaves(a) + [AND] + Leaves(b) + [OR] + Leaves(c);
    assert Leaves(AndExpr(a, OrExpr(b, c))) == Leaves(a) + [AND] + (Leaves(b) + [OR] + Leaves(c)) == ts;
    ParsesTo(ts, AndExpr(a, OrExpr(b, c)));
  }

  /** Both connectives are left-associative. */
  lemma LeftAssociative(a: Tree, b: Tree, c: Tree)
    requires IsAtom(a) && IsAtom(b) && IsAtom(c)
    ensures Parsed(Leaves(a) + [AND] + Leaves(b) + [AND] + Leaves(c)) == Some(AndExpr(AndExpr(a, b), c))
    ensures Parsed(Leaves(a) + [OR] + Leaves(b) + [OR] + Leaves(c)) == Some(OrExpr(OrExpr(a, b), c))
  {
    hide ParseExpr, Parsed;
    PairsAreCanonical(a, b);
    ParsesTo(Leaves(a) + [AND] + Leaves(b) + [AND] + Leaves(c), AndExpr(AndExpr(a, b), c));
    ParsesTo(Leaves(a) + [OR] + Leaves(b) + [OR] + Leaves(c), OrExpr(OrExpr(a, b), c));
  }

  lemma ClosedNot(a: Tree, b: Tree)
    requires IsAtom(a) && IsAtom(b)
    ensures Parsed([LPAREN] + ([NOT] + Leaves(a)) + [RPAREN] + [AND] + Leaves(b))
         == Some(AndExpr(ParenExpr(NotExpr(a)), b))
  {
    hide ParseExpr, Parsed;
    var open := NotExpr(a);
    assert Leaves(open) == [NOT] + Leaves(a);
    assert Leaves(ParenExpr(open)) == [LPAREN] + Leaves(open) + [RPAREN];
    assert Canonical(open) && Canonical(ParenExpr(open));
    ParsesTo(Leaves(ParenExpr(open)) + [AND] + Leaves(b), AndExpr(ParenExpr(open), b));
  }

  /** `not` takes everything after it, and parentheses end what it takes. */
  lemma NotTakesTheRest(a: Tree, b: Tree)
    requires IsAtom(a) && IsAtom(b)
    ensures Parsed([NOT] + (Leaves(a) + [AND] + Leaves(b))) == Some(NotExpr(AndExpr(a, b)))
    ensures Parsed([NOT] + (Leaves(a) + [OR] + Leaves(b))) == Some(NotExpr(OrExpr(a, b)))
    ensures Parsed([LPAREN] + ([NOT] + Leaves(a)) + [RPAREN] + [AND] + Leaves(b))
         == Some(AndExpr(ParenExpr(NotExpr(a)), b))
  {
    hide ParseExpr, Parsed;
    ParsesTo([NOT] + (Leaves(a) + [AND] + Leaves(b)), NotExpr(AndExpr(a, b)));
    ParsesTo([NOT] + (Leaves(a) + [OR] + Leaves(b)), NotExpr(OrExpr(a, b)));
    ClosedNot(a, b);
  }

  /** A statement is a warning or an error, and nothing else. */
  lemma ParsesSeverity(severity: Token, quoted: string, e: Tree)
    requires Canonical(e)
    ensures ParseProgram([severity, STRING(quoted)] + Leaves(e))
            == Some(Program(None, [Statement(severity, quoted, e)]))
       <==> severity == WARN || severity == ERROR
  {
    hide ParseProgram, Canonical, Leaves;
    var statements := [Statement(severity, quoted, e)];
    var ts := [severity, STRING(quoted)] + Leaves(e);
    assert statements[1..] == [] && StatementsLeaves(statements) == ts + [];
    assert ProgramLeaves(Program(None, statements)) == ts;
    ParseProgramIffCanonical(ts, Program(None, statements));
    assert CanonicalStatements(statements) <==> CanonicalStatement(statements[0]);
  }

  /** A program: an optional version, then statements of a severity, a label and
      a condition. */
  lemma ParsesStatements(id: string, severity: Token, quoted: string, e: Tree,
                         severity2: Token, quoted2: string, e2: Tree)
    requires (severity == WARN || severity == ERROR) && (severity2 == WARN || severity2 == ERROR)
    requires Canonical(e) && Canonical(e2)
    ensures var first, second := Statement(severity, quoted, e), Statement(severity2, quoted2, e2);
      var ts := [severity, STRING(quoted)] + Leaves(e) + [severity2, STRING(quoted2)] + Leaves(e2);
      && ParseProgram(ts) == Some(Program(None, [first, second]))
      && ParseProgram([VERSION, VERSIONID(id)] + ts) == Some(Program(Some(id), [first, second]))
  {
    hide ParseProgram, Canonical, Leaves;
    var statements := [Statement(severity, quoted, e), Statement(severity2, quoted2, e2)];
    var ts := [severity, STRING(quoted)] + Leaves(e) + [severity2, STRING(quoted2)] + Leaves(e2);
    assert statements[1..][1..] == [] && statements[1..][0] == statements[1];
    assert StatementsLeaves(statements[1..]) == [severity2, STRING(quoted2)] + Leaves(e2) + [];
    assert StatementsLeaves(statements) == ts;
    assert ProgramLeaves(Program(None, statements)) == ts;
    ParseProgramIffCanonical(ts, Program(None, statements));
    ParseProgramIffCanonical([VERSION, VERSIONID(id)] + ts, Program(Some(id), statements));
  }

  /** A decimal text is one token, and a comparison with it parses. */
  lemma DecimalsAreValues(column: string, op: Token, whole: string, fraction: string)
    requires op == EQ || op == NE || op == LT || op == GT || op == LE || op == GE
    requires DigitsShape(whole) && DigitsShape(fraction)
    ensures var text := whole + "." + fraction;
      && Lex(text) == Some([VERSIONID(text)])
      && ParseExpr([IDENT(column), op, VERSIONID(text)], 0)
         == Some((CompareExpr(column, op, VERSIONID(text)), []))
  {
    hide Match, ParseExpr;
    var text := whole + "." + fraction;
    DecimalIsVersionId(whole, fraction);
    assert text + "" == text;
    LexTokenThen(VERSIONID(text), "");
    assert [VERSIONID(text)] + [] == [VERSIONID(text)];
    ParsesComparison(column, op, VERSIONID(text));
  }

  lemma LexableShapes(column: string, bound: string)
    requires IdentShape(column) && column !in KEYWORDS && DottedShape(bound)
    ensures Lexable(IDENT(column)) && Lexable(VERSIONID(bound))
  {
    hide Match, IdentShape, DottedShape;
    MatchByShape(column);
    MatchByShape(bound);
  }

  lemma LexableRangeTokens()
    ensures Lexable(IN) && Lexable(RANGE) && Lexable(LPAREN) && Lexable(COMMA) && Lexable(RPAREN)
  {
    hide Match;
    RangeTexts();
  }

  /** The source text of a range with decimal bounds reads as that range. */
  lemma DecimalRangeIsRead(column: string, low: string, high: string)
    requires IdentShape(column) && column !in KEYWORDS && DottedShape(low) && DottedShape(high)
    ensures var text := column + " in range(" + low + ", " + high + ")";
      && Lex(text).Some?
      && ParseExpr(Lex(text).value, 0) == Some((RangeExpr(column, VERSIONID(low), VERSIONID(high)), []))
  {
    hide Lexable, Lex, ParseExpr, IdentShape, DottedShape;
    LexableShapes(column, low);
    LexableShapes(column, high);
    LexableRangeTokens();
    LexesEnd(high);
    LexesBound(low, high);
    LexesRange(column, low, high);
    ParsesRange(column, VERSIONID(low), VERSIONID(high));
  }

  lemma LexEmpty()
    ensures Lex("") == Some([])
  {
  }

  lemma LexesEnd(high: string)
    requires Lexable(VERSIONID(high)) && Lexable(RPAREN)
    ensures Lex(high + ")") == Some([VERSIONID(high), RPAREN])
  {
    hide Lexable, Lex;
    LexEmpty();
    LexTokenThen(RPAREN, "");
    assert ")" + "" == ")" && [RPAREN] + [] == [RPAREN];
    LexTokenThen(VERSIONID(high), ")");
    assert [VERSIONID(high)] + [RPAREN] == [VERSIONID(high), RPAREN];
  }

  lemma LexesBound(low: string, high: string)
    requires Lexable(VERSIONID(low)) && Lexable(VERSIONID(high)) && Lexable(COMMA)
    requires Lex(high + ")") == Some([VERSIONID(high), RPAREN])
    ensures Lex(low + ("," + (" " + (high + ")")))) == Some([VERSIONID(low), COMMA, VERSIONID(high), RPAREN])
  {
    hide Lexable, Lex;
    TokenStart(VERSIONID(high));
    LexSkipsBlanks(" ", high + ")");
    LexTokenThen(COMMA, " " + (high + ")"));
    LexTokenThen(VERSIONID(low), "," + (" " + (high + ")")));
    assert [VERSIONID(low)] + ([COMMA] + [VERSIONID(high), RPAREN])
        == [VERSIONID(low), COMMA, VERSIONID(high), RPAREN];
  }

  lemma LexesRange(column: string, low: string, high: string)
    requires Lexable(IDENT(column)) && Lexable(IN) && Lexable(RANGE) && Lexable(LPAREN) && Lexable(VERSIONID(low))
    requires var bounds := low + ("," + (" " + (high + ")")));
      Lex(bounds) == Some([VERSIONID(low), COMMA, VERSIONID(high), RPAREN])
    ensures Lex(column + " in range(" + low + ", " + high + ")")
         == Some([IDENT(column), IN, RANGE, LPAREN, VERSIONID(low), COMMA, VERSIONID(high), RPAREN])
  {
    hide Lexable, Lex;
    var bounds := low + ("," + (" " + (high + ")")));
    LexTokenThen(LPAREN, bounds);
    LexTokenThen(RANGE, "(" + bounds);
    LexSkipsBlanks(" ", "range" + ("(" + bounds));
    LexTokenThen(IN, " " + ("range" + ("(" + bounds)));
    LexSkipsBlanks(" ", "in" + (" " + ("range" + ("(" + bounds))));
    LexTokenThen(IDENT(column), " " + ("in" + (" " + ("range" + ("(" + bounds)))));
    assert [IDENT(column)] + ([IN] + ([RANGE] + ([LPAREN] + [VERSIONID(low), COMMA, VERSIONID(high), RPAREN])))
        == [IDENT(column), IN, RANGE, LPAREN, VERSIONID(low), COMMA, VERSIONID(high), RPAREN];
    assert column + (" " + ("in" + (" " + ("range" + ("(" + bounds)))))
        == column + " in range(" + low + ", " + high + ")";
  }
}
