/** The precedence-climbing parse of the policy language as a function on the
    remaining tokens, and the trees it yields: exactly the canonical ones. */
module RulesGrammar {
  import opened Wrappers
  import opened RulesTokens
  import opened RulesTree

  /** A tree and the tokens after it, or None on a syntax error. */
  type Parse = Option<(Tree, seq<Token>)>

  const PREC_OR := 6
  const PREC_AND := 5

  /** expr(precedence): one primary, then the operators that bind at least as
      tightly as asked. */
  function ParseExpr(ts: seq<Token>, precedence: int): (r: Parse)
    ensures r.Some? ==> |r.value.1| < |ts|
    decreases |ts|, 1
  {
    match ParsePrimary(ts)
    case None => None
    case Some((left, rest)) => ParseOperators(left, rest, precedence)
  }

  function ParsePrimary(ts: seq<Token>): (r: Parse)
    ensures r.Some? ==> |r.value.1| < |ts|
    decreases |ts|, 0
  {
    if ts == [] then None
    else if ts[0] == NOT then
      match ParseExpr(ts[1..], 4)
      case None => None
      case Some((e, rest)) => Some((NotExpr(e), rest))
    else if ts[0] == LPAREN then
      match ParseExpr(ts[1..], 0)
      case None => None
      case Some((e, rest)) =>
        if rest != [] && rest[0] == RPAREN then Some((ParenExpr(e), rest[1..])) else None
    else if ts[0].IDENT? && |ts| >= 2 && ts[1] == IN then
      if |ts| >= 8 && ts[2] == RANGE && ts[3] == LPAREN && IsNumberToken(ts[4]) && ts[5] == COMMA
         && IsNumberToken(ts[6]) && ts[7] == RPAREN
      then Some((RangeExpr(ts[0].ident, ts[4], ts[6]), ts[8..]))
      else None
    else if ts[0].IDENT? then
      if |ts| >= 3 && IsCompOp(ts[1]) && IsValueToken(ts[2])
      then Some((CompareExpr(ts[0].ident, ts[1], ts[2]), ts[3..]))
      else None
    else None
  }

  function ParseOperators(left: Tree, ts: seq<Token>, precedence: int): (r: Parse)
    ensures r.Some? ==> |r.value.1| <= |ts|
    decreases |ts|, 0
  {
    if ts != [] && ts[0] == OR && PREC_OR >= precedence then
      match ParseExpr(ts[1..], PREC_OR + 1)
      case None => None
      case Some((right, rest)) => ParseOperators(OrExpr(left, right), rest, precedence)
    else if ts != [] && ts[0] == AND && PREC_AND >= precedence then
      match ParseExpr(ts[1..], PREC_AND + 1)
      case None => None
      case Some((right, rest)) => ParseOperators(AndExpr(left, right), rest, precedence)
    else Some((left, ts))
  }

  // ----- completeness: the leaves of a canonical tree parse to that tree -----

  /** The tree, as the operand of a call with this precedence, is not one that
      the call would leave to its caller. */
  predicate FitsPrecedence(e: Tree, precedence: int) {
    && (e.OrExpr? ==> PREC_OR >= precedence)
    && (e.AndExpr? ==> PREC_AND >= precedence)
  }

  predicate StartsWith(ts: seq<Token>, token: Token) {
    ts != [] && ts[0] == token
  }

  /** The next token would be swallowed by an operand inside the tree. */
  predicate Swallows(e: Tree, ts: seq<Token>) {
    match e
    case OrExpr(_, r) => Swallows(r, ts)
    case AndExpr(_, r) => StartsWith(ts, OR) || Swallows(r, ts)
    case NotExpr(_) => StartsWith(ts, OR) || StartsWith(ts, AND)
    case _ => false
  }

  lemma {:induction false} SwallowsOperatorsOnly(e: Tree, ts: seq<Token>)
    requires !StartsWith(ts, OR) && !StartsWith(ts, AND)
    ensures !Swallows(e, ts)
  {
    match e
    case OrExpr(_, r) => SwallowsOperatorsOnly(r, ts);
    case AndExpr(_, r) => SwallowsOperatorsOnly(r, ts);
    case _ =>
  }

  lemma {:induction false} OpenTreesSwallow(e: Tree, ts: seq<Token>)
    requires EndsInNot(e) && (StartsWith(ts, OR) || StartsWith(ts, AND))
    ensures Swallows(e, ts)
  {
    match e
    case OrExpr(_, r) => OpenTreesSwallow(r, ts);
    case AndExpr(_, r) => OpenTreesSwallow(r, ts);
    case _ =>
  }

  lemma {:induction false} ClosedTreesSwallowNot(e: Tree, ts: seq<Token>)
    requires Canonical(e) && !EndsInNot(e)
    ensures !e.AndExpr? || !StartsWith(ts, OR) ==> !Swallows(e, ts)
  {
    match e
    case OrExpr(_, r) => ClosedTreesSwallowNot(r, ts);
    case AndExpr(_, r) => ClosedTreesSwallowNot(r, ts);
    case _ =>
  }

  lemma OrLeaves(l: Tree, r: Tree, rest: seq<Token>, precedence: int)
    requires Canonical(OrExpr(l, r)) && precedence <= PREC_OR && !Swallows(r, rest)
    requires var tail := [OR] + Leaves(r) + rest;
      ParseExpr(Leaves(l) + tail, precedence) == ParseOperators(l, tail, precedence)
    requires ParseExpr(Leaves(r) + rest, PREC_OR + 1) == ParseOperators(r, rest, PREC_OR + 1)
    ensures ParseExpr(Leaves(OrExpr(l, r)) + rest, precedence)
         == ParseOperators(OrExpr(l, r), rest, precedence)
  {
    hide ParseExpr, Canonical, Swallows;
    var tail := [OR] + Leaves(r) + rest;
    assert Leaves(OrExpr(l, r)) + rest == Leaves(l) + tail;
    assert tail[1..] == Leaves(r) + rest;
    assert ParseOperators(r, rest, PREC_OR + 1) == Some((r, rest));
  }

  lemma AndLeaves(l: Tree, r: Tree, rest: seq<Token>, precedence: int)
    requires Canonical(AndExpr(l, r)) && precedence <= PREC_AND && !StartsWith(rest, OR)
    requires var tail := [AND] + Leaves(r) + rest;
      ParseExpr(Leaves(l) + tail, precedence) == ParseOperators(l, tail, precedence)
    requires ParseExpr(Leaves(r) + rest, PREC_AND + 1) == ParseOperators(r, rest, PREC_AND + 1)
    ensures ParseExpr(Leaves(AndExpr(l, r)) + rest, precedence)
         == ParseOperators(AndExpr(l, r), rest, precedence)
  {
    hide ParseExpr, Canonical;
    var tail := [AND] + Leaves(r) + rest;
    assert Leaves(AndExpr(l, r)) + rest == Leaves(l) + tail;
    assert tail[1..] == Leaves(r) + rest;
    assert ParseOperators(r, rest, PREC_AND + 1) == Some((r, rest));
  }

  lemma PrimaryLeaves(e: Tree, rest: seq<Token>, precedence: int)
    requires ParsePrimary(Leaves(e) + rest) == Some((e, rest))
    ensures ParseExpr(Leaves(e) + rest, precedence) == ParseOperators(e, rest, precedence)
  {
    hide ParsePrimary, ParseOperators, Leaves;
  }

  lemma NotLeaves(x: Tree, rest: seq<Token>)
    requires !StartsWith(rest, OR) && !StartsWith(rest, AND)
    requires ParseExpr(Leaves(x) + rest, 4) == ParseOperators(x, rest, 4)
    ensures ParsePrimary(Leaves(NotExpr(x)) + rest) == Some((NotExpr(x), rest))
  {
    hide ParseExpr;
    assert (Leaves(NotExpr(x)) + rest)[1..] == Leaves(x) + rest;
  }

  lemma ParenLeaves(x: Tree, rest: seq<Token>)
    requires var tail := [RPAREN] + rest; ParseExpr(Leaves(x) + tail, 0) == ParseOperators(x, tail, 0)
    ensures ParsePrimary(Leaves(ParenExpr(x)) + rest) == Some((ParenExpr(x), rest))
  {
    hide ParseExpr;
    var tail := [RPAREN] + rest;
    assert (Leaves(ParenExpr(x)) + rest)[1..] == Leaves(x) + tail;
    assert ParseOperators(x, tail, 0) == Some((x, tail));
    assert tail[1..] == rest;
  }

  lemma AtomLeaves(e: Tree, rest: seq<Token>)
    requires Canonical(e) && (e.CompareExpr? || e.RangeExpr?)
    ensures ParsePrimary(Leaves(e) + rest) == Some((e, rest))
  {
    hide ParseExpr;
    var ts := Leaves(e) + rest;
    if e.CompareExpr? { assert ts[3..] == rest; } else { assert ts[8..] == rest; }
  }

  /** Parsing the leaves of a canonical tree builds the tree, and goes on with
      the operators after it. */
  lemma {:induction false} ParseLeaves(e: Tree, rest: seq<Token>, precedence: int)
    requires Canonical(e) && FitsPrecedence(e, precedence) && !Swallows(e, rest)
    ensures ParseExpr(Leaves(e) + rest, precedence) == ParseOperators(e, rest, precedence)
    decreases e
  {
    hide ParseExpr, ParsePrimary, ParseOperators, Leaves;
    match e
    case OrExpr(l, r) =>
      ClosedTreesSwallowNot(l, [OR] + Leaves(r) + rest);
      ParseLeaves(l, [OR] + Leaves(r) + rest, precedence);
      ParseLeaves(r, rest, PREC_OR + 1);
      OrLeaves(l, r, rest, precedence);
    case AndExpr(l, r) =>
      ClosedTreesSwallowNot(l, [AND] + Leaves(r) + rest);
      ParseLeaves(l, [AND] + Leaves(r) + rest, precedence);
      ParseLeaves(r, rest, PREC_AND + 1);
      AndLeaves(l, r, rest, precedence);
    case NotExpr(x) =>
      SwallowsOperatorsOnly(x, rest);
      ParseLeaves(x, rest, 4);
      NotLeaves(x, rest);
      PrimaryLeaves(e, rest, precedence);
    case ParenExpr(x) =>
      SwallowsOperatorsOnly(x, [RPAREN] + rest);
      ParseLeaves(x, [RPAREN] + rest, 0);
      ParenLeaves(x, rest);
      PrimaryLeaves(e, rest, precedence);
    case _ =>
      AtomLeaves(e, rest);
      PrimaryLeaves(e, rest, precedence);
  }

  // ----- soundness: what is parsed is a canonical tree of the consumed tokens -----

  /** What a successful call promises: the tree's leaves are the consumed tokens,
      and no operator that it should have taken follows. */
  predicate Sound(e: Tree, rest: seq<Token>, ts: seq<Token>, precedence: int) {
    && ts == Leaves(e) + rest
    && Canonical(e)
    && FitsPrecedence(e, precedence)
    && !Swallows(e, rest)
    && (StartsWith(rest, OR) ==> PREC_OR < precedence)
    && (StartsWith(rest, AND) ==> PREC_AND < precedence)
  }

  lemma {:induction false} ParseExprIsSound(ts: seq<Token>, precedence: int)
    requires ParseExpr(ts, precedence).Some?
    ensures var (e, rest) := ParseExpr(ts, precedence).value; Sound(e, rest, ts, precedence)
    decreases |ts|, 1
  {
    hide ParsePrimary, ParseOperators, Leaves, Canonical, Swallows;
    ParsePrimaryIsSound(ts);
    var (left, rest) := ParsePrimary(ts).value;
    ParseOperatorsIsSound(left, rest, ts, precedence);
  }

  /** A primary is canonical, whatever the precedence it is parsed for. */
  predicate SoundPrimary(e: Tree, rest: seq<Token>, ts: seq<Token>) {
    && ts == Leaves(e) + rest
    && Canonical(e)
    && !e.OrExpr? && !e.AndExpr?
    && !Swallows(e, rest)
  }

  lemma {:induction false} ParsePrimaryIsSound(ts: seq<Token>)
    requires ParsePrimary(ts).Some?
    ensures var (e, rest) := ParsePrimary(ts).value; SoundPrimary(e, rest, ts)
    decreases |ts|, 0
  {
    hide ParseExpr, Sound, SoundPrimary;
    if ts[0] == NOT {
      ParseExprIsSound(ts[1..], 4);
      var (e, rest) := ParseExpr(ts[1..], 4).value;
      NotStep(e, rest, ts);
    } else if ts[0] == LPAREN {
      ParseExprIsSound(ts[1..], 0);
      var (e, rest) := ParseExpr(ts[1..], 0).value;
      ParenStep(e, rest, ts);
    } else {
      AtomStep(ts);
    }
  }

  lemma NotStep(e: Tree, rest: seq<Token>, ts: seq<Token>)
    requires StartsWith(ts, NOT) && Sound(e, rest, ts[1..], 4)
    ensures SoundPrimary(NotExpr(e), rest, ts)
  {
    assert ts == [NOT] + ts[1..];
  }

  lemma ParenStep(e: Tree, rest: seq<Token>, ts: seq<Token>)
    requires StartsWith(ts, LPAREN) && StartsWith(rest, RPAREN) && Sound(e, rest, ts[1..], 0)
    ensures SoundPrimary(ParenExpr(e), rest[1..], ts)
  {
    assert ts == [LPAREN] + ts[1..] && rest == [RPAREN] + rest[1..];
    assert [LPAREN] + (Leaves(e) + ([RPAREN] + rest[1..])) == Leaves(ParenExpr(e)) + rest[1..];
  }

  lemma AtomStep(ts: seq<Token>)
    requires ParsePrimary(ts).Some? && ts[0].IDENT?
    ensures var (e, rest) := ParsePrimary(ts).value; SoundPrimary(e, rest, ts)
  {
    if ts[1] == IN {
      assert ts == ts[..8] + ts[8..];
    } else {
      assert ts == ts[..3] + ts[3..];
    }
  }

  lemma {:induction false} ParseOperatorsIsSound(left: Tree, ts: seq<Token>, all: seq<Token>, precedence: int)
    requires all == Leaves(left) + ts && Canonical(left)
    requires FitsPrecedence(left, precedence) && !Swallows(left, ts)
    requires ParseOperators(left, ts, precedence).Some?
    ensures var (e, rest) := ParseOperators(left, ts, precedence).value; Sound(e, rest, all, precedence)
    decreases |ts|, 0
  {
    hide ParseExpr, Leaves, Swallows, Canonical;
    if StartsWith(ts, OR) && PREC_OR >= precedence {
      ParseExprIsSound(ts[1..], PREC_OR + 1);
      var (right, rest) := ParseExpr(ts[1..], PREC_OR + 1).value;
      OrStep(left, ts, right, rest);
      ParseOperatorsIsSound(OrExpr(left, right), rest, all, precedence);
    } else if StartsWith(ts, AND) && PREC_AND >= precedence {
      ParseExprIsSound(ts[1..], PREC_AND + 1);
      var (right, rest) := ParseExpr(ts[1..], PREC_AND + 1).value;
      AndStep(left, ts, right, rest);
      ParseOperatorsIsSound(AndExpr(left, right), rest, all, precedence);
    }
  }

  lemma OrStep(left: Tree, ts: seq<Token>, right: Tree, rest: seq<Token>)
    requires StartsWith(ts, OR) && Canonical(left) && !Swallows(left, ts)
    requires Sound(right, rest, ts[1..], PREC_OR + 1)
    ensures Canonical(OrExpr(left, right)) && !Swallows(OrExpr(left, right), rest)
    ensures Leaves(left) + ts == Leaves(OrExpr(left, right)) + rest
  {
    hide EndsInNot;
    if EndsInNot(left) { OpenTreesSwallow(left, ts); }
    JoinLeaves(Leaves(left), OR, Leaves(right), ts, rest);
  }

  lemma AndStep(left: Tree, ts: seq<Token>, right: Tree, rest: seq<Token>)
    requires StartsWith(ts, AND) && Canonical(left) && !Swallows(left, ts)
    requires Sound(right, rest, ts[1..], PREC_AND + 1)
    ensures Canonical(AndExpr(left, right)) && !Swallows(AndExpr(left, right), rest)
    ensures Leaves(left) + ts == Leaves(AndExpr(left, right)) + rest
  {
    hide EndsInNot;
    if EndsInNot(left) { OpenTreesSwallow(left, ts); }
    JoinLeaves(Leaves(left), AND, Leaves(right), ts, rest);
  }

  lemma JoinLeaves(left: seq<Token>, op: Token, right: seq<Token>, ts: seq<Token>, rest: seq<Token>)
    requires StartsWith(ts, op) && ts[1..] == right + rest
    ensures left + ts == left + [op] + right + rest
  {
    assert ts == [op] + ts[1..];
  }

  // ----- the theorems -----

  /** An expression is parsed to a tree with nothing left over exactly when the
      tree is canonical and its leaves are the tokens. */
  lemma ParseExprIffCanonical(ts: seq<Token>, e: Tree)
    ensures ParseExpr(ts, 0) == Some((e, [])) <==> Canonical(e) && Leaves(e) == ts
  {
    hide ParseExpr, Leaves, Canonical;
    if ParseExpr(ts, 0) == Some((e, [])) {
      ParseExprIsSound(ts, 0);
      assert Leaves(e) + [] == Leaves(e);
    }
    if Canonical(e) && Leaves(e) == ts {
      SwallowsOperatorsOnly(e, []);
      ParseLeaves(e, [], 0);
      assert Leaves(e) + [] == Leaves(e);
    }
  }

  /** Two canonical trees with the same leaves are the same tree. */
  lemma CanonicalTreeIsUnique(d: Tree, e: Tree)
    requires Canonical(d) && Canonical(e) && Leaves(d) == Leaves(e)
    ensures d == e
  {
    ParseExprIffCanonical(Leaves(d), d);
    ParseExprIffCanonical(Leaves(e), e);
  }

  // ----- statements and programs -----

  function ParseStatement(ts: seq<Token>): (r: Option<(Statement, seq<Token>)>)
    ensures r.Some? ==> |r.value.1| < |ts|
  {
    if |ts| >= 2 && IsSeverity(ts[0]) && ts[1].STRING? then
      match ParseExpr(ts[2..], 0)
      case None => None
      case Some((e, rest)) => Some((Statement(ts[0], ts[1].quoted, e), rest))
    else None
  }

  /** One statement, and more as long as the next token starts one. */
  function ParseStatements(ts: seq<Token>): (r: Option<(seq<Statement>, seq<Token>)>)
    decreases |ts|
  {
    match ParseStatement(ts)
    case None => None
    case Some((first, rest)) =>
      if rest != [] && IsSeverity(rest[0]) then
        match ParseStatements(rest)
        case None => None
        case Some((more, end)) => Some(([first] + more, end))
      else Some(([first], rest))
  }

  /** program: an optional version, the statements, and the end of the input. */
  function ParseProgram(ts: seq<Token>): Option<Program> {
    var hasVersion := StartsWith(ts, VERSION);
    if hasVersion && !(|ts| >= 2 && ts[1].VERSIONID?) then None
    else
      match ParseStatements(if hasVersion then ts[2..] else ts)
      case None => None
      case Some((statements, rest)) =>
        if rest != [] then None
        else Some(Program(if hasVersion then Some(ts[1].versionId) else None, statements))
  }

  /** The end of the input, or the start of another statement. */
  predicate AtBoundary(ts: seq<Token>) {
    ts != [] ==> IsSeverity(ts[0])
  }

  lemma ParseStatementLeaves(s: Statement, rest: seq<Token>)
    requires CanonicalStatement(s) && AtBoundary(rest)
    ensures ParseStatement(StatementLeaves(s) + rest) == Some((s, rest))
  {
    hide ParseExpr, Canonical, Leaves;
    var ts := StatementLeaves(s) + rest;
    assert ts[2..] == Leaves(s.condition) + rest;
    SwallowsOperatorsOnly(s.condition, rest);
    ParseLeaves(s.condition, rest, 0);
    assert ParseOperators(s.condition, rest, 0) == Some((s.condition, rest));
  }

  lemma ParseStatementIsSound(ts: seq<Token>)
    requires ParseStatement(ts).Some?
    ensures var (s, rest) := ParseStatement(ts).value;
      CanonicalStatement(s) && ts == StatementLeaves(s) + rest
  {
    hide ParseExpr, Leaves, Canonical;
    ParseExprIsSound(ts[2..], 0);
    assert ts == [ts[0], ts[1]] + ts[2..];
  }

  lemma StatementStarts(s: Statement)
    requires CanonicalStatement(s)
    ensures StatementLeaves(s) != [] && IsSeverity(StatementLeaves(s)[0])
  {
  }

  lemma StatementsStart(statements: seq<Statement>)
    requires CanonicalStatements(statements)
    ensures StatementsLeaves(statements) != [] && IsSeverity(StatementsLeaves(statements)[0])
  {
    StatementStarts(statements[0]);
  }

  lemma {:induction false} ParseStatementsLeaves(statements: seq<Statement>)
    requires CanonicalStatements(statements)
    ensures ParseStatements(StatementsLeaves(statements)) == Some((statements, []))
  {
    hide ParseStatement, StatementLeaves, CanonicalStatement;
    var first, tail := statements[0], statements[1..];
    var rest := StatementsLeaves(tail);
    if tail != [] {
      ParseStatementsLeaves(tail);
      StatementsStart(tail);
    }
    ParseStatementLeaves(first, rest);
    assert ParseStatement(StatementsLeaves(statements)) == Some((first, rest)) by {
      assert tail == [] ==> StatementLeaves(first) + [] == StatementLeaves(first);
    }
    assert [first] + tail == statements;
    assert tail == [] ==> statements == [first];
  }

  lemma {:induction false} ParseStatementsIsSound(ts: seq<Token>)
    requires ParseStatements(ts).Some? && ParseStatements(ts).value.1 == []
    ensures var statements := ParseStatements(ts).value.0;
      CanonicalStatements(statements) && ts == StatementsLeaves(statements)
    decreases |ts|
  {
    hide ParseStatement, StatementLeaves, CanonicalStatement;
    ParseStatementIsSound(ts);
    var (first, rest) := ParseStatement(ts).value;
    if rest != [] && IsSeverity(rest[0]) {
      ParseStatementsIsSound(rest);
      var more := ParseStatements(rest).value.0;
      assert ([first] + more)[1..] == more;
    } else {
      assert [first][1..] == [];
    }
  }

  /** A token list is accepted as a program exactly when it is the leaves of a
      canonical program, and then that program is the result. */
  lemma ParseProgramIffCanonical(ts: seq<Token>, p: Program)
    ensures ParseProgram(ts) == Some(p) <==> CanonicalProgram(p) && ProgramLeaves(p) == ts
  {
    hide ParseStatements, StatementsLeaves, CanonicalStatement;
    if ParseProgram(ts) == Some(p) {
      var body := if StartsWith(ts, VERSION) then ts[2..] else ts;
      ParseStatementsIsSound(body);
      if StartsWith(ts, VERSION) { assert ts == [ts[0], ts[1]] + ts[2..]; }
    }
    if CanonicalProgram(p) && ProgramLeaves(p) == ts {
      ParseStatementsLeaves(p.statements);
      StatementsStart(p.statements);
      if p.version.Some? {
        assert ts[2..] == StatementsLeaves(p.statements);
      } else {
        assert ts == StatementsLeaves(p.statements);
      }
    }
  }
}
