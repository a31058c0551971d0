/** The recursive-descent parser over a shared token cursor. Every method
    consumes what the grammar function consumes, or reports a syntax error
    where the function does. */
module RulesParser {
  import opened Wrappers
  import opened RulesTokens
  import opened RulesTree
  import opened RulesGrammar

  class RulesParser {
    const input: seq<Token>
    var index: nat

    constructor (tokens: seq<Token>)
      ensures input == tokens && index == 0
    {
      input := tokens;
      index := 0;
    }

    /** The k-th token from the cursor, None past the end. */
    function LA(k: nat): Option<Token>
      requires k >= 1
      reads this`index
    {
      if index + k - 1 < |input| then Some(input[index + k - 1]) else None
    }

    /** What the method returned, and where it left the cursor, is what the
        grammar function says. */
    ghost predicate Agrees<T>(parse: Option<(T, seq<Token>)>, tree: Option<T>)
      reads this`index
    {
      && index <= |input|
      && match parse
         case None => tree == None
         case Some((t, rest)) => tree == Some(t) && input[index..] == rest
    }

    /** Consume one token that must satisfy the test. */
    method MatchToken(expected: Token) returns (ok: bool)
      requires index <= |input|
      modifies this`index
      ensures ok <==> old(index) < |input| && input[old(index)] == expected
      ensures index == if ok then old(index) + 1 else old(index)
    {
      ok := LA(1) == Some(expected);
      if ok { index := index + 1; }
    }

    method Number() returns (number: Option<Token>)
      requires index <= |input|
      modifies this`index
      ensures number == if old(index) < |input| && IsNumberToken(input[old(index)])
                        then Some(input[old(index)]) else None
      ensures index == if number.Some? then old(index) + 1 else old(index)
    {
      number := LA(1);
      if number == None || !IsNumberToken(number.value) {
        return None;
      }
      index := index + 1;
    }

    method CompOp() returns (op: Option<Token>)
      requires index <= |input|
      modifies this`index
      ensures op == if old(index) < |input| && IsCompOp(input[old(index)])
                    then Some(input[old(index)]) else None
      ensures index == if op.Some? then old(index) + 1 else old(index)
    {
      op := LA(1);
      if op == None || !IsCompOp(op.value) {
        return None;
      }
      index := index + 1;
    }

    method Value() returns (value: Option<Token>)
      requires index <= |input|
      modifies this`index
      ensures value == if old(index) < |input| && IsValueToken(input[old(index)])
                       then Some(input[old(index)]) else None
      ensures index == if value.Some? then old(index) + 1 else old(index)
    {
      value := LA(1);
      if value == None {
        return;
      }
      match value.value {
        case STRING(_) => index := index + 1;
        case IDENT(_) => index := index + 1;
        case _ => value := Number();
      }
    }

    method RangeTail(column: string) returns (tree: Option<Tree>)
      requires index <= |input|
      modifies this`index
      ensures var ts := input[old(index)..];
        var ok := |ts| >= 7 && ts[0] == IN && ts[1] == RANGE && ts[2] == LPAREN && IsNumberToken(ts[3])
          && ts[4] == COMMA && IsNumberToken(ts[5]) && ts[6] == RPAREN;
        && index <= |input|
        && tree == (if ok then Some(RangeExpr(column, ts[3], ts[5])) else None)
        && (ok ==> index == old(index) + 7)
    {
      tree := None;
      var ok := MatchToken(IN);
      if !ok { return; }
      ok := MatchToken(RANGE);
      if !ok { return; }
      ok := MatchToken(LPAREN);
      if !ok { return; }
      var low := Number();
      if low == None { return; }
      ok := MatchToken(COMMA);
      if !ok { return; }
      var high := Number();
      if high == None { return; }
      ok := MatchToken(RPAREN);
      if !ok { return; }
      tree := Some(RangeExpr(column, low.value, high.value));
    }

    /** The alternatives of expr that start an expression. */
    method Primary() returns (tree: Option<Tree>)
      requires index <= |input|
      modifies this`index
      ensures Agrees(ParsePrimary(old(input[index..])), tree)
      decreases |input| - index, 0
    {
      ghost var ts := input[index..];
      tree := None;
      match LA(1) {
        case Some(NOT) =>
          index := index + 1;
          assert input[index..] == ts[1..];
          var operand := Expr(4);
          if operand.Some? { tree := Some(NotExpr(operand.value)); }
        case Some(LPAREN) =>
          index := index + 1;
          assert input[index..] == ts[1..];
          var inner := Expr(0);
          if inner.Some? {
            var ok := MatchToken(RPAREN);
            if ok { tree := Some(ParenExpr(inner.value)); }
          }
        case Some(IDENT(column)) =>
          tree := Atom(column);
        case _ =>
      }
    }

    /** The two alternatives that start with IDENT, told apart by the next token. */
    method Atom(column: string) returns (tree: Option<Tree>)
      requires index < |input| && input[index] == IDENT(column)
      modifies this`index
      ensures Agrees(ParsePrimary(old(input[index..])), tree)
    {
      ghost var ts := input[index..];
      index := index + 1;
      tree := None;
      if LA(1) == Some(IN) {
        tree := RangeTail(column);
      } else {
        var op := CompOp();
        if op == None { return; }
        var rhs := Value();
        if rhs == None { return; }
        tree := Some(CompareExpr(column, op.value, rhs.value));
      }
    }

    /** expr(int precedence). */
    method Expr(precedence: int) returns (tree: Option<Tree>)
      requires index <= |input|
      modifies this`index
      ensures Agrees(ParseExpr(old(input[index..]), precedence), tree)
      decreases |input| - index, 1
    {
      hide ParsePrimary;
      ghost var parse := ParseExpr(input[index..], precedence);
      tree := Primary();
      if tree == None { return; }
      var left := tree.value;
      while (LA(1) == Some(OR) && PREC_OR >= precedence) || (LA(1) == Some(AND) && PREC_AND >= precedence)
        invariant old(index) < index <= |input|
        invariant parse == ParseOperators(left, input[index..], precedence)
        decreases |input| - index
      {
        ghost var ts := input[index..];
        var isOr := LA(1) == Some(OR);
        index := index + 1;
        assert input[index..] == ts[1..];
        var right := Expr(if isOr then PREC_OR + 1 else PREC_AND + 1);
        if right == None { return None; }
        left := if isOr then OrExpr(left, right.value) else AndExpr(left, right.value);
      }
      tree := Some(left);
    }

    method Statement() returns (statement: Option<Statement>)
      requires index <= |input|
      modifies this`index
      ensures Agrees(ParseStatement(old(input[index..])), statement)
    {
      hide ParseExpr;
      ghost var ts := input[index..];
      statement := None;
      var severity := LA(1);
      if severity != Some(WARN) && severity != Some(ERROR) { return; }
      index := index + 1;
      var quotedLabel := LA(1);
      if quotedLabel == None || !quotedLabel.value.STRING? { return; }
      index := index + 1;
      assert input[index..] == ts[2..];
      var condition := Expr(0);
      if condition == None { return; }
      statement := Some(RulesTree.Statement(severity.value, quotedLabel.value.quoted, condition.value));
    }

    /** statement+: one statement, and more while the next token starts one. */
    method Statements() returns (statements: Option<seq<Statement>>)
      requires index <= |input|
      modifies this`index
      ensures Agrees(ParseStatements(old(input[index..])), statements)
    {
      hide ParseStatement;
      ghost var parse := ParseStatements(input[index..]);
      var parsed: seq<Statement> := [];
      var more := true;
      PrependedNothing(parse);
      while more
        invariant index <= |input|
        invariant parse == if more then Prepended(parsed, ParseStatements(input[index..]))
                           else Some((parsed, input[index..]))
        decreases more, |input| - index
      {
        ghost var before := parsed;
        var next := Statement();
        if next == None { return None; }
        parsed := parsed + [next.value];
        more := LA(1) == Some(WARN) || LA(1) == Some(ERROR);
        PrependedOne(before, next.value, ParseStatements(input[index..]));
      }
      statements := Some(parsed);
    }

    /** program: an optional version, the statements, and the end of the input. */
    method Program() returns (program: Option<Program>)
      requires index <= |input|
      modifies this`index
      ensures program == ParseProgram(old(input[index..]))
    {
      hide ParseStatements;
      ghost var ts := input[index..];
      var version: Option<string> := None;
      if LA(1) == Some(VERSION) {
        index := index + 1;
        match LA(1) {
          case Some(VERSIONID(id)) => version := Some(id);
          case _ => return None;
        }
        index := index + 1;
        assert input[index..] == ts[2..];
      }
      var statements := Statements();
      if statements == None || LA(1) != None { return None; }
      program := Some(RulesTree.Program(version, statements.value));
    }
  }

  /** A parse of a list of statements, with more statements in front of it. */
  ghost function Prepended(first: seq<Statement>, parse: Option<(seq<Statement>, seq<Token>)>)
    : Option<(seq<Statement>, seq<Token>)>
  {
    match parse
    case None => None
    case Some((more, rest)) => Some((first + more, rest))
  }

  lemma PrependedNothing(parse: Option<(seq<Statement>, seq<Token>)>)
    ensures Prepended([], parse) == parse
  {
    if parse.Some? { assert [] + parse.value.0 == parse.value.0; }
  }

  lemma PrependedOne(first: seq<Statement>, s: Statement, parse: Option<(seq<Statement>, seq<Token>)>)
    ensures Prepended(first, Prepended([s], parse)) == Prepended(first + [s], parse)
  {
    if parse.Some? { assert first + ([s] + parse.value.0) == first + [s] + parse.value.0; }
  }

  /** The parser accepts exactly the token lists of canonical programs, and
      returns the one program with those tokens. */
  method Parse(tokens: seq<Token>) returns (program: Option<Program>)
    ensures program.Some? ==> CanonicalProgram(program.value) && ProgramLeaves(program.value) == tokens
    ensures forall p :: CanonicalProgram(p) && ProgramLeaves(p) == tokens ==> program == Some(p)
  {
    hide ParseProgram, CanonicalProgram, ProgramLeaves;
    var parser := new RulesParser(tokens);
    program := parser.Program();
    assert tokens[0..] == tokens;
    if program.Some? { ParseProgramIffCanonical(tokens, program.value); }
    forall p | CanonicalProgram(p) && ProgramLeaves(p) == tokens ensures program == Some(p) {
      ParseProgramIffCanonical(tokens, p);
    }
  }
}
