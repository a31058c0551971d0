/** Running a policy text on the columns of a report: dictionary, lexing,
    parsing, compiling, and evaluating the rules in order. */
module PolicyRunner {
  import opened Wrappers
  import opened Selections
  import opened PolicyValues
  import opened RulesTokens
  import opened RulesLexer
  import opened RulesTree
  import opened RulesGrammar
  import RulesParser
  import opened PolicyProto
  import opened PolicyEval
  import opened PolicyMeaning
  import opened PolicyMessages

  // ----- the dictionary -----

  /** The dictionary of the first n keys and values: each key with the value at
      its last position. */
  ghost predicate MapsPrefix(dict: Dictionary, keys: seq<string>, vals: seq<Value>, n: nat)
    requires n <= |keys| && n <= |vals|
  {
    && (forall k :: k in dict <==> k in keys[..n])
    && (forall i :: 0 <= i < n && (forall j :: i < j < n ==> keys[j] != keys[i])
          ==> keys[i] in dict && dict[keys[i]] == vals[i])
  }

  /** The dictionary of the keys and values up to the end of the shorter list. */
  ghost predicate IsDictionaryOf(dict: Dictionary, keys: seq<string>, vals: seq<Value>) {
    MapsPrefix(dict, keys, vals, Min(|keys|, |vals|))
  }

  lemma MapsNext(dict: Dictionary, keys: seq<string>, vals: seq<Value>, n: nat)
    requires n < |keys| && n < |vals| && MapsPrefix(dict, keys, vals, n)
    ensures MapsPrefix(dict[keys[n] := vals[n]], keys, vals, n + 1)
  {
    var next := dict[keys[n] := vals[n]];
    assert keys[..n + 1] == keys[..n] + [keys[n]];
    forall i | 0 <= i < n + 1 && (forall j :: i < j < n + 1 ==> keys[j] != keys[i])
      ensures keys[i] in next && next[keys[i]] == vals[i]
    {
      if i < n { assert keys[n] != keys[i]; }
    }
  }

  method BuildDictionary(keys: seq<string>, vals: seq<Value>) returns (dict: Dictionary)
    ensures IsDictionaryOf(dict, keys, vals)
  {
    dict := map[];
    var n := Min(|keys|, |vals|);
    for i := 0 to n
      invariant MapsPrefix(dict, keys, vals, i)
    {
      MapsNext(dict, keys, vals, i);
      dict := dict[keys[i] := vals[i]];
    }
  }

  lemma DictionaryValue(dict: Dictionary, keys: seq<string>, vals: seq<Value>, i: nat)
    requires IsDictionaryOf(dict, keys, vals) && i < Min(|keys|, |vals|)
    requires forall j :: i < j < Min(|keys|, |vals|) ==> keys[j] != keys[i]
    ensures keys[i] in dict && dict[keys[i]] == vals[i]
  {
  }

  /** Only one dictionary fits a pair of lists. */
  lemma DictionaryIsUnique(a: Dictionary, b: Dictionary, keys: seq<string>, vals: seq<Value>)
    requires IsDictionaryOf(a, keys, vals) && IsDictionaryOf(b, keys, vals)
    ensures a == b
  {
    var n := Min(|keys|, |vals|);
    assert forall k :: k in a <==> k in b;
    forall k | k in a ensures a[k] == b[k] {
      var i := LastPosition(keys[..n], k);
      forall j | i < j < n ensures keys[j] != keys[i] { assert keys[j] == keys[..n][j]; }
      DictionaryValue(a, keys, vals, i);
      DictionaryValue(b, keys, vals, i);
    }
    assert a.Keys == b.Keys;
  }

  lemma {:induction false} LastPosition(keys: seq<string>, k: string) returns (i: nat)
    requires k in keys
    ensures i < |keys| && keys[i] == k && forall j :: i < j < |keys| ==> keys[j] != k
  {
    var n := |keys| - 1;
    if keys[n] == k { i := n; } else { i := LastPosition(keys[..n], k); assert keys[..n][i] == keys[i]; }
  }

  // ----- the meaning of a program -----

  predicate AllBoundsAreNumbers(statements: seq<Statement>, lib: Library) {
    forall i :: 0 <= i < |statements| ==> BoundsAreNumbers(statements[i].condition, lib)
  }

  /** How many statements come before the first whose condition throws. */
  function BeforeThrow(statements: seq<Statement>, dict: Dictionary, lib: Library): (k: nat)
    requires AllBoundsAreNumbers(statements, lib)
    ensures k <= |statements|
    ensures forall i :: 0 <= i < k ==> Meaning(statements[i].condition, dict, lib).Truth?
    ensures k < |statements| ==> Meaning(statements[k].condition, dict, lib) == Thrown
  {
    if statements == [] || Meaning(statements[0].condition, dict, lib) == Thrown then 0
    else 1 + BeforeThrow(statements[1..], dict, lib)
  }

  function StatementMessage(s: Statement, dict: Dictionary, lib: Library): string {
    Message(Literal(STRING(s.quotedLabel)), PresentAll(Columns(s.condition), dict, lib))
  }

  /** The messages of the true statements of one severity, in order. */
  function Reported(statements: seq<Statement>, severity: Token, dict: Dictionary, lib: Library): seq<string>
    requires AllBoundsAreNumbers(statements, lib)
  {
    if statements == [] then []
    else
      (if statements[0].severity == severity && Meaning(statements[0].condition, dict, lib) == Truth(true)
       then [StatementMessage(statements[0], dict, lib)] else [])
      + Reported(statements[1..], severity, dict, lib)
  }

  /** For each statement, whether it has that severity and its condition is true. */
  function IsTrueOf(statements: seq<Statement>, severity: Token, dict: Dictionary, lib: Library)
    : (flags: seq<bool>)
    requires AllBoundsAreNumbers(statements, lib)
    ensures |flags| == |statements|
    ensures forall i :: 0 <= i < |statements| ==>
      (flags[i] <==> statements[i].severity == severity
                     && Meaning(statements[i].condition, dict, lib) == Truth(true))
  {
    seq(|statements|, i requires 0 <= i < |statements| =>
      statements[i].severity == severity && Meaning(statements[i].condition, dict, lib) == Truth(true))
  }

  lemma {:induction false} ReportedConcat(a: seq<Statement>, b: seq<Statement>, severity: Token,
                                          dict: Dictionary, lib: Library)
    requires AllBoundsAreNumbers(a, lib) && AllBoundsAreNumbers(b, lib)
    ensures AllBoundsAreNumbers(a + b, lib)
    ensures Reported(a + b, severity, dict, lib)
         == Reported(a, severity, dict, lib) + Reported(b, severity, dict, lib)
  {
    hide Meaning, BoundsAreNumbers, StatementMessage;
    if a == [] {
      assert a + b == b;
    } else {
      assert (a + b)[1..] == a[1..] + b;
      ReportedConcat(a[1..], b, severity, dict, lib);
    }
  }

  lemma ReportedOne(s: Statement, severity: Token, dict: Dictionary, lib: Library)
    requires AllBoundsAreNumbers([s], lib)
    ensures Reported([s], severity, dict, lib)
         == if IsTrueOf([s], severity, dict, lib)[0] then [StatementMessage(s, dict, lib)] else []
  {
    hide Meaning, BoundsAreNumbers, StatementMessage;
    assert [s][1..] == [];
  }

  function Messages(statements: seq<Statement>, dict: Dictionary, lib: Library): (messages: seq<string>)
    ensures |messages| == |statements|
    ensures forall i :: 0 <= i < |statements| ==> messages[i] == StatementMessage(statements[i], dict, lib)
  {
    seq(|statements|, i requires 0 <= i < |statements| => StatementMessage(statements[i], dict, lib))
  }

  /** What is reported under a severity are the messages of exactly the true
      statements of that severity, in the order of the source. */
  lemma {:induction false} ReportedInOrder(statements: seq<Statement>, severity: Token,
                                           dict: Dictionary, lib: Library)
    returns (positions: seq<nat>)
    requires AllBoundsAreNumbers(statements, lib)
    ensures ListsAt(Reported(statements, severity, dict, lib), Messages(statements, dict, lib), positions)
    ensures AreFlagged(positions, IsTrueOf(statements, severity, dict, lib))
  {
    hide ListsAt, AreFlagged, Increasing, Reported, IsTrueOf, Messages, BoundsAreNumbers, StatementMessage;
    if statements == [] {
      positions := [];
      NothingChosen<string>();
      NothingReported(severity, dict, lib);
    } else {
      var init, last := statements[..|statements| - 1], statements[|statements| - 1];
      positions := ReportedInOrder(init, severity, dict, lib);
      var reported, messages := Reported(init, severity, dict, lib), Messages(init, dict, lib);
      ListsIncreasing(reported, messages, positions);
      AppendChosen(reported, messages, positions, StatementMessage(last, dict, lib));
      AppendFlag(positions, IsTrueOf(init, severity, dict, lib));
      var flag := ReportedNext(statements, severity, dict, lib);
      if flag { positions := positions + [|init|]; }
    }
  }

  lemma NothingReported(severity: Token, dict: Dictionary, lib: Library)
    ensures Reported([], severity, dict, lib) == [] && Messages([], dict, lib) == []
    ensures IsTrueOf([], severity, dict, lib) == []
  {
  }

  lemma ReportedNext(statements: seq<Statement>, severity: Token, dict: Dictionary, lib: Library)
    returns (flag: bool)
    requires statements != [] && AllBoundsAreNumbers(statements, lib)
    ensures var n := |statements| - 1;
      var init, message := statements[..n], StatementMessage(statements[n], dict, lib);
      && AllBoundsAreNumbers(init, lib)
      && Reported(statements, severity, dict, lib)
         == (if flag then Reported(init, severity, dict, lib) + [message] else Reported(init, severity, dict, lib))
      && Messages(statements, dict, lib) == Messages(init, dict, lib) + [message]
      && IsTrueOf(statements, severity, dict, lib) == IsTrueOf(init, severity, dict, lib) + [flag]
  {
    hide Reported, Meaning, BoundsAreNumbers, StatementMessage;
    var n := |statements| - 1;
    assert statements == statements[..n] + [statements[n]];
    assert AllBoundsAreNumbers(statements[..n], lib) && AllBoundsAreNumbers([statements[n]], lib);
    flag := IsTrueOf([statements[n]], severity, dict, lib)[0];
    ReportedConcat(statements[..n], [statements[n]], severity, dict, lib);
    ReportedOne(statements[n], severity, dict, lib);
  }

  /** The program that a policy text denotes, None on a lexical or syntax error. */
  function ReadPolicy(policy: string): Option<Program> {
    match Lex(policy)
    case None => None
    case Some(tokens) => ParseProgram(tokens)
  }

  /** A text denotes a program exactly when it lexes to the tokens of that program
      and the program is canonical. */
  lemma PolicyIsRead(policy: string, p: Program)
    ensures ReadPolicy(policy) == Some(p) <==> CanonicalProgram(p) && Lex(policy) == Some(ProgramLeaves(p))
  {
    hide Lex, ParseProgram, CanonicalProgram, ProgramLeaves;
    if Lex(policy).Some? { ParseProgramIffCanonical(Lex(policy).value, p); }
  }

  // ----- evaluating compiled rules -----

  function RulesBeforeThrow(rules: seq<Rule>, dict: Dictionary, lib: Library): (k: nat)
    ensures k <= |rules|
  {
    if rules == [] || EvalExpr(rules[0].condition, dict, lib) == Thrown then 0
    else 1 + RulesBeforeThrow(rules[1..], dict, lib)
  }

  function RuleMessage(rule: Rule, dict: Dictionary, lib: Library): string {
    Message(rule.labelText, Collected(rule.condition, dict, lib))
  }

  function Fired(rules: seq<Rule>, severity: Severity, dict: Dictionary, lib: Library): seq<string> {
    if rules == [] then []
    else
      (if rules[0].severity == severity && EvalExpr(rules[0].condition, dict, lib) == Truth(true)
       then [RuleMessage(rules[0], dict, lib)] else [])
      + Fired(rules[1..], severity, dict, lib)
  }

  /** The caller-owned outputs of a run. */
  class PolicyReport {
    var warnList: seq<string>
    var errorList: seq<string>
    var version: string

    constructor ()
    {
      warnList, errorList, version := [], [], "";
    }

    /** evaluate_rules. An exception stops the loop and leaves the messages of
        the rules before it. */
    method EvaluateRules(rules: seq<Rule>, dict: Dictionary, lib: Library) returns (thrown: bool)
      modifies this`warnList, this`errorList
      ensures var k := RulesBeforeThrow(rules, dict, lib);
        && thrown == (k < |rules|)
        && warnList == old(warnList) + Fired(rules[..k], SEVERITY_WARN, dict, lib)
        && errorList == old(errorList) + Fired(rules[..k], SEVERITY_ERROR, dict, lib)
    {
      hide EvalExpr, Message, Collected, Fired;
      thrown := false;
      FiredNone(SEVERITY_WARN, dict, lib);
      FiredNone(SEVERITY_ERROR, dict, lib);
      assert rules[..0] == [] && rules[0..] == rules;
      for i := 0 to |rules|
        invariant RulesBeforeThrow(rules, dict, lib) == i + RulesBeforeThrow(rules[i..], dict, lib)
        invariant warnList == old(warnList) + Fired(rules[..i], SEVERITY_WARN, dict, lib)
        invariant errorList == old(errorList) + Fired(rules[..i], SEVERITY_ERROR, dict, lib)
      {
        assert rules[i..][0] == rules[i] && rules[i..][1..] == rules[i + 1..];
        FiredNext(rules, i, SEVERITY_WARN, dict, lib);
        FiredNext(rules, i, SEVERITY_ERROR, dict, lib);
        match EvalExpr(rules[i].condition, dict, lib) {
          case Thrown =>
            return true;
          case Truth(result) =>
            if result {
              var message := FormatRuleMessage(rules[i], dict, lib);
              if rules[i].severity == SEVERITY_WARN {
                warnList := warnList + [message];
              } else if rules[i].severity == SEVERITY_ERROR {
                errorList := errorList + [message];
              }
            }
        }
      }
      assert rules[..|rules|] == rules;
    }
  }

  lemma FiredNone(severity: Severity, dict: Dictionary, lib: Library)
    ensures Fired([], severity, dict, lib) == []
  {
  }

  lemma {:induction false} FiredConcat(a: seq<Rule>, b: seq<Rule>, severity: Severity, dict: Dictionary, lib: Library)
    ensures Fired(a + b, severity, dict, lib) == Fired(a, severity, dict, lib) + Fired(b, severity, dict, lib)
  {
    hide EvalExpr, RuleMessage;
    if a == [] {
      assert a + b == b;
    } else {
      assert (a + b)[1..] == a[1..] + b;
      FiredConcat(a[1..], b, severity, dict, lib);
    }
  }

  lemma FiredNext(rules: seq<Rule>, i: nat, severity: Severity, dict: Dictionary, lib: Library)
    requires i < |rules|
    ensures Fired(rules[..i + 1], severity, dict, lib) == Fired(rules[..i], severity, dict, lib)
      + if rules[i].severity == severity && EvalExpr(rules[i].condition, dict, lib) == Truth(true)
        then [RuleMessage(rules[i], dict, lib)] else []
  {
    hide EvalExpr, RuleMessage;
    assert rules[..i + 1] == rules[..i] + [rules[i]];
    FiredConcat(rules[..i], [rules[i]], severity, dict, lib);
    assert [rules[i]][1..] == [];
  }

  // ----- rules and the statements they come from -----

  /** A statement as the lexer and parser yield it. */
  predicate WellFormed(s: Statement) {
    CanonicalStatement(s) && LexableLeaves(s.condition)
  }

  predicate AllWellFormed(statements: seq<Statement>) {
    forall i :: 0 <= i < |statements| ==> WellFormed(statements[i])
  }

  lemma StatementCompiles(s: Statement, lib: Library)
    requires WellFormed(s)
    ensures VisitStatement(s, lib).Some? <==> BoundsAreNumbers(s.condition, lib)
  {
    CompilesIffBoundsAreNumbers(s.condition, lib);
  }

  lemma RuleOfStatement(s: Statement, dict: Dictionary, lib: Library)
    requires WellFormed(s) && BoundsAreNumbers(s.condition, lib)
    ensures VisitStatement(s, lib).Some?
    ensures var rule := VisitStatement(s, lib).value;
      && EvalExpr(rule.condition, dict, lib) == Meaning(s.condition, dict, lib)
      && RuleMessage(rule, dict, lib) == StatementMessage(s, dict, lib)
      && (rule.severity == SEVERITY_WARN <==> s.severity == WARN)
      && (rule.severity == SEVERITY_ERROR <==> s.severity == ERROR)
  {
    hide Message, Collected, PresentAll, Columns, Canonical;
    CompilePreservesMeaning(s.condition, dict, lib);
    CollectedAreColumns(s.condition, dict, lib);
  }

  lemma {:induction false} StatementsCompile(statements: seq<Statement>, lib: Library)
    requires AllWellFormed(statements)
    ensures VisitStatements(statements, lib).Some? <==> AllBoundsAreNumbers(statements, lib)
    ensures VisitStatements(statements, lib).Some? ==>
      |VisitStatements(statements, lib).value| == |statements|
  {
    hide WellFormed, BoundsAreNumbers, VisitStatement;
    if statements == [] {
    } else {
      StatementCompiles(statements[0], lib);
      StatementsCompile(statements[1..], lib);
      assert forall i :: 0 < i < |statements| ==> statements[i] == statements[1..][i - 1];
    }
  }

  lemma FiredHead(rules: seq<Rule>, k: nat, severity: Severity, dict: Dictionary, lib: Library)
    requires 0 < k <= |rules|
    ensures Fired(rules[..k], severity, dict, lib)
         == (if rules[0].severity == severity && EvalExpr(rules[0].condition, dict, lib) == Truth(true)
             then [RuleMessage(rules[0], dict, lib)] else [])
          + Fired(rules[1..][..k - 1], severity, dict, lib)
  {
    hide EvalExpr, RuleMessage;
    assert rules[..k][1..] == rules[1..][..k - 1];
  }

  lemma ReportedHead(statements: seq<Statement>, k: nat, severity: Token, dict: Dictionary, lib: Library)
    requires 0 < k <= |statements| && AllBoundsAreNumbers(statements, lib)
    ensures AllBoundsAreNumbers(statements[1..], lib)
    ensures Reported(statements[..k], severity, dict, lib)
         == (if statements[0].severity == severity && Meaning(statements[0].condition, dict, lib) == Truth(true)
             then [StatementMessage(statements[0], dict, lib)] else [])
          + Reported(statements[1..][..k - 1], severity, dict, lib)
  {
    hide Meaning, BoundsAreNumbers, StatementMessage;
    assert statements[..k][1..] == statements[1..][..k - 1];
  }

  /** The first k rules report what the first k statements do. */
  lemma {:induction false} FiredIsReported(statements: seq<Statement>, rules: seq<Rule>, k: nat,
                                           dict: Dictionary, lib: Library)
    requires AllWellFormed(statements) && AllBoundsAreNumbers(statements, lib)
    requires VisitStatements(statements, lib) == Some(rules) && |rules| == |statements| && k <= |rules|
    ensures Fired(rules[..k], SEVERITY_WARN, dict, lib) == Reported(statements[..k], WARN, dict, lib)
    ensures Fired(rules[..k], SEVERITY_ERROR, dict, lib) == Reported(statements[..k], ERROR, dict, lib)
    decreases k
  {
    hide WellFormed, BoundsAreNumbers, VisitStatement, Meaning, EvalExpr, RuleMessage, StatementMessage;
    if k == 0 {
    } else {
      hide Fired, Reported;
      RuleOfStatement(statements[0], dict, lib);
      assert rules[1..] == VisitStatements(statements[1..], lib).value;
      FiredIsReported(statements[1..], rules[1..], k - 1, dict, lib);
      FiredHead(rules, k, SEVERITY_WARN, dict, lib);
      FiredHead(rules, k, SEVERITY_ERROR, dict, lib);
      ReportedHead(statements, k, WARN, dict, lib);
      ReportedHead(statements, k, ERROR, dict, lib);
    }
  }

  /** The rules throw where the statements do. */
  lemma {:induction false} ThrowsAlike(statements: seq<Statement>, rules: seq<Rule>,
                                       dict: Dictionary, lib: Library)
    requires AllWellFormed(statements) && AllBoundsAreNumbers(statements, lib)
    requires VisitStatements(statements, lib) == Some(rules) && |rules| == |statements|
    ensures RulesBeforeThrow(rules, dict, lib) == BeforeThrow(statements, dict, lib)
  {
    hide WellFormed, BoundsAreNumbers, VisitStatement, Meaning, EvalExpr, RuleMessage, StatementMessage;
    if statements == [] {
    } else {
      RuleOfStatement(statements[0], dict, lib);
      assert rules[1..] == VisitStatements(statements[1..], lib).value;
      ThrowsAlike(statements[1..], rules[1..], dict, lib);
    }
  }

  lemma {:induction false} ReadStatementsAreWellFormed(statements: seq<Statement>)
    requires CanonicalStatements(statements) && AllLexable(StatementsLeaves(statements))
    ensures AllWellFormed(statements)
  {
    hide Lexable, CanonicalStatement;
    var first, tail := statements[0], statements[1..];
    LexableSlice(StatementsLeaves(statements), [first.severity, STRING(first.quotedLabel)],
                 Leaves(first.condition), StatementsLeaves(tail));
    if tail != [] { ReadStatementsAreWellFormed(tail); }
    forall i | 0 <= i < |statements| ensures WellFormed(statements[i]) {
      if i > 0 { assert statements[i] == tail[i - 1]; }
    }
  }

  lemma ReadPolicyIsWellFormed(policy: string)
    requires ReadPolicy(policy).Some?
    ensures AllWellFormed(ReadPolicy(policy).value.statements)
  {
    hide Lex, ParseProgram, AllLexable, CanonicalProgram, CanonicalStatement;
    var p, tokens := ReadPolicy(policy).value, Lex(policy).value;
    LexedTokensAreLexable(policy);
    ParseProgramIffCanonical(tokens, p);
    ProgramStatements(p);
  }

  lemma ProgramStatements(p: Program)
    requires CanonicalProgram(p) && AllLexable(ProgramLeaves(p))
    ensures AllWellFormed(p.statements)
  {
    hide Lexable, CanonicalStatement;
    var head := if p.version.Some? then [VERSION, VERSIONID(p.version.value)] else [];
    assert ProgramLeaves(p) == head + StatementsLeaves(p.statements) + [];
    LexableSlice(ProgramLeaves(p), head, StatementsLeaves(p.statements), []);
    ReadStatementsAreWellFormed(p.statements);
  }

  /** convert_parser_context_to_proto: None when a visit throws. */
  method ConvertToProto(program: Program, lib: Library) returns (ruleSet: Option<RuleSet>)
    ensures ruleSet == (match VisitStatements(program.statements, lib)
                        case None => None
                        case Some(rules) =>
                          Some(RuleSet(if program.version.Some? then program.version.value else "", rules)))
  {
    hide VisitStatement;
    var rules: seq<Rule> := [];
    var statements := program.statements;
    assert statements[0..] == statements;
    assert forall all: seq<Rule> :: [] + all == all;
    for i := 0 to |statements|
      invariant match VisitStatements(statements[i..], lib)
                case None => VisitStatements(statements, lib) == None
                case Some(more) => VisitStatements(statements, lib) == Some(rules + more)
    {
      assert statements[i..][0] == statements[i] && statements[i..][1..] == statements[i + 1..];
      var rule := VisitStatement(statements[i], lib);
      if rule == None { return None; }
      ghost var tail := VisitStatements(statements[i + 1..], lib);
      if tail.Some? { assert rules + ([rule.value] + tail.value) == rules + [rule.value] + tail.value; }
      rules := rules + [rule.value];
    }
    assert statements[|statements|..] == [] && rules + [] == rules;
    ruleSet := Some(RuleSet(program.version.GetOr(""), rules));
  }

  /** What a run of a policy leaves in the report, and its status: nothing when
      the text or a range bound is malformed; the messages of the statements
      before the first one that throws; all messages otherwise. */
  ghost predicate Ran(policy: string, dict: Dictionary, lib: Library, status: int,
                      warnList: seq<string>, errorList: seq<string>, version: string) {
    match ReadPolicy(policy)
    case None => status == 1 && warnList == [] && errorList == [] && version == ""
    case Some(p) =>
      if !AllBoundsAreNumbers(p.statements, lib) then
        status == 1 && warnList == [] && errorList == [] && version == ""
      else
        var k := BeforeThrow(p.statements, dict, lib);
        && status == (if k == |p.statements| then 0 else 1)
        && warnList == Reported(p.statements[..k], WARN, dict, lib)
        && errorList == Reported(p.statements[..k], ERROR, dict, lib)
        && version == (if p.version.Some? then p.version.value else "")
  }

  /** policy_runner. */
  method RunPolicy(policy: string, keys: seq<string>, vals: seq<Value>, lib: Library, report: PolicyReport)
    returns (status: int, dict: Dictionary)
    modifies report
    ensures IsDictionaryOf(dict, keys, vals)
    ensures Ran(policy, dict, lib, status, report.warnList, report.errorList, report.version)
  {
    hide Lex, ParseProgram, IsDictionaryOf, VisitStatements, Fired, Reported, BeforeThrow,
         RulesBeforeThrow, AllBoundsAreNumbers, AllWellFormed, CanonicalProgram, ProgramLeaves;
    dict := BuildDictionary(keys, vals);
    report.warnList, report.errorList, report.version := [], [], "";
    var tokens := Lex(policy);
    if tokens == None { return 1, dict; }
    var program := RulesParser.Parse(tokens.value);
    ParseIsRead(policy, tokens.value, program);
    if program == None { return 1, dict; }
    ReadPolicyIsWellFormed(policy);
    StatementsCompile(program.value.statements, lib);
    var ruleSet := ConvertToProto(program.value, lib);
    if ruleSet == None { return 1, dict; }
    report.version := ruleSet.value.version;
    var thrown := report.EvaluateRules(ruleSet.value.rules, dict, lib);
    ThrowsAlike(program.value.statements, ruleSet.value.rules, dict, lib);
    FiredIsReported(program.value.statements, ruleSet.value.rules,
                    BeforeThrow(program.value.statements, dict, lib), dict, lib);
    status := if thrown then 1 else 0;
  }

  lemma ParseIsRead(policy: string, tokens: seq<Token>, program: Option<Program>)
    requires Lex(policy) == Some(tokens)
    requires program.Some? ==> CanonicalProgram(program.value) && ProgramLeaves(program.value) == tokens
    requires forall p :: CanonicalProgram(p) && ProgramLeaves(p) == tokens ==> program == Some(p)
    ensures program == ReadPolicy(policy)
  {
    hide Lex, ParseProgram, CanonicalProgram, ProgramLeaves;
    if program.Some? { ParseProgramIffCanonical(tokens, program.value); }
    if ReadPolicy(policy).Some? { ParseProgramIffCanonical(tokens, ReadPolicy(policy).value); }
  }
}
