/** The text of a warning: the label and the values of the columns that the
    condition looks at. */
module PolicyMessages {
  import opened Selections
  import opened PolicyValues
  import opened RulesTokens
  import opened RulesTree
  import opened PolicyProto

  type VarValue = (string, string)

  /** The column, with its value, when the dictionary has it. */
  function Present(column: string, dict: Dictionary, lib: Library): seq<VarValue> {
    if column in dict then [(column, ToString(dict[column], lib))] else []
  }

  function Collected(expr: Expr, dict: Dictionary, lib: Library): seq<VarValue>
    decreases expr, 1
  {
    match expr
    case Comparison(column, _, _) => Present(column, dict, lib)
    case RangeCheck(column, _, _) => Present(column, dict, lib)
    case Not(e) => Collected(e, dict, lib)
    case Logical(_, operands) => CollectedAll(operands, dict, lib)
    case KindNotSet => []
  }

  function CollectedAll(operands: seq<Expr>, dict: Dictionary, lib: Library): seq<VarValue>
    decreases operands, 0
  {
    if operands == [] then []
    else Collected(operands[0], dict, lib) + CollectedAll(operands[1..], dict, lib)
  }

  /** collect_variables_from_expr, appending to the caller's list. */
  method CollectVariables(expr: Expr, dict: Dictionary, lib: Library, varValues: seq<VarValue>)
    returns (result: seq<VarValue>)
    ensures result == varValues + Collected(expr, dict, lib)
    decreases expr, 1
  {
    result := varValues;
    match expr {
      case Comparison(column, _, _) =>
        if column in dict { result := result + [(column, ToString(dict[column], lib))]; }
      case RangeCheck(column, _, _) =>
        if column in dict { result := result + [(column, ToString(dict[column], lib))]; }
      case Not(e) =>
        result := CollectVariables(e, dict, lib, result);
      case Logical(_, operands) =>
        for i := 0 to |operands|
          invariant result + CollectedAll(operands[i..], dict, lib)
                 == varValues + CollectedAll(operands, dict, lib)
        {
          assert operands[i..][0] == operands[i] && operands[i..][1..] == operands[i + 1..];
          ghost var before, rest := result, CollectedAll(operands[i + 1..], dict, lib);
          result := CollectVariables(operands[i], dict, lib, result);
          assert before + (Collected(operands[i], dict, lib) + rest) == result + rest;
        }
      case KindNotSet =>
    }
  }

  function PairText(varValue: VarValue): string {
    varValue.0 + ": " + varValue.1
  }

  /** "name: value" pairs separated by commas. */
  function Join(varValues: seq<VarValue>): string {
    if varValues == [] then ""
    else
      var init, last := varValues[..|varValues| - 1], varValues[|varValues| - 1];
      Join(init) + (if init == [] then "" else ", ") + PairText(last)
  }

  function Message(labelText: string, varValues: seq<VarValue>): string {
    if varValues == [] then labelText else labelText + " (" + Join(varValues) + ")"
  }

  /** format_rule_message_with_values. */
  method FormatRuleMessage(rule: Rule, dict: Dictionary, lib: Library) returns (message: string)
    ensures message == Message(rule.labelText, Collected(rule.condition, dict, lib))
  {
    message := rule.labelText;
    var varValues := CollectVariables(rule.condition, dict, lib, []);
    assert [] + Collected(rule.condition, dict, lib) == Collected(rule.condition, dict, lib);
    if varValues != [] {
      message := message + " (";
      ghost var start := message;
      for i := 0 to |varValues|
        invariant message == start + Join(varValues[..i])
      {
        assert varValues[..i + 1][..i] == varValues[..i];
        if i > 0 {
          message := message + ", ";
        }
        message := message + (varValues[i].0 + ": " + varValues[i].1);
        assert message == start + (Join(varValues[..i]) + (if i == 0 then "" else ", ")
                                   + PairText(varValues[i]));
      }
      assert varValues[..|varValues|] == varValues;
      message := message + ")";
    }
  }

  // ----- which columns a message lists -----

  /** The left-hand columns of a condition. */
  function Columns(e: Tree): seq<string> {
    match e
    case OrExpr(l, r) => Columns(l) + Columns(r)
    case AndExpr(l, r) => Columns(l) + Columns(r)
    case NotExpr(x) => Columns(x)
    case ParenExpr(x) => Columns(x)
    case CompareExpr(column, _, _) => [column]
    case RangeExpr(column, _, _) => [column]
  }

  /** A token that can only follow a left-hand column. */
  predicate FollowsColumn(token: Token) {
    IsCompOp(token) || token == IN
  }

  /** The identifiers in front of such a token, in the order of the source. */
  function ColumnTokens(ts: seq<Token>): seq<string> {
    if |ts| < 2 then []
    else (if ts[0].IDENT? && FollowsColumn(ts[1]) then [ts[0].ident] else []) + ColumnTokens(ts[1..])
  }

  /** The texts of the identifiers of a token list. */
  function Names(ts: seq<Token>): (names: seq<string>)
    ensures |names| == |ts| && forall i :: 0 <= i < |ts| && ts[i].IDENT? ==> names[i] == ts[i].ident
  {
    seq(|ts|, i requires 0 <= i < |ts| => if ts[i].IDENT? then ts[i].ident else "")
  }

  /** For each token, whether it is an identifier before an operator or `in`. */
  function StartsAtom(ts: seq<Token>): (flags: seq<bool>)
    ensures |flags| == |ts|
    ensures forall i :: 0 <= i < |ts| ==>
      (flags[i] <==> i + 1 < |ts| && ts[i].IDENT? && ts[i + 1] in {EQ, NE, LT, GT, LE, GE, IN})
  {
    seq(|ts|, i requires 0 <= i < |ts| =>
      i + 1 < |ts| && ts[i].IDENT? && ts[i + 1] in {EQ, NE, LT, GT, LE, GE, IN})
  }

  /** The column tokens are exactly those identifiers, in order. */
  lemma {:induction false} ColumnTokensInOrder(ts: seq<Token>) returns (positions: seq<nat>)
    ensures ListsAt(ColumnTokens(ts), Names(ts), positions) && AreFlagged(positions, StartsAtom(ts))
  {
    hide ListsAt, AreFlagged;
    if ts == [] {
      positions := [];
      NothingChosen<string>();
      assert Names(ts) == [] && StartsAtom(ts) == [];
    } else {
      positions := ColumnTokensInOrder(ts[1..]);
      PrependChosen(ColumnTokens(ts[1..]), Names(ts[1..]), positions, Names(ts)[0]);
      PrependFlag(positions, StartsAtom(ts[1..]));
      assert Names(ts) == [Names(ts)[0]] + Names(ts[1..]);
      assert StartsAtom(ts) == [StartsAtom(ts)[0]] + StartsAtom(ts[1..]);
      if StartsAtom(ts)[0] {
        positions := [0] + Shifted(positions);
        assert ColumnTokens(ts) == [ts[0].ident] + ColumnTokens(ts[1..]);
      } else {
        positions := Shifted(positions);
        assert ColumnTokens(ts) == ColumnTokens(ts[1..]);
      }
    }
  }

  lemma {:induction false} ColumnTokensConcat(a: seq<Token>, b: seq<Token>)
    requires b != [] ==> !FollowsColumn(b[0])
    ensures ColumnTokens(a + b) == ColumnTokens(a) + ColumnTokens(b)
  {
    if a == [] {
      assert a + b == b;
    } else {
      assert (a + b)[1..] == a[1..] + b;
      ColumnTokensConcat(a[1..], b);
      if |a| == 1 && b != [] { assert (a + b)[1] == b[0]; }
    }
  }

  lemma LeavesStart(e: Tree)
    ensures !FollowsColumn(Leaves(e)[0])
  {
    match e
    case OrExpr(l, _) => LeavesStart(l);
    case AndExpr(l, _) => LeavesStart(l);
    case _ =>
  }

  /** The columns of a tree are the column tokens of its source, left to right. */
  lemma {:induction false} ColumnsInSourceOrder(e: Tree)
    requires Canonical(e)
    ensures ColumnTokens(Leaves(e)) == Columns(e)
  {
    match e
    case OrExpr(l, r) => BinaryColumns(l, OR, r); ColumnsInSourceOrder(l); ColumnsInSourceOrder(r);
    case AndExpr(l, r) => BinaryColumns(l, AND, r); ColumnsInSourceOrder(l); ColumnsInSourceOrder(r);
    case NotExpr(x) => PrefixColumns(NOT, x); ColumnsInSourceOrder(x);
    case ParenExpr(x) =>
      ColumnTokensConcat([LPAREN] + Leaves(x), [RPAREN]);
      PrefixColumns(LPAREN, x);
      ColumnsInSourceOrder(x);
    case CompareExpr(_, _, _) => AtomColumns(e);
    case RangeExpr(_, _, _) => AtomColumns(e);
  }

  lemma PrefixColumns(token: Token, e: Tree)
    requires token == NOT || token == LPAREN || token == OR || token == AND
    ensures ColumnTokens([token] + Leaves(e)) == ColumnTokens(Leaves(e))
  {
    LeavesStart(e);
    ColumnTokensConcat([token], Leaves(e));
  }

  lemma BinaryColumns(l: Tree, op: Token, r: Tree)
    requires op == OR || op == AND
    ensures ColumnTokens(Leaves(l) + [op] + Leaves(r)) == ColumnTokens(Leaves(l)) + ColumnTokens(Leaves(r))
  {
    hide ColumnTokens, Leaves;
    PrefixColumns(op, r);
    var tail := [op] + Leaves(r);
    ColumnTokensConcat(Leaves(l), tail);
    assert Leaves(l) + [op] + Leaves(r) == Leaves(l) + tail;
  }

  lemma AtomColumns(e: Tree)
    requires Canonical(e) && (e.CompareExpr? || e.RangeExpr?)
    ensures ColumnTokens(Leaves(e)) == Columns(e)
  {
    var ts := Leaves(e);
    if e.CompareExpr? {
      assert ts[1..] == [e.op, e.rhs] && [e.op, e.rhs][1..] == [e.rhs];
      assert ColumnTokens([e.op, e.rhs]) == [];
    } else {
      assert ts[1..] == [IN, RANGE, LPAREN, e.low, COMMA, e.high, RPAREN];
      assert ts[1..][1..] == [RANGE, LPAREN, e.low, COMMA, e.high, RPAREN];
      NoColumns(ts[1..][1..]);
    }
  }

  lemma {:induction false} NoColumns(ts: seq<Token>)
    requires forall i :: 0 <= i < |ts| ==> !ts[i].IDENT?
    ensures ColumnTokens(ts) == []
  {
    if ts == [] {
    } else {
      NoColumns(ts[1..]);
    }
  }

  function PresentAll(columns: seq<string>, dict: Dictionary, lib: Library): seq<VarValue> {
    if columns == [] then []
    else Present(columns[0], dict, lib) + PresentAll(columns[1..], dict, lib)
  }

  lemma {:induction false} PresentConcat(a: seq<string>, b: seq<string>, dict: Dictionary, lib: Library)
    ensures PresentAll(a + b, dict, lib) == PresentAll(a, dict, lib) + PresentAll(b, dict, lib)
  {
    if a == [] {
      assert a + b == b;
    } else {
      assert (a + b)[1..] == a[1..] + b;
      PresentConcat(a[1..], b, dict, lib);
    }
  }

  lemma CollectedPair(a: Expr, b: Expr, dict: Dictionary, lib: Library)
    ensures CollectedAll([a, b], dict, lib) == Collected(a, dict, lib) + Collected(b, dict, lib)
  {
    assert [a, b][1..] == [b] && [b][1..] == [];
    assert CollectedAll([b], dict, lib) == Collected(b, dict, lib) + [] == Collected(b, dict, lib);
  }

  /** A message lists the columns of the source condition that are present, in
      the order of the source. */
  lemma {:induction false} CollectedAreColumns(e: Tree, dict: Dictionary, lib: Library)
    requires VisitExpr(e, lib).Some?
    ensures Collected(VisitExpr(e, lib).value, dict, lib) == PresentAll(Columns(e), dict, lib)
  {
    hide Present, VisitCompOp, VisitValue;
    match e
    case OrExpr(l, r) =>
      CollectedAreColumns(l, dict, lib);
      CollectedAreColumns(r, dict, lib);
      CollectedPair(VisitExpr(l, lib).value, VisitExpr(r, lib).value, dict, lib);
      PresentConcat(Columns(l), Columns(r), dict, lib);
    case AndExpr(l, r) =>
      CollectedAreColumns(l, dict, lib);
      CollectedAreColumns(r, dict, lib);
      CollectedPair(VisitExpr(l, lib).value, VisitExpr(r, lib).value, dict, lib);
      PresentConcat(Columns(l), Columns(r), dict, lib);
    case NotExpr(x) => CollectedAreColumns(x, dict, lib);
    case ParenExpr(x) => CollectedAreColumns(x, dict, lib);
    case CompareExpr(column, _, _) => assert [column][1..] == [];
    case RangeExpr(column, _, _) => assert [column][1..] == [];
  }

  /** For each column, whether the dictionary has it. */
  function InDictionary(columns: seq<string>, dict: Dictionary): (flags: seq<bool>)
    ensures |flags| == |columns| && forall i :: 0 <= i < |columns| ==> flags[i] == (columns[i] in dict)
  {
    seq(|columns|, i requires 0 <= i < |columns| => columns[i] in dict)
  }

  lemma {:induction false} PresentNext(columns: seq<string>, column: string, dict: Dictionary, lib: Library)
    ensures PresentAll(columns + [column], dict, lib)
         == PresentAll(columns, dict, lib)
          + if column in dict then [(column, ToString(dict[column], lib))] else []
  {
    PresentConcat(columns, [column], dict, lib);
    assert [column][1..] == [] && PresentAll([column], dict, lib) == Present(column, dict, lib) + [];
  }

  /** The listed pairs are the columns that the dictionary has, in order, each
      with the text of its value. */
  lemma {:induction false} PresentInOrder(columns: seq<string>, dict: Dictionary, lib: Library)
    returns (positions: seq<nat>, names: seq<string>)
    ensures ListsAt(names, columns, positions) && AreFlagged(positions, InDictionary(columns, dict))
    ensures |PresentAll(columns, dict, lib)| == |names|
    ensures forall k :: 0 <= k < |names| ==>
      names[k] in dict && PresentAll(columns, dict, lib)[k] == (names[k], ToString(dict[names[k]], lib))
  {
    hide ListsAt, AreFlagged, Increasing, Present, PresentAll, ToString;
    if columns == [] {
      positions, names := [], [];
      NothingChosen<string>();
      assert InDictionary([], dict) == [];
      assert PresentAll([], dict, lib) == [] by { NothingPresent(dict, lib); }
    } else {
      var init, last := columns[..|columns| - 1], columns[|columns| - 1];
      positions, names := PresentInOrder(init, dict, lib);
      ListsIncreasing(names, init, positions);
      AppendChosen(names, init, positions, last);
      AppendFlag(positions, InDictionary(init, dict));
      PresentNext(init, last, dict, lib);
      assert columns == init + [last];
      assert InDictionary(columns, dict) == InDictionary(init, dict) + [last in dict];
      if last in dict { positions, names := positions + [|init|], names + [last]; }
    }
  }

  lemma NothingPresent(dict: Dictionary, lib: Library)
    ensures PresentAll([], dict, lib) == []
  {
  }

  // ----- reading a message back -----

  /** The text before the first `c`, all of it if there is none. */
  function Before(s: string, c: char): (r: string)
    ensures |r| <= |s|
  {
    if s == "" || s[0] == c then "" else [s[0]] + Before(s[1..], c)
  }

  /** The pairs of a text like "a: 1, b: 2". */
  function ReadPairs(s: string): seq<VarValue>
    decreases |s|
  {
    var name := Before(s, ':');
    if |name| + 2 > |s| then []
    else
      var rest := s[|name| + 2..];
      var value := Before(rest, ',');
      [(name, value)] + if |value| + 2 > |rest| then [] else ReadPairs(rest[|value| + 2..])
  }

  /** The pairs of a message with a known label. */
  function ReadMessage(labelText: string, message: string): seq<VarValue> {
    if |message| < |labelText| + 3 then []
    else ReadPairs(message[|labelText| + 2..|message| - 1])
  }

  lemma {:induction false} BeforeStops(w: string, c: char, rest: string)
    requires c !in w && (rest != "" ==> rest[0] == c)
    ensures Before(w + rest, c) == w
  {
    if w == "" {
      assert w + rest == rest;
    } else {
      assert (w + rest)[1..] == w[1..] + rest && w == [w[0]] + w[1..];
      BeforeStops(w[1..], c, rest);
    }
  }

  lemma {:induction false} JoinStarts(varValues: seq<VarValue>)
    requires varValues != []
    ensures Join(varValues) == PairText(varValues[0])
      + if |varValues| == 1 then "" else ", " + Join(varValues[1..])
  {
    hide PairText;
    var n := |varValues|;
    var init, last := varValues[..n - 1], varValues[n - 1];
    if n == 1 {
    } else {
      JoinStarts(init);
      assert varValues[1..][..n - 2] == init[1..] && varValues[1..][n - 2] == last;
      if n > 2 { RegroupJoin(PairText(varValues[0]), Join(init[1..]), PairText(last)); }
    }
  }

  lemma RegroupJoin(first: string, middle: string, last: string)
    ensures first + (", " + middle) + ", " + last == first + (", " + (middle + ", " + last))
  {
  }

  /** No name has a colon in it, and no value a comma. */
  predicate Separable(varValues: seq<VarValue>) {
    forall i :: 0 <= i < |varValues| ==> ':' !in varValues[i].0 && ',' !in varValues[i].1
  }

  lemma ReadName(name: string, more: string)
    requires ':' !in name
    ensures Before(name + ": " + more, ':') == name && (name + ": " + more)[|name| + 2..] == more
  {
    assert name + ": " + more == name + (": " + more);
    BeforeStops(name, ':', ": " + more);
  }

  lemma ReadValue(value: string, end: string)
    requires ',' !in value && (end == "" || (|end| >= 2 && end[0] == ','))
    ensures Before(value + end, ',') == value
    ensures end != "" ==> (value + end)[|value| + 2..] == end[2..]
  {
    BeforeStops(value, ',', end);
  }

  lemma RegroupPair(name: string, value: string, end: string)
    ensures PairText((name, value)) + end == name + ": " + (value + end)
  {
  }

  lemma ReadPairsUnfold(s: string, name: string, rest: string, value: string)
    requires name == Before(s, ':') && |name| + 2 <= |s| && rest == s[|name| + 2..] && value == Before(rest, ',')
    ensures ReadPairs(s) == [(name, value)]
      + if |value| + 2 > |rest| then [] else ReadPairs(rest[|value| + 2..])
  {
    hide Before;
  }

  lemma ReadPairsFirst(name: string, value: string, end: string)
    requires ':' !in name && ',' !in value && (end == "" || (|end| >= 2 && end[0] == ','))
    ensures ReadPairs(PairText((name, value)) + end)
         == [(name, value)] + if end == "" then [] else ReadPairs(end[2..])
  {
    hide Before, PairText, ReadPairs;
    RegroupPair(name, value, end);
    ReadName(name, value + end);
    ReadValue(value, end);
    ReadPairsUnfold(name + ": " + (value + end), name, value + end, value);
  }

  lemma {:induction false} ReadPairsUndoesJoin(varValues: seq<VarValue>)
    requires varValues != [] && Separable(varValues)
    ensures ReadPairs(Join(varValues)) == varValues
  {
    hide Join, ReadPairs, PairText;
    var tail := varValues[1..];
    var end := if tail == [] then "" else ", " + Join(tail);
    JoinStarts(varValues);
    ReadPairsFirst(varValues[0].0, varValues[0].1, end);
    assert varValues == [varValues[0]] + tail;
    if tail == [] {
      assert PairText(varValues[0]) + "" == PairText(varValues[0]);
    } else {
      assert end[2..] == Join(tail);
      ReadPairsUndoesJoin(tail);
    }
  }

  /** A message without pairs is its label. With pairs, whose names have no colon
      and whose values no comma, the label and the pairs can be read back. */
  lemma MessageReadsBack(labelText: string, varValues: seq<VarValue>)
    requires Separable(varValues)
    ensures labelText <= Message(labelText, varValues)
    ensures ReadMessage(labelText, Message(labelText, varValues)) == varValues
    ensures varValues == [] ==> Message(labelText, varValues) == labelText
    ensures var message := Message(labelText, varValues);
      varValues != [] ==> message == labelText + " (" + Join(varValues) + ")"
  {
    hide Join, ReadPairs;
    if varValues != [] {
      var message := Message(labelText, varValues);
      JoinStarts(varValues);
      assert message[|labelText| + 2..|message| - 1] == Join(varValues);
      ReadPairsUndoesJoin(varValues);
    }
  }

  /** A value with a comma in it can look like two pairs. */
  lemma MessageIsAmbiguous()
    ensures Message("", [("a", "1, b: 2")]) == Message("", [("a", "1"), ("b", "2")])
  {
    JoinStarts([("a", "1, b: 2")]);
    JoinStarts([("a", "1"), ("b", "2")]);
    JoinStarts([("b", "2")]);
    assert [("a", "1"), ("b", "2")][1..] == [("b", "2")];
  }
}
