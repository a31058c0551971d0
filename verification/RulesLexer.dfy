/** The lexer of the policy language: longest match, earliest rule on ties,
    blanks and comments skipped. A text that no rule matches is an error. */
module RulesLexer {
  import opened RulesTokens
  import opened RulesShapes
  import opened Wrappers

  /** The length of the longest match among the first n characters, 0 if none. */
  function LongestMatch(s: string, n: nat): (k: nat)
    requires n <= |s|
    ensures k <= n
    ensures k > 0 ==> Match(s[..k]).Some?
    ensures forall j :: k < j <= n ==> Match(s[..j]).None?
  {
    if n == 0 then 0
    else if Match(s[..n]).Some? then n
    else LongestMatch(s, n - 1)
  }

  function Lex(s: string): Option<seq<Token>>
    decreases |s|
  {
    if s == "" then Some([])
    else
      var k := LongestMatch(s, |s|);
      if k == 0 then None
      else
        match (Match(s[..k]).value, Lex(s[k..]))
        case (_, None) => None
        case (Skip, Some(tokens)) => Some(tokens)
        case (Keep(token), Some(tokens)) => Some([token] + tokens)
  }

  /** The tokens' texts separated by single spaces. */
  function Print(tokens: seq<Token>): string {
    if tokens == [] then ""
    else Text(tokens[0]) + if |tokens| == 1 then "" else " " + Print(tokens[1..])
  }

  predicate AllLexable(tokens: seq<Token>) {
    forall i :: 0 <= i < |tokens| ==> Lexable(tokens[i])
  }

  // ----- where a token ends -----

  lemma {:induction false} StringTailIsPrefixFree(a: string, b: string)
    requires IsStringTail(a) && IsStringTail(a + b)
    ensures b == ""
    decreases |a|
  {
    if a[0] == '"' {
    } else if a[0] == '\\' {
      assert (a + b)[2..] == a[2..] + b;
      StringTailIsPrefixFree(a[2..], b);
    } else {
      assert (a + b)[1..] == a[1..] + b;
      StringTailIsPrefixFree(a[1..], b);
    }
  }

  predicate IsWordChar(c: char) {
    'a' <= c <= 'z' || 'A' <= c <= 'Z' || '0' <= c <= '9' || c == '_' || c == '.'
  }

  /** What follows a token does not make it longer: nothing does for a string, a
      parenthesis, a comma or a sign of two characters; "<" and ">" must not be
      followed by "=", and a word not by a letter, digit, underscore or dot. */
  predicate EndsBefore(token: Token, rest: string) {
    rest != "" ==>
      match token
      case LPAREN => true case RPAREN => true case COMMA => true
      case EQ => true case NE => true case LE => true case GE => true
      case STRING(_) => true
      case LT => rest[0] != '='
      case GT => rest[0] != '='
      case _ => !IsWordChar(rest[0])
  }

  lemma WordIsNotExtended(t: string, more: string)
    requires t != "" && IsWordChar(t[0]) && more != "" && !IsWordChar(more[0])
    ensures Match(t + more).None?
  {
    hide Match, IsVersionId, IsNumber, IsString;
    var w := t + more;
    assert w[0] == t[0] && w[|t|] == more[0];
    RulesAreShapes(w);
    MatchUnfixed(w);
    if IsFixed(w) { FixedChars(w, |t|); }
  }

  predicate IsWord(token: Token) {
    token in {OR, AND, NOT, IN, RANGE, VERSION, WARN, ERROR} || token.IDENT? || token.VERSIONID? || token.NUMBER?
  }

  lemma WordStarts(token: Token)
    requires Lexable(token) && IsWord(token)
    ensures Text(token) != "" && IsWordChar(Text(token)[0])
  {
    hide Match;
    MatchByShape(Text(token));
  }

  lemma FixedChars(w: string, i: nat)
    requires IsFixed(w) && i < |w|
    ensures IsWordChar(w[0]) ==> IsWordChar(w[i])
  {
  }

  lemma SignIsNotExtended(w: string, n: nat)
    requires 0 < n < |w|
    requires
      || w[0] in {'(', ')', ','}
      || (n >= 2 && w[0] in {'=', '!', '<', '>'})
      || (w[0] in {'<', '>'} && w[1] != '=')
    ensures Match(w).None?
  {
    hide Match, IsVersionId, IsNumber, IsString;
    RulesAreShapes(w);
    MatchUnfixed(w);
  }

  lemma StringIsNotExtended(t: string, more: string)
    requires IsString(t) && more != ""
    ensures Match(t + more).None?
  {
    hide Match, IsVersionId, IsNumber, IsStringTail;
    var w := t + more;
    assert w[0] == t[0] && w[1..] == t[1..] + more;
    RulesAreShapes(w);
    MatchUnfixed(w);
    if IsFixed(w) { FixedShape(w); }
    if IsString(w) { StringTailIsPrefixFree(t[1..], more); }
  }

  /** Nothing longer than a token matches where the token ends. */
  lemma NoLongerMatch(token: Token, more: string)
    requires Lexable(token) && more != "" && EndsBefore(token, more)
    ensures Match(Text(token) + more).None?
  {
    hide Match, IsString;
    var t := Text(token);
    TokenStart(token);
    assert (t + more)[0] == t[0] && (t + more)[|t|] == more[0];
    if token.STRING? {
      StringIsNotExtended(t, more);
    } else if IsWord(token) {
      WordStarts(token);
      WordIsNotExtended(t, more);
    } else {
      SignIsNotExtended(t + more, |t|);
    }
  }

  // ----- printing and lexing again -----

  lemma LongestMatchIs(s: string, n: nat, k: nat)
    requires 0 < k <= n <= |s| && Match(s[..k]).Some?
    requires forall j :: k < j <= n ==> Match(s[..j]).None?
    ensures LongestMatch(s, n) == k
  {
    hide Match;
  }

  /** A token is lexed as itself wherever it ends. */
  lemma LexTokenThen(token: Token, rest: string)
    requires Lexable(token) && EndsBefore(token, rest) && Lex(rest).Some?
    ensures Lex(Text(token) + rest) == Some([token] + Lex(rest).value)
  {
    hide Match, EndsBefore;
    var t := Text(token);
    var s := t + rest;
    TokenStart(token);
    assert s[..|t|] == t && s[|t|..] == rest;
    forall j | |t| < j <= |s| ensures Match(s[..j]).None? {
      assert s[..j] == t + rest[..j - |t|];
      EndsBeforePrefix(token, rest, j - |t|);
      NoLongerMatch(token, rest[..j - |t|]);
    }
    LongestMatchIs(s, |s|, |t|);
  }

  lemma EndsBeforePrefix(token: Token, rest: string, n: nat)
    requires EndsBefore(token, rest) && 0 < n <= |rest|
    ensures EndsBefore(token, rest[..n])
  {
  }

  lemma BlankIsNotExtended(w: string, n: nat)
    requires n < |w| && IsBlank(w[0]) && !IsBlank(w[n])
    ensures Match(w).None?
  {
    hide Match, IsVersionId, IsNumber, IsString, ClosesAtEnd;
    RulesAreShapes(w);
    MatchUnfixed(w);
    if IsFixed(w) { FixedShape(w); }
  }

  lemma CommentIsNotExtended(w: string, n: nat)
    requires n < |w| && w[0] == '#' && (w[n] == '\r' || w[n] == '\n')
    ensures Match(w).None?
  {
    hide Match, IsVersionId, IsNumber, IsString, ClosesAtEnd;
    RulesAreShapes(w);
    MatchUnfixed(w);
    if IsFixed(w) { FixedShape(w); }
  }

  /** Blanks, a line feed among them, are skipped up to the next other character. */
  lemma LexSkipsBlanks(blanks: string, rest: string)
    requires BlankShape(blanks) && (rest != "" ==> !IsBlank(rest[0]))
    ensures Lex(blanks + rest) == Lex(rest)
  {
    hide Match, ClosesAtEnd;
    var s, n := blanks + rest, |blanks|;
    assert s[..n] == blanks && s[n..] == rest;
    MatchByShape(blanks);
    forall j | n < j <= |s| ensures Match(s[..j]).None? {
      BlankIsNotExtended(s[..j], n);
    }
    LongestMatchIs(s, |s|, n);
  }

  /** A comment is skipped up to the end of its line. */
  lemma LexSkipsComment(comment: string, rest: string)
    requires CommentShape(comment) && (rest != "" ==> rest[0] == '\r' || rest[0] == '\n')
    ensures Lex(comment + rest) == Lex(rest)
  {
    hide Match, ClosesAtEnd;
    var s, n := comment + rest, |comment|;
    assert s[..n] == comment && s[n..] == rest;
    MatchByShape(comment);
    forall j | n < j <= |s| ensures Match(s[..j]).None? {
      CommentIsNotExtended(s[..j], n);
    }
    LongestMatchIs(s, |s|, n);
  }

  // ----- the lexing of a text as a whole -----

  /** The pieces make up the text, and each is the longest match where it stands. */
  predicate IsMunch(s: string, pieces: seq<string>)
    decreases pieces
  {
    if pieces == [] then s == ""
    else
      var w := pieces[0];
      && w != "" && w <= s && Match(w).Some?
      && (forall k :: |w| < k <= |s| ==> Match(s[..k]).None?)
      && IsMunch(s[|w|..], pieces[1..])
  }

  /** The tokens of the pieces that are kept. */
  function Kept(pieces: seq<string>): seq<Token> {
    if pieces == [] then []
    else
      match Match(pieces[0])
      case Some(Keep(token)) => [token] + Kept(pieces[1..])
      case _ => Kept(pieces[1..])
  }

  lemma {:induction false} MunchIsLexed(s: string, pieces: seq<string>)
    requires IsMunch(s, pieces)
    ensures Lex(s) == Some(Kept(pieces))
    decreases pieces
  {
    hide Match;
    if pieces == [] {
    } else {
      var w := pieces[0];
      assert s[..|w|] == w;
      LongestMatchIs(s, |s|, |w|);
      MunchIsLexed(s[|w|..], pieces[1..]);
    }
  }

  lemma {:induction false} LexedIsMunch(s: string) returns (pieces: seq<string>)
    requires Lex(s).Some?
    ensures IsMunch(s, pieces) && Lex(s) == Some(Kept(pieces))
    decreases |s|
  {
    hide Match;
    if s == "" {
      pieces := [];
    } else {
      var k := LongestMatch(s, |s|);
      var tail := LexedIsMunch(s[k..]);
      pieces := [s[..k]] + tail;
      assert pieces[0] == s[..k] && pieces[1..] == tail;
      MunchIsLexed(s, pieces);
    }
  }

  /** A text that starts with no match is an error. */
  lemma LexFails(s: string)
    requires s != "" && forall k :: 0 < k <= |s| ==> Match(s[..k]).None?
    ensures Lex(s) == None
  {
    hide Match;
  }

  lemma PrintStarts(tokens: seq<Token>)
    requires AllLexable(tokens) && tokens != []
    ensures Print(tokens) != "" && !IsBlank(Print(tokens)[0])
  {
    hide Match;
    TokenStart(tokens[0]);
    assert Print(tokens)[0] == Text(tokens[0])[0];
  }

  /** Tokens printed before a blank, or before the end, are lexed as themselves. */
  lemma {:induction false} LexPrintThen(tokens: seq<Token>, rest: string)
    requires AllLexable(tokens) && tokens != [] && (rest != "" ==> IsBlank(rest[0])) && Lex(rest).Some?
    ensures Lex(Print(tokens) + rest) == Some(tokens + Lex(rest).value)
  {
    hide Match, LongestMatch, Lex;
    var t, tail := Text(tokens[0]), tokens[1..];
    if tail == [] {
      LexTokenThen(tokens[0], rest);
      assert Print(tokens) == t;
      assert [tokens[0]] + Lex(rest).value == tokens + Lex(rest).value;
    } else {
      LexPrintThen(tail, rest);
      var more := Print(tail) + rest;
      PrintStarts(tail);
      LexSkipsBlanks(" ", more);
      LexTokenThen(tokens[0], " " + more);
      assert Print(tokens) + rest == t + (" " + more);
      assert [tokens[0]] + (tail + Lex(rest).value) == tokens + Lex(rest).value;
    }
  }

  /** Tokens that the lexer can produce survive being printed and lexed again. */
  lemma LexUndoesPrint(tokens: seq<Token>)
    requires AllLexable(tokens)
    ensures Lex(Print(tokens)) == Some(tokens)
  {
    if tokens != [] {
      LexPrintThen(tokens, "");
      assert Print(tokens) + "" == Print(tokens) && tokens + [] == tokens;
    }
  }

  /** A line feed separates: what is before it and what is after it are lexed
      as they are alone. */
  lemma LineFeedSeparates(a: seq<Token>, b: seq<Token>)
    requires AllLexable(a) && AllLexable(b) && a != [] && b != []
    ensures Lex(Print(a) + ("\n" + Print(b))) == Some(a + b)
  {
    hide Match, Lex, Print;
    LexUndoesPrint(b);
    PrintStarts(b);
    LexSkipsBlanks("\n", Print(b));
    LexPrintThen(a, "\n" + Print(b));
  }

  lemma {:induction false} LexedTokensAreLexable(s: string)
    requires Lex(s).Some?
    ensures AllLexable(Lex(s).value)
    decreases |s|
  {
    hide Match;
    if s == "" {
    } else {
      var k := LongestMatch(s, |s|);
      LexedTokensAreLexable(s[k..]);
      if Match(s[..k]).value.Keep? { MatchedText(s[..k], Match(s[..k]).value.token); }
    }
  }

  /** Printing the tokens of any lexed text and lexing again gives the same tokens. */
  lemma RelexIsStable(s: string)
    requires Lex(s).Some?
    ensures Lex(Print(Lex(s).value)) == Lex(s)
  {
    LexedTokensAreLexable(s);
    LexUndoesPrint(Lex(s).value);
  }
}
