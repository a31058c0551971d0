/** The tokens of the policy language, with the lexer rules of the grammar as
    languages: which texts each rule matches. */
module RulesTokens {
  import opened Wrappers

  datatype Token =
    | OR | AND | NOT | IN | RANGE
    | EQ | NE | LT | GT | LE | GE
    | LPAREN | RPAREN | COMMA
    | VERSION | WARN | ERROR
    | IDENT(ident: string)
    | VERSIONID(versionId: string)
    | NUMBER(number: string)
    | STRING(quoted: string)

  /** The text of a token, quotes included for a string. */
  function Text(token: Token): string {
    match token
    case OR => "or" case AND => "and" case NOT => "not" case IN => "in" case RANGE => "range"
    case EQ => "==" case NE => "!=" case LT => "<" case GT => ">" case LE => "<=" case GE => ">="
    case LPAREN => "(" case RPAREN => ")" case COMMA => ","
    case VERSION => "version" case WARN => "warn" case ERROR => "error"
    case IDENT(text) => text
    case VERSIONID(text) => text
    case NUMBER(text) => text
    case STRING(text) => text
  }

  predicate IsLetter(c: char) {
    'a' <= c <= 'z' || 'A' <= c <= 'Z'
  }

  predicate IsDigit(c: char) {
    '0' <= c <= '9'
  }

  predicate IsBlank(c: char) {
    c == ' ' || c == '\t' || c == '\r' || c == '\n'
  }

  /** [0-9]+ */
  predicate IsDigits(w: string) {
    w != "" && forall i :: 0 <= i < |w| ==> IsDigit(w[i])
  }

  /** [A-Za-z0-9]+ */
  predicate IsAlphanumeric(w: string) {
    w != "" && forall i :: 0 <= i < |w| ==> IsLetter(w[i]) || IsDigit(w[i])
  }

  /** IDENT: [a-zA-Z_][a-zA-Z_0-9]* */
  predicate IsIdent(w: string) {
    && w != ""
    && (IsLetter(w[0]) || w[0] == '_')
    && forall i :: 0 <= i < |w| ==> IsLetter(w[i]) || w[i] == '_' || IsDigit(w[i])
  }

  /** VERSIONID: ([A-Za-z0-9]+ '.')+ [A-Za-z0-9]+ */
  predicate IsVersionId(w: string) {
    exists i :: 0 <= i < |w| && w[i] == '.' && IsAlphanumeric(w[..i])
             && (IsAlphanumeric(w[i + 1..]) || IsVersionId(w[i + 1..]))
  }

  /** NUMBER: [0-9]+ ('.' [0-9]+)? */
  predicate IsNumber(w: string) {
    IsDigits(w) || exists i :: 0 <= i < |w| && w[i] == '.' && IsDigits(w[..i]) && IsDigits(w[i + 1..])
  }

  /** The rest of a string after its opening quote: (~["\\] | '\\' .)* '"' */
  predicate IsStringTail(w: string) {
    if w == "" then false
    else if w[0] == '"' then |w| == 1
    else if w[0] == '\\' then |w| >= 2 && IsStringTail(w[2..])
    else IsStringTail(w[1..])
  }

  /** STRING */
  predicate IsString(w: string) {
    w != "" && w[0] == '"' && IsStringTail(w[1..])
  }

  /** WS: [ \t\r\n]+ */
  predicate IsWhitespace(w: string) {
    w != "" && forall i :: 0 <= i < |w| ==> IsBlank(w[i])
  }

  /** COMMENT: '#' ~[\r\n]* */
  predicate IsComment(w: string) {
    w != "" && w[0] == '#' && forall i :: 0 <= i < |w| ==> w[i] != '\r' && w[i] != '\n'
  }

  datatype Lexeme = Keep(token: Token) | Skip

  /** The first rule of the grammar, in order, that matches the whole text. */
  function Match(w: string): Option<Lexeme> {
    if w == "or" then Some(Keep(OR))
    else if w == "and" then Some(Keep(AND))
    else if w == "not" then Some(Keep(NOT))
    else if w == "in" then Some(Keep(IN))
    else if w == "range" then Some(Keep(RANGE))
    else if w == "==" then Some(Keep(EQ))
    else if w == "!=" then Some(Keep(NE))
    else if w == "<" then Some(Keep(LT))
    else if w == ">" then Some(Keep(GT))
    else if w == "<=" then Some(Keep(LE))
    else if w == ">=" then Some(Keep(GE))
    else if w == "(" then Some(Keep(LPAREN))
    else if w == ")" then Some(Keep(RPAREN))
    else if w == "," then Some(Keep(COMMA))
    else if w == "version" then Some(Keep(VERSION))
    else if w == "warn" then Some(Keep(WARN))
    else if w == "error" then Some(Keep(ERROR))
    else if IsIdent(w) then Some(Keep(IDENT(w)))
    else if IsVersionId(w) then Some(Keep(VERSIONID(w)))
    else if IsNumber(w) then Some(Keep(NUMBER(w)))
    else if IsString(w) then Some(Keep(STRING(w)))
    else if IsWhitespace(w) then Some(Skip)
    else if IsComment(w) then Some(Skip)
    else None
  }

  /** A token that the lexer can produce: its own text matches as that token. */
  predicate Lexable(token: Token) {
    Match(Text(token)) == Some(Keep(token))
  }

  lemma MatchedText(w: string, token: Token)
    requires Match(w) == Some(Keep(token))
    ensures Text(token) == w && Lexable(token)
  {
    hide IsIdent, IsVersionId, IsNumber, IsString, IsWhitespace, IsComment;
  }

  lemma NumberWithDotIsVersionId(w: string)
    requires IsNumber(w) && '.' in w
    ensures IsVersionId(w)
  {
    var k :| 0 <= k < |w| && w[k] == '.';
    assert !IsDigit(w[k]);
    var i :| 0 <= i < |w| && w[i] == '.' && IsDigits(w[..i]) && IsDigits(w[i + 1..]);
    assert IsAlphanumeric(w[..i]) && IsAlphanumeric(w[i + 1..]);
  }

  /** No NUMBER token contains a dot: such a text is a VERSIONID, which comes first. */
  lemma NumbersHaveNoDot(token: Token)
    requires Lexable(token) && token.NUMBER?
    ensures '.' !in Text(token)
  {
    hide IsVersionId, IsNumber;
    if '.' in Text(token) { NumberWithDotIsVersionId(Text(token)); }
  }

  /** The words of the language never come out as identifiers. */
  lemma KeywordsAreNotIdents(token: Token)
    requires Lexable(token) && token.IDENT?
    ensures Text(token) !in {"or", "and", "not", "in", "range", "version", "warn", "error"}
  {
  }
}
