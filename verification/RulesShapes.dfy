/** Which texts become which token, stated by their characters: a description of
    Match that does not mention the rules it tries. */
module RulesShapes {
  import opened Wrappers
  import opened RulesTokens

  /** The words and signs of the language. */
  lemma ConnectiveTexts()
    ensures Match("or") == Some(Keep(OR)) && Match("and") == Some(Keep(AND)) && Match("not") == Some(Keep(NOT))
  {
    hide IsIdent, IsVersionId, IsNumber, IsString, IsWhitespace, IsComment;
  }

  lemma RangeTexts()
    ensures Match("in") == Some(Keep(IN)) && Match("range") == Some(Keep(RANGE))
    ensures Match("(") == Some(Keep(LPAREN)) && Match(")") == Some(Keep(RPAREN)) && Match(",") == Some(Keep(COMMA))
  {
    hide IsIdent, IsVersionId, IsNumber, IsString, IsWhitespace, IsComment;
  }

  lemma EqualityTexts()
    ensures Match("==") == Some(Keep(EQ)) && Match("!=") == Some(Keep(NE))
  {
    hide IsIdent, IsVersionId, IsNumber, IsString, IsWhitespace, IsComment;
  }

  lemma OrderTexts()
    ensures Match("<") == Some(Keep(LT)) && Match(">") == Some(Keep(GT))
    ensures Match("<=") == Some(Keep(LE)) && Match(">=") == Some(Keep(GE))
  {
    hide IsIdent, IsVersionId, IsNumber, IsString, IsWhitespace, IsComment;
  }

  lemma StatementTexts()
    ensures Match("version") == Some(Keep(VERSION))
    ensures Match("warn") == Some(Keep(WARN)) && Match("error") == Some(Keep(ERROR))
  {
    hide IsIdent, IsVersionId, IsNumber, IsString, IsWhitespace, IsComment;
  }

  const KEYWORDS := {"or", "and", "not", "in", "range", "version", "warn", "error"}

  /** A letter or underscore, then letters, underscores and digits. */
  predicate IdentShape(w: string) {
    && w != "" && !('0' <= w[0] <= '9')
    && forall i :: 0 <= i < |w| ==>
         'a' <= w[i] <= 'z' || 'A' <= w[i] <= 'Z' || w[i] == '_' || '0' <= w[i] <= '9'
  }

  /** Digits only. */
  predicate DigitsShape(w: string) {
    w != "" && forall i :: 0 <= i < |w| ==> '0' <= w[i] <= '9'
  }

  /** Letters, digits and at least one dot; no dot at an end, none after another. */
  predicate DottedShape(w: string) {
    && '.' in w && w[0] != '.' && w[|w| - 1] != '.'
    && (forall i :: 0 <= i < |w| ==>
          'a' <= w[i] <= 'z' || 'A' <= w[i] <= 'Z' || '0' <= w[i] <= '9' || w[i] == '.')
    && (forall i :: 0 < i < |w| ==> w[i - 1] != '.' || w[i] != '.')
  }

  /** How many backslashes stand directly before position i. */
  function Backslashes(w: string, i: nat): nat
    requires i <= |w|
  {
    if i > 0 && w[i - 1] == '\\' then 1 + Backslashes(w, i - 1) else 0
  }

  /** The last character is the only quote that no backslash escapes. */
  predicate ClosesAtEnd(w: string) {
    && w != ""
    && forall i :: 0 <= i < |w| ==> ((w[i] == '"' && Backslashes(w, i) % 2 == 0) <==> i == |w| - 1)
  }

  /** A quote, and then a text that closes at its end. */
  predicate StringShape(w: string) {
    w != "" && w[0] == '"' && ClosesAtEnd(w[1..])
  }

  predicate BlankShape(w: string) {
    w != "" && forall i :: 0 <= i < |w| ==> w[i] == ' ' || w[i] == '\t' || w[i] == '\r' || w[i] == '\n'
  }

  predicate CommentShape(w: string) {
    w != "" && w[0] == '#' && '\r' !in w && '\n' !in w
  }

  // ----- dotted texts -----

  lemma {:induction false} VersionIdIsDotted(w: string)
    requires IsVersionId(w)
    ensures DottedShape(w)
    decreases |w|
  {
    var k :| 0 <= k < |w| && w[k] == '.' && IsAlphanumeric(w[..k])
          && (IsAlphanumeric(w[k + 1..]) || IsVersionId(w[k + 1..]));
    var head, tail := w[..k], w[k + 1..];
    if !IsAlphanumeric(tail) { VersionIdIsDotted(tail); }
    forall i | 0 <= i < |w|
      ensures 'a' <= w[i] <= 'z' || 'A' <= w[i] <= 'Z' || '0' <= w[i] <= '9' || w[i] == '.'
      ensures i < k ==> w[i] == head[i] && w[i] != '.'
      ensures i > k ==> w[i] == tail[i - k - 1]
    {
      if i < k { assert w[i] == head[i]; }
      if i > k { assert w[i] == tail[i - k - 1]; }
    }
    forall i | 0 < i < |w| ensures w[i - 1] != '.' || w[i] != '.' {
      if i > k + 1 { assert w[i - 1] == tail[i - 1 - k - 1] && w[i] == tail[i - k - 1]; }
    }
  }

  lemma {:induction false} DottedIsVersionId(w: string)
    requires DottedShape(w)
    ensures IsVersionId(w)
    decreases |w|
  {
    var k := FirstDot(w, 0);
    var head, tail := w[..k], w[k + 1..];
    assert w[k + 1] != '.';
    if '.' in tail {
      forall i | 0 < i < |tail| ensures tail[i - 1] != '.' || tail[i] != '.' {
        assert tail[i - 1] == w[i + k] && tail[i] == w[i + k + 1];
      }
      assert tail[|tail| - 1] == w[|w| - 1];
      DottedIsVersionId(tail);
    }
    assert IsAlphanumeric(head);
    assert IsAlphanumeric(tail) || IsVersionId(tail);
  }

  function FirstDot(w: string, i: nat): (k: nat)
    requires i <= |w| && '.' in w[i..]
    ensures i <= k < |w| && w[k] == '.' && forall j :: i <= j < k ==> w[j] != '.'
    decreases |w| - i
  {
    if w[i] == '.' then i else FirstDot(w, i + 1)
  }

  // ----- strings -----

  lemma {:induction false} BackslashesAfter(w: string, n: nat, i: nat)
    requires n <= i <= |w|
    requires n > 0 ==> w[n - 1] != '\\' || Backslashes(w, n) % 2 == 0
    ensures Backslashes(w, i) % 2 == Backslashes(w[n..], i - n) % 2
    decreases i
  {
    if i == n {
    } else {
      assert w[n..][i - n - 1] == w[i - 1];
      BackslashesAfter(w, n, i - 1);
    }
  }

  lemma {:induction false} StringTailClosesAtEnd(w: string)
    ensures IsStringTail(w) <==> ClosesAtEnd(w)
    decreases |w|
  {
    if w == "" {
    } else if w[0] == '"' {
      assert Backslashes(w, 0) == 0;
    } else if w[0] == '\\' {
      if |w| == 1 {
        assert w[0] != '"';
      } else {
        StringTailClosesAtEnd(w[2..]);
        SkipTwo(w);
      }
    } else {
      StringTailClosesAtEnd(w[1..]);
      SkipOne(w);
    }
  }

  lemma SkipOne(w: string)
    requires w != "" && w[0] != '"' && w[0] != '\\'
    ensures ClosesAtEnd(w) <==> ClosesAtEnd(w[1..])
  {
    forall i | 1 <= i < |w|
      ensures w[1..][i - 1] == w[i] && Backslashes(w, i) % 2 == Backslashes(w[1..], i - 1) % 2
    {
      BackslashesAfter(w, 1, i);
    }
    if ClosesAtEnd(w[1..]) {
      forall i | 0 <= i < |w|
        ensures (w[i] == '"' && Backslashes(w, i) % 2 == 0) <==> i == |w| - 1
      {
        if i > 0 { assert w[1..][i - 1] == w[i]; }
      }
    }
    if ClosesAtEnd(w) {
      assert w[|w| - 1] == '"';
      forall i | 0 <= i < |w[1..]|
        ensures (w[1..][i] == '"' && Backslashes(w[1..], i) % 2 == 0) <==> i == |w[1..]| - 1
      {
        assert w[1..][i] == w[i + 1];
        BackslashesAfter(w, 1, i + 1);
      }
    }
  }

  lemma SkipTwo(w: string)
    requires |w| >= 2 && w[0] == '\\'
    ensures ClosesAtEnd(w) <==> ClosesAtEnd(w[2..])
  {
    assert Backslashes(w, 0) == 0 && Backslashes(w, 1) == 1;
    forall i | 2 <= i <= |w| ensures Backslashes(w, i) % 2 == Backslashes(w[2..], i - 2) % 2 {
      BackslashesAfter(w, 2, i);
    }
    if ClosesAtEnd(w[2..]) {
      forall i | 0 <= i < |w|
        ensures (w[i] == '"' && Backslashes(w, i) % 2 == 0) <==> i == |w| - 1
      {
        if i >= 2 { assert w[2..][i - 2] == w[i]; }
      }
    }
    if ClosesAtEnd(w) {
      assert |w| > 2;
      forall i | 0 <= i < |w[2..]|
        ensures (w[2..][i] == '"' && Backslashes(w[2..], i) % 2 == 0) <==> i == |w[2..]| - 1
      {
        assert w[2..][i] == w[i + 2];
        BackslashesAfter(w, 2, i + 2);
      }
    }
  }

  // ----- the shape of every token -----

  /** A number is an ident of digits, or a dotted text. */
  lemma NumberShape(w: string)
    requires IsNumber(w)
    ensures DigitsShape(w) || IsVersionId(w)
  {
    if '.' in w { NumberWithDotIsVersionId(w); }
  }

  lemma DigitsAreNumber(w: string)
    requires DigitsShape(w)
    ensures IsNumber(w) && !IsIdent(w) && !IsVersionId(w)
  {
    assert IsDigits(w);
    if IsVersionId(w) { VersionIdIsDotted(w); }
  }

  predicate IsFixed(w: string) {
    w in KEYWORDS || w in {"==", "!=", "<", ">", "<=", ">=", "(", ")", ","}
  }

  /** A text that is not fixed becomes what the later rules say, in their order. */
  lemma MatchUnfixed(w: string)
    ensures IsFixed(w) ==> Match(w).Some? && Match(w).value.Keep?
    ensures IsFixed(w) ==> !Match(w).value.token.IDENT? && !Match(w).value.token.VERSIONID?
    ensures IsFixed(w) ==> !Match(w).value.token.NUMBER? && !Match(w).value.token.STRING?
    ensures IsFixed(w)
         || Match(w) == (if IsIdent(w) then Some(Keep(IDENT(w)))
                         else if IsVersionId(w) then Some(Keep(VERSIONID(w)))
                         else if IsNumber(w) then Some(Keep(NUMBER(w)))
                         else if IsString(w) then Some(Keep(STRING(w)))
                         else if IsWhitespace(w) || IsComment(w) then Some(Skip)
                         else None)
  {
    hide IsIdent, IsVersionId, IsNumber, IsString, IsWhitespace, IsComment;
  }

  /** Fixed texts start with a letter or a sign, and have no dot. */
  lemma FixedShape(w: string)
    requires IsFixed(w)
    ensures w != "" && '.' !in w && !('0' <= w[0] <= '9')
    ensures w[0] !in {'"', '#', ' ', '\t', '\r', '\n'}
    ensures IdentShape(w) ==> w in KEYWORDS
  {
  }

  /** No text has two of the shapes. */
  lemma ShapesAreDisjoint(w: string)
    ensures IdentShape(w) ==> !DottedShape(w)
    ensures DigitsShape(w) ==> !IdentShape(w) && !DottedShape(w)
    ensures StringShape(w) ==> !IdentShape(w) && !DottedShape(w) && !DigitsShape(w)
    ensures BlankShape(w) || CommentShape(w) ==>
      !IdentShape(w) && !DottedShape(w) && !DigitsShape(w) && !StringShape(w)
  {
    hide ClosesAtEnd;
  }

  /** The character rules of the grammar are the shapes. */
  lemma RulesAreShapes(w: string)
    ensures IsIdent(w) <==> IdentShape(w)
    ensures IsVersionId(w) <==> DottedShape(w)
    ensures IsNumber(w) ==> DigitsShape(w) || DottedShape(w)
    ensures DigitsShape(w) ==> IsNumber(w)
    ensures IsString(w) <==> StringShape(w)
    ensures IsWhitespace(w) <==> BlankShape(w)
    ensures IsComment(w) <==> CommentShape(w)
  {
    hide IsVersionId, IsNumber, IsStringTail, ClosesAtEnd, DottedShape;
    if IsVersionId(w) { VersionIdIsDotted(w); }
    if DottedShape(w) { DottedIsVersionId(w); }
    if IsNumber(w) { NumberShape(w); }
    if DigitsShape(w) { DigitsAreNumber(w); }
    if w != "" { StringTailClosesAtEnd(w[1..]); }
  }

  /** What a text is lexed as when a rule matches all of it, by its shape. */
  lemma MatchByShape(w: string)
    ensures Match(w) == Some(Keep(IDENT(w))) <==> IdentShape(w) && w !in KEYWORDS
    ensures Match(w) == Some(Keep(VERSIONID(w))) <==> DottedShape(w)
    ensures Match(w) == Some(Keep(NUMBER(w))) <==> DigitsShape(w)
    ensures Match(w) == Some(Keep(STRING(w))) <==> StringShape(w)
    ensures Match(w) == Some(Skip) <==> BlankShape(w) || CommentShape(w)
  {
    MatchUnfixed(w);
    RulesAreShapes(w);
    ShapesAreDisjoint(w);
    if IsFixed(w) {
      FixedShape(w);
      assert !DottedShape(w) && !DigitsShape(w) && !StringShape(w) && !BlankShape(w) && !CommentShape(w);
    }
    hide Match, IsIdent, IsVersionId, IsNumber, IsString, IsWhitespace, IsComment,
         IdentShape, DottedShape, DigitsShape, StringShape, BlankShape, CommentShape;
  }

  /** A token does not start as a blank or comment does, and starts with a quote
      exactly when it is a string. */
  lemma TokenStart(token: Token)
    requires Lexable(token)
    ensures var text := Text(token);
      && text != "" && text[0] !in {'#', ' ', '\t', '\r', '\n'}
      && (text[0] == '"' <==> token.STRING?) && (token.STRING? <==> IsString(text))
  {
    hide Match, IsVersionId, IsNumber, IsString, ClosesAtEnd;
    var w := Text(token);
    MatchUnfixed(w);
    RulesAreShapes(w);
    ShapesAreDisjoint(w);
    if IsFixed(w) { FixedShape(w); }
  }

  /** Digits, a dot and digits are one token, a VERSIONID. */
  lemma DecimalIsVersionId(whole: string, fraction: string)
    requires DigitsShape(whole) && DigitsShape(fraction)
    ensures Match(whole + "." + fraction) == Some(Keep(VERSIONID(whole + "." + fraction)))
  {
    hide Match;
    var w := whole + "." + fraction;
    assert w[|whole|] == '.';
    assert DottedShape(w);
    MatchByShape(w);
  }
}
