/** The CSV writer, and a reader of LF-terminated rows after section 2 of
    RFC 4180 that undoes it. */
module Csv {
  import opened Wrappers

  const NUL := '\0'

  /** The string with every double quote doubled. */
  function Doubled(s: string): string {
    if s == "" then ""
    else Doubled(s[..|s| - 1]) + if s[|s| - 1] == '"' then "\"\"" else [s[|s| - 1]]
  }

  predicate MustQuote(s: string) {
    ',' in s || '"' in s || '\n' in s
  }

  /** What csv_escape returns. */
  function Escaped(s: string): string {
    if MustQuote(s) then "\"" + Doubled(s) + "\"" else s
  }

  /** The position of the first `c` at or after `pos`, None if there is none. */
  function Find(s: string, c: char, pos: nat): (r: Option<nat>)
    ensures r.Some? ==> pos <= r.value < |s| && s[r.value] == c
    ensures forall i :: pos <= i < (if r.Some? then r.value else |s|) ==> s[i] != c
    decreases |s| - pos
  {
    if pos >= |s| then None
    else if s[pos] == c then Some(pos)
    else Find(s, c, pos + 1)
  }

  lemma {:induction false} DoubledConcat(a: string, b: string)
    ensures Doubled(a + b) == Doubled(a) + Doubled(b)
  {
    if b == "" {
      assert a + b == a;
    } else {
      assert (a + b)[..|a + b| - 1] == a + b[..|b| - 1];
      DoubledConcat(a, b[..|b| - 1]);
    }
  }

  lemma {:induction false} DoubledPlain(s: string)
    requires forall i :: 0 <= i < |s| ==> s[i] != '"'
    ensures Doubled(s) == s
  {
    if s == "" {
    } else {
      DoubledPlain(s[..|s| - 1]);
      assert s == s[..|s| - 1] + [s[|s| - 1]];
    }
  }

  /** csv_escape: doubles the quotes in place, then quotes the whole. */
  method CsvEscape(value: string) returns (escaped: string)
    ensures escaped == Escaped(value)
  {
    hide Doubled, Find;
    var mustQuote := MustQuote(value);
    escaped := value;
    NothingDoubled();
    var pos := 0;
    var found := Find(escaped, '"', pos);
    ghost var done, rest := "", value;
    while found.Some?
      invariant value == done + rest && escaped == Doubled(done) + rest
      invariant pos == |Doubled(done)| <= |escaped| && found == Find(escaped, '"', pos)
      decreases |escaped| - pos
    {
      var gap := found.value - pos;
      DoubleNext(done, rest, gap);
      done, rest := done + rest[..gap + 1], rest[gap + 1..];
      escaped := escaped[..found.value] + "\"" + escaped[found.value..];
      pos := found.value + 2;
      found := Find(escaped, '"', pos);
    }
    NothingToDouble(done, rest);
    assert escaped == Doubled(value);
    if !mustQuote { DoubledPlain(value); }
    if mustQuote {
      escaped := "\"" + escaped + "\"";
    }
  }

  lemma NothingDoubled()
    ensures Doubled("") == ""
  {
  }

  /** The next quote of the rest, found `gap` characters into it, is doubled by
      inserting one more. */
  lemma DoubleNext(done: string, rest: string, gap: nat)
    requires Find(Doubled(done) + rest, '"', |Doubled(done)|) == Some(|Doubled(done)| + gap)
    ensures gap < |rest|
    ensures var at := |Doubled(done)| + gap;
      var escaped := Doubled(done) + rest;
      && Doubled(done + rest[..gap + 1]) == escaped[..at] + "\"\""
      && escaped[..at] + "\"" + escaped[at..] == Doubled(done + rest[..gap + 1]) + rest[gap + 1..]
      && done + rest == done + rest[..gap + 1] + rest[gap + 1..]
  {
    hide Doubled, Find;
    assert (Doubled(done) + rest)[|Doubled(done)| + gap] == rest[gap];
    var skipped := rest[..gap];
    forall i | 0 <= i < gap ensures skipped[i] != '"' {
      assert (Doubled(done) + rest)[|Doubled(done)| + i] == rest[i];
    }
    DoubledSkip(done, skipped);
    assert done + rest[..gap + 1] == done + skipped + "\"";
    assert rest == skipped + "\"" + rest[gap + 1..];
    assert (Doubled(done) + rest)[..|Doubled(done)| + gap] == Doubled(done) + skipped;
    assert (Doubled(done) + rest)[|Doubled(done)| + gap..] == "\"" + rest[gap + 1..];
  }

  lemma DoubledSkip(done: string, skipped: string)
    requires forall i :: 0 <= i < |skipped| ==> skipped[i] != '"'
    ensures Doubled(done + skipped + "\"") == Doubled(done) + skipped + "\"\""
  {
    DoubledConcat(done + skipped, "\"");
    DoubledConcat(done, skipped);
    DoubledPlain(skipped);
    assert "\""[..0] == "" && Doubled("\"") == Doubled("") + "\"\"";
  }

  lemma NothingToDouble(done: string, rest: string)
    requires Find(Doubled(done) + rest, '"', |Doubled(done)|) == None
    ensures Doubled(done) + rest == Doubled(done + rest)
  {
    hide Doubled, Find;
    forall i | 0 <= i < |rest| ensures rest[i] != '"' {
      assert (Doubled(done) + rest)[|Doubled(done)| + i] == rest[i];
    }
    DoubledConcat(done, rest);
    DoubledPlain(rest);
  }

  // ----- writing -----

  /** A C string ends at its first NUL. */
  function CStr(s: string): string {
    match Find(s, NUL, 0)
    case None => s
    case Some(i) => s[..i]
  }

  /** One row: the fields separated by commas, ended by a line feed. A row
      without fields writes nothing, not even its end. */
  function WrittenRow(row: seq<string>): string {
    if row == [] then ""
    else CStr(Escaped(row[0])) + if |row| == 1 then "\n" else "," + WrittenRow(row[1..])
  }

  function Written(rows: seq<seq<string>>): string {
    if rows == [] then "" else WrittenRow(rows[0]) + Written(rows[1..])
  }

  lemma WriteNext(row: seq<string>, i: nat, out: string)
    requires i < |row|
    ensures out + WrittenRow(row[i..])
         == out + (CStr(Escaped(row[i])) + if i + 1 < |row| then "," else "\n") + WrittenRow(row[i + 1..])
  {
    hide CStr, Escaped;
    assert row[i..][0] == row[i] && row[i..][1..] == row[i + 1..];
  }

  /** The row-writing loop of parse_files. */
  method WriteRow(row: seq<string>, output: string) returns (out: string)
    ensures out == output + WrittenRow(row)
  {
    hide CStr, Escaped;
    out := output;
    assert row[0..] == row;
    for i := 0 to |row|
      invariant out + WrittenRow(row[i..]) == output + WrittenRow(row)
    {
      WriteNext(row, i, out);
      var field := CsvEscape(row[i]);
      out := out + (CStr(field) + if i + 1 < |row| then "," else "\n");
    }
    assert row[|row|..] == [] && out + "" == out;
  }

  method WriteRows(rows: seq<seq<string>>) returns (out: string)
    ensures out == Written(rows)
    ensures ReadCsv(out) == Some(rows) <==> NonemptyRows(rows) && AllNulFree(rows)
  {
    hide ReadCsv, AllNulFree, NonemptyRows;
    CsvRoundTrip(rows);
    out := "";
    for i := 0 to |rows|
      invariant out + Written(rows[i..]) == Written(rows)
    {
      assert rows[i..][0] == rows[i] && rows[i..][1..] == rows[i + 1..];
      assert out + (WrittenRow(rows[i]) + Written(rows[i + 1..])) == out + WrittenRow(rows[i]) + Written(rows[i + 1..]);
      out := WriteRow(rows[i], out);
    }
  }

  // ----- reading -----

  /** The inside of a quoted field up to its closing quote: two quotes stand for
      one, one ends the field. */
  function ReadQuoted(s: string): (r: Option<(string, string)>)
    ensures r.Some? ==> |r.value.1| < |s|
  {
    if s == "" then None
    else if s[0] != '"' then
      match ReadQuoted(s[1..])
      case None => None
      case Some((field, rest)) => Some(([s[0]] + field, rest))
    else if |s| >= 2 && s[1] == '"' then
      match ReadQuoted(s[2..])
      case None => None
      case Some((field, rest)) => Some(("\"" + field, rest))
    else Some(("", s[1..]))
  }

  /** An unquoted field, up to the comma or line feed; it has no quotes. */
  function ReadPlain(s: string): (r: Option<(string, string)>)
    ensures r.Some? ==> |r.value.1| <= |s|
  {
    if s == "" || s[0] == ',' || s[0] == '\n' then Some(("", s))
    else if s[0] == '"' then None
    else
      match ReadPlain(s[1..])
      case None => None
      case Some((field, rest)) => Some(([s[0]] + field, rest))
  }

  function ReadField(s: string): (r: Option<(string, string)>)
    ensures r.Some? ==> |r.value.1| <= |s|
  {
    if s != "" && s[0] == '"' then ReadQuoted(s[1..]) else ReadPlain(s)
  }

  function ReadRow(s: string): (r: Option<(seq<string>, string)>)
    ensures r.Some? ==> |r.value.1| < |s|
    decreases |s|
  {
    match ReadField(s)
    case None => None
    case Some((field, rest)) =>
      if rest != "" && rest[0] == '\n' then Some(([field], rest[1..]))
      else if rest != "" && rest[0] == ',' then
        match ReadRow(rest[1..])
        case None => None
        case Some((fields, end)) => Some(([field] + fields, end))
      else None
  }

  /** Rows up to the end of the text, each ended by a line feed. */
  function ReadCsv(s: string): Option<seq<seq<string>>>
    decreases |s|
  {
    if s == "" then Some([])
    else
      match ReadRow(s)
      case None => None
      case Some((row, rest)) =>
        match ReadCsv(rest)
        case None => None
        case Some(rows) => Some([row] + rows)
  }

  // ----- the round trip -----

  predicate NulFree(s: string) {
    NUL !in s
  }

  predicate AtFieldEnd(s: string) {
    s != "" && (s[0] == ',' || s[0] == '\n')
  }

  lemma {:induction false} DoubledHead(s: string)
    requires s != ""
    ensures Doubled(s) == (if s[0] == '"' then "\"\"" else [s[0]]) + Doubled(s[1..])
  {
    assert s == [s[0]] + s[1..];
    DoubledConcat([s[0]], s[1..]);
    assert [s[0]][..0] == "";
    assert Doubled([s[0]]) == Doubled("") + if s[0] == '"' then "\"\"" else [s[0]];
  }

  lemma {:induction false} ReadQuotedUndoesDoubled(s: string, rest: string)
    requires AtFieldEnd(rest)
    ensures ReadQuoted(Doubled(s) + "\"" + rest) == Some((s, rest))
  {
    var text := Doubled(s) + "\"" + rest;
    if s == "" {
      assert text == "\"" + rest && text[1..] == rest;
    } else {
      DoubledHead(s);
      ReadQuotedUndoesDoubled(s[1..], rest);
      assert s == [s[0]] + s[1..];
      if s[0] == '"' {
        assert text[2..] == Doubled(s[1..]) + "\"" + rest;
      } else {
        assert text[1..] == Doubled(s[1..]) + "\"" + rest;
      }
    }
  }

  lemma {:induction false} ReadPlainStops(s: string, rest: string)
    requires !MustQuote(s) && AtFieldEnd(rest)
    ensures ReadPlain(s + rest) == Some((s, rest))
  {
    if s == "" {
      assert s + rest == rest;
    } else {
      assert (s + rest)[1..] == s[1..] + rest && s == [s[0]] + s[1..];
      ReadPlainStops(s[1..], rest);
    }
  }

  lemma ReadFieldUndoesEscape(s: string, rest: string)
    requires AtFieldEnd(rest)
    ensures ReadField(Escaped(s) + rest) == Some((s, rest))
  {
    hide ReadQuoted, ReadPlain, Doubled, MustQuote;
    if MustQuote(s) {
      ReadQuotedUndoesDoubled(s, rest);
      assert (Escaped(s) + rest)[1..] == Doubled(s) + "\"" + rest;
    } else {
      ReadPlainStops(s, rest);
      PlainStart(s, rest);
    }
  }

  lemma PlainStart(s: string, rest: string)
    requires !MustQuote(s) && AtFieldEnd(rest)
    ensures s + rest != "" && (s + rest)[0] != '"'
  {
    if s == "" { assert s + rest == rest; } else { assert (s + rest)[0] == s[0]; }
  }

  // ----- NUL characters -----

  lemma CStrOfNulFree(s: string)
    requires NulFree(s)
    ensures CStr(s) == s
  {
  }

  lemma {:induction false} DoubledNulFree(s: string)
    ensures NulFree(Doubled(s)) <==> NulFree(s)
  {
    if s == "" {
    } else {
      DoubledNulFree(s[..|s| - 1]);
      assert s == s[..|s| - 1] + [s[|s| - 1]];
    }
  }

  lemma EscapedNulFree(s: string)
    requires NulFree(s)
    ensures NulFree(Escaped(s)) && CStr(Escaped(s)) == Escaped(s)
  {
    DoubledNulFree(s);
    CStrOfNulFree(Escaped(s));
  }

  /** Every field of every row is free of NULs. */
  predicate RowNulFree(row: seq<string>) {
    forall i :: 0 <= i < |row| ==> NulFree(row[i])
  }

  predicate AllNulFree(rows: seq<seq<string>>) {
    forall i :: 0 <= i < |rows| ==> RowNulFree(rows[i])
  }

  lemma ReadLastField(field: string, rest: string)
    ensures ReadRow(Escaped(field) + ("\n" + rest)) == Some(([field], rest))
  {
    hide ReadField, Escaped;
    var end := "\n" + rest;
    ReadFieldUndoesEscape(field, end);
    assert end[0] == '\n' && end[1..] == rest;
  }

  lemma ReadNextField(field: string, more: string)
    requires ReadRow(more).Some?
    ensures var (fields, rest) := ReadRow(more).value;
      ReadRow(Escaped(field) + ("," + more)) == Some(([field] + fields, rest))
  {
    hide ReadField, Escaped;
    var end := "," + more;
    ReadFieldUndoesEscape(field, end);
    assert end[0] == ',' && end[1..] == more;
  }

  /** The text of a row, followed by some more text, begins with its first field. */
  lemma WrittenRowStarts(row: seq<string>, field: string, rest: string)
    requires row != [] && CStr(Escaped(row[0])) == field
    ensures WrittenRow(row) + rest
         == field + if |row| == 1 then "\n" + rest else "," + (WrittenRow(row[1..]) + rest)
  {
    hide CStr, Escaped;
    if |row| == 1 {
      Regrouped(field, "\n", rest);
    } else {
      var tail := WrittenRow(row[1..]);
      Regrouped(field, "," + tail, rest);
      Regrouped(",", tail, rest);
    }
  }

  lemma Regrouped(a: string, b: string, c: string)
    ensures a + b + c == a + (b + c)
  {
  }

  lemma {:induction false} ReadRowUndoesWrite(row: seq<string>, rest: string)
    requires row != [] && RowNulFree(row)
    ensures ReadRow(WrittenRow(row) + rest) == Some((row, rest))
  {
    hide ReadRow, WrittenRow, Escaped, CStr, NulFree;
    var field, tail := row[0], row[1..];
    EscapedNulFree(field);
    WrittenRowStarts(row, Escaped(field), rest);
    if tail == [] {
      ReadLastField(field, rest);
      assert row == [field];
    } else {
      ReadRowUndoesWrite(tail, rest);
      ReadNextField(field, WrittenRow(tail) + rest);
      assert row == [field] + tail;
    }
  }

  predicate NonemptyRows(rows: seq<seq<string>>) {
    forall i :: 0 <= i < |rows| ==> rows[i] != []
  }

  lemma {:induction false} ReadUndoesWrite(rows: seq<seq<string>>)
    requires NonemptyRows(rows) && AllNulFree(rows)
    ensures ReadCsv(Written(rows)) == Some(rows)
  {
    hide ReadRow, WrittenRow, RowNulFree;
    if rows == [] {
    } else {
      ReadRowUndoesWrite(rows[0], Written(rows[1..]));
      ReadUndoesWrite(rows[1..]);
      assert rows == [rows[0]] + rows[1..];
    }
  }

  // a reader yields no character that is not in the text

  lemma {:induction false} ReadQuotedKeepsNulFree(s: string)
    requires ReadQuoted(s).Some? && NulFree(s)
    ensures NulFree(ReadQuoted(s).value.0) && NulFree(ReadQuoted(s).value.1)
    decreases |s|
  {
    if s[0] != '"' {
      ReadQuotedKeepsNulFree(s[1..]);
    } else if |s| >= 2 && s[1] == '"' {
      ReadQuotedKeepsNulFree(s[2..]);
    }
  }

  lemma {:induction false} ReadPlainKeepsNulFree(s: string)
    requires ReadPlain(s).Some? && NulFree(s)
    ensures NulFree(ReadPlain(s).value.0) && NulFree(ReadPlain(s).value.1)
  {
    if s == "" || s[0] == ',' || s[0] == '\n' {
    } else {
      ReadPlainKeepsNulFree(s[1..]);
    }
  }

  lemma {:induction false} ReadRowKeepsNulFree(s: string)
    requires ReadRow(s).Some? && NulFree(s)
    ensures RowNulFree(ReadRow(s).value.0) && NulFree(ReadRow(s).value.1)
    decreases |s|
  {
    hide ReadQuoted, ReadPlain;
    if s != "" && s[0] == '"' { ReadQuotedKeepsNulFree(s[1..]); } else { ReadPlainKeepsNulFree(s); }
    var rest := ReadField(s).value.1;
    if rest[0] == '\n' {
    } else {
      ReadRowKeepsNulFree(rest[1..]);
    }
  }

  lemma {:induction false} ReadKeepsNulFree(s: string)
    requires ReadCsv(s).Some? && NulFree(s)
    ensures AllNulFree(ReadCsv(s).value)
    decreases |s|
  {
    hide ReadRow, RowNulFree, NulFree;
    if s == "" {
    } else {
      ReadRowKeepsNulFree(s);
      ReadKeepsNulFree(ReadRow(s).value.1);
    }
  }

  lemma {:induction false} WrittenRowIsNulFree(row: seq<string>)
    ensures NulFree(WrittenRow(row))
  {
    if row == [] {
    } else {
      WrittenRowIsNulFree(row[1..]);
    }
  }

  lemma {:induction false} WrittenIsNulFree(rows: seq<seq<string>>)
    ensures NulFree(Written(rows))
  {
    if rows == [] {
    } else {
      WrittenRowIsNulFree(rows[0]);
      WrittenIsNulFree(rows[1..]);
    }
  }

  /** A reader yields no row without fields. */
  lemma {:induction false} ReadRowsAreNonempty(s: string)
    requires ReadCsv(s).Some?
    ensures NonemptyRows(ReadCsv(s).value)
    decreases |s|
  {
    if s == "" {
    } else {
      ReadRowsAreNonempty(ReadRow(s).value.1);
    }
  }

  /** Reading the written text gives back exactly the rows if and only if every
      row has a field and no field contains a NUL. */
  lemma {:induction false} CsvRoundTrip(rows: seq<seq<string>>)
    ensures ReadCsv(Written(rows)) == Some(rows) <==> NonemptyRows(rows) && AllNulFree(rows)
  {
    hide ReadCsv, Written, AllNulFree, NonemptyRows, NulFree;
    if NonemptyRows(rows) && AllNulFree(rows) {
      ReadUndoesWrite(rows);
    }
    if ReadCsv(Written(rows)) == Some(rows) {
      ReadRowsAreNonempty(Written(rows));
      WrittenIsNulFree(rows);
      ReadKeepsNulFree(Written(rows));
    }
  }

  /** A row of one NUL is read back as a row of one empty field, and a row
      without fields is not read back at all. */
  lemma CsvRoundTripFails()
    ensures Written([["\0"]]) == "\n" && ReadCsv("\n") == Some([[""]])
    ensures Written([[]]) == "" && ReadCsv("") == Some([])
  {
    assert !MustQuote("\0") && CStr("\0") == "";
    assert ReadField("\n") == Some(("", "\n"));
    assert ReadRow("\n") == Some(([""], ""));
    assert ReadCsv("") == Some([]) && [[""]] + [] == [[""]];
  }

  // ----- what the text looks like -----

  predicate IsSpecial(c: char) {
    c == ',' || c == '"' || c == '\n'
  }

  /** A field is written as it is exactly when it has no comma, quote or line
      feed, and else between two quotes with its own quotes doubled. */
  lemma EscapedForm(s: string)
    ensures (forall i :: 0 <= i < |s| ==> !IsSpecial(s[i])) <==> Escaped(s) == s
    ensures (exists i :: 0 <= i < |s| && IsSpecial(s[i])) ==>
      |Escaped(s)| >= 2 && Escaped(s) == "\"" + Escaped(s)[1..|Escaped(s)| - 1] + "\""
  {
    hide Doubled;
    DoubledIsLonger(s);
    if exists i :: 0 <= i < |s| && IsSpecial(s[i]) {
      var i :| 0 <= i < |s| && IsSpecial(s[i]);
      assert s[i] in s;
      assert MustQuote(s);
    }
  }

  lemma {:induction false} DoubledIsLonger(s: string)
    ensures |Doubled(s)| >= |s|
  {
    if s == "" {
    } else {
      DoubledIsLonger(s[..|s| - 1]);
    }
  }

  /** A field without special characters ends at its first NUL, if any, and fields
      are separated by commas and ended by a line feed. */
  lemma RowForm(field: string, row: seq<string>)
    requires (forall i :: 0 <= i < |field| ==> !IsSpecial(field[i])) && NUL !in field
    ensures WrittenRow([field]) == field + "\n"
    ensures row != [] ==> WrittenRow([field] + row) == field + "," + WrittenRow(row)
  {
    hide Doubled, Find;
    assert CStr(field) == field by { CStrOfNulFree(field); }
    assert Escaped(field) == field by { EscapedForm(field); }
    assert ([field] + row)[1..] == row;
  }

  /** A C string is the text before its first NUL. */
  lemma CStrForm(s: string)
    ensures CStr(s) <= s && NUL !in CStr(s)
    ensures CStr(s) == s || s[|CStr(s)|] == NUL
  {
  }
}
