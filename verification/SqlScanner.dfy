/**
 The two quote-aware scanners of scripts/sql_to_json.py, and the printing they undo: a quoted
 constant doubles its single quotes (section 4.1.2.1 of the PostgreSQL documentation).
 */
module SqlScanner {
  import opened Support

  /** One column value: stripped, and the text NULL is null, quoted or not. */
  function ReadToken(raw: string): Option<string> {
    if Strip(raw) == "NULL" then None else Some(Strip(raw))
  }

  // ----- splitting one row into values -----

  /** The values still to come when `rest` is unread and `current` is the value being collected. */
  function Values(rest: string, current: string, inQuote: bool): seq<Option<string>>
    decreases |rest|
  {
    if rest == "" then [ReadToken(current)]
    else if inQuote then
      if rest[0] == '\'' && |rest| > 1 && rest[1] == '\'' then Values(rest[2..], current + "'", true)
      else if rest[0] == '\'' then Values(rest[1..], current, false)
      else Values(rest[1..], current + [rest[0]], true)
    else if rest[0] == '\'' then Values(rest[1..], current, true)
    else if rest[0] == ',' then [ReadToken(current)] + Values(rest[1..], "", false)
    else Values(rest[1..], current + [rest[0]], false)
  }

  method ParseSqlValues(valuesStr: string) returns (result: seq<Option<string>>)
    ensures result == Values(valuesStr, "", false)
  {
    result := [];
    var current, inQuote, i := "", false, 0;
    while i < |valuesStr|
      invariant 0 <= i <= |valuesStr|
      invariant result + Values(valuesStr[i..], current, inQuote) == Values(valuesStr, "", false)
    {
      var ch := valuesStr[i];
      ghost var rest := valuesStr[i..];
      assert rest[1..] == valuesStr[i + 1..];
      assert i + 1 < |valuesStr| ==> rest[2..] == valuesStr[i + 2..];
      if inQuote {
        if ch == '\'' && i + 1 < |valuesStr| && valuesStr[i + 1] == '\'' {
          current, i := current + "'", i + 2;
          continue;
        }
        if ch == '\'' {
          inQuote := false;
        } else {
          current := current + [ch];
        }
      } else if ch == '\'' {
        inQuote := true;
      } else if ch == ',' {
        assert result + ([ReadToken(current)] + Values(rest[1..], "", false))
            == (result + [ReadToken(current)]) + Values(rest[1..], "", false);
        result, current := result + [ReadToken(current)], "";
      } else {
        current := current + [ch];
      }
      i := i + 1;
    }
    result := result + [ReadToken(current)];
  }

  // ----- splitting a VALUES block into rows -----

  /** The rows still to come: `depth` counts open parentheses, `row` is the text since the outer one. */
  function Tuples(rest: string, depth: int, row: string, inQuote: bool): seq<string>
    decreases |rest|
  {
    if rest == "" then []
    else if inQuote then
      if rest[0] == '\'' && |rest| > 1 && rest[1] == '\'' then Tuples(rest[2..], depth, row + "''", true)
      else Tuples(rest[1..], depth, row + [rest[0]], rest[0] != '\'')
    else if rest[0] == '\'' then Tuples(rest[1..], depth, row + [rest[0]], true)
    else if rest[0] == '(' && depth == 0 then Tuples(rest[1..], 1, "", false)
    else if rest[0] == '(' then Tuples(rest[1..], depth + 1, row + [rest[0]], false)
    else if rest[0] == ')' && depth == 1 then [row] + Tuples(rest[1..], 0, "", false)
    else if rest[0] == ')' then Tuples(rest[1..], depth - 1, row + [rest[0]], false)
    else Tuples(rest[1..], depth, row + [rest[0]], false)
  }

  method SplitRowTuples(valuesBlock: string) returns (rows: seq<string>)
    ensures rows == Tuples(valuesBlock, 0, "", false)
  {
    rows := [];
    var depth, start, inQuote, i := 0, -1, false, 0;
    ghost var row := "";
    while i < |valuesBlock|
      invariant 0 <= i <= |valuesBlock|
      invariant depth >= 1 ==> 0 <= start <= i && row == valuesBlock[start..i]
      invariant rows + Tuples(valuesBlock[i..], depth, row, inQuote) == Tuples(valuesBlock, 0, "", false)
    {
      var ch := valuesBlock[i];
      ghost var rest := valuesBlock[i..];
      assert rest[1..] == valuesBlock[i + 1..];
      assert i + 1 < |valuesBlock| ==> rest[2..] == valuesBlock[i + 2..];
      assert depth >= 1 ==> row + [ch] == valuesBlock[start..i + 1];
      if inQuote {
        if ch == '\'' && i + 1 < |valuesBlock| && valuesBlock[i + 1] == '\'' {
          assert depth >= 1 ==> row + "''" == valuesBlock[start..i + 2];
          row := row + "''";
          i := i + 2;
          continue;
        }
        if ch == '\'' {
          inQuote := false;
        }
        row := row + [ch];
      } else if ch == '\'' {
        inQuote := true;
        row := row + [ch];
      } else if ch == '(' && depth == 0 {
        depth, start := 1, i + 1;
        row := "";
      } else if ch == '(' {
        depth := depth + 1;
        row := row + [ch];
      } else if ch == ')' && depth == 1 {
        rows := rows + [valuesBlock[start..i]];
        depth, start := 0, -1;
        row := "";
      } else if ch == ')' {
        depth := depth - 1;
        row := row + [ch];
      } else {
        row := row + [ch];
      }
      i := i + 1;
    }
  }

  // ----- printing -----

  /** A quoted constant, or a bare one such as 42 or NULL. */
  datatype Literal = Quoted(text: string) | Bare(text: string)

  /** A literal with white space around it. */
  datatype Field = Field(left: string, literal: Literal, right: string)

  /** A row and the text between it and the row before. */
  datatype Row = Row(gap: string, fields: seq<Field>)

  predicate Lacks(s: string, special: string) {
    forall i :: 0 <= i < |s| ==> s[i] !in special
  }

  predicate Printable(f: Field) {
    Blank(f.left) && Blank(f.right) && (f.literal.Bare? ==> Lacks(f.literal.text, "',()"))
  }

  predicate PrintableRow(r: Row) {
    PrintableFields(r.fields) && Lacks(r.gap, "'()")
  }

  predicate PrintableFields(fields: seq<Field>) {
    fields != [] && forall i :: 0 <= i < |fields| ==> Printable(fields[i])
  }

  /** `s` with its quotes doubled, and then `rest`. */
  function Doubled(s: string, rest: string): string {
    if s == "" then rest
    else if s[0] == '\'' then "''" + Doubled(s[1..], rest)
    else [s[0]] + Doubled(s[1..], rest)
  }

  function PrintField(f: Field): string {
    f.left + (if f.literal.Quoted? then "'" + Doubled(f.literal.text, "'") else f.literal.text) + f.right
  }

  function PrintFields(fields: seq<Field>): string {
    if fields == [] then ""
    else if |fields| == 1 then PrintField(fields[0])
    else PrintField(fields[0]) + "," + PrintFields(fields[1..])
  }

  function PrintRows(rows: seq<Row>): string {
    if rows == [] then ""
    else rows[0].gap + "(" + PrintFields(rows[0].fields) + ")" + PrintRows(rows[1..])
  }

  /** What reading a printed row must give: each text stripped, NULL as null. */
  function Read(fields: seq<Field>): seq<Option<string>> {
    if fields == [] then [] else [ReadToken(fields[0].literal.text)] + Read(fields[1..])
  }

  // ----- parsing undoes printing -----

  /** A closing quote is recognised only when no other quote follows it. */
  predicate NoQuoteNext(rest: string) {
    rest == "" || rest[0] != '\''
  }

  lemma ValuesAtQuoted(c: char, rest: string, current: string)
    ensures c != '\'' ==> Values([c] + rest, current, true) == Values(rest, current + [c], true)
    ensures Values("''" + rest, current, true) == Values(rest, current + "'", true)
    ensures NoQuoteNext(rest) ==> Values("'" + rest, current, true) == Values(rest, current, false)
    ensures Values("'" + rest, current, false) == Values(rest, current, true)
  {
    assert ([c] + rest)[1..] == rest && ("'" + rest)[1..] == rest && ("''" + rest)[2..] == rest;
  }

  lemma {:induction false} ValuesThroughQuoted(text: string, rest: string, current: string)
    requires NoQuoteNext(rest)
    ensures Values(Doubled(text, "'" + rest), current, true) == Values(rest, current + text, false)
    decreases |text|
  {
    if text == "" {
      ValuesAtQuoted(' ', rest, current);
      assert current + text == current;
    } else {
      ValuesAtQuoted(text[0], Doubled(text[1..], "'" + rest), current);
      ValuesThroughQuoted(text[1..], rest, current + [text[0]]);
      MoveHead(current, text);
    }
  }

  lemma {:induction false} ValuesThroughPlain(plain: string, rest: string, current: string)
    requires Lacks(plain, "',")
    ensures Values(plain + rest, current, false) == Values(rest, current + plain, false)
    decreases |plain|
  {
    if plain == "" {
      assert plain + rest == rest && current + plain == current;
    } else {
      assert (plain + rest)[1..] == plain[1..] + rest;
      ValuesThroughPlain(plain[1..], rest, current + [plain[0]]);
      MoveHead(current, plain);
    }
  }

  lemma BlankLacks(s: string)
    requires Blank(s)
    ensures Lacks(s, "',()")  && Lacks(s, "',")
  {
  }

  /** What follows a printed literal can be printed with it. */
  lemma {:induction false} DoubledThen(text: string, close: string, rest: string)
    ensures Doubled(text, close) + rest == Doubled(text, close + rest)
  {
    if text != "" {
      DoubledThen(text[1..], close, rest);
      Associate(if text[0] == '\'' then "''" else [text[0]], Doubled(text[1..], close), rest);
    }
  }

  lemma PrintFieldThen(f: Field, rest: string)
    ensures var tail := f.right + rest;
            PrintField(f) + rest
            == f.left + if f.literal.Quoted? then "'" + Doubled(f.literal.text, "'" + tail) else f.literal.text + tail
  {
    var tail := f.right + rest;
    var body := if f.literal.Quoted? then "'" + Doubled(f.literal.text, "'") else f.literal.text;
    Associate(f.left + body, f.right, rest);
    Associate(f.left, body, tail);
    if f.literal.Quoted? {
      Associate("'", Doubled(f.literal.text, "'"), tail);
      DoubledThen(f.literal.text, "'", tail);
    }
  }

  lemma ValuesThroughField(f: Field, rest: string)
    requires Printable(f) && NoQuoteNext(rest)
    ensures Values(PrintField(f) + rest, "", false) == Values(rest, f.left + f.literal.text + f.right, false)
  {
    BlankLacks(f.left);
    BlankLacks(f.right);
    var text, tail := f.literal.text, f.right + rest;
    assert "" + f.left == f.left;
    PrintFieldThen(f, rest);
    if f.literal.Quoted? {
      var body := Doubled(text, "'" + tail);
      ValuesThroughPlain(f.left, "'" + body, "");
      ValuesAtQuoted(' ', body, f.left);
      ValuesThroughQuoted(text, tail, f.left);
    } else {
      ValuesThroughPlain(f.left, text + tail, "");
      ValuesThroughPlain(text, tail, f.left);
    }
    ValuesThroughPlain(f.right, rest, f.left + text);
  }

  lemma PrintFieldsThen(fields: seq<Field>, rest: string)
    requires |fields| > 1
    ensures PrintFields(fields) + rest == PrintField(fields[0]) + ("," + (PrintFields(fields[1..]) + rest))
  {
    var first, others := PrintField(fields[0]), PrintFields(fields[1..]);
    Associate(first + ",", others, rest);
    Associate(first, ",", others + rest);
  }

  lemma ValuesAtComma(rest: string, current: string)
    ensures Values("," + rest, current, false) == [ReadToken(current)] + Values(rest, "", false)
  {
    assert ("," + rest)[1..] == rest;
  }

  lemma TokenOfField(f: Field)
    requires Printable(f)
    ensures ReadToken(f.left + f.literal.text + f.right) == ReadToken(f.literal.text)
  {
    StripIgnoresMargins(f.left, f.literal.text, f.right);
  }

  lemma ParseLast(f: Field)
    requires Printable(f)
    ensures Values(PrintField(f), "", false) == [ReadToken(f.literal.text)]
  {
    TokenOfField(f);
    assert PrintField(f) + "" == PrintField(f);
    ValuesThroughField(f, "");
  }

  lemma ParseNext(f: Field, others: string)
    requires Printable(f)
    ensures Values(PrintField(f) + "," + others, "", false) == [ReadToken(f.literal.text)] + Values(others, "", false)
  {
    TokenOfField(f);
    Associate(PrintField(f), ",", others);
    ValuesThroughField(f, "," + others);
    ValuesAtComma(others, f.left + f.literal.text + f.right);
  }

  /** Parsing a printed row gives its values back. */
  lemma {:induction false} ParsePrinted(fields: seq<Field>)
    requires PrintableFields(fields)
    ensures Values(PrintFields(fields), "", false) == Read(fields)
    decreases |fields|
  {
    if |fields| == 1 {
      ParseLast(fields[0]);
      assert fields[1..] == [];
    } else {
      ParseNext(fields[0], PrintFields(fields[1..]));
      ParsePrinted(fields[1..]);
    }
  }

  lemma TuplesAtQuoted(c: char, rest: string, row: string)
    ensures c != '\'' ==> Tuples([c] + rest, 1, row, true) == Tuples(rest, 1, row + [c], true)
    ensures Tuples("''" + rest, 1, row, true) == Tuples(rest, 1, row + "''", true)
    ensures NoQuoteNext(rest) ==> Tuples("'" + rest, 1, row, true) == Tuples(rest, 1, row + "'", false)
    ensures Tuples("'" + rest, 1, row, false) == Tuples(rest, 1, row + "'", true)
    ensures Tuples("," + rest, 1, row, false) == Tuples(rest, 1, row + ",", false)
  {
    assert ([c] + rest)[1..] == rest && ("'" + rest)[1..] == rest && ("''" + rest)[2..] == rest;
    assert ("," + rest)[1..] == rest;
  }

  lemma {:induction false} TuplesThroughQuoted(text: string, rest: string, row: string)
    requires NoQuoteNext(rest)
    ensures Tuples(Doubled(text, "'" + rest), 1, row, true) == Tuples(rest, 1, row + Doubled(text, "'"), false)
    decreases |text|
  {
    if text == "" {
      TuplesAtQuoted(' ', rest, row);
    } else {
      var head := if text[0] == '\'' then "''" else [text[0]];
      TuplesAtQuoted(text[0], Doubled(text[1..], "'" + rest), row);
      TuplesThroughQuoted(text[1..], rest, row + head);
      Associate(row, head, Doubled(text[1..], "'"));
    }
  }

  lemma {:induction false} TuplesThroughPlain(plain: string, rest: string, depth: int, row: string)
    requires Lacks(plain, "'()")
    ensures Tuples(plain + rest, depth, row, false) == Tuples(rest, depth, row + plain, false)
    decreases |plain|
  {
    if plain == "" {
      assert plain + rest == rest && row + plain == row;
    } else {
      assert (plain + rest)[1..] == plain[1..] + rest;
      TuplesThroughPlain(plain[1..], rest, depth, row + [plain[0]]);
      MoveHead(row, plain);
    }
  }

  lemma TuplesThroughField(f: Field, rest: string, row: string)
    requires Printable(f) && NoQuoteNext(rest)
    ensures Tuples(PrintField(f) + rest, 1, row, false) == Tuples(rest, 1, row + PrintField(f), false)
  {
    var text, tail := f.literal.text, f.right + rest;
    BlankLacks(f.left);
    BlankLacks(f.right);
    PrintFieldThen(f, rest);
    if f.literal.Quoted? {
      var body := Doubled(text, "'" + tail);
      var row' := row + f.left;
      TuplesThroughPlain(f.left, "'" + body, 1, row);
      TuplesAtQuoted(' ', body, row');
      TuplesThroughQuoted(text, tail, row' + "'");
      Associate(row', "'", Doubled(text, "'"));
      Associate(row, f.left, "'" + Doubled(text, "'"));
      TuplesThroughPlain(f.right, rest, 1, row + (f.left + ("'" + Doubled(text, "'"))));
      Associate(row, f.left + ("'" + Doubled(text, "'")), f.right);
    } else {
      TuplesThroughPlain(f.left, text + tail, 1, row);
      TuplesThroughPlain(text, tail, 1, row + f.left);
      Associate(row, f.left, text);
      TuplesThroughPlain(f.right, rest, 1, row + (f.left + text));
      Associate(row, f.left + text, f.right);
    }
  }

  /** Only the parenthesis that closes a row is structural, whatever the quoted values contain. */
  lemma {:induction false} TuplesThroughFields(fields: seq<Field>, rest: string, row: string)
    requires PrintableFields(fields) && NoQuoteNext(rest)
    ensures Tuples(PrintFields(fields) + rest, 1, row, false) == Tuples(rest, 1, row + PrintFields(fields), false)
    decreases |fields|
  {
    var f := fields[0];
    if |fields| == 1 {
      TuplesThroughField(f, rest, row);
    } else {
      var others := PrintFields(fields[1..]);
      PrintFieldsThen(fields, rest);
      TuplesThroughField(f, "," + (others + rest), row);
      TuplesAtQuoted(' ', others + rest, row + PrintField(f));
      TuplesThroughFields(fields[1..], rest, row + PrintField(f) + ",");
      Associate(row, PrintField(f), ",");
      Associate(row, PrintField(f) + ",", others);
    }
  }

  /** The text between rows is skipped, and a row ends at its own parenthesis. */
  lemma SplitNext(r: Row, rest: string)
    requires PrintableRow(r)
    ensures Tuples(r.gap + "(" + PrintFields(r.fields) + ")" + rest, 0, "", false) ==
            [PrintFields(r.fields)] + Tuples(rest, 0, "", false)
  {
    var printed := PrintFields(r.fields);
    var tail := ")" + rest;
    Associate(r.gap + "(" + printed, ")", rest);
    Associate(r.gap + "(", printed, tail);
    Associate(r.gap, "(", printed + tail);
    TuplesThroughPlain(r.gap, "(" + (printed + tail), 0, "");
    assert ("(" + (printed + tail))[1..] == printed + tail;
    TuplesThroughFields(r.fields, tail, "");
    assert "" + printed == printed;
    assert tail[1..] == rest;
  }

  /** Splitting a printed block gives the printed rows back. */
  lemma {:induction false} SplitPrinted(rows: seq<Row>)
    requires forall i :: 0 <= i < |rows| ==> PrintableRow(rows[i])
    ensures Tuples(PrintRows(rows), 0, "", false) ==
        seq(|rows|, i requires 0 <= i < |rows| => PrintFields(rows[i].fields))
    decreases |rows|
  {
    if rows != [] {
      SplitNext(rows[0], PrintRows(rows[1..]));
      SplitPrinted(rows[1..]);
    }
  }

  /** Splitting, then parsing each row, undoes printing. */
  lemma ScanPrinted(rows: seq<Row>)
    requires forall i :: 0 <= i < |rows| ==> PrintableRow(rows[i])
    ensures var tuples := Tuples(PrintRows(rows), 0, "", false);
            && |tuples| == |rows|
            && forall i :: 0 <= i < |rows| ==> Values(tuples[i], "", false) == Read(rows[i].fields)
  {
    SplitPrinted(rows);
    forall i | 0 <= i < |rows|
      ensures Values(PrintFields(rows[i].fields), "", false) == Read(rows[i].fields)
    {
      ParsePrinted(rows[i].fields);
    }
  }

  /** A text comes back unchanged if and only if it is trimmed and does not spell NULL. */
  lemma ReadLosslessIff(text: string)
    ensures ReadToken(text) == Some(text) <==> Trimmed(text) && text != "NULL"
  {
    StripFixed(text);
  }
}
