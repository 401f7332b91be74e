/** When the streaming converter and the in-memory parser of scripts/sql_to_json.py agree on a text. */
module DumpAgreement {
  import opened Support
  import opened TextLines
  import opened SqlScanner
  import opened SqlConverter
  import opened SqlStreaming

  /** The two parsers agree on every text whose only line boundaries are newlines. */
  lemma ParsersAgree<J>(text: string, c: Collection, f: Format<J>)
    requires OnlyNewlines(text)
    ensures FileRecords(text, c, f) == ContentRecords(text, c, f)
  {
    LinesAgreeIff(text);
  }

  // ----- a boundary inside a string -----

  /** A statement on one file line that `splitlines` cuts in two, between `head` and `tail`. */
  predicate CutStatement(head: string, c: char, tail: string) {
    && IsBreak(c) && !IsNewline(c) && OneLine(head) && OneLine(tail)
    && Trimmed(head) && Trimmed(tail)
    && StartsInsert(head) && !Terminated(head) && !Skipped(head)
    && !StartsInsert(tail) && Terminated(tail) && !Skipped(tail)
  }

  lemma WholeLine(head: string, c: char, tail: string)
    requires CutStatement(head, c, tail)
    ensures LinesOf(head + ([c] + tail), IsNewline) == [head + ([c] + tail)]
    ensures LinesOf(head + ([c] + tail), IsBreak) == [head, tail]
  {
    var s := head + ([c] + tail);
    forall i | 0 <= i < |s| ensures !IsNewline(s[i]) {
      if i < |head| { assert s[i] == head[i]; } else if i > |head| { assert s[i] == tail[i - |head| - 1]; }
    }
    LastLine(s, IsNewline);
    NextLine(head, [c] + tail, IsBreak);
    assert AfterBreak([c] + tail) == tail;
    LastLine(tail, IsBreak);
  }

  lemma WholeStarts(head: string, rest: string)
    requires StartsInsert(head)
    ensures StartsInsert(head + rest) && !Skipped(head + rest)
  {
    var word := "INSERT INTO";
    forall i | 0 <= i < |word| ensures UpperChar((head + rest)[i]) == word[i] {
      assert (head + rest)[i] == head[i];
    }
    InsertNotSkipped(head + rest);
  }

  lemma WholeStatement(head: string, c: char, tail: string)
    requires CutStatement(head, c, tail)
    ensures var s := head + ([c] + tail); Group(ReadLines([s]), []) == [s]
  {
    var s := head + ([c] + tail);
    WholeStarts(head, [c] + tail);
    assert Trimmed(s) && Terminated(s) && s[|s| - 1] == tail[|tail| - 1];
    GroupStatementLines([s]);
  }

  lemma TwoLineStatement(head: string, c: char, tail: string)
    requires CutStatement(head, c, tail)
    ensures Group(ReadLines([head, tail]), []) == [head + " " + tail]
  {
    StripFixed(head);
    StripFixed(tail);
    GroupTwo(ReadLine(head), ReadLine(tail));
    assert ReadLines([head, tail]) == [ReadLine(head), ReadLine(tail)];
  }

  /** The file keeps the character, the in-memory parser has a space in its place. */
  lemma CutStatements(head: string, c: char, tail: string)
    requires CutStatement(head, c, tail)
    ensures Group(ReadLines(LinesOf(head + ([c] + tail), IsNewline)), []) == [head + ([c] + tail)]
    ensures Group(ReadLines(LinesOf(head + ([c] + tail), IsBreak)), []) == [head + " " + tail]
  {
    WholeLine(head, c, tail);
    WholeStatement(head, c, tail);
    TwoLineStatement(head, c, tail);
  }

  lemma JoinTwo(a: string, b: string)
    ensures Spaced([a] + [b]) == a + " " + b
  {
    var parts := [a] + [b];
    assert parts[1..] == [b];
    assert JoinWith([b], " ") == b;
    assert JoinWith(parts, " ") == parts[0] + " " + JoinWith(parts[1..], " ");
  }

  lemma GroupTwo(first: Line, second: Line)
    requires !first.skipped && first.starts && !first.ends && !second.skipped && !second.starts && second.ends
    ensures Group([first, second], []) == [first.text + " " + second.text]
  {
    assert [first, second][1..] == [second];
    assert Emitted([], first) == [] && NextBuffer([], first) == [first.text];
    JoinTwo(first.text, second.text);
    GroupEnd([first.text], second, []);
    assert [second] + [] == [second];
  }

  function Text(s: string): Field {
    Field("", Quoted(s), "")
  }

  /** One row of table "client" with this address. */
  function ClientRow(id: string, address: string, user: string, added: string): Row {
    Row("", [Text(id), Text(address), Text(user), Text(added)])
  }

  /** The header pattern finds this row, for table "client", in the statement. */
  ghost predicate IsClient<J>(statement: string, row: Row, f: Format<J>) {
    var h := f.header(statement);
    h.Some? && h.value.0 == "client" && h.value.1 == PrintRows([row])
  }

  lemma OnePrinted<J>(table: string, row: Row, f: Format<J>)
    requires table == "client" && |Read(row.fields)| == 4
    ensures var v := Read(row.fields); PrintedRecords(table, [row], Clients, f) == [Client(v[0], v[1], v[2], v[3])]
  {
    assert [row][..0] == [];
    assert RowToRecord(table, Read(row.fields), f).Some?;
  }

  lemma ClientRecord<J>(statement: string, id: string, address: string, user: string, added: string, f: Format<J>)
    requires IsClient(statement, ClientRow(id, address, user, added), f)
    ensures Records([statement], Clients, f) ==
        [Client(ReadToken(id), ReadToken(address), ReadToken(user), ReadToken(added))]
  {
    var row, table := ClientRow(id, address, user, added), f.header(statement).value.0;
    ReadFour(row.fields);
    OnePrinted(table, row, f);
    PrintedStatementRecords(statement, table, [row], Clients, f);
    assert [statement][..0] == [];
  }

  lemma ReadFour(fields: seq<Field>)
    requires |fields| == 4
    ensures Read(fields) == [ReadToken(fields[0].literal.text), ReadToken(fields[1].literal.text),
                             ReadToken(fields[2].literal.text), ReadToken(fields[3].literal.text)]
  {
    var one, two, three := fields[1..], fields[2..], fields[3..];
    assert one[1..] == two && two[1..] == three && three[1..] == [];
    assert Read(three) == [ReadToken(fields[3].literal.text)];
    assert Read(two) == [ReadToken(fields[2].literal.text)] + Read(three);
    assert Read(one) == [ReadToken(fields[1].literal.text)] + Read(two);
  }

  lemma CutRecords<J>(head: string, c: char, tail: string, f: Format<J>)
    requires CutStatement(head, c, tail)
    ensures FileRecords(head + ([c] + tail), Clients, f) == Records([head + ([c] + tail)], Clients, f)
    ensures ContentRecords(head + ([c] + tail), Clients, f) == Records([head + " " + tail], Clients, f)
  {
    CutStatements(head, c, tail);
  }

  /** An address with such a character inside: the streaming converter keeps it, the in-memory parser has
      a space there. */
  lemma CutAddressDiffers<J>(head: string, c: char, tail: string, id: string, before: string, after: string,
                             user: string, added: string, f: Format<J>)
    requires CutStatement(head, c, tail)
    requires Trimmed(before) && before != "" && Trimmed(after) && after != ""
    requires IsClient(head + ([c] + tail), ClientRow(id, before + ([c] + after), user, added), f)
    requires IsClient(head + " " + tail, ClientRow(id, before + ([' '] + after), user, added), f)
    ensures FileRecords(head + ([c] + tail), Clients, f) ==
            [Client(ReadToken(id), Some(before + ([c] + after)), ReadToken(user), ReadToken(added))]
    ensures ContentRecords(head + ([c] + tail), Clients, f) ==
            [Client(ReadToken(id), Some(before + ([' '] + after)), ReadToken(user), ReadToken(added))]
    ensures before + ([c] + after) != before + ([' '] + after)
  {
    CutRecords(head, c, tail, f);
    ClientRecord(head + ([c] + tail), id, before + ([c] + after), user, added, f);
    ClientRecord(head + " " + tail, id, before + ([' '] + after), user, added, f);
    KeptWhole(before, c, after);
    KeptWhole(before, ' ', after);
    assert (before + ([c] + after))[|before|] == c;
    assert (before + ([' '] + after))[|before|] == ' ';
  }

  lemma KeptWhole(before: string, c: char, after: string)
    requires Trimmed(before) && before != "" && Trimmed(after) && after != ""
    requires IsSpace(c)
    ensures ReadToken(before + ([c] + after)) == Some(before + ([c] + after))
  {
    var s := before + ([c] + after);
    assert s[0] == before[0] && s[|s| - 1] == after[|after| - 1] && s[|before|] == c;
    ReadLosslessIff(s);
    assert forall i :: 0 <= i < |"NULL"| ==> !IsSpace("NULL"[i]);
  }

  /** The concrete case: a form feed in the address of one client. */
  lemma FormFeedDiffers<J>(head: string, tail: string, id: string, a: string, b: string, user: string, added: string,
                           f: Format<J>)
    requires head == "INSERT INTO iqoqo.client VALUES ('1','a" && tail == "b','u','t');"
    requires id == "1" && a == "a" && b == "b" && user == "u" && added == "t"
    requires IsClient(head + (['\U{0C}'] + tail), ClientRow(id, a + (['\U{0C}'] + b), user, added), f)
    requires IsClient(head + " " + tail, ClientRow(id, a + ([' '] + b), user, added), f)
    ensures var text := head + (['\U{0C}'] + tail);
            FileRecords(text, Clients, f) != ContentRecords(text, Clients, f)
  {
    FormFeedStatement(head, tail);
    CutAddressDiffers(head, '\U{0C}', tail, id, a, b, user, added, f);
  }

  lemma FormFeedStatement(head: string, tail: string)
    requires head == "INSERT INTO iqoqo.client VALUES ('1','a" && tail == "b','u','t');"
    ensures CutStatement(head, '\U{0C}', tail)
  {
    assert |head| == 39 && |tail| == 12;
  }

  predicate QuoteFree(s: string) {
    forall i :: 0 <= i < |s| ==> s[i] != '\''
  }

  lemma {:induction false} PlainDoubled(s: string)
    requires QuoteFree(s)
    ensures Doubled(s, "'") == s + "'"
  {
    if s != "" {
      PlainDoubled(s[1..]);
      assert s == [s[0]] + s[1..];
      Associate([s[0]], s[1..], "'");
    }
  }

  lemma PlainText(s: string)
    requires QuoteFree(s)
    ensures PrintField(Text(s)) == "'" + (s + "'")
  {
    PlainDoubled(s);
    assert "" + ("'" + Doubled(s, "'")) + "" == "'" + Doubled(s, "'");
  }

  /** One more value in front of others that are printed already. */
  lemma PrintNext(first: string, rest: seq<Field>, printed: string)
    requires QuoteFree(first) && rest != [] && PrintFields(rest) == "'" + printed
    ensures PrintFields([Text(first)] + rest) == "'" + (first + ("','" + printed))
  {
    var fields := [Text(first)] + rest;
    PlainText(first);
    assert fields[0] == Text(first) && fields[1..] == rest;
    assert "'" + (first + "'") + "," + ("'" + printed) == "'" + (first + ("','" + printed));
  }

  /** The row as it stands in a statement, when no text holds a quote. */
  lemma PrintClientRow(id: string, address: string, user: string, added: string)
    requires QuoteFree(id) && QuoteFree(address) && QuoteFree(user) && QuoteFree(added)
    ensures PrintFields(ClientRow(id, address, user, added).fields) ==
            "'" + (id + ("','" + (address + ("','" + (user + ("','" + (added + "'")))))))
  {
    PlainText(added);
    var last := [Text(added)];
    PrintNext(user, last, added + "'");
    PrintNext(address, [Text(user)] + last, user + ("','" + (added + "'")));
    PrintNext(id, [Text(address)] + ([Text(user)] + last), address + ("','" + (user + ("','" + (added + "'")))));
    assert ClientRow(id, address, user, added).fields == [Text(id)] + ([Text(address)] + ([Text(user)] + last));
  }
}
