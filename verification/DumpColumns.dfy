/** Which printed column ends up in which field of which record, over a whole dump. */
module DumpColumns {
  import opened Support
  import opened TextLines
  import opened SqlScanner
  import opened SqlConverter
  import opened SqlStreaming

  /** A printed INSERT statement on a line of its own, with white space around it. */
  datatype Insert = Insert(left: string, statement: string, right: string, table: string, rows: seq<Row>)

  ghost predicate PrintedInsert<J>(insert: Insert, f: Format<J>) {
    && OneLine(insert.left) && Blank(insert.left) && OneLine(insert.right) && Blank(insert.right)
    && OneLine(insert.statement) && Trimmed(insert.statement)
    && StartsInsert(insert.statement) && Terminated(insert.statement)
    && f.header(insert.statement) == Some((insert.table, PrintRows(insert.rows)))
    && forall i :: 0 <= i < |insert.rows| ==> PrintableRow(insert.rows[i])
  }

  function DumpText(inserts: seq<Insert>): string {
    if inserts == [] then ""
    else inserts[0].left + inserts[0].statement + inserts[0].right + ("\n" + DumpText(inserts[1..]))
  }

  // ----- what the records of a collection must be -----

  function TableOf(c: Collection): string {
    match c
    case Clients => "client"
    case Manifestations => "manifestation"
    case Items => "item"
  }

  /** The columns a row needs to be a record. */
  function Least(c: Collection): nat {
    if c == Manifestations then 5 else 4
  }

  /** The text printed in a column, as it is read; a column that is not there is null. */
  function Column(row: Row, i: nat): Value {
    if i < |row.fields| then ReadToken(row.fields[i].literal.text) else None
  }

  /** The JSON value of a text, or the empty object for null, for no text, and for what is not JSON. */
  ghost predicate Loaded<J>(meta: J, value: Value, f: Format<J>) {
    match value
    case None => meta == f.empty
    case Some(text) => Some(meta) == if text != "" && f.loads(text).Some? then f.loads(text) else Some(f.empty)
  }

  ghost predicate Carries<J>(record: Record<J>, row: Row, c: Collection, f: Format<J>) {
    match c
    case Clients =>
      && record.Client? && record.id == Column(row, 0) && record.address == Column(row, 1)
      && record.user == Column(row, 2) && record.added == Column(row, 3)
    case Manifestations =>
      && record.Manifestation? && record.id == Column(row, 0) && record.isbn == Column(row, 1)
      && record.title == Column(row, 2) && record.authors == Column(row, 3)
      && Loaded(record.meta, Column(row, 4), f) && record.added == Column(row, 5)
    case Items =>
      && record.Item? && record.id == Column(row, 0) && record.manifestation == Column(row, 1)
      && record.addedBy == Column(row, 2) && record.addedAt == Column(row, 3)
      && Loaded(record.meta, Column(row, 4), f)
  }

  ghost predicate AllCarry<J>(records: seq<Record<J>>, rows: seq<Row>, c: Collection, f: Format<J>) {
    |records| == |rows| && forall i :: 0 <= i < |rows| ==> Carries(records[i], rows[i], c, f)
  }

  /** The rows that are long enough for the collection, if the table is its own. */
  function Fitting(table: string, rows: seq<Row>, c: Collection): seq<Row> {
    if rows == [] then []
    else
      var last := rows[|rows| - 1];
      Fitting(table, rows[..|rows| - 1], c)
      + if table == TableOf(c) && |last.fields| >= Least(c) then [last] else []
  }

  /** The rows of the dump that belong to the collection, in order. */
  function FittingRows(inserts: seq<Insert>, c: Collection): seq<Row> {
    if inserts == [] then []
    else
      var last := inserts[|inserts| - 1];
      FittingRows(inserts[..|inserts| - 1], c) + Fitting(last.table, last.rows, c)
  }

  // ----- one row, one statement -----

  lemma {:induction false} ReadAt(fields: seq<Field>, i: nat)
    requires i < |fields|
    ensures |Read(fields)| == |fields| && Read(fields)[i] == ReadToken(fields[i].literal.text)
  {
    if |fields| > 1 {
      ReadAt(fields[1..], if i > 0 then i - 1 else 0);
    } else {
      assert fields[1..] == [];
    }
  }

  lemma ReadColumns(row: Row)
    ensures |Read(row.fields)| == |row.fields|
    ensures forall i :: 0 <= i < |row.fields| ==> Read(row.fields)[i] == Column(row, i)
  {
    if row.fields != [] { ReadAt(row.fields, 0); }
    forall i | 0 <= i < |row.fields| ensures Read(row.fields)[i] == Column(row, i) {
      ReadAt(row.fields, i);
    }
  }

  lemma TableHasCollection(table: string, c: Collection)
    ensures CollectionForTable(table) == Some(c) <==> table == TableOf(c)
  {
    assert |"client"| == 6 && |"manifestation"| == 13 && |"item"| == 4;
  }

  lemma MetaLoaded<J>(value: Value, f: Format<J>)
    ensures Loaded(LoadMeta(value, f), value, f)
  {
  }

  lemma RowCarries<J>(table: string, row: Row, c: Collection, f: Format<J>)
    ensures var record := RowToRecord(table, Read(row.fields), f);
            if table == TableOf(c) && |row.fields| >= Least(c)
            then record.Some? && Carries(record.value, row, c, f)
            else !(record.Some? && table == TableOf(c))
  {
    ReadColumns(row);
    MetaLoaded(Column(row, 4), f);
    assert |"client"| == 6 && |"manifestation"| == 13 && |"item"| == 4;
  }

  lemma AppendCarry<J>(a: seq<Record<J>>, b: seq<Record<J>>, rows: seq<Row>, more: seq<Row>, c: Collection,
                       f: Format<J>)
    requires AllCarry(a, rows, c, f) && AllCarry(b, more, c, f)
    ensures AllCarry(a + b, rows + more, c, f)
  {
    forall i | 0 <= i < |rows + more| ensures Carries((a + b)[i], (rows + more)[i], c, f) {
      if i < |rows| {
        assert (a + b)[i] == a[i] && (rows + more)[i] == rows[i];
      } else {
        assert (a + b)[i] == b[i - |a|] && (rows + more)[i] == more[i - |rows|];
      }
    }
  }

  lemma {:induction false} StatementCarries<J>(table: string, rows: seq<Row>, c: Collection, f: Format<J>)
    ensures AllCarry(PrintedRecords(table, rows, c, f), Fitting(table, rows, c), c, f)
  {
    if rows != [] {
      var n := |rows| - 1;
      StatementCarries(table, rows[..n], c, f);
      RowCarries(table, rows[n], c, f);
      TableHasCollection(table, c);
      var record := RowToRecord(table, Read(rows[n].fields), f);
      AppendCarry(PrintedRecords(table, rows[..n], c, f),
                  if record.Some? && CollectionForTable(table) == Some(c) then [record.value] else [],
                  Fitting(table, rows[..n], c),
                  if table == TableOf(c) && |rows[n].fields| >= Least(c) then [rows[n]] else [], c, f);
    }
  }

  // ----- the whole text -----

  function Statements(inserts: seq<Insert>): seq<string> {
    seq(|inserts|, i requires 0 <= i < |inserts| => inserts[i].statement)
  }

  function Padded(inserts: seq<Insert>): seq<string> {
    seq(|inserts|, i requires 0 <= i < |inserts| => inserts[i].left + inserts[i].statement + inserts[i].right)
  }

  lemma FreeOf(a: string, b: string, c: string, breaks: char -> bool)
    requires OneLine(a) && OneLine(b) && OneLine(c) && forall x :: breaks(x) ==> IsBreak(x)
    ensures Free(a + b + c, breaks)
  {
    forall x | x in a + b + c ensures !breaks(x) {
      assert x in a || x in b || x in c;
    }
  }

  lemma {:induction false} TextLinesPadded<J>(inserts: seq<Insert>, breaks: char -> bool, f: Format<J>)
    requires forall i :: 0 <= i < |inserts| ==> PrintedInsert(inserts[i], f)
    requires breaks('\n') && forall c :: breaks(c) ==> IsBreak(c)
    ensures LinesOf(DumpText(inserts), breaks) == Padded(inserts)
  {
    if inserts != [] {
      var line, rest := inserts[0].left + inserts[0].statement + inserts[0].right, DumpText(inserts[1..]);
      FreeOf(inserts[0].left, inserts[0].statement, inserts[0].right, breaks);
      NextLine(line, "\n" + rest, breaks);
      assert AfterBreak("\n" + rest) == rest;
      TextLinesPadded(inserts[1..], breaks, f);
      assert Padded(inserts) == [line] + Padded(inserts[1..]);
    }
  }

  lemma {:induction false} RecordsCarry<J>(inserts: seq<Insert>, c: Collection, f: Format<J>)
    requires forall i :: 0 <= i < |inserts| ==> PrintedInsert(inserts[i], f)
    ensures AllCarry(Records(Statements(inserts), c, f), FittingRows(inserts, c), c, f)
  {
    if inserts != [] {
      var n := |inserts| - 1;
      var last := inserts[n];
      RecordsCarry(inserts[..n], c, f);
      assert Statements(inserts)[..n] == Statements(inserts[..n]);
      PrintedStatementRecords(last.statement, last.table, last.rows, c, f);
      StatementCarries(last.table, last.rows, c, f);
      AppendCarry(Records(Statements(inserts[..n]), c, f), StatementRecords(last.statement, c, f),
                  FittingRows(inserts[..n], c), Fitting(last.table, last.rows, c), c, f);
    }
  }

  /** Read as a file or in memory, a printed dump gives each collection the rows of its own table that
      are long enough, in order, every column in its own field. */
  lemma DumpCarries<J>(inserts: seq<Insert>, c: Collection, f: Format<J>)
    requires forall i :: 0 <= i < |inserts| ==> PrintedInsert(inserts[i], f)
    ensures AllCarry(FileRecords(DumpText(inserts), c, f), FittingRows(inserts, c), c, f)
    ensures AllCarry(ContentRecords(DumpText(inserts), c, f), FittingRows(inserts, c), c, f)
  {
    TextLinesPadded(inserts, IsNewline, f);
    TextLinesPadded(inserts, IsBreak, f);
    var statements := Statements(inserts);
    MarginsIgnored(seq(|inserts|, i requires 0 <= i < |inserts| => inserts[i].left), statements,
                   seq(|inserts|, i requires 0 <= i < |inserts| => inserts[i].right), Padded(inserts));
    forall i | 0 <= i < |statements|
      ensures Trimmed(statements[i]) && StartsInsert(statements[i]) && Terminated(statements[i])
    {
      assert PrintedInsert(inserts[i], f);
    }
    GroupStatementLines(statements);
    RecordsCarry(inserts, c, f);
  }
}
