/**
 The records of a dump, collected in memory or spooled per collection and regrouped.  The in-memory
 parser cuts a text with `splitlines`, the streaming converter as a file; where both cut alike, they
 hold the same records in the same order.
 */
module SqlStreaming {
  import opened Support
  import opened SqlScanner
  import opened SqlConverter
  import opened TextLines

  type Value = Option<string>

  datatype Record<J> =
    | Client(id: Value, address: Value, user: Value, added: Value)
    | Manifestation(id: Value, isbn: Value, title: Value, authors: Value, meta: J, added: Value)
    | Item(id: Value, manifestation: Value, addedBy: Value, addedAt: Value, meta: J)

  datatype Collection = Clients | Manifestations | Items

  /** A dictionary over the three collections. */
  datatype PerCollection<T> = PerCollection(clients: T, manifestations: T, items: T) {
    function Of(c: Collection): T {
      match c
      case Clients => clients
      case Manifestations => manifestations
      case Items => items
    }

    function With(c: Collection, value: T): (r: PerCollection<T>)
      ensures forall c' :: r.Of(c') == if c' == c then value else Of(c')
    {
      match c
      case Clients => this.(clients := value)
      case Manifestations => this.(manifestations := value)
      case Items => this.(items := value)
    }
  }

  /** The code outside this file: the INSERT pattern (table name and VALUES block), `json.loads`
      (None when it raises), the empty object, and `json.dumps`. */
  datatype Format<!J> = Format(
    header: string -> Option<(string, string)>,
    loads: string -> Option<J>,
    empty: J,
    dumps: Record<J> -> string)

  function CollectionForTable(table: string): Option<Collection> {
    if table == "client" then Some(Clients)
    else if table == "manifestation" then Some(Manifestations)
    else if table == "item" then Some(Items)
    else None
  }

  function LoadMeta<J>(value: Value, f: Format<J>): J {
    if value.None? || value.value == "" || f.loads(value.value).None? then f.empty
    else f.loads(value.value).value
  }

  function RowToRecord<J>(table: string, values: seq<Value>, f: Format<J>): Option<Record<J>> {
    if table == "client" && |values| >= 4 then Some(Client(values[0], values[1], values[2], values[3]))
    else if table == "manifestation" && |values| >= 5 then
      Some(Manifestation(values[0], values[1], values[2], values[3], LoadMeta(values[4], f),
                         if |values| > 5 then values[5] else None))
    else if table == "item" && |values| >= 4 then
      Some(Item(values[0], values[1], values[2], values[3], LoadMeta(if |values| > 4 then values[4] else None, f)))
    else None
  }

  /** Only the tables of the three collections give records. */
  lemma RecordHasCollection<J>(table: string, values: seq<Value>, f: Format<J>)
    ensures RowToRecord(table, values, f).Some? ==> CollectionForTable(table).Some?
  {
  }

  // ----- the records of a dump, collection by collection -----

  /** What one row adds to collection `c`. */
  function RowRecords<J>(table: string, tuple: string, c: Collection, f: Format<J>): seq<Record<J>> {
    var record := RowToRecord(table, Values(tuple, "", false), f);
    if record.Some? && CollectionForTable(table) == Some(c) then [record.value] else []
  }

  function TupleRecords<J>(table: string, tuples: seq<string>, c: Collection, f: Format<J>): seq<Record<J>> {
    if tuples == [] then []
    else TupleRecords(table, tuples[..|tuples| - 1], c, f) + RowRecords(table, tuples[|tuples| - 1], c, f)
  }

  function StatementRecords<J>(statement: string, c: Collection, f: Format<J>): seq<Record<J>> {
    var h := f.header(statement);
    if h.None? then [] else TupleRecords(h.value.0, Tuples(h.value.1, 0, "", false), c, f)
  }

  function Records<J>(statements: seq<string>, c: Collection, f: Format<J>): seq<Record<J>> {
    if statements == [] then []
    else Records(statements[..|statements| - 1], c, f) + StatementRecords(statements[|statements| - 1], c, f)
  }

  lemma NextStatement<J>(statements: seq<string>, i: nat, c: Collection, f: Format<J>)
    requires i < |statements|
    ensures Records(statements[..i + 1], c, f) == Records(statements[..i], c, f) + StatementRecords(statements[i], c, f)
  {
    assert statements[..i + 1][..i] == statements[..i];
  }

  function DumpRecords<J>(lines: seq<string>, c: Collection, f: Format<J>): seq<Record<J>> {
    Records(Group(ReadLines(lines), []), c, f)
  }

  /** What the in-memory parser makes of a text. */
  function ContentRecords<J>(content: string, c: Collection, f: Format<J>): seq<Record<J>> {
    DumpRecords(LinesOf(content, IsBreak), c, f)
  }

  /** What the streaming converter makes of a file with this text. */
  function FileRecords<J>(text: string, c: Collection, f: Format<J>): seq<Record<J>> {
    DumpRecords(LinesOf(text, IsNewline), c, f)
  }

  /** The in-memory parser. */
  method ParseDump<J>(content: string, f: Format<J>) returns (data: PerCollection<seq<Record<J>>>)
    ensures forall c :: data.Of(c) == ContentRecords(content, c, f)
  {
    data := PerCollection([], [], []);
    var statements := GroupStatements(LinesOf(content, IsBreak));
    for i := 0 to |statements|
      invariant forall c :: data.Of(c) == Records(statements[..i], c, f)
    {
      data := ParseStatement(statements[i], data, f);
      forall c { NextStatement(statements, i, c, f); }
    }
    assert statements[..|statements|] == statements;
  }

  method ParseStatement<J>(statement: string, before: PerCollection<seq<Record<J>>>, f: Format<J>)
    returns (data: PerCollection<seq<Record<J>>>)
    ensures forall c :: data.Of(c) == before.Of(c) + StatementRecords(statement, c, f)
  {
    data := before;
    var header := f.header(statement);
    if header.None? {
      return;
    }
    var (table, block) := header.value;
    var tuples := SplitRowTuples(block);
    for i := 0 to |tuples|
      invariant forall c :: data.Of(c) == before.Of(c) + TupleRecords(table, tuples[..i], c, f)
    {
      assert tuples[..i + 1][..i] == tuples[..i];
      var values := ParseSqlValues(tuples[i]);
      var record := RowToRecord(table, values, f);
      if record.Some? {
        RecordHasCollection(table, values, f);
        var c := CollectionForTable(table).value;
        data := data.With(c, data.Of(c) + [record.value]);
      }
    }
    assert tuples[..|tuples|] == tuples;
  }

  // ----- the streaming converter -----

  function Lines<J>(records: seq<Record<J>>, f: Format<J>): seq<string> {
    seq(|records|, i requires 0 <= i < |records| => f.dumps(records[i]))
  }

  lemma LinesAppend<J>(a: seq<Record<J>>, b: seq<Record<J>>, f: Format<J>)
    ensures Lines(a + b, f) == Lines(a, f) + Lines(b, f)
  {
  }

  /** Pass 1 on one row: look the collection up first, then spool one line per record. */
  method SpoolRow<J>(table: string, tuple: string, before: PerCollection<seq<string>>, counts: PerCollection<nat>,
                      f: Format<J>)
    returns (spools: PerCollection<seq<string>>, counts': PerCollection<nat>)
    requires forall c :: counts.Of(c) == |before.Of(c)|
    ensures forall c :: counts'.Of(c) == |spools.Of(c)|
    ensures forall c :: spools.Of(c) == before.Of(c) + Lines(RowRecords(table, tuple, c, f), f)
  {
    spools, counts' := before, counts;
    var values := ParseSqlValues(tuple);
    var collection := CollectionForTable(table);
    if collection.None? {
      return;
    }
    var record := RowToRecord(table, values, f);
    if record.None? {
      return;
    }
    var c := collection.value;
    assert Lines([record.value], f) == [f.dumps(record.value)];
    spools := spools.With(c, spools.Of(c) + [f.dumps(record.value)]);
    counts' := counts'.With(c, counts'.Of(c) + 1);
  }

  lemma NextTupleLines<J>(table: string, tuples: seq<string>, i: nat, before: seq<string>, c: Collection, f: Format<J>)
    requires i < |tuples|
    ensures before + Lines(TupleRecords(table, tuples[..i + 1], c, f), f) ==
            (before + Lines(TupleRecords(table, tuples[..i], c, f), f)) + Lines(RowRecords(table, tuples[i], c, f), f)
  {
    assert tuples[..i + 1][..i] == tuples[..i];
    var sofar, row := TupleRecords(table, tuples[..i], c, f), RowRecords(table, tuples[i], c, f);
    LinesAppend(sofar, row, f);
    Associate(before, Lines(sofar, f), Lines(row, f));
  }

  method SpoolStatement<J>(statement: string, before: PerCollection<seq<string>>, counts: PerCollection<nat>,
                      f: Format<J>)
    returns (spools: PerCollection<seq<string>>, counts': PerCollection<nat>)
    requires forall c :: counts.Of(c) == |before.Of(c)|
    ensures forall c :: counts'.Of(c) == |spools.Of(c)|
    ensures forall c :: spools.Of(c) == before.Of(c) + Lines(StatementRecords(statement, c, f), f)
  {
    spools, counts' := before, counts;
    var header := f.header(statement);
    if header.None? {
      return;
    }
    var (table, block) := header.value;
    var tuples := SplitRowTuples(block);
    for i := 0 to |tuples|
      invariant forall c :: counts'.Of(c) == |spools.Of(c)|
      invariant forall c :: spools.Of(c) == before.Of(c) + Lines(TupleRecords(table, tuples[..i], c, f), f)
    {
      spools, counts' := SpoolRow(table, tuples[i], spools, counts', f);
      forall c { NextTupleLines(table, tuples, i, before.Of(c), c, f); }
    }
    assert tuples[..|tuples|] == tuples;
  }

  lemma NextStatementLines<J>(statements: seq<string>, i: nat, c: Collection, f: Format<J>)
    requires i < |statements|
    ensures Lines(Records(statements[..i + 1], c, f), f)
         == Lines(Records(statements[..i], c, f), f) + Lines(StatementRecords(statements[i], c, f), f)
  {
    NextStatement(statements, i, c, f);
    LinesAppend(Records(statements[..i], c, f), StatementRecords(statements[i], c, f), f);
  }

  method SpoolDump<J>(text: string, f: Format<J>)
    returns (spools: PerCollection<seq<string>>, counts: PerCollection<nat>)
    ensures forall c :: spools.Of(c) == Lines(FileRecords(text, c, f), f)
    ensures forall c :: counts.Of(c) == |FileRecords(text, c, f)|
  {
    spools := PerCollection([], [], []);
    counts := PerCollection(0, 0, 0);
    var statements := GroupStatements(LinesOf(text, IsNewline));
    for i := 0 to |statements|
      invariant forall c :: counts.Of(c) == |spools.Of(c)|
      invariant forall c :: spools.Of(c) == Lines(Records(statements[..i], c, f), f)
    {
      spools, counts := SpoolStatement(statements[i], spools, counts, f);
      forall c { NextStatementLines(statements, i, c, f); }
    }
    assert statements[..|statements|] == statements;
  }

  // ----- the output document -----

  function ArrayText(lines: seq<string>): string {
    if lines == [] then "[]" else "[\n    " + JoinWith(lines, ",\n    ") + "\n  ]"
  }

  /** The lines so far as the loop writes them: a comma before every line but the first. */
  function Written(lines: seq<string>, n: nat): string
    requires n <= |lines|
  {
    if n == 0 then "" else Written(lines, n - 1) + (if n > 1 then ",\n    " else "\n    ") + lines[n - 1]
  }

  lemma {:induction false} JoinSnoc(parts: seq<string>, last: string, separator: string)
    ensures JoinWith(parts + [last], separator)
         == if parts == [] then last else JoinWith(parts, separator) + separator + last
  {
    if parts != [] {
      assert (parts + [last])[1..] == parts[1..] + [last];
      JoinSnoc(parts[1..], last, separator);
      if |parts| > 1 {
        Associate(parts[0] + separator, JoinWith(parts[1..], separator) + separator, last);
        Associate(parts[0] + separator, JoinWith(parts[1..], separator), separator);
      }
    }
  }

  /** The comma flag writes a plain join. */
  lemma {:induction false} WrittenIsJoin(lines: seq<string>, n: nat)
    requires 0 < n <= |lines|
    ensures Written(lines, n) == "\n    " + JoinWith(lines[..n], ",\n    ")
  {
    assert lines[..n] == lines[..n - 1] + [lines[n - 1]];
    JoinSnoc(lines[..n - 1], lines[n - 1], ",\n    ");
    if n > 1 {
      WrittenIsJoin(lines, n - 1);
      Associate("\n    ", JoinWith(lines[..n - 1], ",\n    "), ",\n    ");
      Associate("\n    ", JoinWith(lines[..n - 1], ",\n    ") + ",\n    ", lines[n - 1]);
    } else {
      assert "" + "\n    " == "\n    ";
    }
  }

  /** Pass 2 on one spool, whose lines are stripped and, when blank, passed over. */
  method WriteArray(spool: seq<string>) returns (text: string)
    requires forall i :: 0 <= i < |spool| ==> Trimmed(spool[i]) && spool[i] != ""
    ensures text == ArrayText(spool)
  {
    text := "[";
    var first := true;
    for i := 0 to |spool|
      invariant first <==> i == 0
      invariant text == "[" + Written(spool, i)
    {
      StripFixed(spool[i]);
      WrittenNext(spool, i);
      var line := Strip(spool[i]);
      if line != "" {
        if !first {
          text := text + ",";
        }
        text := text + "\n    ";
        text := text + line;
        first := false;
      }
    }
    text := text + (if first then "]" else "\n  ]");
    if spool != [] {
      WrittenIsJoin(spool, |spool|);
      assert spool[..|spool|] == spool;
      Associate("[", "\n    ", JoinWith(spool, ",\n    "));
    }
  }

  lemma WrittenNext(lines: seq<string>, n: nat)
    requires n < |lines|
    ensures "[" + Written(lines, n + 1)
         == "[" + Written(lines, n) + (if n > 0 then "," else "") + "\n    " + lines[n]
  {
    assert ",\n    " == "," + "\n    ";
  }

  /** The collection's name in the document. */
  function Label(c: Collection): string {
    match c
    case Clients => "clients"
    case Manifestations => "manifestations"
    case Items => "items"
  }

  /** Every collection is labelled with the plural of its table's name. */
  lemma LabelNamesTable(table: string, c: Collection)
    ensures CollectionForTable(table) == Some(c) <==> Label(c) == table + "s"
  {
    if Label(c) == table + "s" {
      assert |Label(c)| == |table| + 1 && Label(c)[..|table|] == table;
    }
    assert |"client"| == 6 && |"manifestation"| == 13 && |"item"| == 4;
    assert "client" + "s" == "clients" && "manifestation" + "s" == "manifestations" && "item" + "s" == "items";
  }

  const COLLECTIONS := [Clients, Manifestations, Items]

  function Entry(c: Collection, listed: string): string {
    "  \"" + Label(c) + "\": " + listed
  }

  function Document(arrays: Collection -> string): string {
    "{\n" + JoinWith([Entry(Clients, arrays(Clients)), Entry(Manifestations, arrays(Manifestations)),
                      Entry(Items, arrays(Items))], ",\n") + "\n}\n"
  }

  /** The document up to the entry with this index, as the loop writes it. */
  function Opened(entries: seq<string>, n: nat): string
    requires n <= |entries|
  {
    if n == 0 then "{\n" else Opened(entries, n - 1) + (if n > 1 then ",\n" else "") + entries[n - 1]
  }

  lemma {:induction false} OpenedIsJoin(entries: seq<string>, n: nat)
    requires n <= |entries|
    ensures Opened(entries, n) == "{\n" + JoinWith(entries[..n], ",\n")
  {
    if n > 0 {
      OpenedIsJoin(entries, n - 1);
      assert entries[..n] == entries[..n - 1] + [entries[n - 1]];
      JoinSnoc(entries[..n - 1], entries[n - 1], ",\n");
      Associate("{\n", JoinWith(entries[..n - 1], ",\n"), ",\n");
      Associate("{\n", JoinWith(entries[..n - 1], ",\n") + ",\n", entries[n - 1]);
    }
  }

  /** Pass 2: one labelled array per collection. */
  method WriteDocument(spools: PerCollection<seq<string>>) returns (document: string)
    requires forall c :: forall i :: 0 <= i < |spools.Of(c)| ==> Trimmed(spools.Of(c)[i]) && spools.Of(c)[i] != ""
    ensures document == Document(c => ArrayText(spools.Of(c)))
  {
    ghost var entries := seq(3, i requires 0 <= i < 3 => Entry(COLLECTIONS[i], ArrayText(spools.Of(COLLECTIONS[i]))));
    document := "{\n";
    for i := 0 to |COLLECTIONS|
      invariant document == Opened(entries, i)
    {
      var c := COLLECTIONS[i];
      if i > 0 {
        document := document + ",\n";
      }
      var listed := WriteArray(spools.Of(c));
      document := document + Entry(c, listed);
    }
    OpenedIsJoin(entries, 3);
    assert entries[..3] == [Entry(Clients, ArrayText(spools.Of(Clients))),
                            Entry(Manifestations, ArrayText(spools.Of(Manifestations))),
                            Entry(Items, ArrayText(spools.Of(Items)))];
    document := document + "\n}\n";
  }

  function DumpArray<J>(text: string, c: Collection, f: Format<J>): string {
    ArrayText(Lines(FileRecords(text, c, f), f))
  }

  /** The streaming converter: its document lists, and its counts count, the records of the file. */
  method ConvertDump<J(!new)>(text: string, f: Format<J>) returns (document: string, counts: PerCollection<nat>)
    requires forall r: Record<J> :: Trimmed(f.dumps(r)) && f.dumps(r) != ""
    ensures document == Document(c => DumpArray(text, c, f))
    ensures forall c :: counts.Of(c) == |FileRecords(text, c, f)|
    ensures OnlyNewlines(text) ==> forall c :: FileRecords(text, c, f) == ContentRecords(text, c, f)
  {
    if OnlyNewlines(text) {
      LinesAgreeIff(text);
    }
    var spools;
    spools, counts := SpoolDump(text, f);
    document := WriteDocument(spools);
  }

  // ----- the records of a printed statement -----

  function PrintedRecords<J>(table: string, rows: seq<Row>, c: Collection, f: Format<J>): seq<Record<J>> {
    if rows == [] then []
    else
      var record := RowToRecord(table, Read(rows[|rows| - 1].fields), f);
      PrintedRecords(table, rows[..|rows| - 1], c, f) +
      if record.Some? && CollectionForTable(table) == Some(c) then [record.value] else []
  }

  lemma {:induction false} RecordsOfTuples<J>(table: string, rows: seq<Row>, tuples: seq<string>, c: Collection,
                                              f: Format<J>)
    requires |tuples| == |rows|
    requires forall i :: 0 <= i < |rows| ==> Values(tuples[i], "", false) == Read(rows[i].fields)
    ensures TupleRecords(table, tuples, c, f) == PrintedRecords(table, rows, c, f)
    decreases |rows|
  {
    if rows != [] {
      RecordsOfTuples(table, rows[..|rows| - 1], tuples[..|rows| - 1], c, f);
    }
  }

  /** Whatever its strings contain, a printed statement gives one record per row that fits the table. */
  lemma PrintedStatementRecords<J>(statement: string, table: string, rows: seq<Row>, c: Collection, f: Format<J>)
    requires f.header(statement) == Some((table, PrintRows(rows)))
    requires forall i :: 0 <= i < |rows| ==> PrintableRow(rows[i])
    ensures StatementRecords(statement, c, f) == PrintedRecords(table, rows, c, f)
  {
    ScanPrinted(rows);
    RecordsOfTuples(table, rows, Tuples(PrintRows(rows), 0, "", false), c, f);
  }
}
