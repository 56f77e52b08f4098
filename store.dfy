/**
 * The relational store as ingestion sees it: an ordered list of tables (the
 * order of the engine's master table), each with its recorded CREATE text,
 * its columns and its rows. The engine matches table names ignoring ASCII
 * case, so every lookup by name here compares `Lower` of the names. The functions here say what each statement the
 * ingestion code issues does to the store; the class `Database` (the `DB`
 * object) issues them.
 */
module Store {
  import opened Wrappers
  import opened Text
  import opened Records
  import opened Sql
  import opened FileTypes

  /** A column as `PRAGMA table_info` reports it: its name and declared type. */
  datatype Column = Column(name: string, declType: string)

  /** A table; each row holds one value per column, in column order. */
  datatype Table = Table(name: string, sql: string, columns: seq<Column>, rows: seq<seq<Scalar>>)

  /** What the schema inspector reads of a table: everything but the rows. */
  datatype TableSchema = TableSchema(name: string, sql: string, columns: seq<Column>)

  function ColumnNames(cs: seq<Column>): seq<string> {
    seq(|cs|, i requires 0 <= i < |cs| => cs[i].name)
  }

  predicate DistinctStrings(ns: seq<string>) {
    forall i, j :: 0 <= i < j < |ns| ==> ns[i] != ns[j]
  }

  predicate WellFormedTable(t: Table) {
    && DistinctStrings(ColumnNames(t.columns))
    && forall r :: r in t.rows ==> |r| == |t.columns|
  }

  /** No two tables share a name, ignoring ASCII case. */
  predicate DistinctTableNames(ts: seq<Table>) {
    forall i, j :: 0 <= i < j < |ts| ==> Lower(ts[i].name) != Lower(ts[j].name)
  }

  predicate AllWellFormed(ts: seq<Table>) {
    forall i :: 0 <= i < |ts| ==> WellFormedTable(ts[i])
  }

  /** A store: table names are unique and every table is well formed. */
  predicate ValidStore(ts: seq<Table>) {
    DistinctTableNames(ts) && AllWellFormed(ts)
  }

  /** The schema snapshot: name, CREATE text and columns of every table, in order. */
  function SchemaOf(ts: seq<Table>): (s: seq<TableSchema>)
    ensures |s| == |ts|
    ensures forall i :: 0 <= i < |ts| ==> s[i] == TableSchema(ts[i].name, ts[i].sql, ts[i].columns)
  {
    seq(|ts|, i requires 0 <= i < |ts| => TableSchema(ts[i].name, ts[i].sql, ts[i].columns))
  }

  /** Position of the table called `name` (in any ASCII case), if there is one. */
  function IndexOf(ts: seq<Table>, name: string): (r: Option<nat>)
    ensures r.Some? ==> r.value < |ts| && Lower(ts[r.value].name) == Lower(name)
    ensures r.Some? ==> forall j :: 0 <= j < r.value ==> Lower(ts[j].name) != Lower(name)
    ensures r.None? ==> forall j :: 0 <= j < |ts| ==> Lower(ts[j].name) != Lower(name)
  {
    if ts == [] then None
    else if Lower(ts[0].name) == Lower(name) then Some(0)
    else match IndexOf(ts[1..], name)
      case None => None
      case Some(i) => Some(i + 1)
  }

  /** The table called `name` (in any ASCII case), if there is one. */
  function Get(ts: seq<Table>, name: string): (r: Option<Table>)
    ensures r.Some? ==> r.value in ts && Lower(r.value.name) == Lower(name)
    ensures r.None? ==> forall t :: t in ts ==> Lower(t.name) != Lower(name)
  {
    match IndexOf(ts, name)
    case None => None
    case Some(i) => Some(ts[i])
  }

  /** In a store with unique names, the table at position i is the one `Get` finds by its name. */
  lemma GetAt(ts: seq<Table>, i: nat)
    requires DistinctTableNames(ts) && i < |ts|
    ensures Get(ts, ts[i].name) == Some(ts[i])
  {
    assert IndexOf(ts, ts[i].name).Some?;
  }

  /** Lookups see a name only through its lower-case form. */
  lemma {:induction false} IndexOfIgnoresCase(ts: seq<Table>, a: string, b: string)
    requires Lower(a) == Lower(b)
    ensures IndexOf(ts, a) == IndexOf(ts, b)
  {
    if ts != [] {
      IndexOfIgnoresCase(ts[1..], a, b);
    }
  }

  /** Replacing the table at position i by one of the same name leaves every other name's lookup as it was. */
  lemma UpdateKeepsOthers(ts: seq<Table>, i: nat, t: Table)
    requires DistinctTableNames(ts) && i < |ts| && Lower(t.name) == Lower(ts[i].name)
    ensures DistinctTableNames(ts[i := t])
    ensures forall n :: Lower(n) != Lower(t.name) ==> Get(ts[i := t], n) == Get(ts, n)
  {
    var after := ts[i := t];
    forall n | Lower(n) != Lower(t.name) ensures Get(after, n) == Get(ts, n) {
      match IndexOf(ts, n)
      case None =>
      case Some(k) =>
        assert after[k] == ts[k];
        GetAt(after, k);
        GetAt(ts, k);
    }
  }

  /** Appending a table whose name is new leaves every other name's lookup as it was and finds the new one. */
  lemma AppendKeepsOthers(ts: seq<Table>, t: Table)
    requires DistinctTableNames(ts) && IndexOf(ts, t.name).None?
    ensures DistinctTableNames(ts + [t])
    ensures Get(ts + [t], t.name) == Some(t)
    ensures forall n :: Lower(n) != Lower(t.name) ==> Get(ts + [t], n) == Get(ts, n)
  {
    var after := ts + [t];
    assert DistinctTableNames(after);
    GetAt(after, |ts|);
    forall n | Lower(n) != Lower(t.name) ensures Get(after, n) == Get(ts, n) {
      match IndexOf(ts, n)
      case None =>
      case Some(k) =>
        assert after[k] == ts[k];
        GetAt(after, k);
        GetAt(ts, k);
    }
  }

  // ---------------------------------------------------------------------------
  // What each statement does to the store

  /** `CREATE TABLE IF NOT EXISTS`: a no-op if the name is taken, else the table is appended. */
  function CreateIfNotExists(ts: seq<Table>, t: Table): seq<Table> {
    if IndexOf(ts, t.name).Some? then ts else ts + [t]
  }

  /** `DROP TABLE IF EXISTS "name"`. */
  function DropIfExists(ts: seq<Table>, name: string): seq<Table> {
    match IndexOf(ts, name)
    case None => ts
    case Some(i) => ts[..i] + ts[i + 1..]
  }

  /** Removing position i keeps the others, shifted down past i. */
  lemma RemoveAt(ts: seq<Table>, i: nat)
    requires i < |ts|
    ensures |ts[..i] + ts[i + 1..]| == |ts| - 1
    ensures forall j :: 0 <= j < |ts| - 1 ==> (ts[..i] + ts[i + 1..])[j] == (if j < i then ts[j] else ts[j + 1])
  {
  }

  /** Dropping a table keeps names unique and the dropped name is gone. */
  lemma DropIfExistsRemoves(ts: seq<Table>, name: string)
    requires DistinctTableNames(ts)
    ensures DistinctTableNames(DropIfExists(ts, name))
    ensures Get(DropIfExists(ts, name), name) == None
  {
    match IndexOf(ts, name)
    case None =>
    case Some(i) =>
      var r := ts[..i] + ts[i + 1..];
      assert DropIfExists(ts, name) == r;
      RemoveAt(ts, i);
      RemovedNamesDistinct(ts, i);
      forall j | 0 <= j < |r| ensures Lower(r[j].name) != Lower(name) {
        var src := if j < i then j else j + 1;
        assert r[j] == ts[src];
      }
  }

  /** Dropping a table keeps every remaining table well formed. */
  lemma DropIfExistsValid(ts: seq<Table>, name: string)
    requires ValidStore(ts)
    ensures ValidStore(DropIfExists(ts, name))
  {
    DropIfExistsRemoves(ts, name);
    match IndexOf(ts, name)
    case None =>
    case Some(i) =>
      assert DropIfExists(ts, name) == ts[..i] + ts[i + 1..];
      RemovedTablesWellFormed(ts, i);
  }

  lemma RemovedNamesDistinct(ts: seq<Table>, i: nat)
    requires DistinctTableNames(ts) && i < |ts|
    ensures DistinctTableNames(ts[..i] + ts[i + 1..])
  {
    var r := ts[..i] + ts[i + 1..];
    RemoveAt(ts, i);
    forall j, k | 0 <= j < k < |r| ensures Lower(r[j].name) != Lower(r[k].name) {
      var sj := if j < i then j else j + 1;
      var sk := if k < i then k else k + 1;
      assert r[j] == ts[sj] && r[k] == ts[sk] && sj < sk;
    }
  }

  lemma RemovedTablesWellFormed(ts: seq<Table>, i: nat)
    requires AllWellFormed(ts) && i < |ts|
    ensures AllWellFormed(ts[..i] + ts[i + 1..])
  {
    var r := ts[..i] + ts[i + 1..];
    RemoveAt(ts, i);
    forall j | 0 <= j < |r| ensures WellFormedTable(r[j]) {
      var src := if j < i then j else j + 1;
      assert r[j] == ts[src];
    }
  }

  /** Dropping a table leaves the lookup of every other name as it was. */
  lemma DropIfExistsKeepsOthers(ts: seq<Table>, name: string, n: string)
    requires DistinctTableNames(ts) && Lower(n) != Lower(name)
    ensures Get(DropIfExists(ts, name), n) == Get(ts, n)
  {
    match IndexOf(ts, name)
    case None =>
    case Some(i) =>
      var r := ts[..i] + ts[i + 1..];
      assert DropIfExists(ts, name) == r;
      RemoveAt(ts, i);
      RemovedNamesDistinct(ts, i);
      match IndexOf(ts, n)
      case None =>
        forall j | 0 <= j < |r| ensures Lower(r[j].name) != Lower(n) {
          var src := if j < i then j else j + 1;
          assert r[j] == ts[src];
        }
        assert IndexOf(r, n).None?;
      case Some(k) =>
        assert k != i;
        var k' := if k < i then k else k - 1;
        assert r[k'] == ts[k];
        RemovedNamesDistinct(ts, i);
        GetAt(r, k');
        IndexOfIgnoresCase(r, n, ts[k].name);
  }

  /** The value the engine stores in each of `tableCols` for an INSERT naming `cols`; unnamed columns get NULL. */
  function AlignRow(tableCols: seq<Column>, cols: seq<string>, bound: seq<Scalar>): (r: seq<Scalar>)
    requires |bound| == |cols|
    ensures |r| == |tableCols|
  {
    seq(|tableCols|, j requires 0 <= j < |tableCols| =>
      match IndexOfName(cols, tableCols[j].name)
      case None => Null
      case Some(k) => bound[k])
  }

  function IndexOfName(ns: seq<string>, n: string): (r: Option<nat>)
    ensures r.Some? ==> r.value < |ns| && ns[r.value] == n
    ensures r.None? ==> forall j :: 0 <= j < |ns| ==> ns[j] != n
  {
    if ns == [] then None
    else if ns[0] == n then Some(0)
    else match IndexOfName(ns[1..], n)
      case None => None
      case Some(i) => Some(i + 1)
  }

  /** An INSERT that names exactly the table's columns, in the table's order, stores the tuple as bound. */
  lemma AlignRowIdentity(tableCols: seq<Column>, bound: seq<Scalar>)
    requires DistinctStrings(ColumnNames(tableCols))
    requires |bound| == |tableCols|
    ensures AlignRow(tableCols, ColumnNames(tableCols), bound) == bound
  {
    var names := ColumnNames(tableCols);
    var r := AlignRow(tableCols, names, bound);
    forall j | 0 <= j < |tableCols| ensures r[j] == bound[j] {
      assert names[j] == tableCols[j].name;
      assert IndexOfName(names, tableCols[j].name).Some?;
    }
  }

  /** The first name in `cols` that is not a column of the table: the INSERT then fails to prepare. */
  function MissingColumn(tableCols: seq<Column>, cols: seq<string>): (r: Option<string>)
    ensures r.None? <==> forall c :: c in cols ==> c in ColumnNames(tableCols)
    ensures r.Some? ==> r.value in cols && r.value !in ColumnNames(tableCols)
  {
    if cols == [] then None
    else if cols[0] !in ColumnNames(tableCols) then Some(cols[0])
    else MissingColumn(tableCols, cols[1..])
  }

  /** A table that exists stays; a new one is appended; either way the name then resolves. */
  lemma CreateIfNotExistsFinds(ts: seq<Table>, t: Table)
    ensures IndexOf(CreateIfNotExists(ts, t), t.name).Some?
  {
    if IndexOf(ts, t.name).None? {
      var r := ts + [t];
      assert r[|ts|].name == t.name;
    }
  }

  // ---------------------------------------------------------------------------
  // Loading parsed records (the delimited-text path)

  datatype IngestError =
    | EmptyDataset
    | NoSuchColumn(table: string, column: string)
    /** Record `row` holds an invalid date, which has no ISO text to bind. */
    | UnboundDate(table: string, row: nat)

  /** The columns the delimited-text path declares: the first record's keys, each with its inferred type. */
  function DeclaredColumns(first: Record): (cs: seq<Column>)
    ensures |cs| == |first|
    ensures forall i :: 0 <= i < |first| ==> cs[i] == Column(first[i].name, TypeName(InferType(first[i].value)))
  {
    seq(|first|, i requires 0 <= i < |first| => Column(first[i].name, TypeName(ColumnTypes(first)[i])))
  }

  /** The table `CREATE TABLE IF NOT EXISTS` makes for the first record when the name is free. */
  function NewTable(name: string, first: Record): Table {
    Table(name, StoredCreateSql(name, first), DeclaredColumns(first), [])
  }

  /** Every record bound by the first record's keys. */
  function BindAll(cols: seq<string>, records: seq<Record>): (rows: seq<seq<Scalar>>)
    requires forall j :: 0 <= j < |records| ==> Bindable(cols, records[j])
    ensures |rows| == |records|
    ensures forall j :: 0 <= j < |records| ==> rows[j] == BindRow(cols, records[j])
  {
    seq(|records|, j requires 0 <= j < |records| => BindRow(cols, records[j]))
  }

  /** The rows the engine stores for those bound tuples, in the table's column order. */
  function StoredRows(tableCols: seq<Column>, cols: seq<string>, records: seq<Record>): (rows: seq<seq<Scalar>>)
    requires forall j :: 0 <= j < |records| ==> Bindable(cols, records[j])
    ensures |rows| == |records|
    ensures forall j :: 0 <= j < |records| ==> rows[j] == AlignRow(tableCols, cols, BindRow(cols, records[j]))
  {
    seq(|records|, j requires 0 <= j < |records| => AlignRow(tableCols, cols, BindRow(cols, records[j])))
  }

  /** The store after a load, and the error that stopped it, if any. */
  datatype Ingest = Ingest(tables: seq<Table>, error: Option<IngestError>)

  /** The records inserted before the first one that cannot be bound. */
  function BoundPrefix(cols: seq<string>, records: seq<Record>): (r: seq<Record>)
    ensures forall j :: 0 <= j < |r| ==> Bindable(cols, r[j])
  {
    match FirstUnbindable(cols, records)
    case None => records
    case Some(k) => records[..k]
  }

  /**
   * `insertRows`: with no records it fails before touching the store; otherwise
   * it creates the table unless the name exists, then fails to prepare the
   * INSERT if the table lacks one of the first record's keys, or inserts the
   * records in order until one holds an invalid date, whose binding throws.
   * The rows inserted before the throw stay in the store: the transaction is
   * neither committed nor rolled back, and the connection sees its own writes.
   */
  function LoadRecords(ts: seq<Table>, name: string, records: seq<Record>): (r: Ingest)
    ensures r.error == Some(EmptyDataset) <==> |records| == 0
    ensures |ts| <= |r.tables| <= |ts| + 1
    ensures forall k :: 0 <= k < |ts| ==>
              && r.tables[k].name == ts[k].name && r.tables[k].sql == ts[k].sql
              && r.tables[k].columns == ts[k].columns
              && ts[k].rows <= r.tables[k].rows
  {
    if |records| == 0 then Ingest(ts, Some(EmptyDataset))
    else
      var first := records[0];
      var cols := Keys(first);
      var created := CreateIfNotExists(ts, NewTable(name, first));
      CreateIfNotExistsFinds(ts, NewTable(name, first));
      var i := IndexOf(created, name).value;
      match MissingColumn(created[i].columns, cols)
      case Some(c) => Ingest(created, Some(NoSuchColumn(name, c)))
      case None =>
        var stored := StoredRows(created[i].columns, cols, BoundPrefix(cols, records));
        var loaded := created[i := created[i].(rows := created[i].rows + stored)];
        match FirstUnbindable(cols, records)
        case None => Ingest(loaded, None)
        case Some(k) => Ingest(loaded, Some(UnboundDate(name, k)))
  }

  lemma DeclaredColumnsNames(first: Record)
    ensures ColumnNames(DeclaredColumns(first)) == Keys(first)
    ensures DistinctStrings(Keys(first))
  {
  }

  /** Appending aligned rows to one table keeps the store valid. */
  lemma AppendKeepsValid(ts: seq<Table>, i: nat, rows: seq<seq<Scalar>>)
    requires ValidStore(ts) && i < |ts|
    requires forall r :: r in rows ==> |r| == |ts[i].columns|
    ensures ValidStore(ts[i := ts[i].(rows := ts[i].rows + rows)])
  {
    var t := ts[i].(rows := ts[i].rows + rows);
    assert WellFormedTable(t);
  }

  lemma StoredRowsWidth(tableCols: seq<Column>, cols: seq<string>, records: seq<Record>)
    requires forall j :: 0 <= j < |records| ==> Bindable(cols, records[j])
    ensures forall r :: r in StoredRows(tableCols, cols, records) ==> |r| == |tableCols|
  {
  }

  /** Creating the table for a first record keeps the store valid. */
  lemma CreateKeepsValid(ts: seq<Table>, name: string, first: Record)
    requires ValidStore(ts)
    ensures ValidStore(CreateIfNotExists(ts, NewTable(name, first)))
  {
    if IndexOf(ts, name).None? {
      DeclaredColumnsNames(first);
      assert WellFormedTable(NewTable(name, first));
      AppendKeepsOthers(ts, NewTable(name, first));
    }
  }

  /** Loading records never breaks the store's validity. */
  lemma LoadRecordsValid(ts: seq<Table>, name: string, records: seq<Record>)
    requires ValidStore(ts)
    ensures ValidStore(LoadRecords(ts, name, records).tables)
  {
    if |records| > 0 {
      var first := records[0];
      var cols := Keys(first);
      var created := CreateIfNotExists(ts, NewTable(name, first));
      CreateKeepsValid(ts, name, first);
      CreateIfNotExistsFinds(ts, NewTable(name, first));
      var i := IndexOf(created, name).value;
      if MissingColumn(created[i].columns, cols).None? {
        var rows := StoredRows(created[i].columns, cols, BoundPrefix(cols, records));
        StoredRowsWidth(created[i].columns, cols, BoundPrefix(cols, records));
        AppendKeepsValid(created, i, rows);
      }
    }
  }

  /** No record holds an invalid date under the first record's keys. */
  predicate AllBindable(records: seq<Record>)
    requires |records| > 0
  {
    forall j :: 0 <= j < |records| ==> Bindable(Keys(records[0]), records[j])
  }

  /** Binding by the table's own column names, in its order, stores each bound tuple unchanged. */
  lemma StoredRowsExact(tableCols: seq<Column>, records: seq<Record>)
    requires DistinctStrings(ColumnNames(tableCols))
    requires forall j :: 0 <= j < |records| ==> Bindable(ColumnNames(tableCols), records[j])
    ensures StoredRows(tableCols, ColumnNames(tableCols), records) == BindAll(ColumnNames(tableCols), records)
  {
    var cols := ColumnNames(tableCols);
    var stored := StoredRows(tableCols, cols, records);
    forall j | 0 <= j < |records| ensures stored[j] == BindRow(cols, records[j]) {
      AlignRowIdentity(tableCols, BindRow(cols, records[j]));
    }
  }

  /**
   * Uploading into a name that is free (in any case) creates the table from the
   * first record (its keys, in order, with their inferred types) and stores
   * one row per record, each the record's bound tuple; no other table changes.
   */
  lemma {:induction false} LoadIntoFreshTable(ts: seq<Table>, name: string, records: seq<Record>)
    requires ValidStore(ts) && Get(ts, name) == None && |records| > 0 && AllBindable(records)
    ensures var r := LoadRecords(ts, name, records);
            && r.error == None
            && Get(r.tables, name) == Some(Table(name, StoredCreateSql(name, records[0]),
                                                 DeclaredColumns(records[0]), BindAll(Keys(records[0]), records)))
            && forall n :: Lower(n) != Lower(name) ==> Get(r.tables, n) == Get(ts, n)
  {
    var first := records[0];
    var cols := Keys(first);
    var t := NewTable(name, first);
    var created := ts + [t];
    assert IndexOf(ts, name).None?;
    assert CreateIfNotExists(ts, t) == created;
    CreateIfNotExistsFinds(ts, t);
    var i := IndexOf(created, name).value;
    assert i == |ts|;
    DeclaredColumnsNames(first);
    assert MissingColumn(created[i].columns, cols).None?;
    assert FirstUnbindable(cols, records).None?;
    assert BoundPrefix(cols, records) == records;
    var stored := StoredRows(t.columns, cols, records);
    StoredRowsExact(t.columns, records);
    assert stored == BindAll(cols, records);
    assert t.rows + stored == stored;
    var after := created[i := t.(rows := t.rows + stored)];
    assert LoadRecords(ts, name, records).tables == after;
    assert after == ts + [t.(rows := stored)];
    AppendKeepsOthers(ts, t.(rows := stored));
  }

  /**
   * Re-uploading records whose keys are all columns of an existing table
   * (found by name in any case) appends one row per record to that table and
   * leaves its CREATE text and columns as they were (`IF NOT EXISTS` makes the
   * CREATE a no-op); a column the records do not name gets NULL, and when the
   * keys are exactly the table's columns each row is the record's bound tuple.
   * No other table changes.
   */
  lemma {:induction false} LoadAppendsToExisting(ts: seq<Table>, name: string, records: seq<Record>, t: Table)
    requires ValidStore(ts) && Get(ts, name) == Some(t) && |records| > 0 && AllBindable(records)
    requires forall c :: c in Keys(records[0]) ==> c in ColumnNames(t.columns)
    ensures var r := LoadRecords(ts, name, records);
            && r.error == None
            && Get(r.tables, name) == Some(t.(rows := t.rows + StoredRows(t.columns, Keys(records[0]), records)))
            && (ColumnNames(t.columns) == Keys(records[0]) ==>
                  StoredRows(t.columns, Keys(records[0]), records) == BindAll(Keys(records[0]), records))
            && forall n :: Lower(n) != Lower(name) ==> Get(r.tables, n) == Get(ts, n)
  {
    var first := records[0];
    var cols := Keys(first);
    var i := IndexOf(ts, name).value;
    assert CreateIfNotExists(ts, NewTable(name, first)) == ts;
    assert ts[i] == t;
    assert MissingColumn(t.columns, cols).None?;
    assert FirstUnbindable(cols, records).None?;
    assert BoundPrefix(cols, records) == records;
    var stored := StoredRows(t.columns, cols, records);
    if ColumnNames(t.columns) == cols {
      StoredRowsExact(t.columns, records);
    }
    var after := ts[i := t.(rows := t.rows + stored)];
    assert IndexOf(CreateIfNotExists(ts, NewTable(name, first)), name).value == i;
    assert LoadRecords(ts, name, records).tables == after;
    UpdateKeepsOthers(ts, i, t.(rows := t.rows + stored));
    GetAt(after, i);
  }

  /**
   * If an existing table lacks one of the first record's keys, the INSERT
   * cannot be prepared: the load reports that column and the store is unchanged.
   */
  lemma LoadRejectsUnknownColumn(ts: seq<Table>, name: string, records: seq<Record>, t: Table, c: string)
    requires Get(ts, name) == Some(t) && |records| > 0
    requires c in Keys(records[0]) && c !in ColumnNames(t.columns)
    ensures LoadRecords(ts, name, records).tables == ts
    ensures LoadRecords(ts, name, records).error.value.NoSuchColumn?
  {
    var i := IndexOf(ts, name).value;
    assert CreateIfNotExists(ts, NewTable(name, records[0])) == ts;
    assert ts[i] == t;
  }

  /**
   * When record k is the first that holds an invalid date, the load stops
   * there: the store is what loading only the records before it would give
   * (just the CREATE when k is 0), and unless the INSERT could not be
   * prepared at all, the error names record k.
   */
  lemma {:induction false} LoadStopsAtInvalidDate(ts: seq<Table>, name: string, records: seq<Record>, k: nat)
    requires |records| > 0 && FirstUnbindable(Keys(records[0]), records) == Some(k)
    ensures var r := LoadRecords(ts, name, records);
            && r.error.Some?
            && (r.error.value.NoSuchColumn? || r.error.value == UnboundDate(name, k))
            && (k == 0 ==> r.tables == CreateIfNotExists(ts, NewTable(name, records[0])))
            && (k > 0 ==> r.tables == LoadRecords(ts, name, records[..k]).tables)
  {
    var first := records[0];
    var cols := Keys(first);
    var created := CreateIfNotExists(ts, NewTable(name, first));
    CreateIfNotExistsFinds(ts, NewTable(name, first));
    var i := IndexOf(created, name).value;
    assert BoundPrefix(cols, records) == records[..k];
    if k == 0 {
      assert StoredRows(created[i].columns, cols, records[..0]) == [];
      assert created[i].rows + [] == created[i].rows;
      assert created[i := created[i]] == created;
    } else {
      var prefix := records[..k];
      assert prefix[0] == first;
      assert FirstUnbindable(cols, prefix).None?;
      assert BoundPrefix(cols, prefix) == prefix;
    }
  }

  // ---------------------------------------------------------------------------
  // Importing a database file

  /** Drop the same-named table, then recreate `s` from its own CREATE text with all its rows. */
  function ReplaceTable(ts: seq<Table>, s: Table): seq<Table> {
    DropIfExists(ts, s.name) + [s]
  }

  /** Import every table of `source`, in the source's order. */
  function ImportAll(ts: seq<Table>, source: seq<Table>): seq<Table>
    decreases |source|
  {
    if source == [] then ts
    else ImportAll(ReplaceTable(ts, source[0]), source[1..])
  }

  /** Replacing keeps names unique and puts `s` under its name. */
  lemma ReplaceTableFinds(ts: seq<Table>, s: Table)
    requires DistinctTableNames(ts)
    ensures DistinctTableNames(ReplaceTable(ts, s))
    ensures Get(ReplaceTable(ts, s), s.name) == Some(s)
  {
    var d := DropIfExists(ts, s.name);
    DropIfExistsRemoves(ts, s.name);
    var r := d + [s];
    assert forall j :: 0 <= j < |d| ==> Lower(d[j].name) != Lower(s.name);
    assert DistinctTableNames(r);
    GetAt(r, |d|);
  }

  /** Replacing keeps names unique, puts `s` under its name and leaves every other name as it was. */
  lemma {:induction false} ReplaceTableLookup(ts: seq<Table>, s: Table)
    requires DistinctTableNames(ts)
    ensures DistinctTableNames(ReplaceTable(ts, s))
    ensures Get(ReplaceTable(ts, s), s.name) == Some(s)
    ensures forall n :: Lower(n) != Lower(s.name) ==> Get(ReplaceTable(ts, s), n) == Get(ts, n)
  {
    var d := DropIfExists(ts, s.name);
    DropIfExistsRemoves(ts, s.name);
    assert IndexOf(d, s.name).None?;
    AppendKeepsOthers(d, s);
    forall n | Lower(n) != Lower(s.name) ensures Get(d + [s], n) == Get(ts, n) {
      DropIfExistsKeepsOthers(ts, s.name, n);
    }
  }

  lemma {:induction false} ImportValid(ts: seq<Table>, source: seq<Table>)
    requires ValidStore(ts) && AllWellFormed(source)
    ensures ValidStore(ImportAll(ts, source))
    decreases |source|
  {
    if source != [] {
      var next := ReplaceTable(ts, source[0]);
      DropIfExistsValid(ts, source[0].name);
      ReplaceTableLookup(ts, source[0]);
      assert WellFormedTable(source[0]);
      assert ValidStore(next);
      assert AllWellFormed(source[1..]);
      ImportValid(next, source[1..]);
    }
  }

  lemma {:induction false} ImportKeepsOthers(ts: seq<Table>, source: seq<Table>, n: string)
    requires DistinctTableNames(ts)
    requires forall k :: 0 <= k < |source| ==> Lower(source[k].name) != Lower(n)
    ensures Get(ImportAll(ts, source), n) == Get(ts, n)
    decreases |source|
  {
    if source != [] {
      var next := ReplaceTable(ts, source[0]);
      ReplaceTableLookup(ts, source[0]);
      assert forall k :: 0 <= k < |source[1..]| ==> Lower(source[1..][k].name) != Lower(n) by {
        forall k | 0 <= k < |source[1..]| ensures Lower(source[1..][k].name) != Lower(n) {
          assert source[1..][k] == source[k + 1];
        }
      }
      ImportKeepsOthers(next, source[1..], n);
    }
  }

  lemma TailDistinct(source: seq<Table>)
    requires DistinctTableNames(source) && source != []
    ensures DistinctTableNames(source[1..])
    ensures forall j :: 0 <= j < |source[1..]| ==> Lower(source[1..][j].name) != Lower(source[0].name)
  {
    var rest := source[1..];
    forall i, j | 0 <= i < j < |rest| ensures Lower(rest[i].name) != Lower(rest[j].name) {
      assert rest[i] == source[i + 1] && rest[j] == source[j + 1];
    }
    forall j | 0 <= j < |rest| ensures Lower(rest[j].name) != Lower(source[0].name) {
      assert rest[j] == source[j + 1];
    }
  }

  /** When the file's tables have distinct names, each of them is found, as it is, after the import. */
  lemma {:induction false} ImportFinds(ts: seq<Table>, source: seq<Table>, k: nat)
    requires DistinctTableNames(ts) && DistinctTableNames(source) && k < |source|
    ensures Get(ImportAll(ts, source), source[k].name) == Some(source[k])
    decreases |source|
  {
    if k == 0 {
      ImportFindsFirst(ts, source);
    } else {
      var next := ReplaceTable(ts, source[0]);
      var rest := source[1..];
      assert ImportAll(ts, source) == ImportAll(next, rest);
      ReplaceTableFinds(ts, source[0]);
      TailDistinct(source);
      assert rest[k - 1] == source[k];
      ImportFinds(next, rest, k - 1);
    }
  }

  /** The file's first table survives the rest of the import, since no later table shares its name. */
  lemma ImportFindsFirst(ts: seq<Table>, source: seq<Table>)
    requires DistinctTableNames(ts) && DistinctTableNames(source) && |source| > 0
    ensures Get(ImportAll(ts, source), source[0].name) == Some(source[0])
  {
    var next := ReplaceTable(ts, source[0]);
    var rest := source[1..];
    assert ImportAll(ts, source) == ImportAll(next, rest);
    ReplaceTableFinds(ts, source[0]);
    TailDistinct(source);
    ImportKeepsOthers(next, rest, source[0].name);
  }

  /**
   * After importing a database, each of its tables is present exactly as it is
   * in the file (whatever a table of the same name, in any case, held before),
   * and every table of another name is as it was.
   */
  lemma ImportReplaces(ts: seq<Table>, source: seq<Table>)
    requires ValidStore(ts) && ValidStore(source)
    ensures ValidStore(ImportAll(ts, source))
    ensures forall k :: 0 <= k < |source| ==> Get(ImportAll(ts, source), source[k].name) == Some(source[k])
    ensures forall n :: (forall k :: 0 <= k < |source| ==> Lower(source[k].name) != Lower(n)) ==>
                        Get(ImportAll(ts, source), n) == Get(ts, n)
  {
    ImportValid(ts, source);
    forall k | 0 <= k < |source| ensures Get(ImportAll(ts, source), source[k].name) == Some(source[k]) {
      ImportFinds(ts, source, k);
    }
    forall n | forall k :: 0 <= k < |source| ==> Lower(source[k].name) != Lower(n)
      ensures Get(ImportAll(ts, source), n) == Get(ts, n)
    {
      ImportKeepsOthers(ts, source, n);
    }
  }

  /** A row read back with `SELECT *` as an object keyed by column name. */
  function RowObject(cs: seq<Column>, values: seq<Scalar>): Record
    requires DistinctStrings(ColumnNames(cs)) && |values| == |cs|
  {
    var r := seq(|cs|, i requires 0 <= i < |cs| => Field(cs[i].name, values[i]));
    assert forall i, j :: 0 <= i < j < |r| ==> r[i].name == ColumnNames(cs)[i] && r[j].name == ColumnNames(cs)[j];
    r
  }

  /** `columns.map(c => row[c])`: the tuple bound for one copied row (no date coercion on this path). */
  function Fetch(cols: seq<string>, row: Record): (r: seq<Scalar>)
    ensures |r| == |cols|
  {
    seq(|cols|, i requires 0 <= i < |cols| => Lookup(row, cols[i]))
  }

  /** Copying a row through its object form and an INSERT naming every column stores it unchanged. */
  lemma CopyRowExact(cs: seq<Column>, values: seq<Scalar>)
    requires DistinctStrings(ColumnNames(cs)) && |values| == |cs|
    ensures AlignRow(cs, ColumnNames(cs), Fetch(ColumnNames(cs), RowObject(cs, values))) == values
  {
    var names := ColumnNames(cs);
    var obj := RowObject(cs, values);
    var fetched := Fetch(names, obj);
    forall i | 0 <= i < |cs| ensures fetched[i] == values[i] {
      LookupAt(obj, i);
    }
    assert fetched == values;
    AlignRowIdentity(cs, values);
  }

  lemma ReplaceTableValid(ts: seq<Table>, s: Table)
    requires ValidStore(ts) && WellFormedTable(s)
    ensures ValidStore(ReplaceTable(ts, s))
  {
    DropIfExistsValid(ts, s.name);
    ReplaceTableLookup(ts, s);
  }

  /**
   * The transaction loop of `DB.insertRows`: bind and align each record in
   * order, stopping at the first record whose binding throws.
   */
  method BindRows(tableCols: seq<Column>, cols: seq<string>, records: seq<Record>)
    returns (rows: seq<seq<Scalar>>, failedAt: Option<nat>)
    ensures failedAt == FirstUnbindable(cols, records)
    ensures rows == StoredRows(tableCols, cols, BoundPrefix(cols, records))
  {
    rows := [];
    var k := 0;
    while k < |records|
      invariant 0 <= k <= |records|
      invariant forall j :: 0 <= j < k ==> Bindable(cols, records[j])
      invariant |rows| == k
      invariant forall j :: 0 <= j < k ==> rows[j] == AlignRow(tableCols, cols, BindRow(cols, records[j]))
    {
      if !Bindable(cols, records[k]) {
        FirstUnbindableAt(cols, records, k);
        return rows, Some(k);
      }
      rows := rows + [AlignRow(tableCols, cols, BindRow(cols, records[k]))];
      k := k + 1;
    }
    FirstUnbindableNone(cols, records);
    failedAt := None;
  }

  /** The first record that cannot be bound is the one `FirstUnbindable` finds. */
  lemma {:induction false} FirstUnbindableAt(cols: seq<string>, records: seq<Record>, k: nat)
    requires k < |records| && !Bindable(cols, records[k])
    requires forall j :: 0 <= j < k ==> Bindable(cols, records[j])
    ensures FirstUnbindable(cols, records) == Some(k)
    decreases k
  {
    if k > 0 {
      var rest := records[1..];
      assert rest[k - 1] == records[k];
      assert forall j :: 0 <= j < k - 1 ==> rest[j] == records[j + 1];
      FirstUnbindableAt(cols, rest, k - 1);
    }
  }

  lemma FirstUnbindableNone(cols: seq<string>, records: seq<Record>)
    requires forall j :: 0 <= j < |records| ==> Bindable(cols, records[j])
    ensures FirstUnbindable(cols, records) == None
  {
  }

  /**
   * The copy loop of `DB.uploadSQLite`: each source row is read as an object
   * keyed by column name and inserted back under the same column list.
   */
  method CopyRows(t: Table) returns (rows: seq<seq<Scalar>>)
    requires WellFormedTable(t)
    ensures rows == t.rows
  {
    var cols := ColumnNames(t.columns);
    rows := [];
    var j := 0;
    while j < |t.rows|
      invariant 0 <= j <= |t.rows|
      invariant rows == t.rows[..j]
    {
      var row := RowObject(t.columns, t.rows[j]);
      CopyRowExact(t.columns, t.rows[j]);
      rows := rows + [AlignRow(t.columns, cols, Fetch(cols, row))];
      j := j + 1;
    }
    assert t.rows[..j] == t.rows;
  }

  /** One step of `DB.uploadSQLite`: drop, recreate empty, then copy the rows if there are any. */
  method ReplaceOne(ts: seq<Table>, s: Table) returns (r: seq<Table>)
    requires WellFormedTable(s)
    ensures r == ReplaceTable(ts, s)
  {
    r := DropIfExists(ts, s.name) + [Table(s.name, s.sql, s.columns, [])];
    if |s.rows| > 0 {
      var copied := CopyRows(s);
      r := r[|r| - 1 := Table(s.name, s.sql, s.columns, copied)];
    }
  }

  // ---------------------------------------------------------------------------
  // The `DB` object

  /** An uploaded file, seen through the two readers that may parse it. */
  datatype UploadedFile = UploadedFile(
    name: string,
    /** the records the delimited-text parser with automatic typing yields for a separator */
    asDelimited: char -> seq<Record>,
    /** the tables of the file opened as a database */
    asDatabase: seq<Table>)

  /** What the user is told after an upload. */
  datatype Notice =
    | ImportedDatabase(file: string)
    | ImportedTable(table: string)
    | UnknownFileType(file: string)
    | Failed(error: IngestError)

  class Database {
    var tables: seq<Table>
    /** Free-text description of the dataset, placed in the query prompt. */
    var context: string

    ghost predicate Valid()
      reads this
    {
      ValidStore(tables)
    }

    constructor ()
      ensures Valid() && tables == [] && context == ""
    {
      tables := [];
      context := "";
    }

    /** `DB.schema()`: read fresh from the store on every call. */
    function Schema(): seq<TableSchema>
      reads this
    {
      SchemaOf(tables)
    }

    /**
     * `DB.insertRows`: create the table from the first record, then insert the
     * records in one transaction, stopping at one whose binding throws.
     */
    method InsertRows(name: string, records: seq<Record>) returns (error: Option<IngestError>)
      requires Valid()
      modifies this
      ensures Valid() && context == old(context)
      ensures Ingest(tables, error) == LoadRecords(old(tables), name, records)
    {
      var ts := tables;
      LoadRecordsValid(ts, name, records);
      if |records| == 0 {
        return Some(EmptyDataset);
      }
      var first := records[0];
      var cols := Keys(first);
      var created := CreateIfNotExists(ts, NewTable(name, first));
      CreateIfNotExistsFinds(ts, NewTable(name, first));
      var i := IndexOf(created, name).value;
      var missing := MissingColumn(created[i].columns, cols);
      if missing.Some? {
        tables := created;
        return Some(NoSuchColumn(name, missing.value));
      }
      var pending, failedAt := BindRows(created[i].columns, cols, records);
      tables := created[i := created[i].(rows := created[i].rows + pending)];
      error := if failedAt.Some? then Some(UnboundDate(name, failedAt.value)) else None;
    }

    /** `DB.uploadDSV`: parse with the separator, then load into the table named after the file. */
    method UploadDsv(fileName: string, separator: char, parse: char -> seq<Record>) returns (error: Option<IngestError>)
      requires Valid()
      modifies this
      ensures Valid() && context == old(context)
      ensures Ingest(tables, error) == LoadRecords(old(tables), TableName(fileName), parse(separator))
    {
      var records := parse(separator);
      var name := TableName(fileName);
      error := InsertRows(name, records);
    }

    /**
     * `DB.uploadSQLite`: for each table of the file, drop the same-named table,
     * recreate it from the file's CREATE text and, if it has rows, copy them all
     * in one transaction.
     */
    method UploadSQLite(source: seq<Table>)
      requires Valid() && ValidStore(source)
      modifies this
      ensures Valid() && context == old(context)
      ensures tables == ImportAll(old(tables), source)
    {
      var k := 0;
      while k < |source|
        invariant 0 <= k <= |source|
        invariant Valid()
        invariant ImportAll(tables, source[k..]) == ImportAll(old(tables), source)
        invariant context == old(context)
      {
        var s := source[k];
        assert WellFormedTable(s);
        var before := tables;
        var replaced := ReplaceOne(before, s);
        ReplaceTableValid(before, s);
        assert source[k..][0] == s && source[k..][1..] == source[k + 1..];
        tables := replaced;
        k := k + 1;
      }
    }

    /** `DB.upload`: dispatch on the file's extension. */
    method Upload(file: UploadedFile) returns (notice: Notice)
      requires Valid() && ValidStore(file.asDatabase)
      modifies this
      ensures Valid() && context == old(context)
      ensures match Classify(file.name)
              case SQLiteFile =>
                tables == ImportAll(old(tables), file.asDatabase) && notice == ImportedDatabase(file.name)
              case Delimited(sep) =>
                var r := LoadRecords(old(tables), TableName(file.name), file.asDelimited(sep));
                && tables == r.tables
                && notice == (if r.error.Some? then Failed(r.error.value) else ImportedTable(TableName(file.name)))
              case Unsupported =>
                tables == old(tables) && notice == UnknownFileType(file.name)
    {
      match Classify(file.name)
      case SQLiteFile =>
        UploadSQLite(file.asDatabase);
        notice := ImportedDatabase(file.name);
      case Delimited(sep) =>
        var error := UploadDsv(file.name, sep, file.asDelimited);
        notice := if error.Some? then Failed(error.value) else ImportedTable(TableName(file.name));
      case Unsupported =>
        notice := UnknownFileType(file.name);
    }
  }
}
