/**
 * The text the ingestion step derives for the engine: the table name taken
 * from an uploaded file's name, the CREATE TABLE and INSERT statements, and
 * the tuple bound for each record.
 */
module Sql {
  import opened Wrappers
  import opened Text
  import opened Records

  /** A character the table-name rewrite keeps: `[A-Za-z0-9_]`. */
  predicate IsWordChar(c: char) {
    'a' <= c <= 'z' || 'A' <= c <= 'Z' || '0' <= c <= '9' || c == '_'
  }

  /** `s.replace(/[^a-zA-Z0-9_]/g, "_")`. */
  function Sanitize(s: string): (r: string)
    ensures |r| == |s|
    ensures forall i :: 0 <= i < |s| ==> IsWordChar(r[i])
    ensures forall i :: 0 <= i < |s| ==> (IsWordChar(s[i]) <==> r[i] == s[i])
    ensures forall i :: 0 <= i < |s| && !IsWordChar(s[i]) ==> r[i] == '_'
  {
    if s == [] then [] else [if IsWordChar(s[0]) then s[0] else '_'] + Sanitize(s[1..])
  }

  /** The rewrite changes nothing in a name made only of word characters. */
  lemma {:induction false} SanitizeIdempotent(s: string)
    ensures Sanitize(Sanitize(s)) == Sanitize(s)
  {
    var r := Sanitize(s);
    var rr := Sanitize(r);
    assert |rr| == |r|;
    forall i | 0 <= i < |r| ensures rr[i] == r[i] {
      assert IsWordChar(r[i]);
    }
  }

  /** `fileName.slice(0, -4)`: everything but the last four characters, or "" if there are fewer. */
  function Stem(fileName: string): (r: string)
    ensures |r| == if |fileName| >= 4 then |fileName| - 4 else 0
    ensures r <= fileName
  {
    if |fileName| >= 4 then fileName[..|fileName| - 4] else ""
  }

  /**
   * The table a delimited-text file is loaded into: the file name without its
   * last four characters, every character outside `[A-Za-z0-9_]` replaced by `_`.
   */
  function TableName(fileName: string): (r: string)
    ensures |r| == if |fileName| >= 4 then |fileName| - 4 else 0
    ensures forall i :: 0 <= i < |r| ==> IsWordChar(r[i])
    ensures forall i :: 0 <= i < |r| ==> (r[i] == fileName[i] <==> IsWordChar(fileName[i]))
    ensures forall i :: 0 <= i < |r| && !IsWordChar(fileName[i]) ==> r[i] == '_'
  {
    Sanitize(Stem(fileName))
  }

  /** Column types inferred from the first record, one per field, in its key order. */
  function ColumnTypes(first: Record): (ts: seq<SqlType>)
    ensures |ts| == |first|
    ensures forall i :: 0 <= i < |first| ==> ts[i] == InferType(first[i].value)
  {
    seq(|first|, i requires 0 <= i < |first| => InferType(first[i].value))
  }

  function Bracketed(name: string): string {
    "[" + name + "]"
  }

  function DoubleQuoted(name: string): string {
    "\"" + name + "\""
  }

  /** Each name of `names`, quoted by `quote`, in order. */
  function QuoteAll(quote: string -> string, names: seq<string>): (r: seq<string>)
    ensures |r| == |names|
    ensures forall i :: 0 <= i < |names| ==> r[i] == quote(names[i])
  {
    seq(|names|, i requires 0 <= i < |names| => quote(names[i]))
  }

  /** `[name] TYPE` for every field of the first record. */
  function ColumnDefs(first: Record): (defs: seq<string>)
    ensures |defs| == |first|
  {
    seq(|first|, i requires 0 <= i < |first| => Bracketed(first[i].name) + " " + TypeName(ColumnTypes(first)[i]))
  }

  /** `cols.map(() => "?").join(", ")`. */
  function Placeholders(n: nat): string {
    Join(", ", seq(n, _ => "?"))
  }

  /** The statement that creates the table for `first`'s columns unless one of that name exists. */
  function CreateTableSql(table: string, first: Record): string {
    "CREATE TABLE IF NOT EXISTS " + table + " (" + Join(", ", ColumnDefs(first)) + ")"
  }

  /** The text the store records for that table: SQLite drops the IF NOT EXISTS clause. */
  function StoredCreateSql(table: string, first: Record): string {
    "CREATE TABLE " + table + " (" + Join(", ", ColumnDefs(first)) + ")"
  }

  /** The column list and VALUES clause of an INSERT naming `cols`. */
  function InsertSql(table: string, quote: string -> string, cols: seq<string>): string {
    "INSERT INTO " + table + " (" + Join(", ", QuoteAll(quote, cols)) + ") VALUES (" + Placeholders(|cols|) + ")"
  }

  /** The INSERT of the delimited-text path: unquoted table, bracketed columns. */
  function RecordInsertSql(table: string, cols: seq<string>): string {
    InsertSql(table, Bracketed, cols)
  }

  /** The INSERT of the database-import path: table and columns in double quotes. */
  function ImportInsertSql(table: string, cols: seq<string>): string {
    InsertSql(DoubleQuoted(table), DoubleQuoted, cols)
  }

  /** The VALUES clause holds exactly one `?` per column. */
  lemma PlaceholderCount(n: nat)
    ensures Count('?', Placeholders(n)) == n
  {
    var items := seq(n, _ => "?");
    forall i | 0 <= i < |items| ensures Count('?', items[i]) == 1 {
      assert items[i] == "?";
    }
    assert Count('?', ", ") == 0;
    CountJoin('?', ", ", items);
  }

  lemma BracketedInjective(a: string, b: string)
    requires Bracketed(a) == Bracketed(b)
    ensures a == b
  {
    assert a == Bracketed(a)[1..|Bracketed(a)| - 1];
    assert b == Bracketed(b)[1..|Bracketed(b)| - 1];
  }

  lemma DoubleQuotedInjective(a: string, b: string)
    requires DoubleQuoted(a) == DoubleQuoted(b)
    ensures a == b
  {
    assert a == DoubleQuoted(a)[1..|DoubleQuoted(a)| - 1];
    assert b == DoubleQuoted(b)[1..|DoubleQuoted(b)| - 1];
  }

  /**
   * The CREATE and the INSERT of the delimited-text path list the first record's
   * keys in the same order, each exactly once; the CREATE pairs each with its
   * inferred type; and the INSERT has one `?` per column.
   */
  lemma {:induction false} RecordStatementsAgree(first: Record)
    ensures var defs := ColumnDefs(first);
            var listed := QuoteAll(Bracketed, Keys(first));
            && |defs| == |listed| == |first|
            && (forall i :: 0 <= i < |first| ==> defs[i] == listed[i] + " " + TypeName(InferType(first[i].value)))
            && (forall i, j :: 0 <= i < j < |listed| ==> listed[i] != listed[j])
            && Count('?', Placeholders(|listed|)) == |first|
  {
    var listed := QuoteAll(Bracketed, Keys(first));
    forall i, j | 0 <= i < j < |listed| ensures listed[i] != listed[j] {
      if listed[i] == listed[j] {
        BracketedInjective(first[i].name, first[j].name);
        assert false;
      }
    }
    PlaceholderCount(|first|);
  }

  /** The import INSERT names each column once, in the given order, with one `?` per column. */
  lemma {:induction false} ImportStatementAgrees(cols: seq<string>)
    requires forall i, j :: 0 <= i < j < |cols| ==> cols[i] != cols[j]
    ensures var listed := QuoteAll(DoubleQuoted, cols);
            && |listed| == |cols|
            && (forall i :: 0 <= i < |cols| ==> listed[i] == "\"" + cols[i] + "\"")
            && (forall i, j :: 0 <= i < j < |listed| ==> listed[i] != listed[j])
            && Count('?', Placeholders(|listed|)) == |cols|
  {
    var listed := QuoteAll(DoubleQuoted, cols);
    forall i, j | 0 <= i < j < |listed| ensures listed[i] != listed[j] {
      if listed[i] == listed[j] {
        DoubleQuotedInjective(cols[i], cols[j]);
        assert false;
      }
    }
    PlaceholderCount(|cols|);
  }

  /** No value the record holds under `cols` is an invalid date, so the record can be bound. */
  predicate Bindable(cols: seq<string>, row: Record) {
    forall i :: 0 <= i < |cols| ==> !Lookup(row, cols[i]).InvalidDate?
  }

  /** The position of the first record that cannot be bound, if there is one. */
  function FirstUnbindable(cols: seq<string>, records: seq<Record>): (r: Option<nat>)
    ensures r.Some? ==> r.value < |records| && !Bindable(cols, records[r.value])
    ensures r.Some? ==> forall j :: 0 <= j < r.value ==> Bindable(cols, records[j])
    ensures r.None? ==> forall j :: 0 <= j < |records| ==> Bindable(cols, records[j])
  {
    if records == [] then None
    else if !Bindable(cols, records[0]) then Some(0)
    else match FirstUnbindable(cols, records[1..])
      case None => None
      case Some(k) => Some(k + 1)
  }

  /** `cols.map(col => coerce(row[col]))`: the tuple bound for one record. */
  function BindRow(cols: seq<string>, row: Record): (r: seq<Scalar>)
    requires Bindable(cols, row)
    ensures |r| == |cols|
    ensures forall i :: 0 <= i < |r| ==> !r[i].Date? && !r[i].InvalidDate?
  {
    seq(|cols|, i requires 0 <= i < |cols| => Coerce(Lookup(row, cols[i])))
  }

  /**
   * Binding a record by its own keys yields one value per field, in field order:
   * a date as its ISO text, every other value unchanged.
   */
  lemma {:induction false} BindRowByOwnKeys(row: Record)
    requires forall i :: 0 <= i < |row| ==> !row[i].value.InvalidDate?
    ensures Bindable(Keys(row), row)
    ensures var r := BindRow(Keys(row), row);
            && |r| == |row|
            && (forall i :: 0 <= i < |row| && row[i].value.Date? ==> r[i] == Str(row[i].value.iso))
            && (forall i :: 0 <= i < |row| && !row[i].value.Date? ==> r[i] == row[i].value)
  {
    forall i | 0 <= i < |row| ensures Lookup(row, Keys(row)[i]) == row[i].value {
      LookupAt(row, i);
    }
  }
}
