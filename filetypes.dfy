/** Which import path an uploaded file takes, decided by its name's extension, ignoring ASCII case. */
module FileTypes {
  import opened Text

  datatype FileKind = SQLiteFile | Delimited(separator: char) | Unsupported

  /** `/\.(sqlite3|sqlite|db|s3db|sl3)$/i`. */
  predicate IsDatabaseName(name: string) {
    || EndsWithCI(name, ".sqlite3")
    || EndsWithCI(name, ".sqlite")
    || EndsWithCI(name, ".db")
    || EndsWithCI(name, ".s3db")
    || EndsWithCI(name, ".sl3")
  }

  /** Database extensions are tried first, then `.csv` (comma), then `.tsv` (tab). */
  function Classify(name: string): (k: FileKind)
    ensures k.Delimited? ==> k.separator == ',' || k.separator == '\t'
  {
    if IsDatabaseName(name) then SQLiteFile
    else if EndsWithCI(name, ".csv") then Delimited(',')
    else if EndsWithCI(name, ".tsv") then Delimited('\t')
    else Unsupported
  }

  /**
   * The extensions cannot overlap, so the order of the tests does not matter:
   * each kind is chosen exactly when the name has one of its extensions.
   */
  lemma ClassifyExact(name: string)
    ensures Classify(name) == SQLiteFile <==> IsDatabaseName(name)
    ensures Classify(name) == Delimited(',') <==> EndsWithCI(name, ".csv")
    ensures Classify(name) == Delimited('\t') <==> EndsWithCI(name, ".tsv")
    ensures Classify(name) == Unsupported <==>
              !IsDatabaseName(name) && !EndsWithCI(name, ".csv") && !EndsWithCI(name, ".tsv")
  {
    if EndsWithCI(name, ".csv") {
      EndsWithLastChar(name, ".csv");
      NotDatabaseName(name, 'v');
    }
    if EndsWithCI(name, ".tsv") {
      EndsWithLastChar(name, ".tsv");
      NotDatabaseName(name, 'v');
    }
  }

  /** A name whose last character folds to `c`, which ends no database extension, is not a database name. */
  lemma NotDatabaseName(name: string, c: char)
    requires |name| > 0 && LowerChar(name[|name| - 1]) == c
    requires c !in {'3', 'e', 'b'}
    ensures !IsDatabaseName(name)
  {
    if EndsWithCI(name, ".sqlite3") { EndsWithLastChar(name, ".sqlite3"); }
    if EndsWithCI(name, ".sqlite") { EndsWithLastChar(name, ".sqlite"); }
    if EndsWithCI(name, ".db") { EndsWithLastChar(name, ".db"); }
    if EndsWithCI(name, ".s3db") { EndsWithLastChar(name, ".s3db"); }
    if EndsWithCI(name, ".sl3") { EndsWithLastChar(name, ".sl3"); }
  }
}
