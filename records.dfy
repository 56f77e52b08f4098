/**
 * Parsed records and their scalar values, as the delimited-text parser with
 * automatic typing yields them and as the engine returns result rows, and the
 * rule that infers a column's SQL type from a sample value.
 */
module Records {

  /**
   * One field value. A number is a `real` (integral or not); a date carries the
   * text its `toISOString` renders, and `InvalidDate` is a date object whose
   * time value is NaN (the parser builds one from date-shaped text such as
   * `2020-13-01`), which has no ISO rendering; `Blob` is what the engine
   * returns for BLOB columns of an imported database.
   */
  datatype Scalar =
    | Num(x: real)
    | Bool(b: bool)
    | Date(iso: string)
    | InvalidDate
    | Str(s: string)
    | Null
    | Blob(bytes: seq<bv8>)

  /** `Number.isInteger` on a finite number. */
  predicate IsIntegral(x: real) {
    x.Floor as real == x
  }

  datatype Field = Field(name: string, value: Scalar)

  predicate DistinctNames(fields: seq<Field>) {
    forall i, j :: 0 <= i < j < |fields| ==> fields[i].name != fields[j].name
  }

  /**
   * A record is an object: an ordered map from column name to value, each name
   * once. The order of the fields is the order in which `Object.keys`
   * enumerates them: integer-like names first, ascending, then the others in
   * insertion order.
   */
  type Record = r: seq<Field> | DistinctNames(r) witness []

  /** `Object.keys(record)`. */
  function Keys(r: seq<Field>): (ks: seq<string>)
    ensures |ks| == |r|
    ensures forall i :: 0 <= i < |r| ==> ks[i] == r[i].name
  {
    seq(|r|, i requires 0 <= i < |r| => r[i].name)
  }

  /** `record[name]`; a missing key reads `undefined`, which the engine binds as NULL. */
  function Lookup(r: seq<Field>, name: string): (v: Scalar)
    ensures (forall i :: 0 <= i < |r| ==> r[i].name != name) ==> v == Null
  {
    if r == [] then Null
    else if r[0].name == name then r[0].value
    else Lookup(r[1..], name)
  }

  /** In a record, reading the name of its i-th field gives that field's value. */
  lemma {:induction false} LookupAt(r: Record, i: nat)
    requires i < |r|
    ensures Lookup(r, r[i].name) == r[i].value
  {
    if i > 0 {
      assert r[0].name != r[i].name;
      var tail: Record := r[1..];
      assert tail[i - 1] == r[i];
      LookupAt(tail, i - 1);
    }
  }

  datatype SqlType = INTEGER | REAL | TEXT

  function TypeName(t: SqlType): string {
    match t
    case INTEGER => "INTEGER"
    case REAL => "REAL"
    case TEXT => "TEXT"
  }

  /**
   * The declared type of a column whose first record holds `v`: integral
   * numbers and booleans are INTEGER, other numbers REAL, and dates (valid or
   * not), strings, nulls (and anything else) TEXT.
   */
  function InferType(v: Scalar): (t: SqlType)
    ensures t == INTEGER <==> (v.Num? && IsIntegral(v.x)) || v.Bool?
    ensures t == REAL <==> v.Num? && !IsIntegral(v.x)
    ensures t == TEXT <==> !v.Num? && !v.Bool?
  {
    match v
    case Num(x) => if IsIntegral(x) then INTEGER else REAL
    case Bool(_) => INTEGER
    case _ => TEXT
  }

  /**
   * The value bound for the engine: a date becomes its ISO-8601 text, anything
   * else is unchanged. An invalid date has no ISO text (`toISOString` throws).
   */
  function Coerce(v: Scalar): (r: Scalar)
    requires !v.InvalidDate?
    ensures !r.Date? && !r.InvalidDate?
  {
    if v.Date? then Str(v.iso) else v
  }
}
