/** The tabular data model of the dashboard: a DataFrame built from one feed's
    JSON array of flat records, its cells, its columns, and the scalar counts the
    tiles show (row count, non-null count, equality-filter count). */
module Frames {

  datatype Option<T> = None | Some(value: T)

  /** Why a pandas expression in the script raises instead of producing a value. */
  datatype Failure =
    | MissingColumn(column: string)   // KeyError: df["col"] on a column the frame lacks
    | BadNumber(text: string)         // ValueError: int() of a string that is not an integer
    | NotAString                      // AttributeError: .strip() on a cell that is not a string
    | NullInMask                      // ValueError: boolean indexing with a mask holding NaN
    | Unordered                       // TypeError: None >= 18 on an all-None object column

  datatype Result<T> = Ok(value: T) | Err(failure: Failure)

  /** An age after conversion: a whole number of years, or a number of months
      that the script divides by 12. */
  datatype Age = Years(years: int) | Months(months: int)

  /** One cell: NaN (a JSON null, or a key the record lacks), a string, or a
      converted age. */
  datatype Value = Null | Text(text: string) | Number(age: Age)

  type Row = map<string, Value>

  /** A DataFrame: its column labels and its rows. */
  datatype Table = Table(columns: set<string>, rows: seq<Row>) {
    /** Every key a row holds is a column of the frame. */
    ghost predicate Valid() {
      forall i :: 0 <= i < |rows| ==> rows[i].Keys <= columns
    }
  }

  /** The cell of `row` in column `col`; a key the record lacks reads as NaN. */
  function Get(row: Row, col: string): Value {
    if col in row then row[col] else Null
  }

  /** The Series df[col] of the given rows. */
  function Column(rows: seq<Row>, col: string): (vals: seq<Value>)
    ensures |vals| == |rows|
    ensures forall i :: 0 <= i < |rows| ==> vals[i] == Get(rows[i], col)
  {
    seq(|rows|, i requires 0 <= i < |rows| => Get(rows[i], col))
  }

  /** The keys of all records: pandas makes every key that appears in any record
      a column. */
  function KeysOf(records: seq<Row>): (ks: set<string>)
    ensures forall k :: k in ks <==> exists i :: 0 <= i < |records| && k in records[i]
    ensures forall i :: 0 <= i < |records| ==> records[i].Keys <= ks
  {
    if records == [] then {}
    else
      var ks := KeysOf(records[..|records| - 1]) + records[|records| - 1].Keys;
      assert forall i :: 0 <= i < |records| - 1 ==> records[..|records| - 1][i] == records[i];
      ks
  }

  /** pd.DataFrame(response.json()) for a JSON array of flat objects. */
  function FromRecords(records: seq<Row>): (t: Table)
    ensures t.Valid() && t.rows == records
    ensures forall c :: c in t.columns <==> exists i :: 0 <= i < |records| && c in records[i]
  {
    Table(KeysOf(records), records)
  }

  /** The number of cells equal to `v`. */
  function Count(vals: seq<Value>, v: Value): (n: nat)
    ensures n <= |vals|
  {
    if vals == [] then 0
    else Count(vals[..|vals| - 1], v) + (if vals[|vals| - 1] == v then 1 else 0)
  }

  /** Series.count(): the number of cells that are not NaN. */
  function NonNull(vals: seq<Value>): (n: nat)
    ensures n <= |vals|
  {
    if vals == [] then 0
    else NonNull(vals[..|vals| - 1]) + (if vals[|vals| - 1] != Null then 1 else 0)
  }

  /** df[col].count(), which raises KeyError when the column is absent. */
  function SeriesCount(t: Table, col: string): (r: Result<nat>)
    ensures r.Ok? <==> col in t.columns
    ensures r.Err? ==> r.failure == MissingColumn(col)
    ensures r.Ok? ==> r.value <= |t.rows|
  {
    if col !in t.columns then Err(MissingColumn(col)) else Ok(NonNull(Column(t.rows, col)))
  }

  /** df[df[col] == v].shape[0]: the rows whose cell equals `v` (NaN equals nothing). */
  function FilterCount(t: Table, col: string, v: Value): (r: Result<nat>)
    ensures r.Ok? <==> col in t.columns
    ensures r.Err? ==> r.failure == MissingColumn(col)
    ensures r.Ok? ==> r.value <= |t.rows|
  {
    if col !in t.columns then Err(MissingColumn(col)) else Ok(Count(Column(t.rows, col), v))
  }

  /** The rows with column `col` set to `vals`, row by row. */
  function Assign(rows: seq<Row>, col: string, vals: seq<Value>): (rs: seq<Row>)
    requires |vals| == |rows|
    ensures |rs| == |rows|
  {
    seq(|rows|, i requires 0 <= i < |rows| => rows[i][col := vals[i]])
  }

  /** The frame after df[col] = vals: the column exists, holds `vals`, and every
      other column is as before. */
  function WithColumn(t: Table, col: string, vals: seq<Value>): (r: Table)
    requires |vals| == |t.rows|
    ensures |r.rows| == |t.rows| && r.columns == t.columns + {col}
    ensures t.Valid() ==> r.Valid()
    ensures Column(r.rows, col) == vals
    ensures forall c, i :: c != col && 0 <= i < |t.rows| ==> Get(r.rows[i], c) == Get(t.rows[i], c)
  {
    Table(t.columns + {col}, Assign(t.rows, col, vals))
  }

  /** A cell that is neither of two values is counted by neither; when every cell
      is one of two distinct values, the two counts add up to the length. */
  lemma {:induction false} TwoValued(vals: seq<Value>, a: Value, b: Value)
    requires a != b
    requires forall i :: 0 <= i < |vals| ==> vals[i] == a || vals[i] == b
    ensures Count(vals, a) + Count(vals, b) == |vals|
  {
    if vals != [] {
      var init := vals[..|vals| - 1];
      assert forall i :: 0 <= i < |init| ==> init[i] == vals[i];
      TwoValued(init, a, b);
    }
  }

  /** Cells equal to a non-null value are among the non-null cells. */
  lemma {:induction false} CountWithinNonNull(vals: seq<Value>, v: Value)
    requires v != Null
    ensures Count(vals, v) <= NonNull(vals)
  {
    if vals != [] {
      CountWithinNonNull(vals[..|vals| - 1], v);
    }
  }

  /** A value that is present somewhere is counted at least once, and a value that
      is nowhere is counted zero times. */
  lemma {:induction false} CountPositive(vals: seq<Value>, v: Value)
    ensures Count(vals, v) > 0 <==> exists i :: 0 <= i < |vals| && vals[i] == v
  {
    if vals != [] {
      var init := vals[..|vals| - 1];
      CountPositive(init, v);
      assert forall i :: 0 <= i < |init| ==> init[i] == vals[i];
      if Count(init, v) > 0 {
        var i :| 0 <= i < |init| && init[i] == v;
        assert vals[i] == v;
      }
    }
  }

  /** When no cell is NaN, the non-null count is the length. */
  lemma {:induction false} NonNullOfTotal(vals: seq<Value>)
    requires forall i :: 0 <= i < |vals| ==> vals[i] != Null
    ensures NonNull(vals) == |vals|
  {
    if vals != [] {
      var init := vals[..|vals| - 1];
      assert forall i :: 0 <= i < |init| ==> init[i] == vals[i];
      NonNullOfTotal(init);
    }
  }

  /** An empty JSON array gives a frame with no rows and no columns, so every
      column lookup on it fails. */
  lemma EmptyFeed(col: string)
    ensures FromRecords([]).rows == [] && FromRecords([]).columns == {}
    ensures SeriesCount(FromRecords([]), col) == Err(MissingColumn(col))
  {
  }

  /** A column of NaN has no non-null cell. */
  lemma {:induction false} AllNullCount(vals: seq<Value>)
    requires forall i :: 0 <= i < |vals| ==> vals[i] == Null
    ensures NonNull(vals) == 0
  {
    if vals != [] {
      var init := vals[..|vals| - 1];
      assert forall i :: 0 <= i < |init| ==> init[i] == vals[i];
      AllNullCount(init);
    }
  }

  /** In a well-formed frame a label that is not a column holds no cell: every
      row reads NaN there, so no count can see it. */
  lemma AbsentColumnIsNaN(t: Table, c: string)
    requires t.Valid() && c !in t.columns
    ensures forall i :: 0 <= i < |t.rows| ==> Get(t.rows[i], c) == Null
    ensures NonNull(Column(t.rows, c)) == 0
  {
    var col := Column(t.rows, c);
    forall i | 0 <= i < |col| ensures col[i] == Null {
      assert c !in t.rows[i].Keys;
    }
    AllNullCount(col);
  }
}
