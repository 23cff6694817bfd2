/**
 * The in-memory table the user cleaner works on: the part of a pandas
 * DataFrame that the cleaning steps read and rewrite.
 */
module Tables {
  /** A calendar date. The time of day of a parsed timestamp is not kept. */
  datatype Date = Date(year: int, month: int, day: int)

  /**
   * One cell of a loosely typed table. `Null` stands for every missing
   * value pandas recognises (NaN, None, NaT).
   */
  datatype Cell = Null | Text(text: string) | Int(value: int) | Dated(date: Date)

  /** A row maps each column name of its table to that row's cell. */
  type Row = map<string, Cell>

  /** Named columns, in order, and the rows, in order. */
  datatype Table = Table(columns: seq<string>, rows: seq<Row>)

  /** The cell of `row` in column `col`; a column the row lacks reads as missing. */
  function Get(row: Row, col: string): Cell {
    if col in row then row[col] else Null
  }

  predicate Distinct(cols: seq<string>) {
    forall i, j :: 0 <= i < j < |cols| ==> cols[i] != cols[j]
  }

  function ColumnSet(cols: seq<string>): set<string> {
    set c | c in cols
  }

  /**
   * The table shape the column lemmas assume: distinct column names (pandas
   * also allows repeated ones), and every row has exactly those columns.
   */
  ghost predicate WellFormed(t: Table) {
    && Distinct(t.columns)
    && forall i :: 0 <= i < |t.rows| ==> t.rows[i].Keys == ColumnSet(t.columns)
  }

  /** The column list after `drop(columns=[col])`. */
  function Without(cols: seq<string>, col: string): (r: seq<string>)
    ensures forall c :: c in r <==> c in cols && c != col
    ensures Distinct(cols) ==> Distinct(r)
    ensures col !in cols ==> r == cols
  {
    if cols == [] then []
    else if cols[0] == col then Without(cols[1..], col)
    else
      var rest := Without(cols[1..], col);
      assert Distinct(cols) ==> cols[0] !in cols[1..];
      assert cols == [cols[0]] + cols[1..];
      [cols[0]] + rest
  }

  /** Nothing is missing exactly when every name of `subset` is a column. */
  lemma NoneMissing(subset: seq<string>, cols: seq<string>)
    ensures MissingColumns(subset, cols) == [] <==> forall c :: c in subset ==> c in cols
  {
    var m := MissingColumns(subset, cols);
    assert forall i :: 0 <= i < |m| ==> m[i] in m;
  }

  lemma {:induction false} WithoutAppend(a: seq<string>, b: seq<string>, col: string)
    ensures Without(a + b, col) == Without(a, col) + Without(b, col)
    decreases |a|
  {
    if a == [] {
      assert a + b == b;
    } else {
      assert (a + b)[1..] == a[1..] + b;
      WithoutAppend(a[1..], b, col);
    }
  }

  /**
   * The column list after `df[col] = ...`: an existing column keeps its
   * place, a new one is appended.
   */
  function WithColumn(cols: seq<string>, col: string): (r: seq<string>)
    ensures ColumnSet(r) == ColumnSet(cols) + {col}
    ensures Distinct(cols) ==> Distinct(r)
    ensures Without(r, col) == Without(cols, col)
  {
    if col in cols then cols
    else
      WithoutAppend(cols, [col], col);
      cols + [col]
  }

  /**
   * The names in `subset` that `cols` lacks, in the order of `subset`:
   * what pandas reports in the KeyError of `dropna(subset=...)`.
   */
  function MissingColumns(subset: seq<string>, cols: seq<string>): (m: seq<string>)
    ensures forall c :: c in m <==> c in subset && c !in cols
    ensures |m| <= |subset|
  {
    if subset == [] then []
    else (if subset[0] in cols then [] else [subset[0]]) + MissingColumns(subset[1..], cols)
  }
}
