/**
 * The whole-table operations the user cleaner is built from, as pandas
 * performs them: a row filter (`dropna(subset=...)`, a boolean mask), a
 * column rewrite (`df[col] = ...`, `drop(columns=...)`) and
 * `drop_duplicates(subset=..., keep='first')`. Each has a specification
 * function on row sequences and a method with a loop proved to compute it.
 */
module Primitives {
  import opened Wrappers
  import opened Tables
  import opened Patterns

  /**
   * The parse behind `pd.to_datetime(..., errors='coerce')` for one present,
   * not yet converted cell: the date it denotes, or None when it does not
   * parse. Its rules are those of pandas and are supplied by the caller.
   */
  type DateParser = Cell -> Option<Date>

  /** `pd.to_datetime(..., errors='coerce')` on one cell: a failed parse becomes missing. */
  function CoerceDate(c: Cell, parse: DateParser): (r: Cell)
    ensures r == Null || r.Dated?
    ensures c == Null ==> r == Null
    ensures c.Dated? ==> r == c
    ensures !c.Dated? && c != Null ==> r == (if parse(c).Some? then Dated(parse(c).value) else Null)
  {
    match c
    case Null => Null
    case Dated(_) => c
    case _ => if parse(c).Some? then Dated(parse(c).value) else Null
  }

  /**
   * `.str.replace(r'\D', '', regex=True)` on one cell: text keeps its digits;
   * anything that is not text comes out missing.
   */
  function StripNonDigits(c: Cell): (r: Cell)
    ensures r.Text? <==> c.Text?
    ensures r.Text? ==> AllDigits(r.text) && r.text == DigitsOnly(c.text)
    ensures !r.Text? ==> r == Null
  {
    if c.Text? then Text(DigitsOnly(c.text)) else Null
  }

  /** The row conditions the cleaner filters on. */
  datatype RowTest =
    | NotNull(cols: seq<string>)           // dropna(subset=cols)
    | EmailLike(col: string)               // df[col].str.contains(email pattern, na=False)
    | Within(col: string, lo: int, hi: int) // (df[col] >= lo) & (df[col] <= hi)

  /** The column rewrites the cleaner applies to every row. */
  datatype Rewrite =
    | ToDate(col: string, parse: DateParser)          // df[col] = pd.to_datetime(df[col], errors='coerce')
    | KeepDigits(col: string)                         // df[col] = df[col].str.replace(r'\D', '')
    | YearsSince(col: string, from: string, year: int) // df[col] = year - df[from].dt.year
    | Drop(col: string)                               // df.drop(columns=[col])

  predicate Passes(row: Row, test: RowTest) {
    match test
    case NotNull(cols) => forall c :: c in cols ==> Get(row, c) != Null
    case EmailLike(col) => Get(row, col).Text? && MatchesEmail(Get(row, col).text)
    case Within(col, lo, hi) => Get(row, col).Int? && lo <= Get(row, col).value <= hi
  }

  /** The years from a date to `year`; a missing date gives a missing number. */
  function YearsFrom(c: Cell, year: int): Cell {
    if c.Dated? then Int(year - c.date.year) else Null
  }

  function Rewritten(row: Row, rw: Rewrite): Row {
    match rw
    case ToDate(col, parse) => row[col := CoerceDate(Get(row, col), parse)]
    case KeepDigits(col) => row[col := StripNonDigits(Get(row, col))]
    case YearsSince(col, from, year) => row[col := YearsFrom(Get(row, from), year)]
    case Drop(col) => row - {col}
  }

  /** The rows that pass `test`, in their order. */
  function Filter(rows: seq<Row>, test: RowTest): (r: seq<Row>)
    ensures |r| <= |rows|
    ensures forall i :: 0 <= i < |r| ==> Passes(r[i], test) && r[i] in rows
    ensures forall x :: x in rows && Passes(x, test) ==> x in r
  {
    if rows == [] then []
    else
      var init, last := rows[..|rows| - 1], rows[|rows| - 1];
      assert rows == init + [last];
      Filter(init, test) + (if Passes(last, test) then [last] else [])
  }

  /** `Filter` of one more row: the row is kept when it passes. */
  lemma FilterSnoc(rows: seq<Row>, x: Row, test: RowTest)
    ensures Filter(rows + [x], test) == Filter(rows, test) + (if Passes(x, test) then [x] else [])
  {
    var s := rows + [x];
    assert s[..|s| - 1] == rows && s[|s| - 1] == x;
  }

  lemma {:induction false} FilterAppend(a: seq<Row>, b: seq<Row>, test: RowTest)
    ensures Filter(a + b, test) == Filter(a, test) + Filter(b, test)
    decreases |b|
  {
    if b == [] {
      assert a + b == a;
    } else {
      var b' := b[..|b| - 1];
      assert (a + b)[..|a + b| - 1] == a + b';
      FilterAppend(a, b', test);
    }
  }

  /** Every row rewritten, in place. */
  function Apply(rows: seq<Row>, rw: Rewrite): seq<Row> {
    seq(|rows|, i requires 0 <= i < |rows| => Rewritten(rows[i], rw))
  }

  lemma ApplyAppend(a: seq<Row>, b: seq<Row>, rw: Rewrite)
    ensures Apply(a + b, rw) == Apply(a, rw) + Apply(b, rw)
  {
    assert forall i :: 0 <= i < |a + b| ==> Apply(a + b, rw)[i] == (Apply(a, rw) + Apply(b, rw))[i];
  }

  lemma ApplyOne(x: Row, rw: Rewrite)
    ensures Apply([x], rw) == [Rewritten(x, rw)]
  {
  }

  lemma DropOne(x: Row, col: string)
    ensures Apply([x], Drop(col)) == [x - {col}]
  {
  }

  /** The cells of `row` in the columns of `key`: what `drop_duplicates` compares. */
  function KeyOf(row: Row, key: seq<string>): seq<Cell> {
    seq(|key|, i requires 0 <= i < |key| => Get(row, key[i]))
  }

  function KeysOf(rows: seq<Row>, key: seq<string>): set<seq<Cell>> {
    set i | 0 <= i < |rows| :: KeyOf(rows[i], key)
  }

  /** The key of a row is among the keys of any prefix that contains the row. */
  lemma KeyInPrefix(rows: seq<Row>, key: seq<string>, m: int, k: int)
    requires 0 <= m < k <= |rows|
    ensures KeyOf(rows[m], key) in KeysOf(rows[..k], key)
  {
    assert rows[..k][m] == rows[m];
  }

  lemma KeysOfSnoc(rows: seq<Row>, x: Row, key: seq<string>)
    ensures KeysOf(rows + [x], key) == KeysOf(rows, key) + {KeyOf(x, key)}
  {
    var s := rows + [x];
    assert s[|rows|] == x;
    forall i | 0 <= i < |rows| ensures s[i] == rows[i] { }
  }

  /**
   * `drop_duplicates(subset=key, keep='first')`: the first row of each key,
   * in order. Missing cells compare equal, as they do in pandas.
   */
  function Dedup(rows: seq<Row>, key: seq<string>): seq<Row> {
    if rows == [] then []
    else
      var init, last := rows[..|rows| - 1], rows[|rows| - 1];
      Dedup(init, key) + (if KeyOf(last, key) in KeysOf(init, key) then [] else [last])
  }

  /**
   * `Dedup` keeps every key of its input, no key twice, and only rows of
   * its input.
   */
  lemma {:induction false} DedupMeaning(rows: seq<Row>, key: seq<string>)
    ensures KeysOf(Dedup(rows, key), key) == KeysOf(rows, key)
    ensures forall i, j :: 0 <= i < j < |Dedup(rows, key)| ==>
      KeyOf(Dedup(rows, key)[i], key) != KeyOf(Dedup(rows, key)[j], key)
    ensures forall i :: 0 <= i < |Dedup(rows, key)| ==> Dedup(rows, key)[i] in rows
    decreases |rows|
  {
    if rows != [] {
      var init, last := rows[..|rows| - 1], rows[|rows| - 1];
      assert rows == init + [last];
      KeysOfSnoc(init, last, key);
      var kept := Dedup(init, key);
      DedupMeaning(init, key);
      if KeyOf(last, key) !in KeysOf(init, key) {
        KeysOfSnoc(kept, last, key);
        assert forall i :: 0 <= i < |kept| ==> KeyOf(kept[i], key) in KeysOf(kept, key);
        assert Dedup(rows, key) == kept + [last];
      } else {
        assert Dedup(rows, key) == kept;
      }
    }
  }

  /** The positions in `rows` of the rows `Dedup` keeps. */
  ghost function DedupOrigins(rows: seq<Row>, key: seq<string>): seq<nat> {
    if rows == [] then []
    else
      var init, last := rows[..|rows| - 1], rows[|rows| - 1];
      DedupOrigins(init, key) + (if KeyOf(last, key) in KeysOf(init, key) then [] else [|rows| - 1])
  }

  /** `DedupOrigins` lists positions of `rows`, in increasing order, of the rows `Dedup` returns. */
  lemma {:induction false} DedupOriginsIndexRows(rows: seq<Row>, key: seq<string>)
    ensures |DedupOrigins(rows, key)| == |Dedup(rows, key)|
    ensures forall j :: 0 <= j < |DedupOrigins(rows, key)| ==>
      DedupOrigins(rows, key)[j] < |rows| && Dedup(rows, key)[j] == rows[DedupOrigins(rows, key)[j]]
    ensures forall i, j :: 0 <= i < j < |DedupOrigins(rows, key)| ==> DedupOrigins(rows, key)[i] < DedupOrigins(rows, key)[j]
    decreases |rows|
  {
    if rows != [] {
      var n := |rows|;
      var init := rows[..n - 1];
      DedupOriginsIndexRows(init, key);
      var o' := DedupOrigins(init, key);
      assert forall j :: 0 <= j < |o'| ==> rows[o'[j]] == init[o'[j]];
    }
  }

  lemma {:induction false} DedupOriginsBelow(rows: seq<Row>, key: seq<string>)
    ensures forall x :: x in DedupOrigins(rows, key) ==> x < |rows|
    decreases |rows|
  {
    if rows != [] {
      DedupOriginsBelow(rows[..|rows| - 1], key);
    }
  }

  /**
   * `Dedup` keeps exactly the rows whose key no earlier row has: the first
   * occurrence of each key wins.
   */
  lemma {:induction false} DedupKeepsFirst(rows: seq<Row>, key: seq<string>)
    ensures forall k :: 0 <= k < |rows| ==>
      (k in DedupOrigins(rows, key) <==> KeyOf(rows[k], key) !in KeysOf(rows[..k], key))
    decreases |rows|
  {
    if rows != [] {
      var n := |rows|;
      var init, last := rows[..n - 1], rows[n - 1];
      DedupKeepsFirst(init, key);
      DedupOriginsBelow(init, key);
      var o', o := DedupOrigins(init, key), DedupOrigins(rows, key);
      var first := KeyOf(last, key) !in KeysOf(init, key);
      assert o == o' + (if first then [n - 1] else []);
      forall k | 0 <= k < n - 1
        ensures k in o <==> KeyOf(rows[k], key) !in KeysOf(rows[..k], key)
      {
        assert k in o <==> k in o';
        assert rows[..k] == init[..k];
        assert rows[k] == init[k];
      }
      assert rows[..n - 1] == init;
      assert n - 1 in o <==> first;
    }
  }

  /** Rows whose keys are already distinct are left as they are. */
  lemma {:induction false} DedupOfDistinct(rows: seq<Row>, key: seq<string>)
    requires forall i, j :: 0 <= i < j < |rows| ==> KeyOf(rows[i], key) != KeyOf(rows[j], key)
    ensures Dedup(rows, key) == rows
    decreases |rows|
  {
    if rows != [] {
      var init := rows[..|rows| - 1];
      DedupOfDistinct(init, key);
      assert KeyOf(rows[|rows| - 1], key) !in KeysOf(init, key);
      assert rows == init + [rows[|rows| - 1]];
    }
  }

  /** Dropping a column outside the key commutes with `Dedup`. */
  lemma {:induction false} DedupDropCommute(rows: seq<Row>, key: seq<string>, col: string)
    requires col !in key
    ensures Dedup(Apply(rows, Drop(col)), key) == Apply(Dedup(rows, key), Drop(col))
    decreases |rows|
  {
    if rows != [] {
      var n, d := |rows|, Drop(col);
      var init, last := rows[..n - 1], rows[n - 1];
      var init', last' := Apply(init, d), Rewritten(last, d);
      assert rows == init + [last];
      assert Apply(rows, d) == init' + [last'];
      DedupSnoc(init, last, key);
      DedupSnoc(init', last', key);
      DropKeepsKey(last, key, col);
      DropKeepsKeys(init, key, col);
      DedupDropCommute(init, key, col);
      var tail := if KeyOf(last, key) in KeysOf(init, key) then [] else [last];
      ApplyAppend(Dedup(init, key), tail, d);
      assert Apply(tail, d) == if KeyOf(last, key) in KeysOf(init, key) then [] else [last'];
    }
  }

  /** `Dedup` of one more row: the row is kept when its key is new. */
  lemma DedupSnoc(rows: seq<Row>, x: Row, key: seq<string>)
    ensures Dedup(rows + [x], key) == Dedup(rows, key) + (if KeyOf(x, key) in KeysOf(rows, key) then [] else [x])
  {
    var s := rows + [x];
    assert s[..|s| - 1] == rows && s[|s| - 1] == x;
  }

  /** Dropping a column outside the key leaves the set of keys as it was. */
  lemma DropKeepsKeys(rows: seq<Row>, key: seq<string>, col: string)
    requires col !in key
    ensures KeysOf(Apply(rows, Drop(col)), key) == KeysOf(rows, key)
  {
    forall i | 0 <= i < |rows| ensures KeyOf(Apply(rows, Drop(col))[i], key) == KeyOf(rows[i], key) {
      DropKeepsKey(rows[i], key, col);
    }
  }

  lemma DropKeepsKey(row: Row, key: seq<string>, col: string)
    requires col !in key
    ensures KeyOf(Rewritten(row, Drop(col)), key) == KeyOf(row, key)
  {
    assert forall i :: 0 <= i < |key| ==> key[i] != col;
  }

  /** `dropna(subset=...)` or indexing with a boolean mask: a new sequence of the rows that pass. */
  method FilterRows(rows: seq<Row>, test: RowTest) returns (kept: seq<Row>)
    ensures kept == Filter(rows, test)
  {
    kept := [];
    for i := 0 to |rows|
      invariant kept == Filter(rows[..i], test)
    {
      assert rows[..i + 1] == rows[..i] + [rows[i]];
      FilterSnoc(rows[..i], rows[i], test);
      if Passes(rows[i], test) {
        kept := kept + [rows[i]];
      }
    }
    assert rows[..|rows|] == rows;
  }

  /** `df[col] = ...`: every row rewritten in place, one after another. */
  method MapRows(rows: seq<Row>, rw: Rewrite) returns (out: seq<Row>)
    ensures out == Apply(rows, rw)
  {
    out := rows;
    for i := 0 to |rows|
      invariant |out| == |rows|
      invariant forall k :: 0 <= k < i ==> out[k] == Rewritten(rows[k], rw)
      invariant forall k :: i <= k < |rows| ==> out[k] == rows[k]
    {
      out := out[i := Rewritten(out[i], rw)];
    }
  }

  /** `drop_duplicates(subset=key, keep='first')` with a set of the keys seen so far. */
  method DropDuplicates(rows: seq<Row>, key: seq<string>) returns (kept: seq<Row>)
    ensures kept == Dedup(rows, key)
  {
    kept := [];
    var seen: set<seq<Cell>> := {};
    for i := 0 to |rows|
      invariant kept == Dedup(rows[..i], key)
      invariant seen == KeysOf(rows[..i], key)
    {
      var k := KeyOf(rows[i], key);
      assert rows[..i + 1][..i] == rows[..i];
      assert rows[..i + 1] == rows[..i] + [rows[i]];
      KeysOfSnoc(rows[..i], rows[i], key);
      if k !in seen {
        kept := kept + [rows[i]];
      }
      seen := seen + {k};
    }
    assert rows[..|rows|] == rows;
  }
}
