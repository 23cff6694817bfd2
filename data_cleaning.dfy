/**
 * `DataCleaning.clean_user_data`: turns the raw legacy user table into the
 * table loaded as `dim_users`. Rows with a missing required value, a date
 * that does not parse, a malformed email address or an implausible age
 * are dropped; phone numbers are cut down to their digits; of the rows
 * sharing an (email address, user uuid) pair the first is kept.
 *
 * The date parser and the current year are parameters: they stand for
 * `pd.to_datetime` and the wall clock.
 */
module DataCleaning {
  import opened Wrappers
  import opened Tables
  import opened Patterns
  import opened Primitives

  const FIRST_NAME := "first_name"
  const LAST_NAME := "last_name"
  const EMAIL_ADDRESS := "email_address"
  const JOIN_DATE := "join_date"
  const DATE_OF_BIRTH := "date_of_birth"
  const PHONE_NUMBER := "phone_number"
  const USER_UUID := "user_uuid"
  /** The temporary column the age check works on. */
  const AGE := "age"

  const REQUIRED: seq<string> := [FIRST_NAME, LAST_NAME, EMAIL_ADDRESS, JOIN_DATE, DATE_OF_BIRTH]
  const DATE_COLUMNS: seq<string> := [JOIN_DATE, DATE_OF_BIRTH]
  const DEDUP_KEY: seq<string> := [EMAIL_ADDRESS, USER_UUID]
  /**
   * The input columns the cleaner reads whatever the rows hold. `user_uuid`
   * is looked up only when some row reaches the deduplication.
   */
  const READ_COLUMNS: seq<string> := REQUIRED + [PHONE_NUMBER]
  const MIN_AGE := 0
  const MAX_AGE := 120

  /** The columns the cleaner touches have pairwise different names. */
  lemma NamesDiffer()
    ensures JOIN_DATE != DATE_OF_BIRTH && JOIN_DATE != PHONE_NUMBER && JOIN_DATE != AGE
    ensures DATE_OF_BIRTH != PHONE_NUMBER && DATE_OF_BIRTH != AGE && PHONE_NUMBER != AGE
    ensures EMAIL_ADDRESS != JOIN_DATE && EMAIL_ADDRESS != DATE_OF_BIRTH
    ensures EMAIL_ADDRESS != PHONE_NUMBER && EMAIL_ADDRESS != AGE
    ensures USER_UUID != JOIN_DATE && USER_UUID != DATE_OF_BIRTH
    ensures USER_UUID != PHONE_NUMBER && USER_UUID != AGE
    ensures FIRST_NAME != AGE && LAST_NAME != AGE
  {
    assert JOIN_DATE[0] != DATE_OF_BIRTH[0] && USER_UUID[0] != JOIN_DATE[0];
    assert EMAIL_ADDRESS[0] != DATE_OF_BIRTH[0];
  }

  /** pandas' KeyError: the named columns are not in the table. */
  datatype CleanError = KeyError(missing: seq<string>)

  /** The row filters and rewrites up to the age check, in the cleaner's order. */
  function Screen(rows: seq<Row>, parse: DateParser, currentYear: int): seq<Row> {
    var complete := Filter(rows, NotNull(REQUIRED));
    var joined := Apply(complete, ToDate(JOIN_DATE, parse));
    var born := Apply(joined, ToDate(DATE_OF_BIRTH, parse));
    var dated := Filter(born, NotNull(DATE_COLUMNS));
    var reachable := Filter(dated, EmailLike(EMAIL_ADDRESS));
    var dialled := Apply(reachable, KeepDigits(PHONE_NUMBER));
    var aged := Apply(dialled, YearsSince(AGE, DATE_OF_BIRTH, currentYear));
    Filter(aged, Within(AGE, MIN_AGE, MAX_AGE))
  }

  /** The rows the cleaner returns: screened, deduplicated, the age column dropped. */
  function CleanRows(rows: seq<Row>, parse: DateParser, currentYear: int): seq<Row> {
    Apply(Dedup(Screen(rows, parse, currentYear), DEDUP_KEY), Drop(AGE))
  }

  /**
   * The whole cleaner. A column it reads that the table lacks is a
   * KeyError, raised where pandas raises it. `drop_duplicates` hands an
   * empty frame back before it looks up its key columns, so a missing
   * `user_uuid` is an error only when some row survives the screening.
   */
  function Cleaned(t: Table, parse: DateParser, currentYear: int): Result<Table, CleanError> {
    var missing := MissingColumns(REQUIRED, t.columns);
    if missing != [] then Failure(KeyError(missing))
    else if PHONE_NUMBER !in t.columns then Failure(KeyError([PHONE_NUMBER]))
    else
      var columns := WithColumn(t.columns, AGE);
      if USER_UUID !in columns && Screen(t.rows, parse, currentYear) != [] then Failure(KeyError([USER_UUID]))
      else Success(Table(Without(columns, AGE), CleanRows(t.rows, parse, currentYear)))
  }

  /** `clean_user_data`: the passes run one after another on the working rows. */
  method CleanUserData(t: Table, parse: DateParser, currentYear: int) returns (r: Result<Table, CleanError>)
    ensures r == Cleaned(t, parse, currentYear)
    ensures r.Success? ==> forall j :: 0 <= j < |r.value.rows| ==> UserRow(r.value.rows[j], currentYear)
    ensures r.Success? ==> forall i, j :: 0 <= i < j < |r.value.rows| ==>
      KeyOf(r.value.rows[i], DEDUP_KEY) != KeyOf(r.value.rows[j], DEDUP_KEY)
  {
    var missing := MissingColumns(REQUIRED, t.columns);
    if missing != [] {
      return Failure(KeyError(missing));
    }
    var rows := FilterRows(t.rows, NotNull(REQUIRED));
    rows := MapRows(rows, ToDate(JOIN_DATE, parse));
    rows := MapRows(rows, ToDate(DATE_OF_BIRTH, parse));
    rows := FilterRows(rows, NotNull(DATE_COLUMNS));
    rows := FilterRows(rows, EmailLike(EMAIL_ADDRESS));
    if PHONE_NUMBER !in t.columns {
      return Failure(KeyError([PHONE_NUMBER]));
    }
    rows := MapRows(rows, KeepDigits(PHONE_NUMBER));
    var columns := WithColumn(t.columns, AGE);
    rows := MapRows(rows, YearsSince(AGE, DATE_OF_BIRTH, currentYear));
    rows := FilterRows(rows, Within(AGE, MIN_AGE, MAX_AGE));
    // `drop_duplicates` returns an empty frame as it is, before it looks up its key columns.
    if rows != [] {
      if USER_UUID !in columns {
        return Failure(KeyError([USER_UUID]));
      }
      rows := DropDuplicates(rows, DEDUP_KEY);
    }
    rows := MapRows(rows, Drop(AGE));
    columns := Without(columns, AGE);
    r := Success(Table(columns, rows));
    CleanRowsValid(t.rows, parse, currentYear);
  }

  // ---------------------------------------------------------------------
  // What a cleaned row is
  // ---------------------------------------------------------------------

  /** The invariants of a row of `dim_users`. */
  ghost predicate UserRow(row: Row, currentYear: int) {
    && (forall c :: c in REQUIRED ==> Get(row, c) != Null)
    && Get(row, JOIN_DATE).Dated?
    && Get(row, DATE_OF_BIRTH).Dated?
    && Get(row, EMAIL_ADDRESS).Text?
    && EmailPattern(Get(row, EMAIL_ADDRESS).text)
    && PHONE_NUMBER in row
    && (row[PHONE_NUMBER] == Null || (row[PHONE_NUMBER].Text? && AllDigits(row[PHONE_NUMBER].text)))
    && MIN_AGE <= currentYear - Get(row, DATE_OF_BIRTH).date.year <= MAX_AGE
    && AGE !in row
  }

  /**
   * `out` is `row` with its two dates coerced, its phone number reduced to
   * digits and no age column; every other cell is as it was.
   */
  ghost predicate CleanedFrom(out: Row, row: Row, parse: DateParser) {
    && out.Keys == row.Keys + {JOIN_DATE, DATE_OF_BIRTH, PHONE_NUMBER} - {AGE}
    && out[JOIN_DATE] == CoerceDate(Get(row, JOIN_DATE), parse)
    && out[DATE_OF_BIRTH] == CoerceDate(Get(row, DATE_OF_BIRTH), parse)
    && out[PHONE_NUMBER] == StripNonDigits(Get(row, PHONE_NUMBER))
    && forall c :: c in out && c != JOIN_DATE && c != DATE_OF_BIRTH && c != PHONE_NUMBER ==> out[c] == row[c]
  }

  /**
   * The cleaner applied to one row on its own: the row it becomes, or None
   * when one of the filters drops it.
   */
  function CleanRow(row: Row, parse: DateParser, currentYear: int): Option<Row> {
    var join := CoerceDate(Get(row, JOIN_DATE), parse);
    var birth := CoerceDate(Get(row, DATE_OF_BIRTH), parse);
    var email := Get(row, EMAIL_ADDRESS);
    if !(forall c :: c in REQUIRED ==> Get(row, c) != Null) then None
    else if !join.Dated? || !birth.Dated? then None
    else if !(email.Text? && MatchesEmail(email.text)) then None
    else if !(MIN_AGE <= currentYear - birth.date.year <= MAX_AGE) then None
    else Some(row[JOIN_DATE := join][DATE_OF_BIRTH := birth][PHONE_NUMBER := StripNonDigits(Get(row, PHONE_NUMBER))] - {AGE})
  }

  /**
   * A row the cleaner keeps meets the invariants and differs from its input
   * only where the cleaner rewrites; a row whose date does not parse is
   * dropped.
   */
  lemma CleanRowMeaning(row: Row, parse: DateParser, currentYear: int)
    ensures CleanRow(row, parse, currentYear).Some? ==>
      && UserRow(CleanRow(row, parse, currentYear).value, currentYear)
      && CleanedFrom(CleanRow(row, parse, currentYear).value, row, parse)
    ensures CoerceDate(Get(row, JOIN_DATE), parse) == Null ==> CleanRow(row, parse, currentYear).None?
    ensures CoerceDate(Get(row, DATE_OF_BIRTH), parse) == Null ==> CleanRow(row, parse, currentYear).None?
  {
    if CleanRow(row, parse, currentYear).Some? {
      var out := CleanRow(row, parse, currentYear).value;
      CleanRowRewrites(row, parse, currentYear);
      NamesDiffer();
      forall c | c in REQUIRED ensures Get(out, c) != Null {
        if c != JOIN_DATE && c != DATE_OF_BIRTH {
          assert Get(out, c) == Get(row, c);
        }
      }
    }
  }

  /** A row the cleaner keeps differs from its input only where the cleaner rewrites. */
  lemma CleanRowRewrites(row: Row, parse: DateParser, currentYear: int)
    requires CleanRow(row, parse, currentYear).Some?
    ensures CleanedFrom(CleanRow(row, parse, currentYear).value, row, parse)
  {
    var join := CoerceDate(Get(row, JOIN_DATE), parse);
    var birth := CoerceDate(Get(row, DATE_OF_BIRTH), parse);
    var phone := StripNonDigits(Get(row, PHONE_NUMBER));
    var out := row[JOIN_DATE := join][DATE_OF_BIRTH := birth][PHONE_NUMBER := phone] - {AGE};
    NamesDiffer();
    assert CleanRow(row, parse, currentYear) == Some(out);
  }

  /** A row that already meets the invariants comes through unchanged. */
  lemma CleanRowFixpoint(row: Row, parse: DateParser, currentYear: int)
    requires UserRow(row, currentYear)
    ensures CleanRow(row, parse, currentYear) == Some(row)
  {
    var phone := row[PHONE_NUMBER];
    if phone.Text? {
      DigitsOnlyOfDigits(phone.text);
    }
    assert StripNonDigits(phone) == phone;
    assert CoerceDate(Get(row, JOIN_DATE), parse) == row[JOIN_DATE];
    assert CoerceDate(Get(row, DATE_OF_BIRTH), parse) == row[DATE_OF_BIRTH];
    var out := row[JOIN_DATE := row[JOIN_DATE]][DATE_OF_BIRTH := row[DATE_OF_BIRTH]][PHONE_NUMBER := phone] - {AGE};
    assert out.Keys == row.Keys;
    assert forall k :: k in row ==> out[k] == row[k];
    assert out == row;
  }

  /** Cleaning keeps the email address and the user uuid, the deduplication key. */
  lemma CleanRowKeepsKey(row: Row, parse: DateParser, currentYear: int)
    requires CleanRow(row, parse, currentYear).Some?
    ensures KeyOf(CleanRow(row, parse, currentYear).value, DEDUP_KEY) == KeyOf(row, DEDUP_KEY)
  {
    var out := CleanRow(row, parse, currentYear).value;
    CleanRowMeaning(row, parse, currentYear);
    assert Get(out, EMAIL_ADDRESS) == Get(row, EMAIL_ADDRESS);
    assert Get(out, USER_UUID) == Get(row, USER_UUID);
  }

  // ---------------------------------------------------------------------
  // The cleaner row by row
  // ---------------------------------------------------------------------

  /** Every row cleaned on its own: None where a filter drops it. */
  function CleanAll(rows: seq<Row>, parse: DateParser, currentYear: int): seq<Option<Row>> {
    seq(|rows|, i requires 0 <= i < |rows| => CleanRow(rows[i], parse, currentYear))
  }

  /** The rows that survive cleaning on their own, cleaned, in order. */
  function CleanEach(rows: seq<Row>, parse: DateParser, currentYear: int): seq<Row> {
    Values(CleanAll(rows, parse, currentYear))
  }

  /** The positions of the rows `CleanEach` keeps. */
  ghost function CleanEachOrigins(rows: seq<Row>, parse: DateParser, currentYear: int): seq<nat> {
    Positions(CleanAll(rows, parse, currentYear))
  }

  /**
   * Row j of `CleanEach` is the cleaned input row at the j-th kept position,
   * the positions increase, and exactly the rows that survive cleaning on
   * their own are kept.
   */
  lemma CleanEachOrigin(rows: seq<Row>, parse: DateParser, currentYear: int)
    ensures |CleanEachOrigins(rows, parse, currentYear)| == |CleanEach(rows, parse, currentYear)|
    ensures forall j :: 0 <= j < |CleanEachOrigins(rows, parse, currentYear)| ==>
      && CleanEachOrigins(rows, parse, currentYear)[j] < |rows|
      && CleanRow(rows[CleanEachOrigins(rows, parse, currentYear)[j]], parse, currentYear)
         == Some(CleanEach(rows, parse, currentYear)[j])
    ensures forall i, j :: 0 <= i < j < |CleanEachOrigins(rows, parse, currentYear)| ==>
      CleanEachOrigins(rows, parse, currentYear)[i] < CleanEachOrigins(rows, parse, currentYear)[j]
    ensures forall k :: 0 <= k < |rows| ==>
      (k in CleanEachOrigins(rows, parse, currentYear) <==> CleanRow(rows[k], parse, currentYear).Some?)
  {
    PositionsIndexValues(CleanAll(rows, parse, currentYear));
    PositionsOfPresent(CleanAll(rows, parse, currentYear));
  }

  /** The screening steps handle each row on its own, so they split over concatenation. */
  lemma ScreenAppend(a: seq<Row>, b: seq<Row>, parse: DateParser, currentYear: int)
    ensures Screen(a + b, parse, currentYear) == Screen(a, parse, currentYear) + Screen(b, parse, currentYear)
  {
    var t1, t4, t5 := NotNull(REQUIRED), NotNull(DATE_COLUMNS), EmailLike(EMAIL_ADDRESS);
    var t8 := Within(AGE, MIN_AGE, MAX_AGE);
    var w2, w3 := ToDate(JOIN_DATE, parse), ToDate(DATE_OF_BIRTH, parse);
    var w6, w7 := KeepDigits(PHONE_NUMBER), YearsSince(AGE, DATE_OF_BIRTH, currentYear);
    FilterAppend(a, b, t1);
    var a1, b1 := Filter(a, t1), Filter(b, t1);
    ApplyAppend(a1, b1, w2);
    var a2, b2 := Apply(a1, w2), Apply(b1, w2);
    ApplyAppend(a2, b2, w3);
    var a3, b3 := Apply(a2, w3), Apply(b2, w3);
    FilterAppend(a3, b3, t4);
    var a4, b4 := Filter(a3, t4), Filter(b3, t4);
    FilterAppend(a4, b4, t5);
    var a5, b5 := Filter(a4, t5), Filter(b4, t5);
    ApplyAppend(a5, b5, w6);
    var a6, b6 := Apply(a5, w6), Apply(b5, w6);
    ApplyAppend(a6, b6, w7);
    var a7, b7 := Apply(a6, w7), Apply(b6, w7);
    FilterAppend(a7, b7, t8);
  }

  lemma FilterOne(x: Row, test: RowTest)
    ensures Filter([x], test) == if Passes(x, test) then [x] else []
  {
    assert [x][..0] == [];
  }

  /** The screening steps on one row: the row they leave, or None when a filter drops it. */
  function ScreenRow(x: Row, parse: DateParser, currentYear: int): Option<Row> {
    var x3 := Rewritten(Rewritten(x, ToDate(JOIN_DATE, parse)), ToDate(DATE_OF_BIRTH, parse));
    var x7 := Rewritten(Rewritten(x3, KeepDigits(PHONE_NUMBER)), YearsSince(AGE, DATE_OF_BIRTH, currentYear));
    if && Passes(x, NotNull(REQUIRED))
       && Passes(x3, NotNull(DATE_COLUMNS))
       && Passes(x3, EmailLike(EMAIL_ADDRESS))
       && Passes(x7, Within(AGE, MIN_AGE, MAX_AGE))
    then Some(x7)
    else None
  }

  lemma ScreenSingle(x: Row, parse: DateParser, currentYear: int)
    ensures Screen([x], parse, currentYear) == match ScreenRow(x, parse, currentYear) case Some(y) => [y] case None => []
  {
    var t1, t4, t5 := NotNull(REQUIRED), NotNull(DATE_COLUMNS), EmailLike(EMAIL_ADDRESS);
    var t8 := Within(AGE, MIN_AGE, MAX_AGE);
    var w2, w3 := ToDate(JOIN_DATE, parse), ToDate(DATE_OF_BIRTH, parse);
    var w6, w7 := KeepDigits(PHONE_NUMBER), YearsSince(AGE, DATE_OF_BIRTH, currentYear);
    var empty: seq<Row> := [];
    assert Filter(empty, t4) == [] && Filter(empty, t5) == [] && Filter(empty, t8) == [];
    FilterOne(x, t1);
    if Passes(x, t1) {
      var x3 := Rewritten(Rewritten(x, w2), w3);
      ApplyOne(x, w2);
      ApplyOne(Rewritten(x, w2), w3);
      FilterOne(x3, t4);
      if Passes(x3, t4) {
        FilterOne(x3, t5);
        if Passes(x3, t5) {
          var x7 := Rewritten(Rewritten(x3, w6), w7);
          ApplyOne(x3, w6);
          ApplyOne(Rewritten(x3, w6), w7);
          FilterOne(x7, t8);
        }
      }
    }
  }

  /** The row screening leaves is the row `CleanRow` returns, with the age column still on it. */
  lemma ScreenRowIsCleanRow(x: Row, parse: DateParser, currentYear: int)
    ensures match ScreenRow(x, parse, currentYear)
      case Some(y) => CleanRow(x, parse, currentYear) == Some(y - {AGE})
      case None => CleanRow(x, parse, currentYear) == None
  {
    var join := CoerceDate(Get(x, JOIN_DATE), parse);
    var birth := CoerceDate(Get(x, DATE_OF_BIRTH), parse);
    var phone := StripNonDigits(Get(x, PHONE_NUMBER));
    var x3 := x[JOIN_DATE := join][DATE_OF_BIRTH := birth];
    var x6 := x3[PHONE_NUMBER := phone];
    var x7 := x6[AGE := YearsFrom(birth, currentYear)];
    ScreenRowForm(x, parse, currentYear);
    assert x7 - {AGE} == x6 - {AGE};
  }

  /** `ScreenRow` spelled out with the cells the rewrites put in. */
  lemma ScreenRowForm(x: Row, parse: DateParser, currentYear: int)
    ensures
      var join := CoerceDate(Get(x, JOIN_DATE), parse);
      var birth := CoerceDate(Get(x, DATE_OF_BIRTH), parse);
      var x6 := x[JOIN_DATE := join][DATE_OF_BIRTH := birth][PHONE_NUMBER := StripNonDigits(Get(x, PHONE_NUMBER))];
      var email := Get(x, EMAIL_ADDRESS);
      ScreenRow(x, parse, currentYear) ==
        if && (forall c :: c in REQUIRED ==> Get(x, c) != Null)
           && join.Dated? && birth.Dated?
           && email.Text? && MatchesEmail(email.text)
           && MIN_AGE <= currentYear - birth.date.year <= MAX_AGE
        then Some(x6[AGE := YearsFrom(birth, currentYear)])
        else None
  {
    var join := CoerceDate(Get(x, JOIN_DATE), parse);
    var birth := CoerceDate(Get(x, DATE_OF_BIRTH), parse);
    var x3 := x[JOIN_DATE := join][DATE_OF_BIRTH := birth];
    var x6 := x3[PHONE_NUMBER := StripNonDigits(Get(x, PHONE_NUMBER))];
    var x7 := x6[AGE := YearsFrom(birth, currentYear)];
    var email := Get(x, EMAIL_ADDRESS);
    RewrittenRow(x, parse, currentYear);
    NamesDiffer();
    var p1 := Passes(x, NotNull(REQUIRED));
    var p4 := Passes(x3, NotNull(DATE_COLUMNS));
    var p5 := Passes(x3, EmailLike(EMAIL_ADDRESS));
    var p8 := Passes(x7, Within(AGE, MIN_AGE, MAX_AGE));
    assert ScreenRow(x, parse, currentYear) == if p1 && p4 && p5 && p8 then Some(x7) else None;
    assert p1 <==> forall c :: c in REQUIRED ==> Get(x, c) != Null;
    assert p4 <==> join.Dated? && birth.Dated? by {
      assert Get(x3, JOIN_DATE) == join && Get(x3, DATE_OF_BIRTH) == birth;
      assert JOIN_DATE in DATE_COLUMNS && DATE_OF_BIRTH in DATE_COLUMNS;
    }
    assert p5 <==> email.Text? && MatchesEmail(email.text) by {
      assert Get(x3, EMAIL_ADDRESS) == email;
    }
    assert birth.Dated? ==> (p8 <==> MIN_AGE <= currentYear - birth.date.year <= MAX_AGE) by {
      assert Get(x7, AGE) == YearsFrom(birth, currentYear);
    }
  }

  /** The rewrites of the screening steps, as map updates of the input row. */
  lemma RewrittenRow(x: Row, parse: DateParser, currentYear: int)
    ensures
      var join := CoerceDate(Get(x, JOIN_DATE), parse);
      var birth := CoerceDate(Get(x, DATE_OF_BIRTH), parse);
      var x3 := x[JOIN_DATE := join][DATE_OF_BIRTH := birth];
      var x6 := x3[PHONE_NUMBER := StripNonDigits(Get(x, PHONE_NUMBER))];
      && Rewritten(Rewritten(x, ToDate(JOIN_DATE, parse)), ToDate(DATE_OF_BIRTH, parse)) == x3
      && Rewritten(x3, KeepDigits(PHONE_NUMBER)) == x6
      && Rewritten(x6, YearsSince(AGE, DATE_OF_BIRTH, currentYear)) == x6[AGE := YearsFrom(birth, currentYear)]
  {
    var join := CoerceDate(Get(x, JOIN_DATE), parse);
    var x2 := x[JOIN_DATE := join];
    assert Get(x2, DATE_OF_BIRTH) == Get(x, DATE_OF_BIRTH);
  }

  /** On a single row, screening and dropping the age column is `CleanRow`. */
  lemma ScreenOne(x: Row, parse: DateParser, currentYear: int)
    ensures Apply(Screen([x], parse, currentYear), Drop(AGE))
      == match CleanRow(x, parse, currentYear) case Some(out) => [out] case None => []
  {
    ScreenSingle(x, parse, currentYear);
    ScreenRowIsCleanRow(x, parse, currentYear);
    var screened := ScreenRow(x, parse, currentYear);
    if screened.Some? {
      var y := screened.value;
      assert Screen([x], parse, currentYear) == [y];
      DropOne(y, AGE);
    } else {
      var none: seq<Row> := [];
      assert Screen([x], parse, currentYear) == none;
      assert Apply(none, Drop(AGE)) == [];
    }
  }

  /** Screening and dropping the age column is cleaning each row on its own. */
  lemma {:induction false} ScreenIsRowWise(rows: seq<Row>, parse: DateParser, currentYear: int)
    ensures Apply(Screen(rows, parse, currentYear), Drop(AGE)) == CleanEach(rows, parse, currentYear)
    decreases |rows|
  {
    if rows == [] {
      assert Screen(rows, parse, currentYear) == [];
    } else {
      var init, last := rows[..|rows| - 1], rows[|rows| - 1];
      var tail := match CleanRow(last, parse, currentYear) case Some(out) => [out] case None => [];
      assert CleanEach(rows, parse, currentYear) == CleanEach(init, parse, currentYear) + tail by {
        var all := CleanAll(rows, parse, currentYear);
        assert all[..|rows| - 1] == CleanAll(init, parse, currentYear);
        assert all[|rows| - 1] == CleanRow(last, parse, currentYear);
      }
      var a, b := Screen(init, parse, currentYear), Screen([last], parse, currentYear);
      assert Screen(rows, parse, currentYear) == a + b by {
        assert rows == init + [last];
        ScreenAppend(init, [last], parse, currentYear);
      }
      ApplyAppend(a, b, Drop(AGE));
      ScreenIsRowWise(init, parse, currentYear);
      ScreenOne(last, parse, currentYear);
    }
  }

  /**
   * The step-by-step cleaner equals the row-by-row one: clean every row on
   * its own, then keep the first row of each (email address, user uuid).
   */
  lemma CleanRowsIsRowWise(rows: seq<Row>, parse: DateParser, currentYear: int)
    ensures CleanRows(rows, parse, currentYear) == Dedup(CleanEach(rows, parse, currentYear), DEDUP_KEY)
  {
    DedupDropCommute(Screen(rows, parse, currentYear), DEDUP_KEY, AGE);
    ScreenIsRowWise(rows, parse, currentYear);
  }

  // ---------------------------------------------------------------------
  // Properties of the cleaned rows
  // ---------------------------------------------------------------------

  /** Every returned row meets the invariants, and no two share an (email address, user uuid) pair. */
  lemma CleanRowsValid(rows: seq<Row>, parse: DateParser, currentYear: int)
    ensures forall j :: 0 <= j < |CleanRows(rows, parse, currentYear)| ==>
      UserRow(CleanRows(rows, parse, currentYear)[j], currentYear)
    ensures forall i, j :: 0 <= i < j < |CleanRows(rows, parse, currentYear)| ==>
      KeyOf(CleanRows(rows, parse, currentYear)[i], DEDUP_KEY) != KeyOf(CleanRows(rows, parse, currentYear)[j], DEDUP_KEY)
  {
    CleanRowsIsRowWise(rows, parse, currentYear);
    var each := CleanEach(rows, parse, currentYear);
    CleanEachOrigin(rows, parse, currentYear);
    DedupMeaning(each, DEDUP_KEY);
    forall x | x in each ensures UserRow(x, currentYear) {
      var j :| 0 <= j < |each| && each[j] == x;
      CleanRowMeaning(rows[CleanEachOrigins(rows, parse, currentYear)[j]], parse, currentYear);
    }
  }

  /** The positions of the input rows the cleaner returns. */
  ghost function Origins(rows: seq<Row>, parse: DateParser, currentYear: int): seq<nat> {
    var each := CleanEachOrigins(rows, parse, currentYear);
    var firsts := DedupOrigins(CleanEach(rows, parse, currentYear), DEDUP_KEY);
    seq(|firsts|, j requires 0 <= j < |firsts| =>
      if 0 <= firsts[j] < |each| then each[firsts[j]] else 0)
  }

  /**
   * The output is an order-preserving selection of the input rows, each
   * cleaned as `CleanRow` says.
   */
  lemma CleanRowsOrigin(rows: seq<Row>, parse: DateParser, currentYear: int)
    ensures |Origins(rows, parse, currentYear)| == |CleanRows(rows, parse, currentYear)|
    ensures forall j :: 0 <= j < |Origins(rows, parse, currentYear)| ==>
      && Origins(rows, parse, currentYear)[j] < |rows|
      && CleanRow(rows[Origins(rows, parse, currentYear)[j]], parse, currentYear)
         == Some(CleanRows(rows, parse, currentYear)[j])
    ensures forall i, j :: 0 <= i < j < |Origins(rows, parse, currentYear)| ==>
      Origins(rows, parse, currentYear)[i] < Origins(rows, parse, currentYear)[j]
  {
    var each, e := CleanEach(rows, parse, currentYear), CleanEachOrigins(rows, parse, currentYear);
    var d := DedupOrigins(each, DEDUP_KEY);
    CleanRowsIsRowWise(rows, parse, currentYear);
    CleanEachOrigin(rows, parse, currentYear);
    DedupOriginsIndexRows(each, DEDUP_KEY);
    assert forall j :: 0 <= j < |d| ==> Origins(rows, parse, currentYear)[j] == e[d[j]];
  }

  /**
   * Each returned row is the first row, among those that survive the
   * filters, with its (email address, user uuid) pair.
   */
  lemma CleanRowsFirstWins(rows: seq<Row>, parse: DateParser, currentYear: int, j: int, i: int)
    requires 0 <= j < |Origins(rows, parse, currentYear)|
    requires 0 <= i < |rows| && i < Origins(rows, parse, currentYear)[j]
    requires CleanRow(rows[i], parse, currentYear).Some?
    ensures Origins(rows, parse, currentYear)[j] < |rows|
    ensures KeyOf(rows[i], DEDUP_KEY) != KeyOf(rows[Origins(rows, parse, currentYear)[j]], DEDUP_KEY)
  {
    var each, e := CleanEach(rows, parse, currentYear), CleanEachOrigins(rows, parse, currentYear);
    var d := DedupOrigins(each, DEDUP_KEY);
    CleanEachOrigin(rows, parse, currentYear);
    DedupOriginsIndexRows(each, DEDUP_KEY);
    var k := d[j];
    assert k < |e| && Origins(rows, parse, currentYear)[j] == e[k];
    var m :| 0 <= m < |e| && e[m] == i;
    IncreasingOrder(e, m, k);
    assert KeyOf(each[k], DEDUP_KEY) !in KeysOf(each[..k], DEDUP_KEY) by {
      DedupKeepsFirst(each, DEDUP_KEY);
      assert k in d;
    }
    KeyInPrefix(each, DEDUP_KEY, m, k);
    CleanRowKeepsKey(rows[i], parse, currentYear);
    CleanRowKeepsKey(rows[e[k]], parse, currentYear);
  }

  /** Every (email address, user uuid) pair of a row that survives the filters is in the output. */
  lemma CleanRowsKeepEveryPair(rows: seq<Row>, parse: DateParser, currentYear: int)
    ensures forall i :: 0 <= i < |rows| && CleanRow(rows[i], parse, currentYear).Some? ==>
      KeyOf(rows[i], DEDUP_KEY) in KeysOf(CleanRows(rows, parse, currentYear), DEDUP_KEY)
  {
    var each, e := CleanEach(rows, parse, currentYear), CleanEachOrigins(rows, parse, currentYear);
    CleanRowsIsRowWise(rows, parse, currentYear);
    CleanEachOrigin(rows, parse, currentYear);
    DedupMeaning(each, DEDUP_KEY);
    forall i | 0 <= i < |rows| && CleanRow(rows[i], parse, currentYear).Some?
      ensures KeyOf(rows[i], DEDUP_KEY) in KeysOf(each, DEDUP_KEY)
    {
      assert i in e;
      var m :| 0 <= m < |e| && e[m] == i;
      CleanRowKeepsKey(rows[i], parse, currentYear);
      assert KeyOf(each[m], DEDUP_KEY) in KeysOf(each, DEDUP_KEY);
    }
  }

  // ---------------------------------------------------------------------
  // Properties of the cleaned table
  // ---------------------------------------------------------------------

  /**
   * The cleaner fails exactly when a required column or `phone_number` is
   * absent, or `user_uuid` is absent while some row survives the filters;
   * it then names only absent columns.
   */
  lemma CleanedFailsOnMissingColumn(t: Table, parse: DateParser, currentYear: int)
    ensures Cleaned(t, parse, currentYear).Success? <==>
      && (forall c :: c in READ_COLUMNS ==> c in t.columns)
      && (USER_UUID in t.columns || forall i :: 0 <= i < |t.rows| ==> CleanRow(t.rows[i], parse, currentYear).None?)
    ensures Cleaned(t, parse, currentYear).Failure? ==>
      && Cleaned(t, parse, currentYear).error.missing != []
      && forall c :: c in Cleaned(t, parse, currentYear).error.missing ==> c !in t.columns
  {
    assert forall c :: c in READ_COLUMNS <==> c in REQUIRED || c == PHONE_NUMBER;
    ScreenEmpty(t.rows, parse, currentYear);
    NoneMissing(REQUIRED, t.columns);
    NamesDiffer();
    var columns := WithColumn(t.columns, AGE);
    assert USER_UUID in columns <==> USER_UUID in t.columns by {
      assert USER_UUID in columns <==> USER_UUID in ColumnSet(columns);
    }
  }

  /** No row survives the screening exactly when every row, cleaned on its own, is dropped. */
  lemma ScreenEmpty(rows: seq<Row>, parse: DateParser, currentYear: int)
    ensures Screen(rows, parse, currentYear) == [] <==>
      forall i :: 0 <= i < |rows| ==> CleanRow(rows[i], parse, currentYear).None?
  {
    ScreenIsRowWise(rows, parse, currentYear);
    CleanEachOrigin(rows, parse, currentYear);
    var o := CleanEachOrigins(rows, parse, currentYear);
    assert |Screen(rows, parse, currentYear)| == |o|;
    if |o| == 0 {
      forall i | 0 <= i < |rows| ensures CleanRow(rows[i], parse, currentYear).None? {
        assert i !in o;
      }
    } else {
      assert o[0] < |rows| && CleanRow(rows[o[0]], parse, currentYear).Some?;
    }
  }

  /**
   * A table without `user_uuid` whose rows the filters all drop cleans to an
   * empty table: the deduplication never looks for the missing column.
   */
  lemma CleanedEmptyWithoutUuid(t: Table, parse: DateParser, currentYear: int)
    requires forall c :: c in READ_COLUMNS ==> c in t.columns
    requires USER_UUID !in t.columns
    requires forall i :: 0 <= i < |t.rows| ==> CleanRow(t.rows[i], parse, currentYear).None?
    ensures Cleaned(t, parse, currentYear) == Success(Table(Without(t.columns, AGE), []))
  {
    assert PHONE_NUMBER in READ_COLUMNS && forall c :: c in REQUIRED ==> c in READ_COLUMNS;
    NoneMissing(REQUIRED, t.columns);
    ScreenEmpty(t.rows, parse, currentYear);
    var empty: seq<Row> := [];
    assert Screen(t.rows, parse, currentYear) == empty;
    assert Dedup(empty, DEDUP_KEY) == [] && Apply(empty, Drop(AGE)) == [];
    CleanedSucceeds(t, parse, currentYear);
  }

  /**
   * With the required columns and `phone_number` present, and `user_uuid`
   * present or no row surviving the filters, the cleaner returns the input's
   * columns without `age` and the cleaned rows.
   */
  lemma CleanedSucceeds(t: Table, parse: DateParser, currentYear: int)
    requires MissingColumns(REQUIRED, t.columns) == [] && PHONE_NUMBER in t.columns
    requires USER_UUID in t.columns || Screen(t.rows, parse, currentYear) == []
    ensures Cleaned(t, parse, currentYear) == Success(Table(Without(t.columns, AGE), CleanRows(t.rows, parse, currentYear)))
  {
    NamesDiffer();
    var columns := WithColumn(t.columns, AGE);
    assert USER_UUID in columns <==> USER_UUID in t.columns by {
      assert USER_UUID in columns <==> USER_UUID in ColumnSet(columns);
    }
  }

  /**
   * A cleaned table is a well-formed table whose columns are the input's
   * without the temporary age column, in their order.
   */
  lemma CleanedWellFormed(t: Table, parse: DateParser, currentYear: int)
    requires WellFormed(t)
    requires Cleaned(t, parse, currentYear).Success?
    ensures WellFormed(Cleaned(t, parse, currentYear).value)
    ensures Cleaned(t, parse, currentYear).value.columns == Without(t.columns, AGE)
    ensures AGE !in t.columns ==> Cleaned(t, parse, currentYear).value.columns == t.columns
  {
    var cols := Without(t.columns, AGE);
    CleanedShape(t, parse, currentYear);
    var keys := ColumnSet(t.columns);
    assert ColumnSet(cols) == keys - {AGE};
    assert JOIN_DATE in READ_COLUMNS && DATE_OF_BIRTH in READ_COLUMNS && PHONE_NUMBER in READ_COLUMNS;
    CleanRowsKeys(t.rows, parse, currentYear, keys);
  }

  /** A successful clean has read all of `READ_COLUMNS`, and holds the cleaned rows under the input's columns without `age`. */
  lemma CleanedShape(t: Table, parse: DateParser, currentYear: int)
    requires Cleaned(t, parse, currentYear).Success?
    ensures forall c :: c in READ_COLUMNS ==> c in t.columns
    ensures Cleaned(t, parse, currentYear).value == Table(Without(t.columns, AGE), CleanRows(t.rows, parse, currentYear))
  {
    assert forall c :: c in READ_COLUMNS <==> c in REQUIRED || c == PHONE_NUMBER;
    assert MissingColumns(REQUIRED, t.columns) == [];
  }

  /** Rows that all have the same columns come out with those columns, without the age column. */
  lemma CleanRowsKeys(rows: seq<Row>, parse: DateParser, currentYear: int, keys: set<string>)
    requires forall i :: 0 <= i < |rows| ==> rows[i].Keys == keys
    requires JOIN_DATE in keys && DATE_OF_BIRTH in keys && PHONE_NUMBER in keys
    ensures forall j :: 0 <= j < |CleanRows(rows, parse, currentYear)| ==>
      CleanRows(rows, parse, currentYear)[j].Keys == keys - {AGE}
  {
    CleanRowsOrigin(rows, parse, currentYear);
    var o := Origins(rows, parse, currentYear);
    forall j | 0 <= j < |CleanRows(rows, parse, currentYear)|
      ensures CleanRows(rows, parse, currentYear)[j].Keys == keys - {AGE}
    {
      CleanRowKeys(rows[o[j]], parse, currentYear, keys);
    }
  }

  /** A kept row has the columns of its input, without the age column. */
  lemma CleanRowKeys(row: Row, parse: DateParser, currentYear: int, keys: set<string>)
    requires CleanRow(row, parse, currentYear).Some?
    requires row.Keys == keys && JOIN_DATE in keys && DATE_OF_BIRTH in keys && PHONE_NUMBER in keys
    ensures CleanRow(row, parse, currentYear).value.Keys == keys - {AGE}
  {
    CleanRowRewrites(row, parse, currentYear);
  }

  /** Cleaning the cleaned rows again leaves them as they are. */
  lemma CleanRowsIdempotent(rows: seq<Row>, parse: DateParser, currentYear: int)
    ensures CleanRows(CleanRows(rows, parse, currentYear), parse, currentYear) == CleanRows(rows, parse, currentYear)
  {
    var out := CleanRows(rows, parse, currentYear);
    CleanRowsValid(rows, parse, currentYear);
    forall i | 0 <= i < |out| ensures CleanAll(out, parse, currentYear)[i] == Some(out[i]) {
      CleanRowFixpoint(out[i], parse, currentYear);
    }
    ValuesOfPresent(CleanAll(out, parse, currentYear), out);
    DedupOfDistinct(out, DEDUP_KEY);
    CleanRowsIsRowWise(out, parse, currentYear);
  }

  /** Cleaning a cleaned table changes nothing. */
  lemma CleanedIdempotent(t: Table, parse: DateParser, currentYear: int)
    requires Cleaned(t, parse, currentYear).Success?
    ensures Cleaned(Cleaned(t, parse, currentYear).value, parse, currentYear) == Cleaned(t, parse, currentYear)
  {
    var u := Cleaned(t, parse, currentYear).value;
    CleanedShape(t, parse, currentYear);
    var cols := Without(t.columns, AGE);
    ReadColumnsKept(t.columns);
    CleanRowsIdempotent(t.rows, parse, currentYear);
    assert USER_UUID in cols || Screen(u.rows, parse, currentYear) == [] by {
      CleanedUuidOrEmpty(t, parse, currentYear);
      if USER_UUID !in cols {
        ScreenEmpty(u.rows, parse, currentYear);
      }
    }
    CleanedSucceeds(u, parse, currentYear);
  }

  /** Dropping `age` keeps every column the cleaner reads. */
  lemma ReadColumnsKept(cols: seq<string>)
    requires forall c :: c in READ_COLUMNS ==> c in cols
    ensures MissingColumns(REQUIRED, Without(cols, AGE)) == [] && PHONE_NUMBER in Without(cols, AGE)
  {
    NamesDiffer();
    assert forall c :: c in READ_COLUMNS ==> c in Without(cols, AGE);
    NoneMissing(REQUIRED, Without(cols, AGE));
  }

  /** A successful clean keeps `user_uuid` among its columns, or returns no rows. */
  lemma CleanedUuidOrEmpty(t: Table, parse: DateParser, currentYear: int)
    requires Cleaned(t, parse, currentYear).Success?
    ensures USER_UUID in Without(t.columns, AGE) || CleanRows(t.rows, parse, currentYear) == []
  {
    if USER_UUID !in t.columns {
      assert USER_UUID !in WithColumn(t.columns, AGE);
      var empty: seq<Row> := [];
      assert Screen(t.rows, parse, currentYear) == [];
      assert Dedup(empty, DEDUP_KEY) == [];
    }
  }
}
