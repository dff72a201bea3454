/**
 * The dimension loaders as functions of the table they start from and of the distinct
 * source values in the order `SELECT DISTINCT` enumerates them: `transferProvinceData`
 * (insert a province when it is absent) and `transferDateData` (split and parse the date,
 * then insert it when it is absent).
 */
module Dimensions {
  import opened Wrappers
  import opened JavaText
  import opened Schema
  import opened Resolver

  /** A `SELECT DISTINCT` result: every value exactly once, in some order. */
  predicate DistinctEnumeration(order: seq<string>, values: set<string>) {
    && (forall i, j | 0 <= i < j < |order| :: order[i] != order[j])
    && (forall x | x in order :: x in values)
    && (forall x | x in values :: x in order)
  }

  function SourceProvinces(src: seq<LotteryRow>): set<string> {
    set r | r in src :: r.province
  }

  function SourceDates(src: seq<LotteryRow>): set<string> {
    set r | r in src :: r.date
  }

  // ---------------------------------------------------------------- provinces

  /** `INSERT INTO dim_province (name_province) VALUES (?)`: the new row takes the next id. */
  function InsertProvince(t: ProvinceTable, name: string): ProvinceTable {
    ProvinceTable(t.rows + [ProvinceRow(t.autoIncrement, name)], t.autoIncrement + 1)
  }

  /** One iteration of the province loop. */
  function ProvinceStep(t: ProvinceTable, name: string): ProvinceTable {
    if ProvinceExists(t.rows, name) then t else InsertProvince(t, name)
  }

  /** `dim_province` after the loop over `order`. */
  function LoadProvinces(t: ProvinceTable, order: seq<string>): ProvinceTable
    decreases |order|
  {
    if order == [] then t else LoadProvinces(ProvinceStep(t, order[0]), order[1..])
  }

  /** Ids are positive, distinct, and below the counter, so every insert gets a fresh id. */
  predicate WellFormed(t: ProvinceTable) {
    && t.autoIncrement >= 1
    && (forall i | 0 <= i < |t.rows| :: 1 <= t.rows[i].id < t.autoIncrement)
    && (forall i, j | 0 <= i < j < |t.rows| :: t.rows[i].id != t.rows[j].id)
  }

  /** No province name is stored twice. */
  predicate UniqueNames(rows: seq<ProvinceRow>) {
    forall i, j | 0 <= i < j < |rows| :: rows[i].nameProvince != rows[j].nameProvince
  }

  /** Existing rows are never modified or removed, and the counter never goes back. */
  lemma {:induction false} LoadProvincesKeepsRows(t: ProvinceTable, order: seq<string>)
    ensures t.rows <= LoadProvinces(t, order).rows
    ensures t.autoIncrement <= LoadProvinces(t, order).autoIncrement
    decreases |order|
  {
    if order != [] {
      LoadProvincesKeepsRows(ProvinceStep(t, order[0]), order[1..]);
    }
  }

  /** Afterwards every value of `order` is present. */
  lemma {:induction false} LoadProvincesCovers(t: ProvinceTable, order: seq<string>)
    ensures forall x | x in order :: ProvinceExists(LoadProvinces(t, order).rows, x)
    decreases |order|
  {
    if order != [] {
      var t' := ProvinceStep(t, order[0]);
      assert ProvinceExists(t'.rows, order[0]) by {
        if !ProvinceExists(t.rows, order[0]) {
          assert t'.rows[|t.rows|].nameProvince == order[0];
        }
      }
      LoadProvincesCovers(t', order[1..]);
      LoadProvincesKeepsRows(t', order[1..]);
      var r := LoadProvinces(t, order).rows;
      assert r == LoadProvinces(t', order[1..]).rows;
      var i :| 0 <= i < |t'.rows| && t'.rows[i].nameProvince == order[0];
      assert r[i] == t'.rows[i];
      forall x | x in order ensures ProvinceExists(r, x) {
        if x != order[0] {
          assert x in order[1..];
        }
      }
    }
  }

  /** Every added row carries a value of `order` that was absent before. */
  lemma {:induction false} LoadProvincesAddsOnlyMissing(t: ProvinceTable, order: seq<string>)
    ensures forall i | |t.rows| <= i < |LoadProvinces(t, order).rows| ::
              LoadProvinces(t, order).rows[i].nameProvince in order
              && !ProvinceExists(t.rows, LoadProvinces(t, order).rows[i].nameProvince)
    decreases |order|
  {
    if order != [] {
      var t' := ProvinceStep(t, order[0]);
      LoadProvincesAddsOnlyMissing(t', order[1..]);
      LoadProvincesKeepsRows(t', order[1..]);
      var r := LoadProvinces(t, order).rows;
      forall i | |t.rows| <= i < |r| ensures r[i].nameProvince in order && !ProvinceExists(t.rows, r[i].nameProvince) {
        if i < |t'.rows| {
          assert r[i] == t'.rows[i];
          assert r[i].nameProvince == order[0] && !ProvinceExists(t.rows, order[0]);
        } else {
          assert r[i].nameProvince in order[1..];
          assert !ProvinceExists(t'.rows, r[i].nameProvince);
          assert forall j | 0 <= j < |t.rows| :: t.rows[j] == t'.rows[j];
        }
      }
    }
  }

  /** When every value is already present, the loader inserts nothing. */
  lemma {:induction false} LoadProvincesNoop(t: ProvinceTable, order: seq<string>)
    requires forall x | x in order :: ProvinceExists(t.rows, x)
    ensures LoadProvinces(t, order) == t
    decreases |order|
  {
    if order != [] {
      assert ProvinceStep(t, order[0]) == t;
      assert forall x | x in order[1..] :: x in order;
      LoadProvincesNoop(t, order[1..]);
    }
  }

  /**
   * Running the loader a second time on the state it produced adds no rows, even when the
   * second `SELECT DISTINCT` returns the values (or only some of them) in another order.
   */
  lemma LoadProvincesIdempotent(t: ProvinceTable, order: seq<string>, again: seq<string>)
    requires forall x | x in again :: x in order
    ensures LoadProvinces(LoadProvinces(t, order), again) == LoadProvinces(t, order)
  {
    LoadProvincesCovers(t, order);
    LoadProvincesNoop(LoadProvinces(t, order), again);
  }

  /** Inserts keep ids positive, distinct and below the counter. */
  lemma {:induction false} LoadProvincesWellFormed(t: ProvinceTable, order: seq<string>)
    requires WellFormed(t)
    ensures WellFormed(LoadProvinces(t, order))
    decreases |order|
  {
    if order != [] {
      LoadProvincesWellFormed(ProvinceStep(t, order[0]), order[1..]);
    }
  }

  /** The existence check keeps names unique, even when `order` repeats a value. */
  lemma {:induction false} LoadProvincesUniqueNames(t: ProvinceTable, order: seq<string>)
    requires UniqueNames(t.rows)
    ensures UniqueNames(LoadProvinces(t, order).rows)
    decreases |order|
  {
    if order != [] {
      var t' := ProvinceStep(t, order[0]);
      assert UniqueNames(t'.rows) by {
        if !ProvinceExists(t.rows, order[0]) {
          forall i, j | 0 <= i < j < |t'.rows| ensures t'.rows[i].nameProvince != t'.rows[j].nameProvince {
            if j == |t.rows| {
              assert t'.rows[i] == t.rows[i];
            }
          }
        }
      }
      LoadProvincesUniqueNames(t', order[1..]);
    }
  }

  /** With unique names, the row `getProvinceId` returns does not depend on the order rows come back in. */
  lemma ProvinceIdOfUnique(rows: seq<ProvinceRow>, i: nat)
    requires UniqueNames(rows) && i < |rows|
    ensures ProvinceId(rows, rows[i].nameProvince) == rows[i].id
  {
    assert forall j | 0 <= j < i :: rows[j].nameProvince != rows[i].nameProvince;
  }

  // ---------------------------------------------------------------- dates

  /** Day, month and year as `Integer.parseInt` reads them. */
  datatype DateParts = DateParts(day: int, month: int, year: int)

  /**
   * `Integer.parseInt` of `parts[0]` up to `parts[n - 1]`, in that order. Reading a part past
   * the end throws ArrayIndexOutOfBoundsException, a non-integer part NumberFormatException;
   * the first exception ends the parsing.
   */
  function ParseFields(parts: seq<string>, n: nat): (r: Result<seq<int>, RuntimeError>)
    ensures r.Success? ==> |r.value| == n
  {
    if n == 0 then Success([])
    else match ParseFields(parts, n - 1)
      case Failure(e) => Failure(e)
      case Success(values) =>
        if |parts| < n then Failure(ArrayIndexOutOfBounds(n - 1))
        else match ParseInt(parts[n - 1])
          case None => Failure(NumberFormat(parts[n - 1]))
          case Some(v) => Success(values + [v])
  }

  /** The fields parse exactly when there are at least `n` parts and each of the first `n` is an integer. */
  lemma {:induction false} ParseFieldsSucceeds(parts: seq<string>, n: nat)
    ensures ParseFields(parts, n).Success? <==>
              |parts| >= n && forall i | 0 <= i < n :: ParseInt(parts[i]).Some?
  {
    if n > 0 {
      ParseFieldsSucceeds(parts, n - 1);
    }
  }

  /** The parsed values are the integers of the first `n` parts, in order. */
  lemma {:induction false} ParseFieldsValues(parts: seq<string>, n: nat)
    requires ParseFields(parts, n).Success?
    ensures |parts| >= n && forall i | 0 <= i < n :: ParseInt(parts[i]).Some?
    ensures forall i | 0 <= i < n :: ParseFields(parts, n).value[i] == ParseInt(parts[i]).value
  {
    ParseFieldsSucceeds(parts, n);
    if n > 0 {
      var values := ParseFields(parts, n).value;
      var prev := ParseFields(parts, n - 1);
      assert prev.Success?;
      ParseFieldsValues(parts, n - 1);
      assert values == prev.value + [ParseInt(parts[n - 1]).value];
      forall i | 0 <= i < n - 1
        ensures values[i] == ParseInt(parts[i]).value
      {
        assert values[i] == prev.value[i];
      }
    }
  }

  /**
   * The error is the first one met: with parts 0 to i - 1 present and integers, part `i` missing
   * gives ArrayIndexOutOfBounds(i) and part `i` not an integer gives NumberFormat of that part.
   */
  lemma {:induction false} ParseFieldsFailsAt(parts: seq<string>, n: nat, i: nat)
    requires i < n
    requires i <= |parts| && forall j | 0 <= j < i :: ParseInt(parts[j]).Some?
    requires i == |parts| || ParseInt(parts[i]).None?
    ensures ParseFields(parts, n) ==
              Failure(if i >= |parts| then ArrayIndexOutOfBounds(i) else NumberFormat(parts[i]))
    decreases n
  {
    if n == i + 1 {
      ParseFieldsSucceeds(parts, i);
    } else {
      ParseFieldsFailsAt(parts, n - 1, i);
    }
  }

  lemma ParseThreeFields(parts: seq<string>)
    ensures ParseFields(parts, 3).Success? <==>
              |parts| >= 3 && ParseInt(parts[0]).Some? && ParseInt(parts[1]).Some? && ParseInt(parts[2]).Some?
    ensures ParseFields(parts, 3).Success? ==>
              ParseFields(parts, 3).value == [ParseInt(parts[0]).value, ParseInt(parts[1]).value, ParseInt(parts[2]).value]
  {
    ParseFieldsSucceeds(parts, 3);
    if ParseFields(parts, 3).Success? {
      ParseFieldsValues(parts, 3);
      var values := ParseFields(parts, 3).value;
      assert values[0] == ParseInt(parts[0]).value;
      assert values[1] == ParseInt(parts[1]).value;
      assert values[2] == ParseInt(parts[2]).value;
    } else if |parts| >= 3 {
      assert !(forall i | 0 <= i < 3 :: ParseInt(parts[i]).Some?);
      var i :| 0 <= i < 3 && ParseInt(parts[i]).None?;
      assert i == 0 || i == 1 || i == 2;
    }
  }

  /** `dateStr.split("/")`, then `Integer.parseInt` of parts 0, 1 and 2 as day, month and year. */
  function ParseDate(dateStr: string): Result<DateParts, RuntimeError> {
    match ParseFields(Split(dateStr, '/'), 3)
    case Failure(e) => Failure(e)
    case Success(values) => Success(DateParts(values[0], values[1], values[2]))
  }

  /** A date parses exactly when its first three `/`-parts are integers; further parts are ignored. */
  lemma ParseDateSucceeds(dateStr: string)
    ensures ParseDate(dateStr).Success? <==>
              var parts := Split(dateStr, '/');
              |parts| >= 3 && ParseInt(parts[0]).Some? && ParseInt(parts[1]).Some? && ParseInt(parts[2]).Some?
    ensures ParseDate(dateStr).Success? ==>
              var parts := Split(dateStr, '/');
              ParseDate(dateStr).value == DateParts(ParseInt(parts[0]).value, ParseInt(parts[1]).value, ParseInt(parts[2]).value)
  {
    ParseThreeFields(Split(dateStr, '/'));
  }

  /** The error of a date that does not parse is the one raised by its first bad `/`-part. */
  lemma ParseDateFailsAt(dateStr: string, i: nat)
    requires i < 3
    requires var parts := Split(dateStr, '/');
             i <= |parts| && forall j | 0 <= j < i :: ParseInt(parts[j]).Some?
    requires var parts := Split(dateStr, '/');
             i == |parts| || ParseInt(parts[i]).None?
    ensures var parts := Split(dateStr, '/');
            ParseDate(dateStr) ==
              Failure(if i >= |parts| then ArrayIndexOutOfBounds(i) else NumberFormat(parts[i]))
  {
    ParseFieldsFailsAt(Split(dateStr, '/'), 3, i);
  }

  /**
   * Any slash-separated text whose first three pieces are integers parses to those integers,
   * with or without trailing slashes (`m` of them).
   */
  lemma ParseDateOfJoin(parts: seq<string>, m: nat, day: int, month: int, year: int)
    requires |parts| >= 3 && parts[|parts| - 1] != ""
    requires forall k | 0 <= k < |parts| :: '/' !in parts[k]
    requires ParseInt(parts[0]) == Some(day) && ParseInt(parts[1]) == Some(month) && ParseInt(parts[2]) == Some(year)
    ensures ParseDate(Join(parts + Empties(m), '/')) == Success(DateParts(day, month, year))
  {
    SplitJoin(parts, m, '/');
    ParseDateSucceeds(Join(parts + Empties(m), '/'));
  }

  /** A two-digit field as the `dd` and `MM` of `dd/MM/yyyy` write it. */
  function TwoDigits(n: nat): (s: string)
    requires n < 100
    ensures |s| == 2 && AllDigits(s) && DigitsValue(s) == n
  {
    var s := [DigitChar(n / 10), DigitChar(n % 10)];
    assert s[..1] == [DigitChar(n / 10)] && s[..1][..0] == [];
    assert DigitsValue(s[..1]) == n / 10;
    s
  }

  /** The text `dd/MM/yyyy` for a day, a month and a year. */
  function FormatDate(day: nat, month: nat, year: nat): string
    requires day < 100 && month < 100
  {
    Join([TwoDigits(day), TwoDigits(month), Decimal(year)], '/')
  }

  lemma ParseDigits(s: string)
    requires |s| > 0 && AllDigits(s) && DigitsValue(s) <= MaxInt
    ensures ParseInt(s) == Some(DigitsValue(s) as int)
  {
    assert IsDigit(s[0]);
  }

  /** Parsing what `dd/MM/yyyy` formats gives back the day, the month and the year. */
  lemma ParseFormatDate(day: nat, month: nat, year: nat)
    requires day < 100 && month < 100 && year <= MaxInt
    ensures ParseDate(FormatDate(day, month, year)) == Success(DateParts(day, month, year))
  {
    var parts := [TwoDigits(day), TwoDigits(month), Decimal(year)];
    DecimalDigits(year);
    forall k | 0 <= k < 3 ensures '/' !in parts[k] {
      assert AllDigits(parts[k]);
    }
    ParseDigits(parts[0]);
    ParseDigits(parts[1]);
    ParseDigits(parts[2]);
    ParseDateOfJoin(parts, 0, day, month, year);
    assert parts + Empties(0) == parts;
  }

  /** Text without any `/` never parses as a date: the split leaves a single part. */
  lemma ParseDateNeedsSlashes(dateStr: string)
    requires '/' !in dateStr
    ensures ParseDate(dateStr).Failure?
    ensures ParseDate(dateStr) == Failure(
              if ParseInt(dateStr).None? then NumberFormat(dateStr) else ArrayIndexOutOfBounds(1))
  {
    var parts := Split(dateStr, '/');
    assert parts == [dateStr];
    assert ParseFields(parts, 0) == Success([]);
    match ParseInt(dateStr)
    case None =>
      assert ParseFields(parts, 1) == Failure(NumberFormat(dateStr));
    case Some(v) =>
      assert [] + [v] == [v];
      assert ParseFields(parts, 1) == Success([v]);
      assert ParseFields(parts, 2) == Failure(ArrayIndexOutOfBounds(1));
  }

  /** The column list of the `dim_date` insert. */
  const DateInsertColumns: seq<string> := ["id", "full_date", "day", "month", "year"]

  /**
   * The parameters of `INSERT INTO dim_date (id, full_date, day, month, year) VALUES (?, ?, ?, ?, ?)`
   * as the loader binds them: parameters 1 to 4 get the date text, day, month and year;
   * parameter 5 is never set.
   */
  function BindDateInsert(dateStr: string, d: DateParts): Params {
    var p := Unbound(|DateInsertColumns|);
    var p := Bind(p, 1, SqlText(dateStr));
    var p := Bind(p, 2, SqlInt(d.day));
    var p := Bind(p, 3, SqlInt(d.month));
    Bind(p, 4, SqlInt(d.year))
  }

  /** The value a bound insert gives a named column (placeholders match columns by position). */
  function ColumnValue(p: Params, column: string): Option<SqlValue>
    requires |p| == |DateInsertColumns|
  {
    match FirstIndex(DateInsertColumns, column)
    case Some(i) => p[i]
    case None => None
  }

  /** Parameters 1 to 4 are bound and parameter 5 is not. */
  lemma DateInsertLeavesFifth(dateStr: string, d: DateParts)
    ensures FirstUnbound(BindDateInsert(dateStr, d)) == Some(5)
  {
    var p := BindDateInsert(dateStr, d);
    assert p == [Some(SqlText(dateStr)), Some(SqlInt(d.day)), Some(SqlInt(d.month)), Some(SqlInt(d.year)), None];
    assert FirstUnbound(p[4..]) == Some(1);
    assert FirstUnbound(p[3..]) == Some(2) by { assert p[3..][1..] == p[4..]; }
    assert FirstUnbound(p[2..]) == Some(3) by { assert p[2..][1..] == p[3..]; }
    assert FirstUnbound(p[1..]) == Some(4) by { assert p[1..][1..] == p[2..]; }
  }

  /**
   * Every value lands one column to the left of the one it is meant for, the `year` column
   * gets nothing, and so `executeUpdate` rejects the statement for its fifth parameter.
   */
  lemma DateInsertShifted(dateStr: string, d: DateParts)
    ensures |BindDateInsert(dateStr, d)| == |DateInsertColumns|
    ensures ColumnValue(BindDateInsert(dateStr, d), "id") == Some(SqlText(dateStr))
    ensures ColumnValue(BindDateInsert(dateStr, d), "full_date") == Some(SqlInt(d.day))
    ensures ColumnValue(BindDateInsert(dateStr, d), "day") == Some(SqlInt(d.month))
    ensures ColumnValue(BindDateInsert(dateStr, d), "month") == Some(SqlInt(d.year))
    ensures ColumnValue(BindDateInsert(dateStr, d), "year") == None
    ensures FirstUnbound(BindDateInsert(dateStr, d)) == Some(5)
  {
    DateInsertLeavesFifth(dateStr, d);
    assert DateInsertColumns[0] == "id";
    assert DateInsertColumns[1] == "full_date" && DateInsertColumns[..1] == ["id"];
    assert DateInsertColumns[2] == "day" && DateInsertColumns[..2] == ["id", "full_date"];
    assert DateInsertColumns[3] == "month" && DateInsertColumns[..3] == ["id", "full_date", "day"];
    assert DateInsertColumns[4] == "year" && DateInsertColumns[..4] == ["id", "full_date", "day", "month"];
  }

  /** What `executeUpdate` throws for the date insert: the driver refuses the unbound placeholder. */
  function DateInsertError(dateStr: string, d: DateParts): SqlError {
    DateInsertLeavesFifth(dateStr, d);
    NoValueSpecified(FirstUnbound(BindDateInsert(dateStr, d)).value)
  }

  /**
   * One iteration of the date loop: the date is parsed before the existence check; a date
   * already present lets the loop go on (Normal), an absent one ends it with the insert's
   * SQLException.
   */
  function DateStep(dimDate: seq<DateRow>, dateStr: string): Completion {
    match ParseDate(dateStr)
    case Failure(e) => Unchecked(e)
    case Success(d) => if DateExists(dimDate, dateStr) then Normal else Checked(DateInsertError(dateStr, d))
  }

  /** How a loop ends when each iteration either goes on (Normal) or throws: at the first throw. */
  function FirstStop(steps: seq<Completion>): Completion
    decreases |steps|
  {
    if steps == [] then Normal
    else if steps[0] != Normal then steps[0]
    else FirstStop(steps[1..])
  }

  lemma {:induction false} FirstStopNormal(steps: seq<Completion>)
    ensures FirstStop(steps) == Normal <==> forall k | 0 <= k < |steps| :: steps[k] == Normal
    decreases |steps|
  {
    if steps != [] {
      FirstStopNormal(steps[1..]);
      assert forall k | 1 <= k < |steps| :: steps[k] == steps[1..][k - 1];
    }
  }

  lemma {:induction false} FirstStopAt(steps: seq<Completion>, k: nat)
    requires k < |steps| && steps[k] != Normal
    requires forall j | 0 <= j < k :: steps[j] == Normal
    ensures FirstStop(steps) == steps[k]
    decreases k
  {
    if k > 0 {
      assert forall j | 0 <= j < k - 1 :: steps[1..][j] == steps[j + 1];
      FirstStopAt(steps[1..], k - 1);
    }
  }

  /** The outcome of each iteration of the date loop, one per value of `order`. */
  function DateSteps(dimDate: seq<DateRow>, order: seq<string>): (steps: seq<Completion>)
    ensures |steps| == |order|
  {
    seq(|order|, k requires 0 <= k < |order| => DateStep(dimDate, order[k]))
  }

  /** How the date loop over `order` ends; dim_date itself is never changed. */
  function LoadDates(dimDate: seq<DateRow>, order: seq<string>): Completion {
    FirstStop(DateSteps(dimDate, order))
  }

  /** A step goes on exactly when the date parses and is stored; otherwise it reports why not. */
  lemma DateStepOutcome(dimDate: seq<DateRow>, dateStr: string)
    ensures DateStep(dimDate, dateStr) == Normal <==> ParseDate(dateStr).Success? && DateExists(dimDate, dateStr)
    ensures ParseDate(dateStr).Failure? ==> DateStep(dimDate, dateStr) == Unchecked(ParseDate(dateStr).error)
    ensures ParseDate(dateStr).Success? && !DateExists(dimDate, dateStr) ==>
              DateStep(dimDate, dateStr) == Checked(NoValueSpecified(5))
  {
    if ParseDate(dateStr).Success? {
      DateInsertShifted(dateStr, ParseDate(dateStr).value);
    }
  }

  /** The loader ends normally exactly when every date parses and is already stored. */
  lemma LoadDatesNormal(dimDate: seq<DateRow>, order: seq<string>)
    ensures LoadDates(dimDate, order) == Normal <==>
              forall k | 0 <= k < |order| :: ParseDate(order[k]).Success? && DateExists(dimDate, order[k])
  {
    var steps := DateSteps(dimDate, order);
    FirstStopNormal(steps);
    forall k | 0 <= k < |order|
      ensures steps[k] == Normal <==> ParseDate(order[k]).Success? && DateExists(dimDate, order[k])
    {
      DateStepOutcome(dimDate, order[k]);
    }
  }

  /**
   * Otherwise it ends at the first date that fails to parse or is absent: with that date's
   * unchecked parse error (even when that date is already stored), or else with the
   * SQLException for parameter 5.
   */
  lemma LoadDatesStopsAtFirstFailure(dimDate: seq<DateRow>, order: seq<string>, k: nat)
    requires k < |order|
    requires forall j | 0 <= j < k :: ParseDate(order[j]).Success? && DateExists(dimDate, order[j])
    requires ParseDate(order[k]).Failure? || !DateExists(dimDate, order[k])
    ensures LoadDates(dimDate, order) ==
              if ParseDate(order[k]).Failure? then Unchecked(ParseDate(order[k]).error)
              else Checked(NoValueSpecified(5))
  {
    var steps := DateSteps(dimDate, order);
    forall j | 0 <= j < k ensures steps[j] == Normal {
      DateStepOutcome(dimDate, order[j]);
    }
    DateStepOutcome(dimDate, order[k]);
    FirstStopAt(steps, k);
  }

  /** Against an empty `dim_date`, the loader never ends normally once there is a date to load. */
  lemma EmptyDateDimensionFails(order: seq<string>)
    requires order != []
    ensures LoadDates([], order) ==
              if ParseDate(order[0]).Failure? then Unchecked(ParseDate(order[0]).error)
              else Checked(NoValueSpecified(5))
  {
    LoadDatesStopsAtFirstFailure([], order, 0);
  }
}
