/**
 * The dimension resolver: `getProvinceId`, `getDateId`, `provinceExists` and `dateExists`.
 * Each runs `SELECT id FROM <dimension> WHERE <key column> = ?` and looks at the first row.
 * The query has no ORDER BY; the model reads the rows in table order, which decides nothing
 * once keys are unique. The key comparison is exact string equality.
 */
module Resolver {
  import opened Wrappers
  import opened Schema

  /** The position of the first element equal to `key`. */
  function FirstIndex<T(==)>(keys: seq<T>, key: T): (r: Option<nat>)
    ensures r.Some? ==> r.value < |keys| && keys[r.value] == key && key !in keys[..r.value]
    ensures r.None? ==> key !in keys
  {
    if |keys| == 0 then None
    else if keys[0] == key then Some(0)
    else match FirstIndex(keys[1..], key)
      case Some(i) =>
        assert keys[..i + 1] == [keys[0]] + keys[1..][..i];
        Some(i + 1)
      case None => None
  }

  function ProvinceNames(rows: seq<ProvinceRow>): (names: seq<string>)
    ensures |names| == |rows| && forall i | 0 <= i < |rows| :: names[i] == rows[i].nameProvince
  {
    seq(|rows|, i requires 0 <= i < |rows| => rows[i].nameProvince)
  }

  function FullDates(rows: seq<DateRow>): (dates: seq<string>)
    ensures |dates| == |rows| && forall i | 0 <= i < |rows| :: dates[i] == rows[i].fullDate
  {
    seq(|rows|, i requires 0 <= i < |rows| => rows[i].fullDate)
  }

  /** `getProvinceId`: the id of the first row named `province`, or -1 when there is none. */
  function ProvinceId(rows: seq<ProvinceRow>, province: string): (id: int)
    ensures (forall i | 0 <= i < |rows| :: rows[i].nameProvince != province) ==> id == -1
    ensures forall i | 0 <= i < |rows| && rows[i].nameProvince == province ::
              (forall j | 0 <= j < i :: rows[j].nameProvince != province) ==> id == rows[i].id
  {
    match FirstIndex(ProvinceNames(rows), province)
    case Some(i) =>
      assert forall j | 0 <= j < i :: ProvinceNames(rows)[..i][j] == rows[j].nameProvince;
      rows[i].id
    case None => -1
  }

  /** `provinceExists`: whether the same query returns a row. */
  function ProvinceExists(rows: seq<ProvinceRow>, province: string): (found: bool)
    ensures found <==> exists i | 0 <= i < |rows| :: rows[i].nameProvince == province
  {
    var r := FirstIndex(ProvinceNames(rows), province);
    assert r.None? ==> forall i | 0 <= i < |rows| :: ProvinceNames(rows)[i] != province;
    r.Some?
  }

  /** `getDateId`: the id of the first row whose `full_date` is `date`, or -1 when there is none. */
  function DateId(rows: seq<DateRow>, date: string): (id: int)
    ensures (forall i | 0 <= i < |rows| :: rows[i].fullDate != date) ==> id == -1
    ensures forall i | 0 <= i < |rows| && rows[i].fullDate == date ::
              (forall j | 0 <= j < i :: rows[j].fullDate != date) ==> id == rows[i].id
  {
    match FirstIndex(FullDates(rows), date)
    case Some(i) =>
      assert forall j | 0 <= j < i :: FullDates(rows)[..i][j] == rows[j].fullDate;
      rows[i].id
    case None => -1
  }

  /** `dateExists`: whether the same query returns a row. */
  function DateExists(rows: seq<DateRow>, date: string): (found: bool)
    ensures found <==> exists i | 0 <= i < |rows| :: rows[i].fullDate == date
  {
    var r := FirstIndex(FullDates(rows), date);
    assert r.None? ==> forall i | 0 <= i < |rows| :: FullDates(rows)[i] != date;
    r.Some?
  }

  /** Surrogate ids are positive: the sentinel -1 is never a real id. */
  predicate PositiveProvinceIds(rows: seq<ProvinceRow>) {
    forall i | 0 <= i < |rows| :: rows[i].id >= 1
  }

  predicate PositiveDateIds(rows: seq<DateRow>) {
    forall i | 0 <= i < |rows| :: rows[i].id >= 1
  }

  /** With positive ids, the existence check and the id lookup agree: absent exactly when -1. */
  lemma ProvinceExistsIffResolved(rows: seq<ProvinceRow>, province: string)
    requires PositiveProvinceIds(rows)
    ensures ProvinceExists(rows, province) <==> ProvinceId(rows, province) != -1
  {
    var r := FirstIndex(ProvinceNames(rows), province);
    if r.Some? {
      assert rows[r.value].nameProvince == province;
    }
  }

  lemma DateExistsIffResolved(rows: seq<DateRow>, date: string)
    requires PositiveDateIds(rows)
    ensures DateExists(rows, date) <==> DateId(rows, date) != -1
  {
    var r := FirstIndex(FullDates(rows), date);
    if r.Some? {
      assert rows[r.value].fullDate == date;
    }
  }
}
