/**
 * The tables the transfer reads and writes, the parameter lists of its prepared statements,
 * and the exceptions it can raise.
 */
module Schema {
  import opened Wrappers
  import opened JavaText

  /** A row of the staging table `lottery` (all columns non-null). */
  datatype LotteryRow = LotteryRow(
    id: int,
    province: string,
    date: string,
    prizeEight: string,
    prizeSeven: string,
    prizeSix: string,
    prizeFive: string,
    prizeFour: string,
    prizeThree: string,
    prizeTwo: string,
    prizeOne: string,
    prizeSpecial: string)

  /** A row of the warehouse dimension `dim_province`. */
  datatype ProvinceRow = ProvinceRow(id: int, nameProvince: string)

  /** `dim_province` together with its AUTO_INCREMENT counter, the id the next insert receives. */
  datatype ProvinceTable = ProvinceTable(rows: seq<ProvinceRow>, autoIncrement: int)

  /** A row of the warehouse dimension `dim_date`. */
  datatype DateRow = DateRow(id: int, fullDate: string, day: int, month: int, year: int)

  /** A row of the warehouse fact table `result_lottery`. */
  datatype FactRow = FactRow(prizeName: string, result: string, provinceId: int, dateId: int)

  /** The nine prize columns of a staging row, in the order the fact loader reads them. */
  function Tiers(row: LotteryRow): (t: seq<string>)
    ensures |t| == 9
  {
    [row.prizeEight, row.prizeSeven, row.prizeSix, row.prizeFive, row.prizeFour,
     row.prizeThree, row.prizeTwo, row.prizeOne, row.prizeSpecial]
  }

  /** The three databases the program connects to. */
  datatype Store = StagingStore | WarehouseStore | LogStore

  /** `SQLException`s, as far as the model distinguishes them. */
  datatype SqlError =
    | ConnectionFailed(store: Store)
    | NoValueSpecified(parameter: nat)

  /** The checked exceptions `main` catches. */
  datatype CheckedException = ClassNotFound | Sql(error: SqlError)

  /** How a step of the transfer ends: normally, or by a checked or an unchecked exception. */
  datatype Completion = Normal | Checked(error: SqlError) | Unchecked(fault: RuntimeError)

  /** A value bound to a placeholder by `setString` or `setInt`. */
  datatype SqlValue = SqlText(text: string) | SqlInt(number: int)

  /** The placeholders of a prepared statement; element k holds parameter k + 1, None if unbound. */
  type Params = seq<Option<SqlValue>>

  /** A freshly prepared statement with `n` placeholders. */
  function Unbound(n: nat): (p: Params)
    ensures |p| == n && forall k | 0 <= k < n :: p[k].None?
  {
    seq(n, k => None)
  }

  /** `setString(index, ...)` or `setInt(index, ...)`: parameter indices start at 1. */
  function Bind(p: Params, index: nat, v: SqlValue): (q: Params)
    requires 1 <= index <= |p|
    ensures |q| == |p| && q[index - 1] == Some(v)
    ensures forall k | 0 <= k < |p| && k != index - 1 :: q[k] == p[k]
  {
    p[index - 1 := Some(v)]
  }

  /** The (1-based) index of the first placeholder without a value, if any. */
  function FirstUnbound(p: Params): (r: Option<nat>)
    ensures r.Some? ==> 1 <= r.value <= |p| && p[r.value - 1].None?
    ensures r.Some? ==> forall k | 0 <= k < r.value - 1 :: p[k].Some?
    ensures r.None? ==> forall k | 0 <= k < |p| :: p[k].Some?
  {
    if |p| == 0 then None
    else if p[0].None? then Some(1)
    else match FirstUnbound(p[1..])
      case Some(k) => Some(k + 1)
      case None => None
  }
}
