/**
 * `main`: log the start, load the driver, connect to the staging and the warehouse
 * databases, transfer, log the completion and close both connections. `ClassNotFoundException`
 * and `SQLException` are caught and logged as a failure; any other exception leaves `main`.
 */
module Pipeline {
  import opened Wrappers
  import opened JavaText
  import opened Schema
  import opened Resolver
  import opened Dimensions
  import opened Facts
  import opened Warehouse
  import opened AuditSink

  /**
   * What the program finds around it: whether the JDBC driver class loads, whether each
   * database accepts a connection (the log database once per record: for the start record
   * and for the closing one), and the clock readings of the two log records.
   */
  datatype Environment = Environment(
    driverLoaded: bool,
    stagingReachable: bool,
    warehouseReachable: bool,
    startLogged: bool,
    endLogged: bool,
    startMillis: int,
    endMillis: int)

  /** Whether the `publish` of the first and of the second log record reaches the log database. */
  function LogReach(env: Environment): (flags: seq<bool>)
    ensures |flags| == 2 && flags[0] == env.startLogged && flags[1] == env.endLogged
  {
    [env.startLogged, env.endLogged]
  }

  /** How `main` ends: normally after logging completion, after logging a failure, or by an escaping exception. */
  datatype RunResult = Completed | Failed(cause: CheckedException) | Crashed(fault: RuntimeError)

  const StartMessage: string := "Staging to warehouse start."
  const CompletedMessage: string := "Staging to warehouse completed."
  const FailedMessage: string := "Staging to warehouse failed."

  /** Both connections open, so the transfer runs. */
  predicate Connected(env: Environment) {
    env.driverLoaded && env.stagingReachable && env.warehouseReachable
  }

  /** The result of `main`, given the `dim_date` table the date loader sees. */
  function Outcome(env: Environment, dimDate: seq<DateRow>, dateOrder: seq<string>): RunResult {
    if !env.driverLoaded then Failed(ClassNotFound)
    else if !env.stagingReachable then Failed(Sql(ConnectionFailed(StagingStore)))
    else if !env.warehouseReachable then Failed(Sql(ConnectionFailed(WarehouseStore)))
    else match LoadDates(dimDate, dateOrder)
      case Normal => Completed
      case Checked(e) => Failed(Sql(e))
      case Unchecked(e) => Crashed(e)
  }

  /** The record logged when `main` starts. */
  function StartRecord(env: Environment): LogRecord {
    LogRecord(Info, StartMessage, env.startMillis, None)
  }

  /** The record logged when the `try` block ends: "completed", or "failed" with the caught exception. */
  function ClosingRecord(result: RunResult, env: Environment): LogRecord
    requires !result.Crashed?
  {
    match result
    case Completed => LogRecord(Info, CompletedMessage, env.endMillis, None)
    case Failed(cause) => LogRecord(Severe, FailedMessage, env.endMillis, Some(cause))
  }

  /** The records `main` logs for a given result. */
  function RunLog(result: RunResult, env: Environment): seq<LogRecord> {
    [StartRecord(env)] + if result.Crashed? then [] else [ClosingRecord(result, env)]
  }

  /** The connections the `try` block has opened by the time it ends or throws. */
  function Opened(env: Environment): set<Store> {
    if !env.driverLoaded || !env.stagingReachable then {}
    else if !env.warehouseReachable then {StagingStore}
    else {StagingStore, WarehouseStore}
  }

  /** The connections still open when `main` ends: `close()` is reached only after completion. */
  function LeftOpen(env: Environment, result: RunResult): set<Store> {
    if result.Completed? then {} else Opened(env)
  }

  /**
   * The `try` block of `main` up to the closing log call: load the driver, connect to the
   * staging and the warehouse databases, transfer. Returns how it ended and what it opened.
   */
  method Execute(w: Warehouse, env: Environment,
                 src: seq<LotteryRow>, provinceOrder: seq<string>, dateOrder: seq<string>)
    returns (result: RunResult, open: set<Store>)
    requires DistinctEnumeration(provinceOrder, SourceProvinces(src))
    requires DistinctEnumeration(dateOrder, SourceDates(src))
    modifies w
    ensures result == Outcome(env, old(w.dimDate), dateOrder)
    ensures open == Opened(env)
    ensures Connected(env) ==>
              && w.resultLottery == old(w.resultLottery) + FactsOf(src, old(w.dimProvince.rows), old(w.dimDate))
              && w.dimProvince == LoadProvinces(old(w.dimProvince), provinceOrder)
              && w.dimDate == old(w.dimDate)
    ensures !Connected(env) ==> unchanged(w)
  {
    open := {};
    if !env.driverLoaded {
      result := Failed(ClassNotFound);
    } else if !env.stagingReachable {
      result := Failed(Sql(ConnectionFailed(StagingStore)));
    } else {
      open := {StagingStore};
      if !env.warehouseReachable {
        result := Failed(Sql(ConnectionFailed(WarehouseStore)));
      } else {
        open := {StagingStore, WarehouseStore};
        var status := w.TransferData(src, provinceOrder, dateOrder);
        match status
        case Unchecked(e) =>
          result := Crashed(e);
        case Checked(e) =>
          result := Failed(Sql(e));
        case Normal =>
          result := Completed;
      }
    }
  }

  /**
   * `main`, with the staging table `src` and the two `SELECT DISTINCT` enumerations as inputs.
   * Returns how the run ended and which connections it left open.
   */
  method Run(w: Warehouse, audit: AuditLog, env: Environment,
             src: seq<LotteryRow>, provinceOrder: seq<string>, dateOrder: seq<string>)
    returns (result: RunResult, open: set<Store>)
    requires DistinctEnumeration(provinceOrder, SourceProvinces(src))
    requires DistinctEnumeration(dateOrder, SourceDates(src))
    modifies w, audit
    ensures result == Outcome(env, old(w.dimDate), dateOrder)
    ensures open == LeftOpen(env, result)
    ensures audit.rows == old(audit.rows) + Delivered(RunLog(result, env), LogReach(env))
    ensures Connected(env) ==>
              && w.resultLottery == old(w.resultLottery) + FactsOf(src, old(w.dimProvince.rows), old(w.dimDate))
              && w.dimProvince == LoadProvinces(old(w.dimProvince), provinceOrder)
              && w.dimDate == old(w.dimDate)
    ensures !Connected(env) ==> unchanged(w)
  {
    ghost var log0 := audit.rows;
    audit.Publish(StartRecord(env), env.startLogged);
    result, open := Execute(w, env, src, provinceOrder, dateOrder);
    RunDelivered(result, env);
    if !result.Crashed? {
      audit.Publish(ClosingRecord(result, env), env.endLogged);
      AppendAssociative(log0, DeliveredOne(StartRecord(env), env.startLogged),
                        DeliveredOne(ClosingRecord(result, env), env.endLogged));
      if result.Completed? {
        open := {};
      }
    }
  }

  /** The audit rows of a run are those of its start record followed by those of its closing record, if any. */
  lemma RunDelivered(result: RunResult, env: Environment)
    ensures Delivered(RunLog(result, env), LogReach(env)) ==
              DeliveredOne(StartRecord(env), env.startLogged) +
              if result.Crashed? then [] else DeliveredOne(ClosingRecord(result, env), env.endLogged)
  {
    if result.Crashed? {
      DeliveredSingle(StartRecord(env), LogReach(env));
    } else {
      DeliveredOneThenOne(StartRecord(env), ClosingRecord(result, env), LogReach(env));
    }
  }

  /** "start" always comes first; then exactly one "completed" or "failed" record, or nothing after a crash. */
  lemma RunLogSequence(result: RunResult, env: Environment)
    ensures |RunLog(result, env)| >= 1
    ensures RunLog(result, env)[0].level == Info && RunLog(result, env)[0].message == StartMessage
    ensures result.Completed? <==> |RunLog(result, env)| == 2 && RunLog(result, env)[1].level == Info
    ensures result.Failed? <==> |RunLog(result, env)| == 2 && RunLog(result, env)[1].level == Severe
    ensures result.Crashed? <==> |RunLog(result, env)| == 1
    ensures result.Completed? ==> RunLog(result, env)[1].message == CompletedMessage
    ensures result.Failed? ==> RunLog(result, env)[1].message == FailedMessage
  {
  }

  /**
   * The audit rows of a run: a completed run writes two success rows; a failed run a success
   * row and a failure row whose detail is the fixed message, not the exception.
   */
  lemma RunAuditRows(result: RunResult, env: Environment)
    requires env.startLogged && env.endLogged
    ensures var rows := Delivered(RunLog(result, env), LogReach(env));
            && |rows| == |RunLog(result, env)|
            && rows[0].connectStatus == 1 && rows[0].result == SuccessText && rows[0].detail == StartMessage
            && (result.Completed? ==> rows[1].connectStatus == 1 && rows[1].result == SuccessText
                                      && rows[1].detail == CompletedMessage)
            && (result.Failed? ==> rows[1].connectStatus == 0 && rows[1].result == FailureText
                                   && rows[1].detail == FailedMessage)
  {
    RunLogSequence(result, env);
  }

  /**
   * Each record's row is written or lost on its own: the start row is present exactly when its
   * `publish` reaches the log database, and the closing row likewise, whatever happened to the other.
   */
  lemma RunAuditRowsIndependent(result: RunResult, env: Environment)
    ensures var rows := Delivered(RunLog(result, env), LogReach(env));
            |rows| == (if env.startLogged then 1 else 0) + (if env.endLogged && !result.Crashed? then 1 else 0)
    ensures var rows := Delivered(RunLog(result, env), LogReach(env));
            env.startLogged ==> rows[0] == AuditRow(RunLog(result, env)[0])
    ensures var rows := Delivered(RunLog(result, env), LogReach(env));
            env.endLogged && !result.Crashed? ==> rows[|rows| - 1] == AuditRow(RunLog(result, env)[1])
  {
    RunDelivered(result, env);
  }

  /** A run completes exactly when it connects and every source date parses and is already stored. */
  lemma CompletedIff(env: Environment, dimDate: seq<DateRow>, dateOrder: seq<string>)
    ensures Outcome(env, dimDate, dateOrder) == Completed <==>
              Connected(env) &&
              forall k | 0 <= k < |dateOrder| :: ParseDate(dateOrder[k]).Success? && DateExists(dimDate, dateOrder[k])
  {
    LoadDatesNormal(dimDate, dateOrder);
  }

  /**
   * Against an empty `dim_date` a run over a non-empty staging table never logs "completed": it
   * crashes on a malformed first date or fails on the date insert.
   */
  lemma EmptyWarehouseNeverCompletes(env: Environment, src: seq<LotteryRow>, dateOrder: seq<string>)
    requires src != [] && Connected(env)
    requires DistinctEnumeration(dateOrder, SourceDates(src))
    ensures dateOrder != []
    ensures Outcome(env, [], dateOrder) ==
              if ParseDate(dateOrder[0]).Failure? then Crashed(ParseDate(dateOrder[0]).error)
              else Failed(Sql(NoValueSpecified(5)))
  {
    assert src[0].date in SourceDates(src);
    EmptyDateDimensionFails(dateOrder);
  }

  /** Connections are left open on every path that ends after opening one and before completing. */
  lemma LeftOpenOnlyOnFailure(env: Environment, result: RunResult)
    ensures LeftOpen(env, result) == {} <==> result.Completed? || !env.driverLoaded || !env.stagingReachable
  {
  }
}
