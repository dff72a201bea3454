/**
 * The audit sink `DatabaseHandler.publish`: every log record becomes one row of the table
 * `log`, written over a connection of its own. When that connection or the insert fails,
 * the exception is printed and swallowed, so nothing is written and nothing propagates.
 */
module AuditSink {
  import opened Wrappers
  import opened Schema

  /** The levels of `java.util.logging`. */
  datatype Level = Severe | Warning | Info | Config | Fine | Finer | Finest

  /** What `publish` reads of a `LogRecord`: level, message, creation time and attached exception. */
  datatype LogRecord = LogRecord(level: Level, message: string, millis: int, thrown: Option<CheckedException>)

  /** A row of the audit table `log`. */
  datatype LogRow = LogRow(
    trackingDate: int,
    source: string,
    connectStatus: int,
    destination: string,
    phase: string,
    result: string,
    detail: string)

  const SourceLabel: string := "staging.db.lottery"
  const DestinationLabel: string := "warehouse.db.lottery"
  const PhaseLabel: string := "staging to warehouse"
  const SuccessText: string := "Thành công"
  const FailureText: string := "Thất bại"

  /**
   * The row `publish` inserts: status 1 and the success text exactly for INFO records,
   * status 0 and the failure text for every other level; the detail is the record's message,
   * never the text of the attached exception.
   */
  function AuditRow(record: LogRecord): (row: LogRow)
    ensures row.connectStatus == 1 <==> record.level == Info
    ensures row.connectStatus == 0 <==> record.level != Info
    ensures row.result == SuccessText <==> record.level == Info
    ensures row.result == FailureText <==> record.level != Info
    ensures row.trackingDate == record.millis && row.detail == record.message
    ensures row.source == SourceLabel && row.destination == DestinationLabel && row.phase == PhaseLabel
  {
    assert SuccessText[2] != FailureText[2];
    var info := record.level == Info;
    LogRow(record.millis, SourceLabel, if info then 1 else 0, DestinationLabel, PhaseLabel,
           if info then SuccessText else FailureText, record.message)
  }

  /** A row reads as a success when its status column says so. */
  predicate Succeeded(row: LogRow) {
    row.connectStatus == 1
  }

  /** The two outcome columns of an audit row never disagree. */
  lemma AuditRowConsistent(record: LogRecord)
    ensures Succeeded(AuditRow(record)) <==> AuditRow(record).result == SuccessText
    ensures !Succeeded(AuditRow(record)) <==> AuditRow(record).result == FailureText
  {
  }

  /** The rows for one record: its audit row when its `publish` reaches the log database, else none. */
  function DeliveredOne(record: LogRecord, reachable: bool): (rows: seq<LogRow>)
    ensures |rows| <= 1
    ensures reachable <==> rows == [AuditRow(record)]
    ensures !reachable <==> rows == []
  {
    if reachable then [AuditRow(record)] else []
  }

  /**
   * The rows a sequence of records produces. Each `publish` connects to the log database anew and
   * swallows its own failure, so `reachable[k]` decides for record `k` alone.
   */
  function Delivered(records: seq<LogRecord>, reachable: seq<bool>): (rows: seq<LogRow>)
    requires |records| <= |reachable|
    ensures |rows| <= |records|
    ensures (forall k | 0 <= k < |records| :: reachable[k]) ==>
              |rows| == |records| && forall k | 0 <= k < |records| :: rows[k] == AuditRow(records[k])
    ensures (forall k | 0 <= k < |records| :: !reachable[k]) ==> rows == []
  {
    if records == [] then []
    else DeliveredOne(records[0], reachable[0]) + Delivered(records[1..], reachable[1..])
  }

  /** Publishing a single record writes that record's rows. */
  lemma DeliveredSingle(record: LogRecord, reachable: seq<bool>)
    requires |reachable| >= 1
    ensures Delivered([record], reachable) == DeliveredOne(record, reachable[0])
  {
    assert [record][1..] == [];
    assert Delivered([record], reachable) == DeliveredOne(record, reachable[0]) + Delivered([], reachable[1..]);
  }

  /** Publishing one record, then another, appends the rows of each, in that order. */
  lemma DeliveredOneThenOne(first: LogRecord, second: LogRecord, reachable: seq<bool>)
    requires |reachable| >= 2
    ensures Delivered([first, second], reachable) ==
              DeliveredOne(first, reachable[0]) + DeliveredOne(second, reachable[1])
  {
    assert [first, second][1..] == [second];
    assert Delivered([first, second], reachable) ==
             DeliveredOne(first, reachable[0]) + Delivered([second], reachable[1..]);
    DeliveredSingle(second, reachable[1..]);
  }

  /** The audit table, appended to by `publish`. */
  class AuditLog {
    var rows: seq<LogRow>

    constructor (existing: seq<LogRow>)
      ensures rows == existing
    {
      rows := existing;
    }

    /** `publish(record)`; `reachable` says whether connecting to and inserting into `log` succeeds. */
    method Publish(record: LogRecord, reachable: bool)
      modifies this
      ensures rows == old(rows) + DeliveredOne(record, reachable)
    {
      if reachable {
        rows := rows + [AuditRow(record)];
      }
    }
  }
}
