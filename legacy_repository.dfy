/**
 * `src/patient/patient.repository.ts`: the earlier writer. It upserts the
 * patients in slices inside one transaction, commits when every statement
 * succeeded, rolls back and reports a fixed error otherwise, and always
 * releases its connection. Its table is the earlier schema of
 * `src/patient/patient.entity.ts`, where `chart_number` is nullable.
 */
module LegacyRepository {
  import opened Wrappers
  import opened PatientEntity
  import opened Batching

  /** `bulkInsertOrUpdate`'s default `batchSize`. */
  const DEFAULT_BATCH_SIZE: nat := 5000

  /** The message of the `InternalServerErrorException` thrown after a rollback. */
  const INTERNAL_ERROR_MESSAGE: string := "내부 서버에서 문제가 발생했습니다."

  datatype InternalServerError = InternalServerError(message: string)

  // ---------------------------------------------------------------------
  // The earlier table

  /** A row of the earlier schema: `chart_number` may be NULL. */
  datatype LegacyRow = LegacyRow(
    id: nat,
    chartNumber: Option<string>,
    name: string,
    phone: string,
    ssn: string,
    address: Option<string>,
    memo: Option<string>)

  datatype LegacyTable = LegacyTable(rows: seq<LegacyRow>, nextId: nat)

  /**
   * The unique index on (name, phone, chart_number) is violated by a value row
   * only when the stored chart number is not NULL and all three columns are
   * equal; a NULL never equals anything, so NULL-chart rows never conflict.
   */
  function Conflicts(r: LegacyRow, p: Patient): (c: bool)
    ensures r.chartNumber.None? || p.chartNumber.None? ==> !c
    ensures c ==> r.name == p.name && r.phone == p.phone
  {
    r.chartNumber.Some? && r.chartNumber == p.chartNumber && r.name == p.name && r.phone == p.phone
  }

  ghost predicate LegacyValid(t: LegacyTable) {
    && (forall i, j | 0 <= i < j < |t.rows| :: t.rows[i].id < t.rows[j].id)
    && (forall i | 0 <= i < |t.rows| :: t.rows[i].id < t.nextId)
    && (forall i, j | 0 <= i < j < |t.rows| && t.rows[i].chartNumber.Some? ::
          (t.rows[i].name, t.rows[i].phone, t.rows[i].chartNumber) != (t.rows[j].name, t.rows[j].phone, t.rows[j].chartNumber))
  }

  /** The position of the row a value row conflicts with. */
  function IndexOfConflict(rows: seq<LegacyRow>, p: Patient): (i: Option<nat>)
    ensures i.Some? ==> i.value < |rows| && Conflicts(rows[i.value], p)
    ensures i.None? <==> forall j | 0 <= j < |rows| :: !Conflicts(rows[j], p)
  {
    if rows == [] then None
    else if Conflicts(rows[0], p) then Some(0)
    else
      match IndexOfConflict(rows[1..], p)
      case None => None
      case Some(i) => Some(i + 1)
  }

  /** One value row of `INSERT ... ON DUPLICATE KEY UPDATE ssn, address, memo` on the earlier table. */
  function LegacyUpsert(t: LegacyTable, p: Patient): (after: LegacyTable)
    ensures |t.rows| <= |after.rows| && after.nextId - t.nextId == |after.rows| - |t.rows| <= 1
    ensures p.chartNumber.None? ==> |after.rows| == |t.rows| + 1
  {
    match IndexOfConflict(t.rows, p)
    case Some(i) => LegacyTable(t.rows[i := t.rows[i].(ssn := p.ssn, address := p.address, memo := p.memo)], t.nextId)
    case None =>
      LegacyTable(t.rows + [LegacyRow(t.nextId, p.chartNumber, p.name, p.phone, p.ssn, p.address, p.memo)], t.nextId + 1)
  }

  function LegacyUpsertAll(t: LegacyTable, ps: seq<Patient>): (after: LegacyTable)
    ensures |t.rows| <= |after.rows| && after.nextId - t.nextId == |after.rows| - |t.rows| <= |ps|
    decreases |ps|
  {
    if ps == [] then t else LegacyUpsert(LegacyUpsertAll(t, ps[..|ps| - 1]), ps[|ps| - 1])
  }

  /**
   * One value row keeps the table valid. A conflicting row gets the new ssn,
   * address and memo and keeps its id and key; otherwise exactly one row is
   * appended, under the counter's id.
   */
  lemma LegacyUpsertEffect(t: LegacyTable, p: Patient)
    requires LegacyValid(t)
    ensures var after := LegacyUpsert(t, p);
      && LegacyValid(after)
      && (IndexOfConflict(t.rows, p).None? ==>
            after.rows == t.rows + [LegacyRow(t.nextId, p.chartNumber, p.name, p.phone, p.ssn, p.address, p.memo)]
            && after.nextId == t.nextId + 1)
      && (IndexOfConflict(t.rows, p).Some? ==>
            var i := IndexOfConflict(t.rows, p).value;
            |after.rows| == |t.rows| && after.nextId == t.nextId
            && after.rows[i] == t.rows[i].(ssn := p.ssn, address := p.address, memo := p.memo)
            && (forall j | 0 <= j < |t.rows| && j != i :: after.rows[j] == t.rows[j]))
  {
    match IndexOfConflict(t.rows, p)
    case Some(i) => LegacyUpdateValid(t, i, p);
    case None => LegacyInsertValid(t, p);
  }

  /** Overwriting ssn, address and memo of one row leaves ids and keys as they were. */
  lemma LegacyUpdateValid(t: LegacyTable, i: nat, p: Patient)
    requires LegacyValid(t) && i < |t.rows|
    ensures LegacyValid(LegacyTable(t.rows[i := t.rows[i].(ssn := p.ssn, address := p.address, memo := p.memo)], t.nextId))
  {
    var rows := t.rows[i := t.rows[i].(ssn := p.ssn, address := p.address, memo := p.memo)];
    assert forall j | 0 <= j < |rows| ::
      rows[j].id == t.rows[j].id && rows[j].name == t.rows[j].name
      && rows[j].phone == t.rows[j].phone && rows[j].chartNumber == t.rows[j].chartNumber;
  }

  /** Appending a value row that conflicts with no stored row, under the counter's id. */
  lemma LegacyInsertValid(t: LegacyTable, p: Patient)
    requires LegacyValid(t) && IndexOfConflict(t.rows, p).None?
    ensures LegacyValid(LegacyTable(t.rows + [LegacyRow(t.nextId, p.chartNumber, p.name, p.phone, p.ssn, p.address, p.memo)], t.nextId + 1))
  {
    var rows := t.rows + [LegacyRow(t.nextId, p.chartNumber, p.name, p.phone, p.ssn, p.address, p.memo)];
    var n := |t.rows|;
    forall a, b | 0 <= a < b < |rows| && rows[a].chartNumber.Some?
      ensures (rows[a].name, rows[a].phone, rows[a].chartNumber) != (rows[b].name, rows[b].phone, rows[b].chartNumber)
    {
      assert rows[a] == t.rows[a];
      if b == n {
        assert !Conflicts(t.rows[a], p);
      } else {
        assert rows[b] == t.rows[b];
      }
    }
  }

  /** A value row without a chart number is always inserted: no stored row can conflict with it. */
  lemma NullChartAlwaysInserts(t: LegacyTable, p: Patient)
    requires p.chartNumber.None?
    ensures LegacyUpsert(t, p).rows == t.rows + [LegacyRow(t.nextId, None, p.name, p.phone, p.ssn, p.address, p.memo)]
  {
    assert IndexOfConflict(t.rows, p).None?;
  }

  lemma {:induction false} LegacyUpsertAllValid(t: LegacyTable, ps: seq<Patient>)
    requires LegacyValid(t)
    ensures LegacyValid(LegacyUpsertAll(t, ps))
    decreases |ps|
  {
    if ps != [] {
      LegacyUpsertAllValid(t, ps[..|ps| - 1]);
      LegacyUpsertEffect(LegacyUpsertAll(t, ps[..|ps| - 1]), ps[|ps| - 1]);
    }
  }

  lemma {:induction false} LegacyUpsertAllAppend(t: LegacyTable, a: seq<Patient>, b: seq<Patient>)
    ensures LegacyUpsertAll(t, a + b) == LegacyUpsertAll(LegacyUpsertAll(t, a), b)
    decreases |b|
  {
    if b == [] {
      assert a + b == a;
    } else {
      assert (a + b)[..|a + b| - 1] == a + b[..|b| - 1];
      assert (a + b)[|a + b| - 1] == b[|b| - 1];
      LegacyUpsertAllAppend(t, a, b[..|b| - 1]);
    }
  }

  // ---------------------------------------------------------------------
  // The transaction

  /** What the writer does on its query runner, in order. */
  datatype TxEvent =
    | StartTransaction
    | Statement(values: seq<Patient>)
    | CommitTransaction
    | RollbackTransaction
    | Release

  /** The query runner's transaction state. */
  datatype TxState = Idle | Started | Committed | RolledBack | Released

  /** The transitions a query runner allows; `None` for an event out of order. */
  function Step(s: TxState, e: TxEvent): (next: Option<TxState>)
    ensures next.Some? ==> next.value != Idle
    ensures s == Released ==> next.None?
    ensures e == StartTransaction ==> (next.Some? <==> s == Idle)
    ensures e == Release ==> (next.Some? <==> s == Committed || s == RolledBack)
    ensures e.Statement? ==> (next.Some? <==> s == Started)
  {
    match (s, e)
    case (Idle, StartTransaction) => Some(Started)
    case (Started, Statement(_)) => Some(Started)
    case (Started, CommitTransaction) => Some(Committed)
    case (Started, RollbackTransaction) => Some(RolledBack)
    case (Committed, Release) => Some(Released)
    case (RolledBack, Release) => Some(Released)
    case _ => None
  }

  /** The state after a sequence of events, or `None` once one is out of order. */
  function Run(s: TxState, events: seq<TxEvent>): (final: Option<TxState>)
    ensures events != [] && final.Some? ==> final.value != Idle
    ensures s == Released && events != [] ==> final.None?
    decreases |events|
  {
    if events == [] then Some(s)
    else
      match Step(s, events[0])
      case None => None
      case Some(next) => Run(next, events[1..])
  }

  /** How many of the events equal `e`. */
  function Count(events: seq<TxEvent>, e: TxEvent): nat {
    if events == [] then 0 else (if events[0] == e then 1 else 0) + Count(events[1..], e)
  }

  /** Some statement of the `n` issued is refused by the store. */
  predicate AnyRejected(n: nat, rejected: set<nat>) {
    exists k | 0 <= k < n :: k in rejected
  }

  function Statements(batches: seq<seq<Patient>>): (events: seq<TxEvent>)
    ensures |events| == |batches|
    ensures forall k | 0 <= k < |batches| :: events[k] == Statement(batches[k])
  {
    if batches == [] then [] else [Statement(batches[0])] + Statements(batches[1..])
  }

  /** The events of a call on a non-empty batch whose statements are `batches`. */
  function WriterTrace(batches: seq<seq<Patient>>, rejected: set<nat>): (trace: seq<TxEvent>)
    ensures |trace| == |batches| + 3
    ensures trace[0] == StartTransaction && trace[|trace| - 1] == Release
    ensures forall k | 0 <= k < |batches| :: trace[k + 1] == Statement(batches[k])
    ensures trace[|batches| + 1] == CommitTransaction <==> !AnyRejected(|batches|, rejected)
  {
    [StartTransaction] + Statements(batches)
      + [if AnyRejected(|batches|, rejected) then RollbackTransaction else CommitTransaction]
      + [Release]
  }

  lemma {:induction false} RunStatements(batches: seq<seq<Patient>>, rest: seq<TxEvent>)
    ensures Run(Started, Statements(batches) + rest) == Run(Started, rest)
    decreases |batches|
  {
    if batches == [] {
      assert Statements(batches) + rest == rest;
    } else {
      assert (Statements(batches) + rest)[0] == Statement(batches[0]);
      assert (Statements(batches) + rest)[1..] == Statements(batches[1..]) + rest;
      RunStatements(batches[1..], rest);
    }
  }

  lemma {:induction false} CountStatements(batches: seq<seq<Patient>>, e: TxEvent)
    requires !e.Statement?
    ensures Count(Statements(batches), e) == 0
    decreases |batches|
  {
    if batches != [] {
      CountStatements(batches[1..], e);
    }
  }

  lemma {:induction false} CountAppend(a: seq<TxEvent>, b: seq<TxEvent>, e: TxEvent)
    ensures Count(a + b, e) == Count(a, e) + Count(b, e)
    decreases |a|
  {
    if a == [] {
      assert a + b == b;
    } else {
      assert (a + b)[1..] == a[1..] + b;
      CountAppend(a[1..], b, e);
    }
  }

  /**
   * The writer's events are a legal run of the query runner that ends
   * released; it commits exactly when no statement was refused, rolls back
   * exactly when one was, never both, and releases exactly once.
   */
  lemma WriterTraceIsLegal(batches: seq<seq<Patient>>, rejected: set<nat>)
    ensures var trace := WriterTrace(batches, rejected);
      && Run(Idle, trace) == Some(Released)
      && Count(trace, StartTransaction) == 1
      && Count(trace, Release) == 1
      && Count(trace, CommitTransaction) == (if AnyRejected(|batches|, rejected) then 0 else 1)
      && Count(trace, RollbackTransaction) == (if AnyRejected(|batches|, rejected) then 1 else 0)
  {
    var end := if AnyRejected(|batches|, rejected) then RollbackTransaction else CommitTransaction;
    var trace := WriterTrace(batches, rejected);
    var tail := [end, Release];
    assert trace == [StartTransaction] + (Statements(batches) + tail);
    assert trace[1..] == Statements(batches) + tail;
    RunStatements(batches, tail);
    assert tail[1..] == [Release] && [Release][1..] == [];
    forall e: TxEvent | !e.Statement?
      ensures Count(trace, e) == (if e == StartTransaction then 1 else 0) + (if e == end then 1 else 0) + (if e == Release then 1 else 0)
    {
      CountAppend([StartTransaction], Statements(batches) + tail, e);
      CountAppend(Statements(batches), tail, e);
      CountStatements(batches, e);
    }
  }

  lemma AnyRejectedStep(k: nat, rejected: set<nat>)
    ensures AnyRejected(k + 1, rejected) <==> AnyRejected(k, rejected) || k in rejected
  {
    if AnyRejected(k + 1, rejected) && k !in rejected {
      var j :| 0 <= j < k + 1 && j in rejected;
      assert j < k;
    }
  }

  /** Events appended one at a time: the log grows by their concatenation. */
  lemma AppendInTurn(before: seq<TxEvent>, a: seq<TxEvent>, b: seq<TxEvent>, c: seq<TxEvent>, d: seq<TxEvent>)
    ensures before + a + b + c + d == before + (a + b + c + d)
  {
    assert before + a + b == before + (a + b);
    assert before + (a + b) + c == before + (a + b + c);
  }

  lemma StatementsAppend(done: seq<seq<Patient>>, batch: seq<Patient>)
    ensures Statements(done + [batch]) == Statements(done) + [Statement(batch)]
  {
  }

  /** Applying the slice `i..end` after the prefix `..i` applies the prefix `..end`. */
  lemma LegacyBatchStep(t: LegacyTable, ps: seq<Patient>, i: nat, end: nat)
    requires i <= end <= |ps|
    ensures LegacyUpsertAll(LegacyUpsertAll(t, ps[..i]), ps[i..end]) == LegacyUpsertAll(t, ps[..end])
  {
    LegacyUpsertAllAppend(t, ps[..i], ps[i..end]);
    assert ps[..i] + ps[i..end] == ps[..end];
  }

  /**
   * The loop of `bulkInsertOrUpdate`: one statement per slice of at most
   * `batchSize` patients, in order, all issued even after one is refused.
   * `working` is the table as the transaction sees it when none was refused.
   */
  method IssueStatements(table: LegacyTable, patients: seq<Patient>, batchSize: nat, rejected: set<nat>)
    returns (working: LegacyTable, failed: bool, issued: seq<TxEvent>)
    requires batchSize > 0
    ensures issued == Statements(Chunks(patients, batchSize))
    ensures failed <==> AnyRejected(|Chunks(patients, batchSize)|, rejected)
    ensures !failed ==> working == LegacyUpsertAll(table, patients)
  {
    working := table;
    failed := false;
    issued := [];
    ghost var done: seq<seq<Patient>> := [];
    var i := 0;
    var k := 0;
    while i < |patients|
      invariant 0 <= i <= |patients| && k == |done|
      invariant Chunks(patients, batchSize) == done + Chunks(patients[i..], batchSize)
      invariant issued == Statements(done)
      invariant failed <==> AnyRejected(k, rejected)
      invariant !failed ==> working == LegacyUpsertAll(table, patients[..i])
      decreases |patients| - i
    {
      var end := if i + batchSize <= |patients| then i + batchSize else |patients|;
      var batch := patients[i..end];
      ChunksAdvance(patients, done, i, end, batchSize);
      issued := issued + [Statement(batch)];
      if k in rejected {
        failed := true;
      } else if !failed {
        working := LegacyUpsertAll(working, batch);
        LegacyBatchStep(table, patients, i, end);
      }
      StatementsAppend(done, batch);
      AnyRejectedStep(k, rejected);
      done := done + [batch];
      k := k + 1;
      i := end;
    }
    assert patients[..i] == patients;
    assert Chunks(patients[i..], batchSize) == [];
    assert done + [] == done;
  }

  // ---------------------------------------------------------------------
  // The writer

  class LegacyPatientRepository {
    var table: LegacyTable
    /** Everything done on query runners, in order. */
    var events: seq<TxEvent>

    constructor (table: LegacyTable)
      requires LegacyValid(table)
      ensures this.table == table && events == []
    {
      this.table := table;
      this.events := [];
    }

    /**
     * `bulkInsertOrUpdate(patients, batchSize)`. `rejected` holds the indices
     * of the statements the store refuses. Nothing at all happens for an empty
     * list. Otherwise the events are one transaction over the slices of the
     * list; the table ends with every slice applied in order if none was
     * refused, and unchanged, with the fixed error, if one was.
     */
    method BulkInsertOrUpdate(patients: seq<Patient>, batchSize: nat, rejected: set<nat>)
      returns (r: Result<(), InternalServerError>)
      requires batchSize > 0
      requires LegacyValid(table)
      modifies this
      ensures LegacyValid(table)
      ensures patients == [] ==> events == old(events) && table == old(table) && r.Success?
      ensures patients != [] ==> events == old(events) + WriterTrace(Chunks(patients, batchSize), rejected)
      ensures r.Success? <==> (patients == [] || !AnyRejected(|Chunks(patients, batchSize)|, rejected))
      ensures r.Success? ==> table == LegacyUpsertAll(old(table), patients)
      ensures r.Failure? ==> table == old(table) && r.error == InternalServerError(INTERNAL_ERROR_MESSAGE)
    {
      if |patients| == 0 {
        return Success(());
      }
      ghost var before := events;
      events := events + [StartTransaction];
      var working, failed, issued := IssueStatements(table, patients, batchSize, rejected);
      events := events + issued;
      if failed {
        events := events + [RollbackTransaction];
        r := Failure(InternalServerError(INTERNAL_ERROR_MESSAGE));
      } else {
        LegacyUpsertAllValid(table, patients);
        table := working;
        events := events + [CommitTransaction];
        r := Success(());
      }
      events := events + [Release];
      AppendInTurn(before, [StartTransaction], issued,
        [if failed then RollbackTransaction else CommitTransaction], [Release]);
    }
  }
}
