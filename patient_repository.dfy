/**
 * `src/patient/repository/patient.repository.ts`: the reads and writes the
 * upload reconciles a batch with. The reads are functions of the table's rows;
 * the writes are methods of `PatientStore`, the table the repository writes to.
 */
module PatientRepository {
  import opened Wrappers
  import opened Text
  import opened PatientEntity
  import opened PatientTable
  import opened Batching
  import opened Paging

  /** Rows per INSERT statement in `insertOrUpdatePatients`. */
  const BATCH_SIZE: nat := 5000

  /**
   * Store errors: a read whose `IN (...)` list is empty is not valid SQL, and
   * an UPDATE that would give a second row an existing unique key is refused.
   */
  datatype StoreError = EmptyInList | DuplicateEntry

  /**
   * `InsertResult.identifiers`: the ids the insert reports back. TypeORM fills
   * them only when the statement updates its entities, and every insert here
   * runs with `.updateEntity(false)`, so each result carries none.
   */
  datatype InsertResult = InsertResult(identifiers: seq<nat>)

  /** `UpdateResult.affected` */
  datatype UpdateResult = UpdateResult(affected: nat)

  // ---------------------------------------------------------------------
  // Reads

  /** `findAllOrderById(limit, offset)`: the rows at positions `offset ..` in id order, at most `limit`. */
  function FindAllOrderById(rows: seq<Row>, limit: nat, offset: nat): (page: seq<Row>)
    ensures |page| <= limit
    ensures offset >= |rows| ==> page == []
    ensures offset + limit <= |rows| ==> |page| == limit
    ensures offset < |rows| < offset + limit ==> |page| == |rows| - offset
    ensures forall k | 0 <= k < |page| :: offset + k < |rows| && page[k] == rows[offset + k]
    ensures IdsAscending(rows) ==> IdsAscending(page)
  {
    if offset >= |rows| then []
    else rows[offset..if offset + limit <= |rows| then offset + limit else |rows|]
  }

  /**
   * A page read with a request's limit and offset, wrapped in `Page`: it never
   * reports more rows than the limit, and none once the offset passes the
   * last row, since `totalCount` counts the page, not the table.
   */
  lemma PageOfRows(rows: seq<Row>, req: PageRequest)
    ensures GetOffset(req) >= 0
    ensures var page := NewPage(GetLimit(req), GetPageNo(req), FindAllOrderById(rows, GetLimit(req), GetOffset(req)));
      && page.totalCount <= page.limit
      && page.currentPage == req.pageNo
      && (GetOffset(req) >= |rows| ==> page.totalCount == 0)
      && (GetOffset(req) + GetLimit(req) <= |rows| ==> page.totalCount == page.limit)
  {
    OffsetIsWholePages(req);
  }

  /** The rows satisfying `keep`, in table order. */
  function Select(rows: seq<Row>, keep: Row -> bool): (selected: seq<Row>)
    ensures forall r :: r in selected <==> r in rows && keep(r)
  {
    if rows == [] then []
    else (if keep(rows[0]) then [rows[0]] else []) + Select(rows[1..], keep)
  }

  /**
   * `findExistingPatients`: the rows whose (name, phone, chart_number) is some
   * candidate's (name, phone, chart_number ?? 'empty'); an empty candidate
   * list builds `IN ()`, which the store rejects.
   */
  function FindExistingPatients(rows: seq<Row>, ps: seq<Patient>): (found: Result<seq<Row>, StoreError>)
    ensures ps == [] <==> found == Failure(EmptyInList)
    ensures found.Success? ==> forall r :: r in found.value <==> r in rows && RowKey(r) in PatientKeys(ps)
  {
    if ps == [] then Failure(EmptyInList)
    else
      var selected := Select(rows, (r: Row) => exists p | p in ps :: PatientKey(p) == RowKey(r));
      assert forall r :: r in selected <==> r in rows && RowKey(r) in PatientKeys(ps) by {
        forall r: Row ensures (exists p | p in ps :: PatientKey(p) == RowKey(r)) <==> RowKey(r) in PatientKeys(ps) {
          if RowKey(r) in PatientKeys(ps) {
            var p :| p in ps && PatientKey(p) == RowKey(r);
          }
        }
      }
      Success(selected)
  }

  /** The (name, phone) pairs of the candidates; their chart numbers play no part. */
  ghost function CandidatePairs(ps: seq<Patient>): set<(string, string)> {
    set p | p in ps :: (p.name, p.phone)
  }

  /**
   * `findPatientsWithEmptyChart`: the rows holding the placeholder chart
   * number `'empty'` whose (name, phone) is some candidate's; an empty
   * candidate list builds `IN ()`, which the store rejects.
   */
  function FindPatientsWithEmptyChart(rows: seq<Row>, ps: seq<Patient>): (found: Result<seq<Row>, StoreError>)
    ensures ps == [] <==> found == Failure(EmptyInList)
    ensures found.Success? ==> forall r :: r in found.value <==>
      r in rows && r.chartNumber == EMPTY_CHART_NUMBER && (r.name, r.phone) in CandidatePairs(ps)
  {
    if ps == [] then Failure(EmptyInList)
    else
      var selected := Select(rows, (r: Row) => r.chartNumber == EMPTY_CHART_NUMBER &&
                                        exists p | p in ps :: p.name == r.name && p.phone == r.phone);
      assert forall r :: r in selected <==>
          r in rows && r.chartNumber == EMPTY_CHART_NUMBER && (r.name, r.phone) in CandidatePairs(ps) by {
        forall r: Row ensures (exists p | p in ps :: p.name == r.name && p.phone == r.phone) <==> (r.name, r.phone) in CandidatePairs(ps) {
          if (r.name, r.phone) in CandidatePairs(ps) {
            var p :| p in ps && (p.name, p.phone) == (r.name, r.phone);
          }
        }
      }
      Success(selected)
  }

  // ---------------------------------------------------------------------
  // The `${name}-${phone}` key of the placeholder map

  function PairKey(name: string, phone: string): string {
    name + "-" + phone
  }

  function PairKeyOf(p: Patient): string {
    PairKey(p.name, p.phone)
  }

  /** When two pair keys agree, the shorter phone's separator lies inside the longer phone. */
  lemma SeparatorInLongerPhone(n1: string, p1: string, n2: string, p2: string)
    requires PairKey(n1, p1) == PairKey(n2, p2)
    requires |p1| < |p2|
    ensures '-' in p2
  {
    var s := PairKey(n1, p1);
    assert s[|s| - |p1| - 1] == '-';
    assert s[|s| - |p1| - 1] == p2[|p2| - |p1| - 1];
  }

  /**
   * The string key names one (name, phone) pair as long as phones carry no
   * hyphen, which `Patient.of` guarantees: the key's last hyphen is the separator.
   */
  lemma PairKeyInjective(n1: string, p1: string, n2: string, p2: string)
    requires '-' !in p1 && '-' !in p2
    requires PairKey(n1, p1) == PairKey(n2, p2)
    ensures n1 == n2 && p1 == p2
  {
    var s := PairKey(n1, p1);
    if |p1| == |p2| {
      assert p1 == s[|s| - |p1|..] == p2;
      assert n1 == s[..|n1|] == n2;
    } else if |p1| < |p2| {
      SeparatorInLongerPhone(n1, p1, n2, p2);
      assert false;
    } else {
      SeparatorInLongerPhone(n2, p2, n1, p1);
      assert false;
    }
  }

  // ---------------------------------------------------------------------
  // Claiming placeholder rows: `updatePatientsWithEmptyChart`

  /** The position of the row with id `id`. */
  function IndexOfId(rows: seq<Row>, id: nat): (i: Option<nat>)
    ensures i.Some? ==> i.value < |rows| && rows[i.value].id == id
    ensures i.None? <==> forall j | 0 <= j < |rows| :: rows[j].id != id
  {
    if rows == [] then None
    else if rows[0].id == id then Some(0)
    else
      match IndexOfId(rows[1..], id)
      case None => None
      case Some(i) => Some(i + 1)
  }

  /** Ids ascend, so the row found for an id is the only row with it. */
  lemma IdPosition(rows: seq<Row>, m: nat)
    requires IdsAscending(rows) && m < |rows|
    ensures IndexOfId(rows, rows[m].id) == Some(m)
  {
    assert IndexOfId(rows, rows[m].id).Some?;
  }

  /**
   * `.update(Patient).set(patient)`: every field the entity defines is
   * written, an undefined chart number, address or memo is left as it was;
   * the id is never written.
   */
  function SetFields(r: Row, p: Patient): (updated: Row)
    ensures updated.id == r.id
    ensures updated.chartNumber == p.chartNumber.GetOr(r.chartNumber)
    ensures updated.name == p.name && updated.phone == p.phone && updated.ssn == p.ssn
  {
    Row(r.id, p.chartNumber.GetOr(r.chartNumber), p.name, p.phone, p.ssn,
        if p.address.Some? then p.address else r.address,
        if p.memo.Some? then p.memo else r.memo)
  }

  /** Some row other than the one at `i` already holds key `k`. */
  predicate KeyHeldElsewhere(rows: seq<Row>, i: nat, k: Key) {
    exists j | 0 <= j < |rows| :: j != i && RowKey(rows[j]) == k
  }

  /** The state `updatePatientsWithEmptyChart` threads through its loop. */
  datatype ClaimState = ClaimState(
    rows: seq<Row>,
    ids: map<string, nat>,
    results: seq<UpdateResult>,
    rejected: bool)

  /**
   * One iteration: update the row whose id the map gives for the patient's
   * pair key (none when the key is missing: `id = undefined` matches no row),
   * refused when it would duplicate a unique key, then delete the pair key.
   */
  function ClaimOne(st: ClaimState, p: Patient): (next: ClaimState)
    ensures next.ids == st.ids - {PairKeyOf(p)}
    ensures |next.rows| == |st.rows|
    ensures forall i | 0 <= i < |st.rows| :: next.rows[i].id == st.rows[i].id
  {
    var key := PairKeyOf(p);
    var ids := st.ids - {key};
    if key !in st.ids then st.(ids := ids, results := st.results + [UpdateResult(0)])
    else
      match IndexOfId(st.rows, st.ids[key])
      case None => st.(ids := ids, results := st.results + [UpdateResult(0)])
      case Some(i) =>
        var updated := SetFields(st.rows[i], p);
        if KeyHeldElsewhere(st.rows, i, RowKey(updated)) then st.(ids := ids, rejected := true)
        else st.(rows := st.rows[i := updated], ids := ids, results := st.results + [UpdateResult(1)])
  }

  /**
   * The whole loop, patient by patient in order: rows keep their places and
   * ids, entries only leave the map, a refusal is never undone, and there is
   * at most one update result per patient.
   */
  function ClaimAll(st: ClaimState, ps: seq<Patient>): (after: ClaimState)
    ensures |after.rows| == |st.rows|
    ensures forall i | 0 <= i < |st.rows| :: after.rows[i].id == st.rows[i].id
    ensures after.ids.Keys <= st.ids.Keys
    ensures st.rejected ==> after.rejected
    ensures |after.results| <= |st.results| + |ps|
    decreases |ps|
  {
    if ps == [] then st else ClaimAll(ClaimOne(st, ps[0]), ps[1..])
  }

  /** The pair keys of a list of patients. */
  ghost function PairKeys(ps: seq<Patient>): set<string> {
    set p | p in ps :: PairKeyOf(p)
  }

  /**
   * Every processed patient's pair key is deleted from the caller's map and
   * no other key is; and the unique constraint and the id order still hold,
   * whatever the map says.
   */
  lemma {:induction false} ClaimAllEffect(st: ClaimState, ps: seq<Patient>)
    requires IdsAscending(st.rows) && KeysUnique(st.rows)
    ensures var after := ClaimAll(st, ps);
      && after.ids == st.ids - PairKeys(ps)
      && IdsAscending(after.rows) && KeysUnique(after.rows)
    decreases |ps|
  {
    if ps != [] {
      var next := ClaimOne(st, ps[0]);
      ClaimOneKeepsOrder(st, ps[0]);
      ClaimAllEffect(next, ps[1..]);
      PairKeysStep(ps);
    }
  }

  /** One iteration keeps the id order and the unique constraint. */
  lemma ClaimOneKeepsOrder(st: ClaimState, p: Patient)
    requires IdsAscending(st.rows) && KeysUnique(st.rows)
    ensures IdsAscending(ClaimOne(st, p).rows) && KeysUnique(ClaimOne(st, p).rows)
  {
    assert KeysUnique(ClaimOne(st, p).rows);
  }

  lemma PairKeysStep(ps: seq<Patient>)
    requires ps != []
    ensures PairKeys(ps) == {PairKeyOf(ps[0])} + PairKeys(ps[1..])
  {
    assert forall p | p in ps :: p == ps[0] || p in ps[1..];
  }

  /** One iteration keeps the table valid under an unchanged id counter. */
  lemma ClaimOneValid(st: ClaimState, p: Patient, nextId: nat)
    requires PatientTable.Valid(Table(st.rows, nextId))
    ensures PatientTable.Valid(Table(ClaimOne(st, p).rows, nextId))
  {
    assert KeysUnique(ClaimOne(st, p).rows);
  }

  /** A row whose id no remaining map entry gives is not written by the loop. */
  lemma {:induction false} ClaimAllFrame(st: ClaimState, ps: seq<Patient>, i: nat)
    requires i < |st.rows|
    requires forall k | k in st.ids :: st.ids[k] != st.rows[i].id
    ensures i < |ClaimAll(st, ps).rows| && ClaimAll(st, ps).rows[i] == st.rows[i]
    decreases |ps|
  {
    if ps != [] {
      var next := ClaimOne(st, ps[0]);
      ClaimAllFrame(next, ps[1..], i);
    }
  }

  /** Running the statement for the slice `i..end` after the prefix `..i` runs the prefix `..end`. */
  /** No insert result of the list reports an identifier. */
  ghost predicate NoneIdentified(results: seq<InsertResult>) {
    forall k | 0 <= k < |results| :: results[k].identifiers == []
  }

  lemma NoneIdentifiedSnoc(results: seq<InsertResult>, result: InsertResult)
    requires NoneIdentified(results) && result.identifiers == []
    ensures NoneIdentified(results + [result])
  {
  }

  lemma UpsertBatchStep(t: Table, ps: seq<Patient>, i: nat, end: nat)
    requires i <= end <= |ps|
    ensures UpsertAll(UpsertAll(t, ps[..i]), ps[i..end]) == UpsertAll(t, ps[..end])
  {
    var done, batch := ps[..i], ps[i..end];
    assert done + batch == ps[..end];
    UpsertAllAppend(t, done, batch);
  }

  // ---------------------------------------------------------------------
  // The table the repository writes to

  /** The caller's `Map<string, number>` from pair key to placeholder row id, mutated in place. */
  class PlaceholderIds {
    var ids: map<string, nat>

    constructor (ids: map<string, nat>)
      ensures this.ids == ids
    {
      this.ids := ids;
    }
  }

  class PatientStore {
    var rows: seq<Row>
    var nextId: nat

    function State(): Table
      reads this
    {
      Table(rows, nextId)
    }

    ghost predicate Valid()
      reads this
    {
      PatientTable.Valid(State())
    }

    constructor (rows: seq<Row>, nextId: nat)
      requires PatientTable.Valid(Table(rows, nextId))
      ensures Valid() && State() == Table(rows, nextId)
    {
      this.rows := rows;
      this.nextId := nextId;
    }

    /**
     * One `INSERT ... VALUES batch ON DUPLICATE KEY UPDATE ssn, address, memo`
     * statement, run with `.updateEntity(false)`: it reports no identifiers.
     */
    method ExecuteUpsert(batch: seq<Patient>) returns (result: InsertResult)
      requires Valid()
      modifies this
      ensures Valid()
      ensures State() == UpsertAll(old(State()), batch)
      ensures result.identifiers == []
    {
      var after := UpsertAll(State(), batch);
      UpsertAllValid(State(), batch);
      rows, nextId := after.rows, after.nextId;
      result := InsertResult([]);
    }

    /**
     * `insertOrUpdatePatients`: one statement per consecutive slice of at most
     * 5000 patients, in order; one result per slice, none reporting identifiers.
     */
    method InsertOrUpdatePatients(ps: seq<Patient>) returns (results: seq<InsertResult>)
      requires Valid()
      modifies this
      ensures Valid()
      ensures State() == UpsertAll(old(State()), ps)
      ensures |results| == |Chunks(ps, BATCH_SIZE)|
      ensures forall k | 0 <= k < |results| :: results[k].identifiers == []
    {
      results := [];
      ghost var done: seq<seq<Patient>> := [];
      var i := 0;
      while i < |ps|
        invariant 0 <= i <= |ps|
        invariant Valid()
        invariant State() == UpsertAll(old(State()), ps[..i])
        invariant Chunks(ps, BATCH_SIZE) == done + Chunks(ps[i..], BATCH_SIZE)
        invariant |results| == |done|
        invariant NoneIdentified(results)
        decreases |ps| - i
      {
        var end := if i + BATCH_SIZE <= |ps| then i + BATCH_SIZE else |ps|;
        var batch := ps[i..end];
        var result := ExecuteUpsert(batch);
        UpsertBatchStep(old(State()), ps, i, end);
        ChunksAdvance(ps, done, i, end, BATCH_SIZE);
        NoneIdentifiedSnoc(results, result);
        results := results + [result];
        done := done + [batch];
        i := end;
      }
      assert ps[..i] == ps;
    }

    /**
     * `updatePatientsWithEmptyChart`: for each patient in order, write its
     * fields into the row whose id the map gives for its pair key, then delete
     * that key from the caller's map. Every update is issued; the call fails
     * when one of them was refused.
     */
    method UpdatePatientsWithEmptyChart(ps: seq<Patient>, placeholders: PlaceholderIds)
      returns (r: Result<seq<UpdateResult>, StoreError>)
      requires Valid()
      modifies this, placeholders
      ensures Valid() && nextId == old(nextId)
      ensures var after := ClaimAll(ClaimState(old(rows), old(placeholders.ids), [], false), ps);
        && rows == after.rows
        && placeholders.ids == after.ids
        && r == (if after.rejected then Failure(DuplicateEntry) else Success(after.results))
    {
      ghost var start := ClaimState(rows, placeholders.ids, [], false);
      var results: seq<UpdateResult> := [];
      var rejected := false;
      for i := 0 to |ps|
        invariant ClaimAll(start, ps) == ClaimAll(ClaimState(rows, placeholders.ids, results, rejected), ps[i..])
        invariant Valid() && nextId == old(nextId)
      {
        ghost var before := ClaimState(rows, placeholders.ids, results, rejected);
        var p := ps[i];
        var key := PairKey(p.name, p.phone);
        if key in placeholders.ids {
          var index := IndexOfId(rows, placeholders.ids[key]);
          if index.Some? {
            var updated := SetFields(rows[index.value], p);
            if KeyHeldElsewhere(rows, index.value, RowKey(updated)) {
              rejected := true;
            } else {
              rows := rows[index.value := updated];
              results := results + [UpdateResult(1)];
            }
          } else {
            results := results + [UpdateResult(0)];
          }
        } else {
          results := results + [UpdateResult(0)];
        }
        placeholders.ids := placeholders.ids - {key};
        assert ClaimState(rows, placeholders.ids, results, rejected) == ClaimOne(before, p);
        assert ps[i..][1..] == ps[i + 1..];
        ClaimOneValid(before, p, nextId);
      }
      r := if rejected then Failure(DuplicateEntry) else Success(results);
    }
  }
}
