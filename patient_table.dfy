/**
 * The `patients` table as the repositories see it: rows in ascending id
 * order, ids below a fresh-id counter, and the unique (name, phone,
 * chart_number) constraint; and what one `INSERT ... ON DUPLICATE KEY UPDATE
 * ssn, address, memo` does to it, row by row.
 */
module PatientTable {
  import opened Wrappers
  import opened PatientEntity

  /** The rows, in the order of their ids, and the next id the store will assign. */
  datatype Table = Table(rows: seq<Row>, nextId: nat)

  ghost predicate IdsAscending(rows: seq<Row>) {
    forall i, j | 0 <= i < j < |rows| :: rows[i].id < rows[j].id
  }

  /** `@Unique(['name', 'phone', 'chart_number'])` */
  ghost predicate KeysUnique(rows: seq<Row>) {
    forall i, j | 0 <= i < j < |rows| :: RowKey(rows[i]) != RowKey(rows[j])
  }

  ghost predicate IdsBelow(rows: seq<Row>, bound: nat) {
    forall i | 0 <= i < |rows| :: rows[i].id < bound
  }

  ghost predicate Valid(t: Table) {
    IdsAscending(t.rows) && KeysUnique(t.rows) && IdsBelow(t.rows, t.nextId)
  }

  /** The position of the row holding key `k`: the unique index's lookup. */
  function IndexOfKey(rows: seq<Row>, k: Key): (i: Option<nat>)
    ensures i.Some? ==> i.value < |rows| && RowKey(rows[i.value]) == k
    ensures i.None? <==> forall j | 0 <= j < |rows| :: RowKey(rows[j]) != k
  {
    if rows == [] then None
    else if RowKey(rows[0]) == k then Some(0)
    else
      match IndexOfKey(rows[1..], k)
      case None => None
      case Some(i) => Some(i + 1)
  }

  /** Under the unique constraint a key names one row, so any row holding it is the one found. */
  lemma IndexOfKeyUnique(rows: seq<Row>, k: Key, j: nat)
    requires KeysUnique(rows) && j < |rows| && RowKey(rows[j]) == k
    ensures IndexOfKey(rows, k) == Some(j)
  {
  }

  /** The key columns of all rows. */
  ghost function KeySet(rows: seq<Row>): set<Key> {
    set r | r in rows :: RowKey(r)
  }

  /** The payload columns the upsert overwrites. */
  function WithPayload(r: Row, p: Patient): (w: Row)
    ensures w.id == r.id && RowKey(w) == RowKey(r)
    ensures w.ssn == p.ssn && w.address == p.address && w.memo == p.memo
  {
    r.(ssn := p.ssn, address := p.address, memo := p.memo)
  }

  /** The row of `p`'s key exists and holds `p`'s ssn, address and memo. */
  predicate Holds(rows: seq<Row>, p: Patient) {
    match IndexOfKey(rows, PatientKey(p))
    case None => false
    case Some(i) => rows[i] == WithPayload(rows[i], p)
  }

  /** One value row of the upsert: update ssn, address, memo of the row with its key, or insert it. */
  function Upsert(t: Table, p: Patient): (after: Table)
    ensures |t.rows| <= |after.rows| && after.nextId - t.nextId == |after.rows| - |t.rows| <= 1
    ensures IndexOfKey(after.rows, PatientKey(p)).Some?
  {
    match IndexOfKey(t.rows, PatientKey(p))
    case Some(i) =>
      var rows := t.rows[i := WithPayload(t.rows[i], p)];
      assert RowKey(rows[i]) == PatientKey(p);
      Table(rows, t.nextId)
    case None =>
      var rows := t.rows + [NewRow(t.nextId, p)];
      assert RowKey(rows[|t.rows|]) == PatientKey(p);
      Table(rows, t.nextId + 1)
  }

  /** The value rows of one statement, applied in order. */
  function UpsertAll(t: Table, ps: seq<Patient>): (after: Table)
    ensures |t.rows| <= |after.rows| && after.nextId - t.nextId == |after.rows| - |t.rows| <= |ps|
    decreases |ps|
  {
    if ps == [] then t else Upsert(UpsertAll(t, ps[..|ps| - 1]), ps[|ps| - 1])
  }

  /**
   * `after` keeps every row of `before` at its place with its id and key (only
   * payload may change) and adds rows whose ids are at least `before`'s counter.
   */
  ghost predicate Extends(before: Table, after: Table) {
    && |before.rows| <= |after.rows|
    && before.nextId <= after.nextId
    && (forall i | 0 <= i < |before.rows| ::
          after.rows[i].id == before.rows[i].id && RowKey(after.rows[i]) == RowKey(before.rows[i]))
    && (forall i | |before.rows| <= i < |after.rows| :: after.rows[i].id >= before.nextId)
  }

  lemma ExtendsTransitive(a: Table, b: Table, c: Table)
    requires Extends(a, b) && Extends(b, c)
    ensures Extends(a, c)
  {
  }

  /**
   * One upsert keeps the table valid and extends it; afterwards `p`'s key names
   * exactly one row, holding `p`'s payload, and rows of other keys are unchanged.
   * An existing key keeps its row (same id, same key); a new key gets a row at
   * the end whose id is the old counter.
   */
  lemma UpsertEffect(t: Table, p: Patient)
    requires Valid(t)
    ensures var after := Upsert(t, p);
      && Valid(after)
      && Extends(t, after)
      && Holds(after.rows, p)
      && (forall i | 0 <= i < |t.rows| && RowKey(t.rows[i]) != PatientKey(p) :: after.rows[i] == t.rows[i])
      && (PatientKey(p) in KeySet(t.rows) ==> |after.rows| == |t.rows| && after.nextId == t.nextId)
      && (PatientKey(p) !in KeySet(t.rows) ==>
            after.rows == t.rows + [NewRow(t.nextId, p)] && after.nextId == t.nextId + 1)
  {
    match IndexOfKey(t.rows, PatientKey(p))
    case Some(i) => UpdateEffect(t, p, i);
    case None => InsertEffect(t, p);
  }

  /** An upsert whose key names row `i` updates that row's payload and keeps the table valid. */
  lemma UpdateEffect(t: Table, p: Patient, i: nat)
    requires Valid(t) && IndexOfKey(t.rows, PatientKey(p)) == Some(i)
    ensures var after := Upsert(t, p);
      && after == Table(t.rows[i := WithPayload(t.rows[i], p)], t.nextId)
      && Valid(after)
      && PatientKey(p) in KeySet(t.rows)
      && IndexOfKey(after.rows, PatientKey(p)) == Some(i)
  {
    var after := Upsert(t, p);
    assert PatientKey(p) in KeySet(t.rows) by { assert t.rows[i] in t.rows; }
    assert KeysUnique(after.rows) by {
      forall a, b | 0 <= a < b < |after.rows| ensures RowKey(after.rows[a]) != RowKey(after.rows[b]) {
        assert RowKey(after.rows[a]) == RowKey(t.rows[a]) && RowKey(after.rows[b]) == RowKey(t.rows[b]);
      }
    }
    IndexOfKeyUnique(after.rows, PatientKey(p), i);
  }

  /** An upsert of a new key appends a row with the counter's id and keeps the table valid. */
  lemma InsertEffect(t: Table, p: Patient)
    requires Valid(t) && IndexOfKey(t.rows, PatientKey(p)).None?
    ensures var after := Upsert(t, p);
      && after == Table(t.rows + [NewRow(t.nextId, p)], t.nextId + 1)
      && Valid(after)
      && PatientKey(p) !in KeySet(t.rows)
      && IndexOfKey(after.rows, PatientKey(p)) == Some(|t.rows|)
  {
    var after := Upsert(t, p);
    var n := |t.rows|;
    assert KeysUnique(after.rows) by {
      forall a, b | 0 <= a < b < |after.rows| ensures RowKey(after.rows[a]) != RowKey(after.rows[b]) {
        if b == n {
          assert after.rows[b] == NewRow(t.nextId, p);
          assert after.rows[a] == t.rows[a];
        }
      }
    }
    IndexOfKeyUnique(after.rows, PatientKey(p), n);
  }

  /** Applying a statement keeps the table valid and extends it. */
  lemma {:induction false} UpsertAllValid(t: Table, ps: seq<Patient>)
    requires Valid(t)
    ensures Valid(UpsertAll(t, ps)) && Extends(t, UpsertAll(t, ps))
    decreases |ps|
  {
    if ps != [] {
      var mid := UpsertAll(t, ps[..|ps| - 1]);
      UpsertAllValid(t, ps[..|ps| - 1]);
      UpsertEffect(mid, ps[|ps| - 1]);
      ExtendsTransitive(t, mid, UpsertAll(t, ps));
    }
  }

  /** Splitting the value rows over consecutive statements has the effect of one statement. */
  lemma {:induction false} UpsertAllAppend(t: Table, a: seq<Patient>, b: seq<Patient>)
    ensures UpsertAll(t, a + b) == UpsertAll(UpsertAll(t, a), b)
    decreases |b|
  {
    if b == [] {
      assert a + b == a;
    } else {
      assert (a + b)[..|a + b| - 1] == a + b[..|b| - 1];
      assert (a + b)[|a + b| - 1] == b[|b| - 1];
      UpsertAllAppend(t, a, b[..|b| - 1]);
    }
  }

  /**
   * After a statement, the row of each value row's key holds the payload of the
   * last value row with that key (of the only one when the keys are distinct).
   */
  lemma {:induction false} UpsertAllLastWins(t: Table, ps: seq<Patient>, j: nat)
    requires Valid(t)
    requires j < |ps|
    requires forall k | j < k < |ps| :: PatientKey(ps[k]) != PatientKey(ps[j])
    ensures Holds(UpsertAll(t, ps).rows, ps[j])
    decreases |ps|
  {
    var init := ps[..|ps| - 1];
    var mid := UpsertAll(t, init);
    UpsertAllValid(t, init);
    UpsertEffect(mid, ps[|ps| - 1]);
    if j < |ps| - 1 {
      assert init[j] == ps[j];
      UpsertAllLastWins(t, init, j);
      var i := IndexOfKey(mid.rows, PatientKey(ps[j])).value;
      var after := UpsertAll(t, ps);
      assert after.rows[i] == mid.rows[i];
      IndexOfKeyUnique(after.rows, PatientKey(ps[j]), i);
    }
  }

  /** Rows whose key no value row carries come out of a statement unchanged. */
  lemma {:induction false} UpsertAllUntouched(t: Table, ps: seq<Patient>, i: nat)
    requires Valid(t)
    requires i < |t.rows|
    requires forall k | 0 <= k < |ps| :: PatientKey(ps[k]) != RowKey(t.rows[i])
    ensures i < |UpsertAll(t, ps).rows| && UpsertAll(t, ps).rows[i] == t.rows[i]
    decreases |ps|
  {
    if ps != [] {
      var init := ps[..|ps| - 1];
      var mid := UpsertAll(t, init);
      UpsertAllUntouched(t, init, i);
      UpsertAllValid(t, init);
      UpsertEffect(mid, ps[|ps| - 1]);
    }
  }

  /** Every value row's key names a row after the statement. */
  lemma {:induction false} UpsertAllCovers(t: Table, ps: seq<Patient>, k: nat)
    requires Valid(t)
    requires k < |ps|
    ensures IndexOfKey(UpsertAll(t, ps).rows, PatientKey(ps[k])).Some?
    decreases |ps|
  {
    var init := ps[..|ps| - 1];
    var mid := UpsertAll(t, init);
    UpsertAllValid(t, init);
    UpsertEffect(mid, ps[|ps| - 1]);
    if k < |ps| - 1 {
      assert init[k] == ps[k];
      UpsertAllCovers(t, init, k);
      var i := IndexOfKey(mid.rows, PatientKey(ps[k])).value;
      assert RowKey(UpsertAll(t, ps).rows[i]) == PatientKey(ps[k]);
    }
  }

  /** The keys the value rows are stored under. */
  ghost function PatientKeys(ps: seq<Patient>): set<Key> {
    set p | p in ps :: PatientKey(p)
  }

  /** Under the unique constraint there are as many rows as keys. */
  lemma {:induction false} KeySetSize(rows: seq<Row>)
    requires KeysUnique(rows)
    ensures |KeySet(rows)| == |rows|
    decreases |rows|
  {
    if rows != [] {
      var init := rows[..|rows| - 1];
      var last := rows[|rows| - 1];
      KeySetSize(init);
      assert rows == init + [last];
      assert KeySet(rows) == KeySet(init) + {RowKey(last)};
      assert RowKey(last) !in KeySet(init);
    }
  }

  /** One value row adds its key to the table's keys and loses none. */
  lemma UpsertKeys(t: Table, p: Patient)
    ensures KeySet(Upsert(t, p).rows) == KeySet(t.rows) + {PatientKey(p)}
  {
    var after := Upsert(t, p);
    match IndexOfKey(t.rows, PatientKey(p))
    case Some(i) => {
      assert PatientKey(p) in KeySet(t.rows) by { assert t.rows[i] in t.rows; }
      forall k | k in KeySet(after.rows) ensures k in KeySet(t.rows) {
        var j :| 0 <= j < |after.rows| && RowKey(after.rows[j]) == k;
        assert t.rows[j] in t.rows;
      }
      forall k | k in KeySet(t.rows) ensures k in KeySet(after.rows) {
        var j :| 0 <= j < |t.rows| && RowKey(t.rows[j]) == k;
        assert after.rows[j] in after.rows;
      }
    }
    case None => {
      assert after.rows == t.rows + [NewRow(t.nextId, p)];
    }
  }

  /**
   * After a statement the table holds exactly the keys it held before and the
   * keys of the value rows: nothing is lost, and only those keys are new.
   */
  lemma {:induction false} UpsertAllKeys(t: Table, ps: seq<Patient>)
    ensures KeySet(UpsertAll(t, ps).rows) == KeySet(t.rows) + PatientKeys(ps)
    decreases |ps|
  {
    if ps != [] {
      var init := ps[..|ps| - 1];
      var p := ps[|ps| - 1];
      assert ps == init + [p];
      UpsertAllKeys(t, init);
      UpsertKeys(UpsertAll(t, init), p);
      PatientKeysSnoc(init, p);
    }
  }

  lemma PatientKeysSnoc(ps: seq<Patient>, p: Patient)
    ensures PatientKeys(ps + [p]) == PatientKeys(ps) + {PatientKey(p)}
  {
    assert forall q | q in ps + [p] :: q in ps || q == p;
  }

  /** The row count after a statement: one row per distinct key, old or new. */
  lemma UpsertAllCount(t: Table, ps: seq<Patient>)
    requires Valid(t)
    ensures |UpsertAll(t, ps).rows| == |KeySet(t.rows) + PatientKeys(ps)|
  {
    UpsertAllValid(t, ps);
    UpsertAllKeys(t, ps);
    KeySetSize(UpsertAll(t, ps).rows);
  }
}
