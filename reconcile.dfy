/**
 * `bulkInsertOrUpdate(patients, uniqueMap)`, which the upload service calls
 * but which no file of the repository defines, composed from the repository's
 * four primitives: look up exact keys and placeholder rows, let candidates
 * without an exact match claim the placeholder of their (name, phone) pair,
 * then upsert every candidate in slices of 5000.
 */
module Reconciliation {
  import opened Wrappers
  import opened PatientEntity
  import opened PatientTable
  import opened Batching
  import opened PatientRepository

  /** The keys of the rows `findExistingPatients` found. */
  function ExactKeys(existing: seq<Row>): set<Key> {
    set r | r in existing :: RowKey(r)
  }

  /** The pair key to id map of the placeholder rows; a later row of the same pair key wins. */
  function PlaceholderMap(empties: seq<Row>): (ids: map<string, nat>)
    ensures forall r | r in empties :: PairKey(r.name, r.phone) in ids
    ensures forall P | P in ids :: exists r | r in empties :: PairKey(r.name, r.phone) == P && r.id == ids[P]
    decreases |empties|
  {
    if empties == [] then map[]
    else
      var init := empties[..|empties| - 1];
      var last := empties[|empties| - 1];
      assert empties == init + [last];
      PlaceholderSourcesSnoc(PlaceholderMap(init), init, last);
      PlaceholderMap(init)[PairKey(last.name, last.phone) := last.id]
  }

  /** Storing the last row's id under its pair key keeps every entry the id of a row with that pair key. */
  lemma PlaceholderSourcesSnoc(ids: map<string, nat>, init: seq<Row>, last: Row)
    requires forall P | P in ids :: exists r | r in init :: PairKey(r.name, r.phone) == P && r.id == ids[P]
    ensures var next := ids[PairKey(last.name, last.phone) := last.id];
      forall P | P in next :: exists r | r in init + [last] :: PairKey(r.name, r.phone) == P && r.id == next[P]
  {
    var next := ids[PairKey(last.name, last.phone) := last.id];
    forall P | P in next ensures exists r | r in init + [last] :: PairKey(r.name, r.phone) == P && r.id == next[P] {
      if P == PairKey(last.name, last.phone) {
        assert last in init + [last];
      } else {
        var r :| r in init && PairKey(r.name, r.phone) == P && r.id == ids[P];
        assert r in init + [last];
      }
    }
  }

  /** The candidates with no exact match, in input order: the ones that may claim a placeholder. */
  function Claimers(ps: seq<Patient>, exact: set<Key>): (cs: seq<Patient>)
    ensures forall p :: p in cs <==> p in ps && PatientKey(p) !in exact
  {
    if ps == [] then []
    else (if PatientKey(ps[0]) in exact then [] else [ps[0]]) + Claimers(ps[1..], exact)
  }

  /** The exact keys found for a non-empty batch. */
  function ExactOf(t: Table, ps: seq<Patient>): set<Key>
    requires ps != []
  {
    ExactKeys(FindExistingPatients(t.rows, ps).value)
  }

  /** The claim loop's starting state for a non-empty batch: the table and the placeholder map. */
  function ClaimStart(t: Table, ps: seq<Patient>): ClaimState
    requires ps != []
  {
    ClaimState(t.rows, PlaceholderMap(FindPatientsWithEmptyChart(t.rows, ps).value), [], false)
  }

  /** The claim loop's outcome for a non-empty batch. */
  function Claims(t: Table, ps: seq<Patient>): ClaimState
    requires ps != []
  {
    ClaimAll(ClaimStart(t, ps), Claimers(ps, ExactOf(t, ps)))
  }

  /** The table after the whole reconciliation. */
  function ReconcileSpec(t: Table, ps: seq<Patient>): (after: Table)
    ensures |t.rows| <= |after.rows| && after.nextId - t.nextId == |after.rows| - |t.rows| <= |ps|
  {
    if ps == [] then t
    else UpsertAll(Table(Claims(t, ps).rows, t.nextId), ps)
  }

  /**
   * The reconciliation against the store: nothing is read or written for an
   * empty batch; the claims are never refused; one insert result per slice,
   * each reporting no identifiers.
   */
  method BulkInsertOrUpdate(store: PatientStore, ps: seq<Patient>) returns (results: seq<InsertResult>)
    requires store.Valid()
    modifies store
    ensures store.Valid()
    ensures store.State() == ReconcileSpec(old(store.State()), ps)
    ensures |results| == |Chunks(ps, BATCH_SIZE)|
    ensures forall k | 0 <= k < |results| :: results[k].identifiers == []
  {
    if ps == [] {
      return [];
    }
    ghost var t := store.State();
    var existing := FindExistingPatients(store.rows, ps);
    var empties := FindPatientsWithEmptyChart(store.rows, ps);
    var placeholders := new PlaceholderIds(PlaceholderMap(empties.value));
    var claimers := Claimers(ps, ExactKeys(existing.value));
    InitialClaimInv(t, ps);
    ClaimsNeverRejected(ClaimStart(t, ps), ps, ExactOf(t, ps));
    var claimed := store.UpdatePatientsWithEmptyChart(claimers, placeholders);
    assert claimed.Success?;
    results := store.InsertOrUpdatePatients(ps);
  }

  // ---------------------------------------------------------------------
  // The claim loop under the reconciliation's starting state

  /** The row with id `id` exists and holds the placeholder chart number. */
  predicate IsPlaceholderId(rows: seq<Row>, id: nat) {
    match IndexOfId(rows, id)
    case None => false
    case Some(i) => rows[i].chartNumber == EMPTY_CHART_NUMBER
  }

  /**
   * What keeps every claim of the remaining candidates `ps` from being refused:
   * a claimer whose pair key is still mapped has a key no row holds yet, every
   * mapped id names a placeholder row, and no two pair keys map to one id.
   */
  ghost predicate ClaimInv(st: ClaimState, ps: seq<Patient>, exact: set<Key>) {
    && IdsAscending(st.rows) && KeysUnique(st.rows)
    && (forall k | 0 <= k < |ps| && PatientKey(ps[k]) !in exact && PairKeyOf(ps[k]) in st.ids ::
          PatientKey(ps[k]) !in KeySet(st.rows))
    && (forall P | P in st.ids :: IsPlaceholderId(st.rows, st.ids[P]))
    && (forall P, Q | P in st.ids && Q in st.ids && P != Q :: st.ids[P] != st.ids[Q])
  }

  /** One candidate of the loop over all candidates: claim when it has no exact match, else skip. */
  function ClaimNext(st: ClaimState, p: Patient, exact: set<Key>): ClaimState {
    if PatientKey(p) in exact then st else ClaimOne(st, p)
  }

  lemma ClaimersStep(st: ClaimState, ps: seq<Patient>, exact: set<Key>)
    requires ps != []
    ensures ClaimAll(st, Claimers(ps, exact)) == ClaimAll(ClaimNext(st, ps[0], exact), Claimers(ps[1..], exact))
  {
    var rest := Claimers(ps[1..], exact);
    if PatientKey(ps[0]) !in exact {
      assert ([ps[0]] + rest)[1..] == rest;
    } else {
      assert [] + rest == rest;
      assert Claimers(ps, exact) == rest;
    }
  }

  lemma {:induction false} IndexOfIdSameIds(a: seq<Row>, b: seq<Row>, id: nat)
    requires |a| == |b| && forall i | 0 <= i < |a| :: a[i].id == b[i].id
    ensures IndexOfId(a, id) == IndexOfId(b, id)
    decreases |a|
  {
    if a != [] {
      IndexOfIdSameIds(a[1..], b[1..], id);
    }
  }

  /** A row is written by one iteration only when its id is the one mapped for the patient's pair. */
  lemma ClaimOneFrame(st: ClaimState, p: Patient, i: nat)
    requires i < |st.rows|
    requires PairKeyOf(p) in st.ids ==> st.ids[PairKeyOf(p)] != st.rows[i].id
    ensures ClaimOne(st, p).rows[i] == st.rows[i]
  {
  }

  /** Dropping the first candidate keeps the claim invariant of the rest. */
  lemma ClaimInvTail(st: ClaimState, ps: seq<Patient>, exact: set<Key>)
    requires ps != [] && ClaimInv(st, ps, exact)
    ensures ClaimInv(st, ps[1..], exact)
  {
    forall k | 0 <= k < |ps[1..]| ensures ps[1..][k] == ps[k + 1] {}
  }

  /** A claimer whose pair key is mapped takes the placeholder row, and the invariant still holds. */
  lemma ClaimStepTaken(st: ClaimState, ps: seq<Patient>, exact: set<Key>)
    requires ps != [] && ClaimInv(st, ps, exact)
    requires PatientKey(ps[0]) !in exact && PairKeyOf(ps[0]) in st.ids
    ensures ClaimInv(ClaimOne(st, ps[0]), ps[1..], exact)
    ensures ClaimOne(st, ps[0]).rejected == st.rejected
    ensures var i := IndexOfId(st.rows, st.ids[PairKeyOf(ps[0])]).value;
      && RowKey(SetFields(st.rows[i], ps[0])) == PatientKey(ps[0])
      && ClaimOne(st, ps[0]).rows == st.rows[i := SetFields(st.rows[i], ps[0])]
  {
    var p := ps[0];
    var P := PairKeyOf(p);
    var next := ClaimOne(st, p);
    var i := IndexOfId(st.rows, st.ids[P]).value;
    var updated := SetFields(st.rows[i], p);
    assert RowKey(updated) == PatientKey(p);
    assert PatientKey(p) !in KeySet(st.rows);
    assert !KeyHeldElsewhere(st.rows, i, RowKey(updated)) by {
      forall j | 0 <= j < |st.rows| ensures RowKey(st.rows[j]) != PatientKey(p) {
        assert st.rows[j] in st.rows;
      }
    }
    assert next.rows == st.rows[i := updated];
    assert KeysUnique(next.rows) && IdsAscending(next.rows) by {
      assert ClaimAll(st, [p]) == next by { assert [p][1..] == []; }
      ClaimAllEffect(st, [p]);
    }
    ClaimInvTail(st, ps, exact);
    forall k | 0 <= k < |ps[1..]| && PatientKey(ps[1..][k]) !in exact && PairKeyOf(ps[1..][k]) in next.ids
      ensures PatientKey(ps[1..][k]) !in KeySet(next.rows)
    {
      NewKeyStaysNew(st.rows, i, updated, ps[1..][k]);
    }
    forall Q | Q in next.ids ensures IsPlaceholderId(next.rows, next.ids[Q]) {
      IndexOfIdSameIds(st.rows, next.rows, st.ids[Q]);
      assert st.ids[Q] != st.ids[P];
    }
  }

  /** Writing one row under a new key leaves every other absent key absent. */
  lemma NewKeyStaysNew(rows: seq<Row>, i: nat, updated: Row, q: Patient)
    requires i < |rows|
    requires PatientKey(q) !in KeySet(rows) && PatientKey(q) != RowKey(updated)
    ensures PatientKey(q) !in KeySet(rows[i := updated])
  {
    var after := rows[i := updated];
    forall j | 0 <= j < |after| ensures RowKey(after[j]) != PatientKey(q) {
      assert rows[j] in rows;
    }
  }

  /** The claim invariant survives one candidate, which is not refused. */
  lemma ClaimStep(st: ClaimState, ps: seq<Patient>, exact: set<Key>)
    requires ps != [] && ClaimInv(st, ps, exact)
    ensures ClaimInv(ClaimNext(st, ps[0], exact), ps[1..], exact)
    ensures ClaimNext(st, ps[0], exact).rejected == st.rejected
  {
    ClaimInvTail(st, ps, exact);
    if PatientKey(ps[0]) !in exact {
      if PairKeyOf(ps[0]) in st.ids {
        ClaimStepTaken(st, ps, exact);
      } else {
        assert ClaimOne(st, ps[0]).rows == st.rows;
      }
    }
  }

  /** In the reconciliation's loop no claim is refused. */
  lemma {:induction false} ClaimsNeverRejected(st: ClaimState, ps: seq<Patient>, exact: set<Key>)
    requires ClaimInv(st, ps, exact)
    ensures ClaimAll(st, Claimers(ps, exact)).rejected == st.rejected
    decreases |ps|
  {
    if ps != [] {
      ClaimersStep(st, ps, exact);
      ClaimStep(st, ps, exact);
      ClaimsNeverRejected(ClaimNext(st, ps[0], exact), ps[1..], exact);
    }
  }

  /** A candidate without an exact match has a key no row of the table holds. */
  lemma ExactKeysComplete(t: Table, ps: seq<Patient>, k: nat)
    requires ps != [] && k < |ps|
    requires PatientKey(ps[k]) !in ExactOf(t, ps)
    ensures PatientKey(ps[k]) !in KeySet(t.rows)
  {
  }

  /** The rows `findPatientsWithEmptyChart` returns are placeholder rows of the table. */
  ghost predicate PlaceholderRowsOf(rows: seq<Row>, empties: seq<Row>) {
    forall r | r in empties :: r in rows && r.chartNumber == EMPTY_CHART_NUMBER
  }

  /** Each mapped id is the id of a placeholder row of the table. */
  lemma PlaceholderMapNamesPlaceholders(rows: seq<Row>, empties: seq<Row>, P: string)
    requires IdsAscending(rows) && PlaceholderRowsOf(rows, empties)
    requires P in PlaceholderMap(empties)
    ensures IsPlaceholderId(rows, PlaceholderMap(empties)[P])
  {
    var r :| r in empties && PairKey(r.name, r.phone) == P && r.id == PlaceholderMap(empties)[P];
    var m :| 0 <= m < |rows| && rows[m] == r;
    IdPosition(rows, m);
  }

  /** Distinct pair keys are mapped to distinct ids. */
  lemma PlaceholderMapInjective(rows: seq<Row>, empties: seq<Row>, P: string, Q: string)
    requires IdsAscending(rows) && PlaceholderRowsOf(rows, empties)
    requires P in PlaceholderMap(empties) && Q in PlaceholderMap(empties) && P != Q
    ensures PlaceholderMap(empties)[P] != PlaceholderMap(empties)[Q]
  {
    var ids := PlaceholderMap(empties);
    var r :| r in empties && PairKey(r.name, r.phone) == P && r.id == ids[P];
    var s :| s in empties && PairKey(s.name, s.phone) == Q && s.id == ids[Q];
    var m :| 0 <= m < |rows| && rows[m] == r;
    var n :| 0 <= n < |rows| && rows[n] == s;
    assert m != n;
  }

  /** The placeholder row a mapped pair key was taken from. */
  lemma PlaceholderMapSource(rows: seq<Row>, empties: seq<Row>, P: string) returns (m: nat)
    requires PlaceholderRowsOf(rows, empties)
    requires P in PlaceholderMap(empties)
    ensures m < |rows| && rows[m].id == PlaceholderMap(empties)[P]
    ensures PairKey(rows[m].name, rows[m].phone) == P && rows[m].chartNumber == EMPTY_CHART_NUMBER
  {
    var r :| r in empties && PairKey(r.name, r.phone) == P && r.id == PlaceholderMap(empties)[P];
    m :| 0 <= m < |rows| && rows[m] == r;
  }

  /** With hyphen-free phones, a placeholder row's own pair key maps to that row. */
  lemma PlaceholderMapOwnRow(rows: seq<Row>, empties: seq<Row>, i: nat)
    requires KeysUnique(rows) && PlaceholderRowsOf(rows, empties)
    requires forall j | 0 <= j < |rows| :: '-' !in rows[j].phone
    requires i < |rows| && rows[i] in empties
    ensures PairKey(rows[i].name, rows[i].phone) in PlaceholderMap(empties)
    ensures PlaceholderMap(empties)[PairKey(rows[i].name, rows[i].phone)] == rows[i].id
  {
    var m := PlaceholderMapSource(rows, empties, PairKey(rows[i].name, rows[i].phone));
    PairKeyInjective(rows[m].name, rows[m].phone, rows[i].name, rows[i].phone);
    assert RowKey(rows[m]) == RowKey(rows[i]);
  }

  /** The reconciliation's loop starts in a state satisfying the claim invariant. */
  lemma InitialClaimInv(t: Table, ps: seq<Patient>)
    requires PatientTable.Valid(t) && ps != []
    ensures ClaimInv(ClaimStart(t, ps), ps, ExactOf(t, ps))
  {
    var st := ClaimStart(t, ps);
    var empties := FindPatientsWithEmptyChart(t.rows, ps).value;
    assert PlaceholderRowsOf(t.rows, empties);
    forall k | 0 <= k < |ps| && PatientKey(ps[k]) !in ExactOf(t, ps) ensures PatientKey(ps[k]) !in KeySet(t.rows) {
      ExactKeysComplete(t, ps, k);
    }
    forall P | P in st.ids ensures IsPlaceholderId(t.rows, st.ids[P]) {
      PlaceholderMapNamesPlaceholders(t.rows, empties, P);
    }
    forall P, Q | P in st.ids && Q in st.ids && P != Q ensures st.ids[P] != st.ids[Q] {
      PlaceholderMapInjective(t.rows, empties, P, Q);
    }
  }

  // ---------------------------------------------------------------------
  // What the claim loop does to single rows

  /** A row whose id no claimer's pair key maps to is not written by the loop. */
  lemma {:induction false} ClaimAllUntouchedRow(st: ClaimState, ps: seq<Patient>, exact: set<Key>, i: nat)
    requires i < |st.rows|
    requires forall k | 0 <= k < |ps| && PatientKey(ps[k]) !in exact && PairKeyOf(ps[k]) in st.ids ::
      st.ids[PairKeyOf(ps[k])] != st.rows[i].id
    ensures i < |ClaimAll(st, Claimers(ps, exact)).rows|
    ensures ClaimAll(st, Claimers(ps, exact)).rows[i] == st.rows[i]
    decreases |ps|
  {
    if ps != [] {
      ClaimersStep(st, ps, exact);
      var next := ClaimNext(st, ps[0], exact);
      if PatientKey(ps[0]) !in exact {
        ClaimOneFrame(st, ps[0], i);
      }
      forall k | 0 <= k < |ps[1..]| ensures ps[1..][k] == ps[k + 1] {}
      ClaimAllUntouchedRow(next, ps[1..], exact, i);
    }
  }

  /** A claimer whose pair key maps to row `i` writes it, and no later claimer writes it again. */
  lemma ClaimHere(st: ClaimState, ps: seq<Patient>, exact: set<Key>, i: nat)
    requires ps != [] && ClaimInv(st, ps, exact)
    requires i < |st.rows|
    requires PatientKey(ps[0]) !in exact
    requires PairKeyOf(ps[0]) in st.ids && st.ids[PairKeyOf(ps[0])] == st.rows[i].id
    ensures i < |ClaimAll(st, Claimers(ps, exact)).rows|
    ensures ClaimAll(st, Claimers(ps, exact)).rows[i] == SetFields(st.rows[i], ps[0])
  {
    var P := PairKeyOf(ps[0]);
    var next := ClaimOne(st, ps[0]);
    ClaimersStep(st, ps, exact);
    ClaimStepTaken(st, ps, exact);
    assert IndexOfId(st.rows, st.ids[P]).value == i;
    assert next.rows[i] == SetFields(st.rows[i], ps[0]);
    forall Q | Q in next.ids ensures next.ids[Q] != next.rows[i].id {
      assert Q != P && Q in st.ids;
    }
    ClaimAllFrame(next, Claimers(ps[1..], exact), i);
  }

  /**
   * The first claimer of a mapped pair key writes its fields into that pair's
   * placeholder row, and no later claimer writes that row again.
   */
  lemma {:induction false} ClaimFirst(st: ClaimState, ps: seq<Patient>, exact: set<Key>, i: nat, j: nat)
    requires ClaimInv(st, ps, exact)
    requires i < |st.rows| && j < |ps|
    requires PatientKey(ps[j]) !in exact
    requires PairKeyOf(ps[j]) in st.ids && st.ids[PairKeyOf(ps[j])] == st.rows[i].id
    requires forall k | 0 <= k < j && PairKeyOf(ps[k]) == PairKeyOf(ps[j]) :: PatientKey(ps[k]) in exact
    ensures i < |ClaimAll(st, Claimers(ps, exact)).rows|
    ensures ClaimAll(st, Claimers(ps, exact)).rows[i] == SetFields(st.rows[i], ps[j])
    decreases j
  {
    if j == 0 {
      ClaimHere(st, ps, exact, i);
    } else {
      var next, rest := ClaimNext(st, ps[0], exact), ps[1..];
      ClaimersStep(st, ps, exact);
      ClaimPassesRow(st, ps, exact, i, j);
      assert rest[j - 1] == ps[j];
      ClaimFirst(next, rest, exact, i, j - 1);
    }
  }

  /** A candidate before the first claimer of row `i`'s pair key leaves the row and its map entry alone. */
  lemma ClaimPassesRow(st: ClaimState, ps: seq<Patient>, exact: set<Key>, i: nat, j: nat)
    requires ClaimInv(st, ps, exact)
    requires i < |st.rows| && 0 < j < |ps|
    requires PatientKey(ps[j]) !in exact
    requires PairKeyOf(ps[j]) in st.ids && st.ids[PairKeyOf(ps[j])] == st.rows[i].id
    requires forall k | 0 <= k < j && PairKeyOf(ps[k]) == PairKeyOf(ps[j]) :: PatientKey(ps[k]) in exact
    ensures var next := ClaimNext(st, ps[0], exact);
      && ClaimInv(next, ps[1..], exact)
      && i < |next.rows| && next.rows[i] == st.rows[i]
      && PairKeyOf(ps[j]) in next.ids && next.ids[PairKeyOf(ps[j])] == next.rows[i].id
      && (forall k | 0 <= k < j - 1 && PairKeyOf(ps[1..][k]) == PairKeyOf(ps[1..][j - 1]) ::
            PatientKey(ps[1..][k]) in exact)
  {
    ClaimStep(st, ps, exact);
    if PatientKey(ps[0]) !in exact {
      assert PairKeyOf(ps[0]) != PairKeyOf(ps[j]);
      ClaimOneFrame(st, ps[0], i);
    }
    forall k | 0 <= k < j - 1 && PairKeyOf(ps[1..][k]) == PairKeyOf(ps[1..][j - 1])
      ensures PatientKey(ps[1..][k]) in exact
    {
      assert ps[1..][k] == ps[k + 1] && ps[1..][j - 1] == ps[j];
    }
  }

  /** Every row the loop writes ends up under the key of some candidate. */
  lemma {:induction false} ClaimAllKeysAt(st: ClaimState, ps: seq<Patient>, exact: set<Key>, m: nat)
    requires ClaimInv(st, ps, exact) && m < |st.rows|
    ensures m < |ClaimAll(st, Claimers(ps, exact)).rows|
    ensures var after := ClaimAll(st, Claimers(ps, exact));
      after.rows[m] == st.rows[m] || RowKey(after.rows[m]) in PatientKeys(ps)
    decreases |ps|
  {
    if ps != [] {
      ClaimersStep(st, ps, exact);
      ClaimStep(st, ps, exact);
      ClaimNextRow(st, ps, exact, m);
      ClaimAllKeysAt(ClaimNext(st, ps[0], exact), ps[1..], exact, m);
      PatientKeysTail(ps);
    }
  }

  /** One candidate leaves row `m` as it was or writes its own key into it. */
  lemma ClaimNextRow(st: ClaimState, ps: seq<Patient>, exact: set<Key>, m: nat)
    requires ps != [] && ClaimInv(st, ps, exact) && m < |st.rows|
    ensures var next := ClaimNext(st, ps[0], exact);
      m < |next.rows| && (next.rows[m] == st.rows[m] || RowKey(next.rows[m]) == PatientKey(ps[0]))
  {
    if PatientKey(ps[0]) !in exact && PairKeyOf(ps[0]) in st.ids {
      ClaimStepTaken(st, ps, exact);
    }
  }

  lemma PatientKeysTail(ps: seq<Patient>)
    requires ps != []
    ensures PatientKeys(ps) == {PatientKey(ps[0])} + PatientKeys(ps[1..])
  {
    assert forall p | p in ps :: p == ps[0] || p in ps[1..];
  }

  // ---------------------------------------------------------------------
  // End-to-end outcomes of the reconciliation

  /** The phones of the rows and of the candidates carry no hyphen, as `Patient.of` stores them. */
  ghost predicate PhonesHyphenFree(rows: seq<Row>, ps: seq<Patient>) {
    && (forall i | 0 <= i < |rows| :: '-' !in rows[i].phone)
    && (forall k | 0 <= k < |ps| :: '-' !in ps[k].phone)
  }

  /** The table between the claims and the upsert. */
  function ClaimedTable(t: Table, ps: seq<Patient>): Table
    requires ps != []
  {
    Table(Claims(t, ps).rows, t.nextId)
  }

  /** The claims keep the table valid and every row in place with its id, and none is refused. */
  lemma ClaimedValid(t: Table, ps: seq<Patient>)
    requires PatientTable.Valid(t) && ps != []
    ensures PatientTable.Valid(ClaimedTable(t, ps))
    ensures |ClaimedTable(t, ps).rows| == |t.rows|
    ensures forall i | 0 <= i < |t.rows| :: ClaimedTable(t, ps).rows[i].id == t.rows[i].id
    ensures !Claims(t, ps).rejected
  {
    ClaimsAccepted(t, ps);
    var st := ClaimStart(t, ps);
    ClaimAllEffect(st, Claimers(ps, ExactOf(t, ps)));
  }

  /** No claim of the reconciliation is refused: a claimer's key is never held by another row. */
  lemma ClaimsAccepted(t: Table, ps: seq<Patient>)
    requires PatientTable.Valid(t) && ps != []
    ensures !Claims(t, ps).rejected
  {
    InitialClaimInv(t, ps);
    ClaimsNeverRejected(ClaimStart(t, ps), ps, ExactOf(t, ps));
  }

  /**
   * The reconciled table is valid: ids ascending and unique keys. Rows keep
   * their place and id, and rows it adds come after them with ids from the
   * counter, so above every id the table held.
   */
  lemma ReconcileValid(t: Table, ps: seq<Patient>)
    requires PatientTable.Valid(t)
    ensures var after := ReconcileSpec(t, ps);
      && PatientTable.Valid(after)
      && |t.rows| <= |after.rows|
      && (forall i | 0 <= i < |t.rows| :: after.rows[i].id == t.rows[i].id)
      && (forall i | |t.rows| <= i < |after.rows| :: after.rows[i].id >= t.nextId)
  {
    if ps != [] {
      ClaimedValid(t, ps);
      UpsertAllValid(ClaimedTable(t, ps), ps);
    }
  }

  /** Each candidate's key names a row holding the ssn, address and memo of the last candidate with that key. */
  lemma ReconcileLastWins(t: Table, ps: seq<Patient>, j: nat)
    requires PatientTable.Valid(t)
    requires j < |ps|
    requires forall k | j < k < |ps| :: PatientKey(ps[k]) != PatientKey(ps[j])
    ensures Holds(ReconcileSpec(t, ps).rows, ps[j])
  {
    ClaimedValid(t, ps);
    UpsertAllLastWins(ClaimedTable(t, ps), ps, j);
  }

  /** A row that is neither a candidate's exact match nor a placeholder of a candidate's pair is left as it was. */
  lemma ReconcileUntouched(t: Table, ps: seq<Patient>, i: nat)
    requires PatientTable.Valid(t)
    requires i < |t.rows|
    requires RowKey(t.rows[i]) !in PatientKeys(ps)
    requires t.rows[i].chartNumber == EMPTY_CHART_NUMBER ==> (t.rows[i].name, t.rows[i].phone) !in CandidatePairs(ps)
    ensures i < |ReconcileSpec(t, ps).rows| && ReconcileSpec(t, ps).rows[i] == t.rows[i]
  {
    if ps != [] {
      var claimed := ClaimedTable(t, ps);
      ClaimsKeepRow(t, ps, i);
      ClaimedValid(t, ps);
      assert forall k | 0 <= k < |ps| :: PatientKey(ps[k]) != RowKey(claimed.rows[i]) by {
        assert claimed.rows[i] == t.rows[i];
        forall k | 0 <= k < |ps| ensures PatientKey(ps[k]) != RowKey(t.rows[i]) {
          assert ps[k] in ps;
        }
      }
      UpsertAllUntouched(claimed, ps, i);
    }
  }

  /** The claims leave a row alone when no entry of the placeholder map names it. */
  lemma ClaimsKeepRow(t: Table, ps: seq<Patient>, i: nat)
    requires PatientTable.Valid(t) && ps != []
    requires i < |t.rows|
    requires t.rows[i].chartNumber == EMPTY_CHART_NUMBER ==> (t.rows[i].name, t.rows[i].phone) !in CandidatePairs(ps)
    ensures i < |ClaimedTable(t, ps).rows| && ClaimedTable(t, ps).rows[i] == t.rows[i]
  {
    UnmappedRow(t, ps, i);
    ClaimAllFrame(ClaimStart(t, ps), Claimers(ps, ExactOf(t, ps)), i);
  }

  /** A row that is no placeholder of a candidate's pair is the target of no entry of the placeholder map. */
  lemma UnmappedRow(t: Table, ps: seq<Patient>, i: nat)
    requires PatientTable.Valid(t) && ps != []
    requires i < |t.rows|
    requires t.rows[i].chartNumber == EMPTY_CHART_NUMBER ==> (t.rows[i].name, t.rows[i].phone) !in CandidatePairs(ps)
    ensures forall P | P in ClaimStart(t, ps).ids :: ClaimStart(t, ps).ids[P] != t.rows[i].id
  {
    var ids := ClaimStart(t, ps).ids;
    var empties := FindPatientsWithEmptyChart(t.rows, ps).value;
    assert t.rows[i] !in empties;
    assert PlaceholderRowsOf(t.rows, empties);
    forall P | P in ids ensures ids[P] != t.rows[i].id {
      var m := PlaceholderMapSource(t.rows, empties, P);
      assert t.rows[m] in empties || m != i;
    }
  }

  /**
   * A placeholder row's pair key maps to that row when phones carry no hyphen:
   * the map's entry for the pair is the id of a placeholder row of the same
   * name and phone, and the unique constraint makes it this row.
   */
  lemma PlaceholderMapped(t: Table, ps: seq<Patient>, i: nat)
    requires PatientTable.Valid(t) && PhonesHyphenFree(t.rows, ps) && ps != []
    requires i < |t.rows| && t.rows[i].chartNumber == EMPTY_CHART_NUMBER
    requires (t.rows[i].name, t.rows[i].phone) in CandidatePairs(ps)
    ensures PairKey(t.rows[i].name, t.rows[i].phone) in ClaimStart(t, ps).ids
    ensures ClaimStart(t, ps).ids[PairKey(t.rows[i].name, t.rows[i].phone)] == t.rows[i].id
  {
    var empties := FindPatientsWithEmptyChart(t.rows, ps).value;
    assert PlaceholderRowsOf(t.rows, empties);
    assert t.rows[i] in empties;
    PlaceholderMapOwnRow(t.rows, empties, i);
  }

  /** A candidate's key is an exact match exactly when some row of the table holds it. */
  lemma ExactOfIsTableKeys(t: Table, ps: seq<Patient>, k: nat)
    requires ps != [] && k < |ps|
    ensures PatientKey(ps[k]) in ExactOf(t, ps) <==> PatientKey(ps[k]) in KeySet(t.rows)
  {
    var existing := FindExistingPatients(t.rows, ps).value;
    if PatientKey(ps[k]) in KeySet(t.rows) {
      var r :| r in t.rows && RowKey(r) == PatientKey(ps[k]);
      assert r in existing;
    }
  }

  /** The claims write the first no-match candidate of a placeholder's pair into the placeholder row. */
  lemma ClaimedPlaceholder(t: Table, ps: seq<Patient>, i: nat, j: nat)
    requires PatientTable.Valid(t) && PhonesHyphenFree(t.rows, ps)
    requires i < |t.rows| && t.rows[i].chartNumber == EMPTY_CHART_NUMBER
    requires j < |ps| && ps[j].name == t.rows[i].name && ps[j].phone == t.rows[i].phone
    requires PatientKey(ps[j]) !in KeySet(t.rows)
    requires forall k | 0 <= k < j && ps[k].name == ps[j].name && ps[k].phone == ps[j].phone ::
      PatientKey(ps[k]) in KeySet(t.rows)
    ensures i < |ClaimedTable(t, ps).rows|
    ensures ClaimedTable(t, ps).rows[i] == SetFields(t.rows[i], ps[j])
  {
    var st := ClaimStart(t, ps);
    var exact := ExactOf(t, ps);
    assert (t.rows[i].name, t.rows[i].phone) in CandidatePairs(ps) by { assert ps[j] in ps; }
    PlaceholderMapped(t, ps, i);
    assert PairKeyOf(ps[j]) in st.ids && st.ids[PairKeyOf(ps[j])] == st.rows[i].id;
    InitialClaimInv(t, ps);
    ExactOfIsTableKeys(t, ps, j);
    assert PatientKey(ps[j]) !in exact;
    EarlierOfPairAreExact(t, ps, j);
    ClaimFirst(st, ps, exact, i, j);
    assert Claims(t, ps) == ClaimAll(st, Claimers(ps, exact));
  }

  /** The earlier candidates of `ps[j]`'s pair key, all with rows of their own, are exact matches. */
  lemma EarlierOfPairAreExact(t: Table, ps: seq<Patient>, j: nat)
    requires PhonesHyphenFree(t.rows, ps)
    requires j < |ps|
    requires forall k | 0 <= k < j && ps[k].name == ps[j].name && ps[k].phone == ps[j].phone ::
      PatientKey(ps[k]) in KeySet(t.rows)
    ensures forall k | 0 <= k < j && PairKeyOf(ps[k]) == PairKeyOf(ps[j]) :: PatientKey(ps[k]) in ExactOf(t, ps)
  {
    forall k | 0 <= k < j && PairKeyOf(ps[k]) == PairKeyOf(ps[j]) ensures PatientKey(ps[k]) in ExactOf(t, ps) {
      PairKeyInjective(ps[k].name, ps[k].phone, ps[j].name, ps[j].phone);
      ExactOfIsTableKeys(t, ps, k);
    }
  }

  /**
   * With no exact match, the first candidate of a (name, phone) pair takes over
   * the pair's placeholder row: the row keeps its place and id and now holds
   * that candidate's key, chart number included.
   */
  lemma FirstClaimerTakesPlaceholder(t: Table, ps: seq<Patient>, i: nat, j: nat)
    requires PatientTable.Valid(t) && PhonesHyphenFree(t.rows, ps)
    requires i < |t.rows| && t.rows[i].chartNumber == EMPTY_CHART_NUMBER
    requires j < |ps| && ps[j].name == t.rows[i].name && ps[j].phone == t.rows[i].phone
    requires PatientKey(ps[j]) !in KeySet(t.rows)
    requires forall k | 0 <= k < j && ps[k].name == ps[j].name && ps[k].phone == ps[j].phone ::
      PatientKey(ps[k]) in KeySet(t.rows)
    ensures var after := ReconcileSpec(t, ps);
      i < |after.rows| && after.rows[i].id == t.rows[i].id && RowKey(after.rows[i]) == PatientKey(ps[j])
  {
    ClaimedPlaceholder(t, ps, i, j);
    ClaimedValid(t, ps);
    UpsertAllValid(ClaimedTable(t, ps), ps);
  }

  /**
   * When a placeholder is claimed and no candidate itself carries the
   * placeholder's key, no row is left under that key. Where the later
   * candidates of the pair go is LaterOfPairInserted.
   */
  lemma PlaceholderAbsorbed(t: Table, ps: seq<Patient>, i: nat, j: nat)
    requires PatientTable.Valid(t) && PhonesHyphenFree(t.rows, ps)
    requires i < |t.rows| && t.rows[i].chartNumber == EMPTY_CHART_NUMBER
    requires j < |ps| && ps[j].name == t.rows[i].name && ps[j].phone == t.rows[i].phone
    requires PatientKey(ps[j]) !in KeySet(t.rows)
    requires forall k | 0 <= k < j && ps[k].name == ps[j].name && ps[k].phone == ps[j].phone ::
      PatientKey(ps[k]) in KeySet(t.rows)
    requires RowKey(t.rows[i]) !in PatientKeys(ps)
    ensures RowKey(t.rows[i]) !in KeySet(ReconcileSpec(t, ps).rows)
  {
    ClaimedDropsKey(t, ps, i, j);
    UpsertAllKeys(ClaimedTable(t, ps), ps);
  }

  /**
   * A later candidate of a claimed placeholder's (name, phone) pair whose key
   * is new does not take the placeholder: it is inserted as a row of its own,
   * after every row the table held and so with a larger id than the
   * placeholder row.
   */
  lemma LaterOfPairInserted(t: Table, ps: seq<Patient>, i: nat, j: nat, j2: nat)
    requires PatientTable.Valid(t)
    requires i < |t.rows| && t.rows[i].chartNumber == EMPTY_CHART_NUMBER
    requires j < j2 < |ps| && ps[j].name == t.rows[i].name && ps[j].phone == t.rows[i].phone
    requires ps[j2].name == ps[j].name && ps[j2].phone == ps[j].phone
    requires PatientKey(ps[j]) !in KeySet(t.rows)
    requires forall k | 0 <= k < j && ps[k].name == ps[j].name && ps[k].phone == ps[j].phone ::
      PatientKey(ps[k]) in KeySet(t.rows)
    requires PatientKey(ps[j2]) !in KeySet(t.rows) && PatientKey(ps[j2]) != PatientKey(ps[j])
    ensures var after := ReconcileSpec(t, ps);
      && IndexOfKey(after.rows, PatientKey(ps[j2])).Some?
      && IndexOfKey(after.rows, PatientKey(ps[j2])).value >= |t.rows|
      && i < |after.rows|
      && after.rows[IndexOfKey(after.rows, PatientKey(ps[j2])).value].id > after.rows[i].id
  {
    var claimed := ClaimedTable(t, ps);
    var after := ReconcileSpec(t, ps);
    ClaimedKeepsLaterOut(t, ps, j, j2);
    ClaimedValid(t, ps);
    UpsertAllValid(claimed, ps);
    UpsertAllCovers(claimed, ps, j2);
  }

  /** The claims leave no row under the new key of a later candidate of a claimer's pair. */
  lemma ClaimedKeepsLaterOut(t: Table, ps: seq<Patient>, j: nat, j2: nat)
    requires PatientTable.Valid(t)
    requires j < j2 < |ps| && ps[j2].name == ps[j].name && ps[j2].phone == ps[j].phone
    requires PatientKey(ps[j]) !in KeySet(t.rows)
    requires forall k | 0 <= k < j && ps[k].name == ps[j].name && ps[k].phone == ps[j].phone ::
      PatientKey(ps[k]) in KeySet(t.rows)
    requires PatientKey(ps[j2]) !in KeySet(t.rows) && PatientKey(ps[j2]) != PatientKey(ps[j])
    ensures PatientKey(ps[j2]) !in KeySet(ClaimedTable(t, ps).rows)
  {
    var st, exact := ClaimStart(t, ps), ExactOf(t, ps);
    InitialClaimInv(t, ps);
    ExactOfIsTableKeys(t, ps, j);
    NoEarlierCarrier(t, ps, j, j2);
    ClaimAllKeepsLaterOut(st, ps, exact, j, ps[j2]);
    assert Claims(t, ps) == ClaimAll(st, Claimers(ps, exact));
  }

  /** Up to the first claimer of the pair, no candidate carries the later candidate's new key. */
  lemma NoEarlierCarrier(t: Table, ps: seq<Patient>, j: nat, j2: nat)
    requires j < j2 < |ps| && ps[j2].name == ps[j].name && ps[j2].phone == ps[j].phone
    requires forall k | 0 <= k < j && ps[k].name == ps[j].name && ps[k].phone == ps[j].phone ::
      PatientKey(ps[k]) in KeySet(t.rows)
    requires PatientKey(ps[j2]) !in KeySet(t.rows) && PatientKey(ps[j2]) != PatientKey(ps[j])
    ensures forall k | 0 <= k <= j :: PatientKey(ps[k]) != PatientKey(ps[j2])
  {
    forall k | 0 <= k < j ensures PatientKey(ps[k]) != PatientKey(ps[j2]) {
      if ps[k].name == ps[j].name && ps[k].phone == ps[j].phone {
        assert PatientKey(ps[k]) in KeySet(t.rows);
      }
    }
  }

  /**
   * Key `q` stays unheld through the loop when a claimer of `q`'s pair key
   * comes, at `j`, before any candidate carrying `q`'s key.
   */
  lemma {:induction false} ClaimAllKeepsLaterOut(st: ClaimState, ps: seq<Patient>, exact: set<Key>, j: nat, q: Patient)
    requires ClaimInv(st, ps, exact) && PatientKey(q) !in KeySet(st.rows)
    requires j < |ps| && PatientKey(ps[j]) !in exact && PairKeyOf(ps[j]) == PairKeyOf(q)
    requires forall k | 0 <= k <= j :: PatientKey(ps[k]) != PatientKey(q)
    ensures PatientKey(q) !in KeySet(ClaimAll(st, Claimers(ps, exact)).rows)
    decreases j
  {
    var next, rest := ClaimNext(st, ps[0], exact), ps[1..];
    ClaimersStep(st, ps, exact);
    ClaimStep(st, ps, exact);
    ClaimNextKeepsOut(st, ps, exact, q);
    if j == 0 {
      ClaimAllKeepsOut(next, rest, exact, q);
    } else {
      assert rest[j - 1] == ps[j];
      assert forall k | 0 <= k <= j - 1 :: rest[k] == ps[k + 1];
      ClaimAllKeepsLaterOut(next, rest, exact, j - 1, q);
    }
  }

  /** Once `q`'s pair key is off the map, no claim can write `q`'s key. */
  lemma {:induction false} ClaimAllKeepsOut(st: ClaimState, ps: seq<Patient>, exact: set<Key>, q: Patient)
    requires ClaimInv(st, ps, exact) && PatientKey(q) !in KeySet(st.rows) && PairKeyOf(q) !in st.ids
    ensures PatientKey(q) !in KeySet(ClaimAll(st, Claimers(ps, exact)).rows)
    decreases |ps|
  {
    if ps != [] {
      ClaimersStep(st, ps, exact);
      ClaimStep(st, ps, exact);
      ClaimNextKeepsOut(st, ps, exact, q);
      ClaimAllKeepsOut(ClaimNext(st, ps[0], exact), ps[1..], exact, q);
    }
  }

  /**
   * One candidate does not write `q`'s key when it carries another key or when
   * `q`'s pair key is off the map; and a claimer takes its pair key off the map.
   */
  lemma ClaimNextKeepsOut(st: ClaimState, ps: seq<Patient>, exact: set<Key>, q: Patient)
    requires ps != [] && ClaimInv(st, ps, exact) && PatientKey(q) !in KeySet(st.rows)
    requires PatientKey(ps[0]) != PatientKey(q) || PairKeyOf(q) !in st.ids
    ensures var next := ClaimNext(st, ps[0], exact);
      && PatientKey(q) !in KeySet(next.rows)
      && next.ids.Keys <= st.ids.Keys
      && (PatientKey(ps[0]) !in exact ==> PairKeyOf(ps[0]) !in next.ids)
  {
    if PatientKey(ps[0]) !in exact && PairKeyOf(ps[0]) in st.ids {
      ClaimStepTaken(st, ps, exact);
      var i := IndexOfId(st.rows, st.ids[PairKeyOf(ps[0])]).value;
      NewKeyStaysNew(st.rows, i, SetFields(st.rows[i], ps[0]), q);
    }
  }

  /** Once the placeholder is claimed, no row of the claimed table holds its old key. */
  lemma ClaimedDropsKey(t: Table, ps: seq<Patient>, i: nat, j: nat)
    requires PatientTable.Valid(t) && PhonesHyphenFree(t.rows, ps)
    requires i < |t.rows| && t.rows[i].chartNumber == EMPTY_CHART_NUMBER
    requires j < |ps| && ps[j].name == t.rows[i].name && ps[j].phone == t.rows[i].phone
    requires PatientKey(ps[j]) !in KeySet(t.rows)
    requires forall k | 0 <= k < j && ps[k].name == ps[j].name && ps[k].phone == ps[j].phone ::
      PatientKey(ps[k]) in KeySet(t.rows)
    requires RowKey(t.rows[i]) !in PatientKeys(ps)
    ensures RowKey(t.rows[i]) !in KeySet(ClaimedTable(t, ps).rows)
  {
    var claimed := ClaimedTable(t, ps);
    var placeholder := RowKey(t.rows[i]);
    ClaimedPlaceholder(t, ps, i, j);
    ClaimedValid(t, ps);
    assert PatientKey(ps[j]) in PatientKeys(ps) by { assert ps[j] in ps; }
    forall m | 0 <= m < |claimed.rows| ensures RowKey(claimed.rows[m]) != placeholder {
      if m != i {
        ClaimedKeyAt(t, ps, m);
      }
    }
  }

  /** Each row of the claimed table is the row as it was or holds a candidate's key. */
  lemma ClaimedKeyAt(t: Table, ps: seq<Patient>, m: nat)
    requires PatientTable.Valid(t) && ps != [] && m < |t.rows|
    ensures m < |ClaimedTable(t, ps).rows|
    ensures ClaimedTable(t, ps).rows[m] == t.rows[m] || RowKey(ClaimedTable(t, ps).rows[m]) in PatientKeys(ps)
  {
    InitialClaimInv(t, ps);
    ClaimAllKeysAt(ClaimStart(t, ps), ps, ExactOf(t, ps), m);
  }

  /**
   * When every candidate of a placeholder's (name, phone) pair has an exact
   * match, the exact rows take the updates and the placeholder row, whose key
   * no candidate carries, is left as it was.
   */
  lemma ExactMatchLeavesPlaceholder(t: Table, ps: seq<Patient>, i: nat)
    requires PatientTable.Valid(t) && PhonesHyphenFree(t.rows, ps)
    requires i < |t.rows| && t.rows[i].chartNumber == EMPTY_CHART_NUMBER
    requires forall k | 0 <= k < |ps| && ps[k].name == t.rows[i].name && ps[k].phone == t.rows[i].phone ::
      PatientKey(ps[k]) in KeySet(t.rows)
    requires RowKey(t.rows[i]) !in PatientKeys(ps)
    ensures i < |ReconcileSpec(t, ps).rows| && ReconcileSpec(t, ps).rows[i] == t.rows[i]
  {
    if ps != [] {
      var st := ClaimStart(t, ps);
      var exact := ExactOf(t, ps);
      var empties := FindPatientsWithEmptyChart(t.rows, ps).value;
      assert PlaceholderRowsOf(t.rows, empties);
      forall k | 0 <= k < |ps| && PatientKey(ps[k]) !in exact && PairKeyOf(ps[k]) in st.ids
        ensures st.ids[PairKeyOf(ps[k])] != t.rows[i].id
      {
        var P := PairKeyOf(ps[k]);
        if st.ids[P] == t.rows[i].id {
          var m := PlaceholderMapSource(t.rows, empties, P);
          assert m == i;
          PairKeyInjective(t.rows[i].name, t.rows[i].phone, ps[k].name, ps[k].phone);
          ExactOfIsTableKeys(t, ps, k);
        }
      }
      ClaimAllUntouchedRow(st, ps, exact, i);
      ClaimedValid(t, ps);
      UpsertAllUntouched(ClaimedTable(t, ps), ps, i);
    }
  }

  /**
   * Without placeholder rows for the candidates' pairs the reconciliation is
   * one upsert, and the table ends with one row per distinct key, old or new.
   */
  lemma ReconcileWithoutPlaceholders(t: Table, ps: seq<Patient>)
    requires PatientTable.Valid(t)
    requires forall i | 0 <= i < |t.rows| && t.rows[i].chartNumber == EMPTY_CHART_NUMBER ::
      (t.rows[i].name, t.rows[i].phone) !in CandidatePairs(ps)
    ensures ReconcileSpec(t, ps) == UpsertAll(t, ps)
    ensures |ReconcileSpec(t, ps).rows| == |KeySet(t.rows) + PatientKeys(ps)|
  {
    if ps != [] {
      var claimed := ClaimedTable(t, ps);
      ClaimedValid(t, ps);
      forall i | 0 <= i < |t.rows| ensures claimed.rows[i] == t.rows[i] {
        ClaimAllFrame(ClaimStart(t, ps), Claimers(ps, ExactOf(t, ps)), i);
      }
      assert claimed == t;
    }
    UpsertAllCount(t, ps);
  }
}
