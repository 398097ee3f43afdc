/**
 * `PatientService.upload` of the current service: drop repeated spreadsheet
 * rows (the first row with a key wins), convert the kept rows to entities,
 * reconcile them with the table and count what was written.
 */
module PatientService {
  import opened Wrappers
  import opened Text
  import opened PatientEntity
  import opened UploadRequest
  import opened FirstWins
  import opened Batching
  import opened PatientTable
  import opened PatientRepository
  import opened Reconciliation

  /** `chart_number || 'empty'`: an absent or empty chart number reads as `'empty'`. */
  function ChartKey(chartNumber: Option<string>): (c: string)
    ensures c == EMPTY_CHART_NUMBER <==>
      chartNumber.None? || chartNumber.value == "" || chartNumber.value == EMPTY_CHART_NUMBER
    ensures c != EMPTY_CHART_NUMBER ==> chartNumber == Some(c)
  {
    if chartNumber.None? || chartNumber.value == "" then EMPTY_CHART_NUMBER else chartNumber.value
  }

  // ---------------------------------------------------------------------
  // The duplicate key

  /** The key exactly as the loop spells it: `${name}-${phone}-${chart_number || 'empty'}`. */
  function KeyString(req: PatientUploadRequest): (s: string)
    ensures |s| == |req.name| + |req.phone| + |ChartKey(req.chartNumber)| + 2
    ensures s[..|req.name| + 1] == req.name + "-"
    ensures EndsWith(s, "-" + ChartKey(req.chartNumber))
  {
    req.name + "-" + req.phone + "-" + ChartKey(req.chartNumber)
  }

  /** The key the loop means: the three fields kept apart instead of joined by hyphens. */
  datatype DedupKey = DedupKey(name: string, phone: string, chart: string)

  function KeyOf(req: PatientUploadRequest): (k: DedupKey)
    ensures k.chart == StoredChartNumber(req.chartNumber) <==> req.chartNumber != Some("")
  {
    DedupKey(req.name, req.phone, ChartKey(req.chartNumber))
  }

  /**
   * Joining with hyphens loses nothing while names and phones carry no hyphen:
   * then the string key and the field key tell the same rows apart.
   */
  lemma KeyStringAgrees(a: PatientUploadRequest, b: PatientUploadRequest)
    requires '-' !in a.name && '-' !in b.name && '-' !in a.phone && '-' !in b.phone
    ensures KeyString(a) == KeyString(b) <==> KeyOf(a) == KeyOf(b)
  {
    JoinedFieldsAgree(a.name, a.phone, ChartKey(a.chartNumber), b.name, b.phone, ChartKey(b.chartNumber));
  }

  /**
   * A name may contain a hyphen, and then two different patients share a
   * string key: the second one of this upload is dropped by the string key
   * although the field key keeps both.
   */
  lemma KeyStringCollides()
    ensures var a := PatientUploadRequest(Some("x"), "A-01012345678", "01012345678", "900101", None, None);
            var b := PatientUploadRequest(Some("01012345678-x"), "A", "01012345678", "900101", None, None);
            && KeyOf(a) != KeyOf(b)
            && KeyString(a) == KeyString(b)
            && FirstOccurrences([a, b], KeyString) == [a]
            && FirstOccurrences([a, b], KeyOf) == [a, b]
  {
    var a := PatientUploadRequest(Some("x"), "A-01012345678", "01012345678", "900101", None, None);
    var b := PatientUploadRequest(Some("01012345678-x"), "A", "01012345678", "900101", None, None);
    assert KeyString(a) == KeyString(b);
    TwoRows(a, b, KeyString);
    TwoRows(a, b, KeyOf);
  }

  /** An absent chart number, an empty one and the literal `'empty'` are one key. */
  lemma AbsentChartIsEmpty(req: PatientUploadRequest)
    ensures KeyOf(req.(chartNumber := None)) == KeyOf(req.(chartNumber := Some("")))
    ensures KeyOf(req.(chartNumber := None)) == KeyOf(req.(chartNumber := Some(EMPTY_CHART_NUMBER)))
    ensures FirstOccurrences([req.(chartNumber := None), req.(chartNumber := Some(""))], KeyOf)
            == [req.(chartNumber := None)]
    ensures StoredChartNumber(Some("")) != StoredChartNumber(None)
  {
    TwoRows(req.(chartNumber := None), req.(chartNumber := Some("")), KeyOf);
  }

  /** Rows whose chart numbers read differently, such as absent and `'001'`, are both kept. */
  lemma DifferentChartsKept(a: PatientUploadRequest, b: PatientUploadRequest)
    requires ChartKey(a.chartNumber) != ChartKey(b.chartNumber)
    ensures FirstOccurrences([a, b], KeyOf) == [a, b]
  {
    TwoRows(a, b, KeyOf);
  }

  /**
   * The key uses the phone as typed: `x-y-z` and `xyz` are different keys
   * although both become the same stored phone.
   */
  lemma RawPhoneInKey(req: PatientUploadRequest, x: string, y: string, z: string)
    requires '-' !in x && '-' !in y && '-' !in z
    ensures var hyphenated := req.(phone := x + "-" + y + "-" + z);
            var plain := req.(phone := x + y + z);
            && KeyOf(hyphenated) != KeyOf(plain)
            && ToEntity(hyphenated).phone == ToEntity(plain).phone
            && FirstOccurrences([hyphenated, plain], KeyOf) == [hyphenated, plain]
  {
    var hyphenated := req.(phone := x + "-" + y + "-" + z);
    var plain := req.(phone := x + y + z);
    assert |hyphenated.phone| != |plain.phone|;
    StripHyphensOfGroups(x, y, z);
    TwoRows(hyphenated, plain, KeyOf);
  }

  /** Removing the hyphens of `x-y-z` leaves `xyz`. */
  lemma StripHyphensOfGroups(x: string, y: string, z: string)
    requires '-' !in x && '-' !in y && '-' !in z
    ensures StripHyphens(x + "-" + y + "-" + z) == x + y + z
  {
    var head := x + "-" + y;
    assert x + "-" + y + "-" + z == head + ("-" + z);
    assert head == x + ("-" + y);
    StripHyphensAppend(head, "-" + z);
    StripHyphensAppend(x, "-" + y);
    assert ("-" + y)[1..] == y && ("-" + z)[1..] == z;
    assert StripHyphens("-" + y) == y;
    assert StripHyphens("-" + z) == z;
  }

  /** Rows that all share one key keep only the first: three identical rows count once. */
  lemma IdenticalRowsKeepFirst(dto: seq<PatientUploadRequest>)
    requires |dto| >= 1
    requires forall i | 0 <= i < |dto| :: KeyOf(dto[i]) == KeyOf(dto[0])
    ensures FirstOccurrences(dto, KeyOf) == [dto[0]]
    ensures |KeysOf(dto, KeyOf)| == 1
  {
    SameKeyKeepsFirst(dto, KeyOf);
    FirstOccurrencesCount(dto, KeyOf);
  }

  // ---------------------------------------------------------------------
  // The loops

  /**
   * The `for (const data of dto)` loop: a row whose key is already in
   * `uniqueMap` is skipped; otherwise its entity is pushed and stored under
   * its key. Kept entities come in input order, one per distinct key, and
   * each is the entity of the first row carrying that key.
   */
  method Deduplicate(dto: seq<PatientUploadRequest>)
    returns (patients: seq<Patient>, uniqueMap: map<DedupKey, Patient>)
    ensures patients == Converted(FirstOccurrences(dto, KeyOf), ToEntity)
    ensures uniqueMap.Keys == KeysOf(dto, KeyOf)
    ensures |patients| == |uniqueMap|
    ensures PushedUnder(FirstOccurrences(dto, KeyOf), uniqueMap, KeyOf, ToEntity)
    ensures forall k | k in uniqueMap :: uniqueMap[k] == ToEntity(dto[FirstIndex(dto, KeyOf, k)])
  {
    patients := [];
    uniqueMap := map[];
    ghost var kept: seq<PatientUploadRequest> := [];
    var i := 0;
    while i < |dto|
      invariant i <= |dto|
      invariant kept == FirstOccurrences(dto[..i], KeyOf)
      invariant patients == Converted(kept, ToEntity)
      invariant uniqueMap.Keys == KeysOf(kept, KeyOf)
      invariant PushedUnder(kept, uniqueMap, KeyOf, ToEntity)
    {
      var data := dto[i];
      var key := KeyOf(data);
      DedupStep(dto, i);
      if key !in uniqueMap {
        var patient := ToEntity(data);
        ConvertedSnoc(kept, data, ToEntity);
        patients := patients + [patient];
        PushedUnderStep(kept, uniqueMap, KeyOf, ToEntity, data);
        uniqueMap := uniqueMap[key := patient];
        kept := kept + [data];
      }
      i := i + 1;
    }
    assert dto[..i] == dto;
    PushedUnderFirst(dto, uniqueMap, KeyOf, ToEntity);
  }

  /** One turn of the loop over `dto`. */
  lemma DedupStep(dto: seq<PatientUploadRequest>, i: nat)
    requires i < |dto|
    ensures var kept := FirstOccurrences(dto[..i], KeyOf);
      && (KeyOf(dto[i]) in KeysOf(kept, KeyOf) ==> FirstOccurrences(dto[..i + 1], KeyOf) == kept)
      && (KeyOf(dto[i]) !in KeysOf(kept, KeyOf) ==>
           && FirstOccurrences(dto[..i + 1], KeyOf) == kept + [dto[i]]
           && KeysOf(kept + [dto[i]], KeyOf) == KeysOf(kept, KeyOf) + {KeyOf(dto[i])})
  {
    assert dto[..i + 1] == dto[..i] + [dto[i]];
    FirstOccurrencesSnoc(dto[..i], dto[i], KeyOf);
  }

  /** The number of rows the insert results report, summed over the results. */
  function TotalIdentifiers(results: seq<InsertResult>): nat {
    if results == [] then 0 else |results[0].identifiers| + TotalIdentifiers(results[1..])
  }

  /** The `count += result.identifiers.length` loop. */
  method SumIdentifiers(results: seq<InsertResult>) returns (count: nat)
    ensures count == TotalIdentifiers(results)
    ensures results == [] ==> count == 0
  {
    count := 0;
    var k := 0;
    while k < |results|
      invariant k <= |results|
      invariant count + TotalIdentifiers(results[k..]) == TotalIdentifiers(results)
    {
      assert results[k..][1..] == results[k + 1..];
      count := count + |results[k].identifiers|;
      k := k + 1;
    }
  }

  /** Results that report no identifiers add up to 0. */
  lemma {:induction false} NoIdentifiersCountZero(results: seq<InsertResult>)
    requires forall k | 0 <= k < |results| :: results[k].identifiers == []
    ensures TotalIdentifiers(results) == 0
  {
    if results != [] {
      assert results[0].identifiers == [];
      NoIdentifiersCountZero(results[1..]);
    }
  }

  /**
   * The count as written misses every row: for any non-empty upload the
   * inserts report no identifiers, so the sum is 0, while at least one
   * distinct key, and so at least one row, was written.
   */
  lemma ReportedCountMissesRows(dto: seq<PatientUploadRequest>, results: seq<InsertResult>)
    requires dto != []
    requires forall k | 0 <= k < |results| :: results[k].identifiers == []
    ensures TotalIdentifiers(results) == 0 < |KeysOf(dto, KeyOf)|
  {
    NoIdentifiersCountZero(results);
    KeysOfNonEmpty(dto, KeyOf);
  }

  /**
   * `upload` as written: deduplicate, reconcile with the table, and add up
   * the identifiers the insert results report. The inserts report none, so
   * the count is 0 whatever was written.
   */
  method Upload(store: PatientStore, dto: seq<PatientUploadRequest>) returns (count: nat)
    requires store.Valid()
    modifies store
    ensures store.Valid()
    ensures store.State() == ReconcileSpec(old(store.State()), Converted(FirstOccurrences(dto, KeyOf), ToEntity))
    ensures count == 0
  {
    var patients, uniqueMap := Deduplicate(dto);
    var results := BulkInsertOrUpdate(store, patients);
    count := SumIdentifiers(results);
    NoIdentifiersCountZero(results);
  }

  /**
   * `upload` with the count its tests expect: the number of entities handed
   * to the reconciliation, which is the number of distinct keys in the upload.
   */
  method UploadCountingWritten(store: PatientStore, dto: seq<PatientUploadRequest>) returns (count: nat)
    requires store.Valid()
    modifies store
    ensures store.Valid()
    ensures store.State() == ReconcileSpec(old(store.State()), Converted(FirstOccurrences(dto, KeyOf), ToEntity))
    ensures count == |KeysOf(dto, KeyOf)|
    ensures dto == [] ==> count == 0 && store.State() == old(store.State())
  {
    var patients, uniqueMap := Deduplicate(dto);
    var results := BulkInsertOrUpdate(store, patients);
    count := |patients|;
  }
}
