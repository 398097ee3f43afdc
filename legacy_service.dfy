/**
 * `PatientService.upload` of the older service: rows failing the `PatientDTO`
 * rules are skipped, repeated rows are dropped (the first row with a key
 * wins), and the kept entities go to the transactional batch writer.
 */
module LegacyService {
  import opened Wrappers
  import opened Text
  import opened PatientEntity
  import Dto = PatientDto
  import opened FirstWins
  import opened Batching
  import opened LegacyRepository
  import PatientService

  /** `chart_number || ''`: an absent chart number reads as the empty string. */
  function LegacyChartKey(chartNumber: Option<string>): (c: string)
    ensures c == "" <==> chartNumber.None? || chartNumber.value == ""
    ensures c != "" ==> chartNumber == Some(c)
  {
    if chartNumber.None? then "" else chartNumber.value
  }

  /** The key exactly as the loop spells it: `${name}-${phone}-${chart_number || ''}`. */
  function LegacyKeyString(dto: Dto.PatientDto): (s: string)
    ensures |s| == |dto.name| + |dto.phone| + |LegacyChartKey(dto.chartNumber)| + 2
    ensures s[..|dto.name| + 1] == dto.name + "-"
    ensures EndsWith(s, "-" + LegacyChartKey(dto.chartNumber))
  {
    dto.name + "-" + dto.phone + "-" + LegacyChartKey(dto.chartNumber)
  }

  /** The key the loop means, with the three fields kept apart. */
  function LegacyKeyOf(dto: Dto.PatientDto): (k: PatientService.DedupKey)
    ensures k.chart == "" <==> dto.chartNumber.None? || dto.chartNumber == Some("")
    ensures k.chart != "" ==> dto.chartNumber == Some(k.chart)
  {
    PatientService.DedupKey(dto.name, dto.phone, LegacyChartKey(dto.chartNumber))
  }

  /**
   * Valid phones are plain digits, so for rows whose names carry no hyphen
   * the string key and the field key tell the same rows apart.
   */
  lemma LegacyKeyStringAgrees(a: Dto.PatientDto, b: Dto.PatientDto)
    requires Dto.IsValid(a) && Dto.IsValid(b)
    requires '-' !in a.name && '-' !in b.name
    ensures LegacyKeyString(a) == LegacyKeyString(b) <==> LegacyKeyOf(a) == LegacyKeyOf(b)
  {
    DigitsHaveNoHyphen(a.phone);
    DigitsHaveNoHyphen(b.phone);
    JoinedFieldsAgree(a.name, a.phone, LegacyChartKey(a.chartNumber), b.name, b.phone, LegacyChartKey(b.chartNumber));
  }

  /** Two valid rows of different patients share a string key; the string key drops the second. */
  lemma LegacyKeyStringCollides()
    ensures var a := Dto.PatientDto(Some("x"), "A-01012345678", "01012345678", "900101", None, None);
            var b := Dto.PatientDto(Some("01012345678-x"), "A", "01012345678", "900101", None, None);
            && Dto.IsValid(a) && Dto.IsValid(b)
            && LegacyKeyOf(a) != LegacyKeyOf(b)
            && LegacyKeyString(a) == LegacyKeyString(b)
            && FirstOccurrences([a, b], LegacyKeyString) == [a]
            && FirstOccurrences([a, b], LegacyKeyOf) == [a, b]
  {
    var a := Dto.PatientDto(Some("x"), "A-01012345678", "01012345678", "900101", None, None);
    var b := Dto.PatientDto(Some("01012345678-x"), "A", "01012345678", "900101", None, None);
    assert AllDigits("01012345678");
    assert IsBirthDateOnly("900101");
    assert LegacyKeyString(a) == LegacyKeyString(b);
    TwoRows(a, b, LegacyKeyString);
    TwoRows(a, b, LegacyKeyOf);
  }

  /**
   * Unlike the current service, a literal `'empty'` chart number is a key of
   * its own here, while an absent and an empty chart number still share one.
   */
  lemma LiteralEmptyChartIsOwnKey(dto: Dto.PatientDto)
    ensures LegacyKeyOf(dto.(chartNumber := None)) != LegacyKeyOf(dto.(chartNumber := Some(EMPTY_CHART_NUMBER)))
    ensures LegacyKeyOf(dto.(chartNumber := None)) == LegacyKeyOf(dto.(chartNumber := Some("")))
    ensures PatientService.ChartKey(None) == PatientService.ChartKey(Some(EMPTY_CHART_NUMBER))
    ensures FirstOccurrences([dto.(chartNumber := None), dto.(chartNumber := Some(EMPTY_CHART_NUMBER))], LegacyKeyOf)
            == [dto.(chartNumber := None), dto.(chartNumber := Some(EMPTY_CHART_NUMBER))]
  {
    TwoRows(dto.(chartNumber := None), dto.(chartNumber := Some(EMPTY_CHART_NUMBER)), LegacyKeyOf);
  }

  /** The rows that pass validation, in input order. */
  ghost function ValidRows(rows: seq<Dto.PatientDto>): (valid: seq<Dto.PatientDto>)
    ensures |valid| <= |rows|
    ensures forall x | x in valid :: x in rows && Dto.IsValid(x)
    ensures forall x | x in rows && Dto.IsValid(x) :: x in valid
  {
    if rows == [] then []
    else
      var init := rows[..|rows| - 1];
      var last := rows[|rows| - 1];
      assert rows == init + [last];
      ValidRows(init) + if Dto.IsValid(last) then [last] else []
  }

  /** One turn of the loop over `rows`: an invalid row changes nothing, a valid one is offered to first-wins. */
  lemma DedupStep(rows: seq<Dto.PatientDto>, i: nat)
    requires i < |rows|
    ensures var kept := FirstOccurrences(ValidRows(rows[..i]), LegacyKeyOf);
      && (!Dto.IsValid(rows[i]) ==> ValidRows(rows[..i + 1]) == ValidRows(rows[..i]))
      && (Dto.IsValid(rows[i]) && LegacyKeyOf(rows[i]) in KeysOf(kept, LegacyKeyOf) ==>
           FirstOccurrences(ValidRows(rows[..i + 1]), LegacyKeyOf) == kept)
      && (Dto.IsValid(rows[i]) && LegacyKeyOf(rows[i]) !in KeysOf(kept, LegacyKeyOf) ==>
           && FirstOccurrences(ValidRows(rows[..i + 1]), LegacyKeyOf) == kept + [rows[i]]
           && KeysOf(kept + [rows[i]], LegacyKeyOf) == KeysOf(kept, LegacyKeyOf) + {LegacyKeyOf(rows[i])})
  {
    assert rows[..i + 1][..i] == rows[..i] && rows[..i + 1][i] == rows[i];
    if Dto.IsValid(rows[i]) {
      assert ValidRows(rows[..i + 1]) == ValidRows(rows[..i]) + [rows[i]];
      FirstOccurrencesSnoc(ValidRows(rows[..i]), rows[i], LegacyKeyOf);
    }
  }

  /**
   * The `for (const row of patientJson)` loop: invalid rows are skipped, a
   * row whose key is already in `uniqueMap` is skipped, otherwise its entity
   * is pushed and stored under its key.
   */
  method Deduplicate(rows: seq<Dto.PatientDto>, toEntity: Dto.PatientDto -> Patient)
    returns (patients: seq<Patient>, uniqueMap: map<PatientService.DedupKey, Patient>)
    ensures patients == Converted(FirstOccurrences(ValidRows(rows), LegacyKeyOf), toEntity)
    ensures uniqueMap.Keys == KeysOf(ValidRows(rows), LegacyKeyOf)
    ensures |patients| == |uniqueMap|
    ensures PushedUnder(FirstOccurrences(ValidRows(rows), LegacyKeyOf), uniqueMap, LegacyKeyOf, toEntity)
    ensures forall k | k in uniqueMap ::
      uniqueMap[k] == toEntity(ValidRows(rows)[FirstIndex(ValidRows(rows), LegacyKeyOf, k)])
  {
    patients := [];
    uniqueMap := map[];
    ghost var kept: seq<Dto.PatientDto> := [];
    var i := 0;
    while i < |rows|
      invariant i <= |rows|
      invariant kept == FirstOccurrences(ValidRows(rows[..i]), LegacyKeyOf)
      invariant patients == Converted(kept, toEntity)
      invariant uniqueMap.Keys == KeysOf(kept, LegacyKeyOf)
      invariant PushedUnder(kept, uniqueMap, LegacyKeyOf, toEntity)
    {
      var dto := rows[i];
      DedupStep(rows, i);
      if Dto.IsValid(dto) {
        var key := LegacyKeyOf(dto);
        if key !in uniqueMap {
          var patient := toEntity(dto);
          ConvertedSnoc(kept, dto, toEntity);
          patients := patients + [patient];
          PushedUnderStep(kept, uniqueMap, LegacyKeyOf, toEntity, dto);
          uniqueMap := uniqueMap[key := patient];
          kept := kept + [dto];
        }
      }
      i := i + 1;
    }
    assert rows[..i] == rows;
    PushedUnderFirst(ValidRows(rows), uniqueMap, LegacyKeyOf, toEntity);
  }

  /** The entities the older upload hands to the writer. */
  ghost function KeptEntities(rows: seq<Dto.PatientDto>, toEntity: Dto.PatientDto -> Patient): seq<Patient> {
    Converted(FirstOccurrences(ValidRows(rows), LegacyKeyOf), toEntity)
  }

  /**
   * `upload`: the kept entities are written in batches of the default size;
   * the result is the number of kept rows, one per distinct key among the
   * valid rows, or the writer's error, in which case the table is as before.
   */
  method Upload(repository: LegacyPatientRepository, rows: seq<Dto.PatientDto>,
                toEntity: Dto.PatientDto -> Patient, rejected: set<nat>)
    returns (r: Result<nat, InternalServerError>)
    requires LegacyValid(repository.table)
    modifies repository
    ensures LegacyValid(repository.table)
    ensures var ps := KeptEntities(rows, toEntity);
      && (r.Success? <==> ps == [] || !AnyRejected(|Chunks(ps, DEFAULT_BATCH_SIZE)|, rejected))
      && (r.Success? ==> r.value == |KeysOf(ValidRows(rows), LegacyKeyOf)|
                         && repository.table == LegacyUpsertAll(old(repository.table), ps))
      && (r.Failure? ==> repository.table == old(repository.table)
                         && r.error == InternalServerError(INTERNAL_ERROR_MESSAGE))
  {
    var patients, uniqueMap := Deduplicate(rows, toEntity);
    var written := repository.BulkInsertOrUpdate(patients, DEFAULT_BATCH_SIZE, rejected);
    if written.Failure? {
      return Failure(written.error);
    }
    r := Success(|patients|);
  }
}
