# patient-sync: batch import and reconcile, modelled in Dafny

This project models the core of patient-sync, a NestJS service that imports
patient rows from an uploaded spreadsheet into a MySQL `patients` table. The
table's unique key is (name, phone, chart_number), and a missing chart number
is stored as the placeholder `'empty'`. It models the following:

- **Entity normalisation** (`Patient.of`, `maskSSN`): the phone loses its
  hyphens, and the SSN is masked when it has one of the two shapes the masking
  rule recognises.
- **Field validation.** The decorators of the current upload request and of the
  older DTO are written as predicates over the characters of each field. Lemmas
  state what an accepted field becomes once it is normalised.
- **The current upload** (`service/patient.service.ts`):
  - a loop drops repeated rows, and the first row with a key wins;
  - the kept entities are reconciled with the table;
  - a second loop adds up the identifiers the inserts report. As written these
    are none, so the count is always 0 (see Findings).
- **The store primitives** (`repository/patient.repository.ts`):
  - an id-ordered page read;
  - the exact-key lookup and the placeholder lookup;
  - the upsert in slices of 5000;
  - placeholder claiming, which writes a patient into the row named by the
    caller's `name-phone` map and then deletes that map key.
- **The reconciliation.** The upload calls `bulkInsertOrUpdate(patients,
  uniqueMap)`, but no file of the repository defines it. It is composed here
  from the four primitives:
  - find the exact keys and the placeholder rows;
  - candidates without an exact match claim the placeholder row of their
    (name, phone) pair;
  - then every candidate is upserted.

  The end-to-end outcomes the integration tests describe are proved about this
  composition.
- **The older upload** (`patient.service.ts`): invalid rows are skipped, the key
  uses the `''` sentinel, and the first row with a key wins.
- **The older transactional writer** (`patient.repository.ts`): a
  start/commit/rollback/release state machine around the sliced upsert. It runs
  on the older schema, where `chart_number` is nullable.
- **Paging and the upload filter**: the paging arithmetic, the page wrapper, and
  the `.xlsx` file-name filter.

The table is a sequence of rows in ascending id order, with a counter that is
above every id (`PatientTable.Table`). Loops that mutate a map and an array
are methods with loop invariants. They are proved against functions of the
input: `FirstWins.FirstOccurrences`, `PatientTable.UpsertAll` and
`PatientRepository.ClaimAll`. The store and the older writer are classes
whose methods update the table in place.

## Model

| member | source | states |
|---|---|---|
| Text.StripHyphens | src/patient/domain/patient.entity.ts:52 | `replace(/-/g, '')`: the result holds no hyphen, is no longer than the input, and a hyphen-free input comes back unchanged |
| Text.StripHyphensKeepsOthers | src/patient/domain/patient.entity.ts:52 | every character other than `-` occurs in the result as often as in the input |
| Text.StripHyphensIdempotent | src/patient/domain/patient.entity.ts:52 | stripping hyphens twice is stripping them once |
| Text.StripHyphensAppend | src/patient/domain/patient.entity.ts:52 | stripping distributes over concatenation |
| PatientEntity.StoredChartNumber | src/patient/domain/patient.entity.ts:16-17 | the column default: an absent chart number is stored as `'empty'`, a present one as given |
| PatientEntity.NewRow | src/patient/domain/patient.entity.ts:10-32 | an inserted row carries the fresh id, the patient's unique key with the default applied, and its ssn, address and memo |
| PatientEntity.MaskSsn | src/patient/domain/patient.entity.ts:60-68 | a `6-7` number keeps its first 8 characters and becomes masked; a 6-digit birth date gets `-0******`; any other string is returned unchanged |
| PatientEntity.MaskedIsNotMaskable | src/patient/domain/patient.entity.ts:61-66 | a masked number matches neither input pattern |
| PatientEntity.MaskSsnIdempotent | src/patient/domain/patient.entity.ts:60-68 | masking a masked number changes nothing |
| PatientEntity.MaskedSsnFitsColumn | src/patient/domain/patient.entity.ts:25-66 | both masked shapes are 14 characters, within the 20-character `ssn` column |
| PatientEntity.Of | src/patient/domain/patient.entity.ts:40-58 | chart number, name, address and memo are copied as given (an absent chart number stays absent); the phone is hyphen-free; the ssn is masked |
| UploadRequest.ToEntity | src/patient/controller/request/patientUpload.request.ts:33-42 | `toEntity` is `Patient.of` on the fields in declaration order |
| UploadRequest.IsValidName | src/patient/controller/request/patientUpload.request.ts:9-11 | `@Length(1, 16)`: an accepted name is non-empty and fits the 16-character `name` column |
| UploadRequest.IsHyphenatedGroups | src/patient/controller/request/patientUpload.request.ts:14 | a match of `-?\d{m}-?\d{4}` is m+4 to m+6 characters long |
| UploadRequest.IsMobilePhone | src/patient/controller/request/patientUpload.request.ts:14 | an accepted mobile number starts with `01` and is 11 to 13 characters long |
| UploadRequest.IsAreaPhoneWith | src/patient/controller/request/patientUpload.request.ts:14 | one way of matching the area-code pattern, with `extra` digits for `\d?` and `mid` for `\d{3,4}`: the number is 6+extra+mid to 8+extra+mid characters long |
| UploadRequest.IsAreaPhone | src/patient/controller/request/patientUpload.request.ts:14 | an accepted area-code number starts with `0`, never with `01`, so no mobile number is also one; it is 9 to 13 characters long |
| UploadRequest.IsValidPhone | src/patient/controller/request/patientUpload.request.ts:13-17 | the `@Matches` rule on `phone`: an accepted phone starts with `0` and is 9 to 13 characters long, hyphens included |
| UploadRequest.IsValidMonth | src/patient/controller/request/patientUpload.request.ts:20 | an accepted month is two digits spelling 1 to 12 |
| UploadRequest.IsValidDay | src/patient/controller/request/patientUpload.request.ts:20 | an accepted day is two digits spelling 1 to 31 |
| UploadRequest.IsValidSsnTail | src/patient/controller/request/patientUpload.request.ts:20 | the optional `-?[1-4]\d{6}` tail is absent or 7 or 8 characters long |
| UploadRequest.IsValidSsn | src/patient/controller/request/patientUpload.request.ts:19-23 | the `@Matches` rule on `ssn`: an accepted ssn is 6, 13 or 14 characters long |
| UploadRequest.IsValid | src/patient/controller/request/patientUpload.request.ts:9-23 | every decorator together: an accepted request's name fits its column, its phone is 9 to 13 characters and its ssn at most 14 |
| UploadRequest.HyphenatedGroupsDigits | src/patient/controller/request/patientUpload.request.ts:14 | the `-?\d{m}-?\d{4}` tail of the phone pattern leaves exactly m+4 digits once hyphens are removed |
| UploadRequest.ValidPhoneDigits | src/patient/controller/request/patientUpload.request.ts:13-17 | every accepted phone (mobile or area code, optional hyphens) has 9 to 11 digits after stripping, within the 15-character column |
| UploadRequest.ValidSsnMasking | src/patient/controller/request/patientUpload.request.ts:19-23 | an accepted ssn has 6, 13 or 14 characters; 6 and 14 are masked, and the hyphen-less 13-digit form is stored unmasked |
| UploadRequest.ValidRequestFitsColumns | src/patient/controller/request/patientUpload.request.ts:9-23 | a valid request's entity fits the name and ssn columns and has an all-digit phone of 9 to 11 characters |
| PatientDto.ValidDtoIsMaskedAndFits | src/patient/patient.dto.ts:8-20 | an accepted DTO's phone is hyphen-free, so stripping leaves it alone, and fits its column; masking always turns its ssn into the masked shape; name and masked ssn fit their columns |
| PatientDto.IsValidName | src/patient/patient.dto.ts:8-10 | `@Length(1, 16)`: an accepted name is non-empty and fits the `name` column |
| PatientDto.IsValidPhone | src/patient/patient.dto.ts:12-14 | `/^\d{11}$/`: an accepted phone holds no hyphen and fits the 15-character `phone` column |
| PatientDto.IsValidSsn | src/patient/patient.dto.ts:16-20 | an accepted ssn is 6 or 14 characters long |
| PatientDto.IsValid | src/patient/patient.dto.ts:8-20 | every decorator together: an accepted DTO's name fits its column and its phone is 11 characters without a hyphen |
| Paging.GetLimit | src/utils/page.request.ts:33-35 | the limit is at least 10 and at least the page size, and is one of the two |
| Paging.GetPageNo | src/utils/page.request.ts:25-27 | `getPageNo()` returns the page number as given, without clamping |
| Paging.GetOffset | src/utils/page.request.ts:29-31 | `getOffset()` is never negative and is 0 from page 1 down |
| Paging.OffsetIsWholePages | src/utils/page.request.ts:29-35 | the offset is non-negative and a whole number of limits; it is 0 from page 1 down and (pageNo-1)·limit above |
| Paging.DefaultsAndExample | src/utils/page.request.ts:13-35 | the defaults (1, 10) give offset 0 and limit 10; page 6 of size 20 gives offset 100 and limit 20 |
| Paging.PageNoNotClamped | src/utils/page.request.ts:25-31 | a page number below 1 reads from offset 0, while `getPageNo()` still reports it as given |
| Paging.NewPage | src/utils/page.response.ts:7-12 | `totalCount` is the number of items on this page; limit, page number and items are kept as given |
| ExcelFilter.ExcelFileFilter | src/utils/excel.filter.ts:7-19 | the callback is called exactly once; the file is accepted iff its name ends in `.xlsx`; a refusal carries the bad-request error with the fixed message, an acceptance none |
| ExcelFilter.SuffixIsExactAndFinal | src/utils/excel.filter.ts:12 | `.XLSX` and `.xlsx.bak` are refused and `.xlsx` is accepted |
| Batching.Chunks | src/patient/repository/patient.repository.ts:83-84 | the slices are non-empty and at most the batch size, all but the last are full, they concatenate to the input, and there are none exactly for an empty input |
| Batching.ChunksStep | src/patient/repository/patient.repository.ts:83-84 | the slice starting at `i` ends at `min(i + size, n)` and the rest is the chunking of what follows |
| FirstWins.FirstOccurrences | src/patient/service/patient.service.ts:15-26 | the kept rows have the same keys as the input, pairwise distinct keys, and come from the input |
| FirstWins.KeptIsFirst | src/patient/service/patient.service.ts:15-26 | each kept row is the first input row with its key |
| FirstWins.KeptInFirstOrder | src/patient/service/patient.service.ts:15-26 | kept rows are in the order their keys first occur |
| FirstWins.FirstOccurrencesCount | src/patient/service/patient.service.ts:23-25 | there are as many kept rows as distinct keys |
| FirstWins.SameKeyKeepsFirst | src/patient/service/patient.service.ts:17-20 | rows all sharing one key keep only the first |
| FirstWins.TwoRows | src/patient/service/patient.service.ts:17-20 | of two rows, the second is dropped exactly when its key equals the first's |
| FirstWins.PushedUnderFirst | src/patient/service/patient.service.ts:23-25 | a map holding each kept row's entity under its key has one entry per kept row, and each entry is the entity of the first row with that key |
| PatientTable.IndexOfKey | src/patient/domain/patient.entity.ts:11 | the lookup of the unique index finds a row holding the key, and finds none exactly when no row holds it |
| PatientTable.IndexOfKeyUnique | src/patient/domain/patient.entity.ts:11 | under the unique constraint any row holding the key is the one found |
| PatientTable.WithPayload | src/patient/repository/patient.repository.ts:91 | the `orUpdate` columns: the row keeps its id and unique key and takes the patient's ssn, address and memo |
| PatientTable.Upsert | src/patient/repository/patient.repository.ts:86-93 | one value row adds at most one row, and an added row uses up one counter value; afterwards the patient's key names a row |
| PatientTable.UpsertAll | src/patient/repository/patient.repository.ts:86-93 | a statement adds at most one row per value row and uses up one counter value per added row |
| PatientTable.KeySetSize | src/patient/domain/patient.entity.ts:11 | under the unique constraint there are as many rows as distinct keys |
| PatientTable.UpsertEffect | src/patient/repository/patient.repository.ts:86-93 | one value row keeps the table valid and extends it. Its key then names a row with its ssn, address and memo, and rows of other keys are unchanged. An existing key keeps its row count and counter; a new key appends one row under the counter's id |
| PatientTable.UpdateEffect | src/patient/repository/patient.repository.ts:91 | an existing key: only the payload of its row is overwritten, and the row keeps its position, id and key |
| PatientTable.InsertEffect | src/patient/repository/patient.repository.ts:86-93 | a new key: exactly one row with the patient's fields is appended under the counter's id |
| PatientTable.UpsertAllValid | src/patient/repository/patient.repository.ts:86-93 | a statement keeps the table valid: ids ascending and below the counter, keys unique. Existing rows keep their place, id and key; new rows get ids from the counter |
| PatientTable.UpsertAllAppend | src/patient/repository/patient.repository.ts:83-96 | running two consecutive slices is running their concatenation |
| PatientTable.UpsertAllLastWins | src/patient/repository/patient.repository.ts:86-93 | after a statement, each value row's key holds the payload of the last value row with that key |
| PatientTable.UpsertAllUntouched | src/patient/repository/patient.repository.ts:86-93 | rows whose key no value row carries are unchanged |
| PatientTable.UpsertAllCovers | src/patient/repository/patient.repository.ts:86-93 | after a statement every value row's key names a row |
| PatientTable.UpsertKeys | src/patient/repository/patient.repository.ts:86-93 | one value row adds its key to the table's key set and removes none |
| PatientTable.UpsertAllKeys | src/patient/repository/patient.repository.ts:86-93 | the keys after a statement are exactly the old keys plus the value rows' keys |
| PatientTable.UpsertAllCount | src/patient/repository/patient.repository.ts:86-93 | the row count after a statement is the number of distinct old or new keys |
| PatientRepository.FindAllOrderById | src/patient/repository/patient.repository.ts:22-28 | the page is rows `offset..` in id order, at most `limit` of them: full when enough rows remain, the remainder otherwise, empty once the offset reaches the row count |
| PatientRepository.PageOfRows | src/patient/repository/patient.repository.ts:22-28 | a page read with a request's limit and offset reports at most `limit` items, none past the last row, a full page when enough rows remain, and the page number as given |
| PatientRepository.FindExistingPatients | src/patient/repository/patient.repository.ts:33-52 | exactly the rows whose (name, phone, chart_number) is some candidate's (name, phone, chart_number ?? 'empty'); an empty candidate list is an error |
| PatientRepository.FindPatientsWithEmptyChart | src/patient/repository/patient.repository.ts:57-72 | exactly the `'empty'` rows whose (name, phone) is some candidate's, whatever the candidate's chart number; an empty candidate list is an error |
| PatientRepository.PairKeyInjective | src/patient/repository/patient.repository.ts:109 | with hyphen-free phones the `name-phone` key names one (name, phone) pair |
| PatientRepository.IndexOfId | src/patient/repository/patient.repository.ts:116 | `where id = :id` finds the row with that id, and none exactly when no row has it |
| PatientRepository.IdPosition | src/patient/repository/patient.repository.ts:116 | with ascending ids, the row found for a row's id is that row |
| PatientRepository.SetFields | src/patient/repository/patient.repository.ts:115 | `.set(patient)` writes name, phone and ssn, and the chart number, address and memo where defined; the id is never written |
| PatientRepository.ClaimOne | src/patient/repository/patient.repository.ts:108-119 | one iteration deletes exactly the patient's pair key from the map and keeps every row's position and id |
| PatientRepository.ClaimAll | src/patient/repository/patient.repository.ts:108-122 | the loop keeps every row's position and id, only removes map entries, never undoes a refusal, and yields at most one update result per patient |
| PatientRepository.ClaimAllEffect | src/patient/repository/patient.repository.ts:108-122 | the loop deletes exactly the processed pair keys from the caller's map, and the unique constraint and id order still hold |
| PatientRepository.ClaimAllFrame | src/patient/repository/patient.repository.ts:108-119 | a row whose id no map entry names is not written |
| PatientRepository.PatientStore.ExecuteUpsert | src/patient/repository/patient.repository.ts:86-93 | one statement run with `.updateEntity(false)`: the table becomes `UpsertAll` of the batch and stays valid, and the result reports no identifiers |
| PatientRepository.PatientStore.InsertOrUpdatePatients | src/patient/repository/patient.repository.ts:77-99 | the table is the whole input upserted in order; one result per 5000-row slice; no result reports an identifier |
| PatientRepository.PatientStore.UpdatePatientsWithEmptyChart | src/patient/repository/patient.repository.ts:101-123 | rows, map and results are those of `ClaimAll` from the old state, and the call fails when a claim was refused; the table stays valid |
| Reconciliation.PlaceholderMap | src/patient/repository/patient.repository.ts:104 | every placeholder row's pair key is mapped, to the id of some placeholder row with that pair key |
| Reconciliation.Claimers | src/patient/service/patient.service.ts:28-31 | the candidates without an exact match, in input order |
| Reconciliation.ReconcileSpec | src/patient/service/patient.service.ts:28-31 | the reconciliation keeps every old row and adds at most one row per candidate, each added row using up one counter value |
| Reconciliation.BulkInsertOrUpdate | src/patient/service/patient.service.ts:28-31 | the table becomes `ReconcileSpec` of the old table, and stays valid; one insert result per 5000-row slice, none reporting an identifier |
| Reconciliation.ClaimsNeverRejected | src/patient/repository/patient.repository.ts:101-123 | within the reconciliation no claim is refused by the unique constraint |
| Reconciliation.ReconcileValid | src/patient/service/patient.service.ts:28-31 | the reconciled table is valid; old rows keep their place and id; rows added get ids at or above the old counter |
| Reconciliation.ReconcileLastWins | src/patient/service/patient.service.integretion.spec.ts:123-154 | each candidate's key names a row holding that candidate's ssn, address and memo, when no later candidate has the key |
| Reconciliation.ReconcileUntouched | src/patient/service/patient.service.integretion.spec.ts:48-122 | a row that is no candidate's exact match and no placeholder of a candidate's pair is left as it was |
| Reconciliation.ReconcileWithoutPlaceholders | src/patient/service/patient.service.integretion.spec.ts:48-154 | with no placeholder rows for the candidates' pairs the reconciliation is one upsert, leaving one row per distinct old or new key |
| Reconciliation.FirstClaimerTakesPlaceholder | src/patient/service/patient.service.integretion.spec.ts:156-186 | the first candidate of a (name, phone) pair without an exact match takes over the pair's `'empty'` row: same position and id, now the candidate's key |
| Reconciliation.PlaceholderAbsorbed | src/patient/service/patient.service.integretion.spec.ts:188-228 | once the placeholder is claimed and no candidate carries its key, no row with the `'empty'` key of that pair remains |
| Reconciliation.LaterOfPairInserted | src/patient/service/patient.service.integretion.spec.ts:188-228 | a later candidate of the claimed pair with a new key of its own (a second chart number) is inserted as a row of its own: its key names a row after all the old rows, with a larger id than the claimed placeholder row |
| Reconciliation.ExactMatchLeavesPlaceholder | src/patient/service/patient.service.integretion.spec.ts:230-269 | when every candidate of the pair has an exact match, the placeholder row is left as it was |
| Reconciliation.ClaimFirst | src/patient/repository/patient.repository.ts:108-119 | the first claimer of a mapped pair key writes its fields into the mapped row, and no later claimer writes it again |
| PatientService.ChartKey | src/patient/service/patient.service.ts:17 | `chart_number \|\| 'empty'`: `'empty'` exactly for an absent, empty or literally `'empty'` chart number, otherwise the chart number |
| PatientService.KeyString | src/patient/service/patient.service.ts:17 | the hyphen-joined key as written: the name and a hyphen, then the phone, then a hyphen and the chart key; its length is the three parts' plus two |
| PatientService.KeyOf | src/patient/service/patient.service.ts:17 | the field key: its chart part is the stored chart number (`?? 'empty'`) except for a `''` chart number, which `\|\|` reads as `'empty'` |
| PatientService.KeyStringAgrees | src/patient/service/patient.service.ts:17 | when names and phones are hyphen-free, the hyphen-joined key and the field key separate the same rows |
| PatientService.KeyStringCollides | src/patient/service/patient.service.ts:17 | two rows with different (name, phone, chart) share the hyphen-joined key, so the loop as written drops the second |
| PatientService.AbsentChartIsEmpty | src/patient/service/patient.service.ts:17 | absent, `''` and `'empty'` chart numbers give one key and the second such row is dropped, although the repository's `??` stores `''` differently |
| PatientService.DifferentChartsKept | src/patient/service/patient.service.ts:17 | rows whose chart numbers read differently, such as absent and `'001'`, are both kept |
| PatientService.RawPhoneInKey | src/patient/service/patient.service.ts:17 | `x-y-z` and `xyz` are different keys and both are kept, although both are stored as the same phone |
| PatientService.IdenticalRowsKeepFirst | src/patient/service/patient.service.ts:17-20 | rows that all share one key keep only the first, and count as one key |
| PatientService.Deduplicate | src/patient/service/patient.service.ts:15-26 | `patients` holds the entities of the first row of each key, in input order. The map's keys are the input's keys, its size is the patients' count, and each entry is the entity of the first row with its key |
| PatientService.SumIdentifiers | src/patient/service/patient.service.ts:32-35 | the count is the sum of `identifiers.length` over the results, and 0 for no results |
| PatientService.NoIdentifiersCountZero | src/patient/service/patient.service.ts:32-35 | results that report no identifiers sum to 0 |
| PatientService.ReportedCountMissesRows | src/patient/service/patient.service.ts:32-35 | for any non-empty upload the summed count is 0, while at least one distinct key, and so at least one row, was written |
| PatientService.Upload | src/patient/service/patient.service.ts:11-37 | as written, except that repeated rows are dropped by the field key `KeyOf` rather than the hyphen-joined string (see Left out and Findings): the table becomes the reconciliation of the kept entities, and the returned count is 0 for every upload |
| PatientService.UploadCountingWritten | src/patient/service/patient.service.ts:11-37 | corrected count: the table becomes the reconciliation of the kept entities; the count is the number of distinct field keys (`KeyOf`) in the upload; an empty upload counts 0 and leaves the table alone |
| LegacyRepository.IndexOfConflict | src/patient/patient.entity.ts:11-17 | the value row conflicts with the row found, and with none exactly when no row has an equal non-NULL chart number, name and phone |
| LegacyRepository.Conflicts | src/patient/patient.entity.ts:11-17 | the unique index on the nullable chart number: a NULL chart number on either side never conflicts, and a conflict means equal name and phone |
| LegacyRepository.NullChartAlwaysInserts | src/patient/patient.entity.ts:11-17 | a value row without a chart number never conflicts, so it is always inserted as a new row |
| LegacyRepository.LegacyUpsert | src/patient/patient.repository.ts:28-37 | one value row adds at most one row, using up one counter value, and always adds one when its chart number is absent |
| LegacyRepository.LegacyUpsertAll | src/patient/patient.repository.ts:25-40 | the value rows add at most one row each, each added row using up one counter value |
| LegacyRepository.LegacyUpsertEffect | src/patient/patient.repository.ts:28-37 | one value row keeps the older table valid. A conflict overwrites only ssn, address and memo of that row, and every other row is unchanged; otherwise one row is appended under the counter's id |
| LegacyRepository.LegacyUpsertAllValid | src/patient/patient.repository.ts:25-40 | a sequence of value rows keeps the older table valid |
| LegacyRepository.LegacyUpsertAllAppend | src/patient/patient.repository.ts:25-40 | running two consecutive slices is running their concatenation |
| LegacyRepository.Step | src/patient/patient.repository.ts:19-51 | the query runner's transitions: start only from idle, statements only inside a started transaction, release only after commit or rollback, nothing after release, and never back to idle |
| LegacyRepository.Run | src/patient/patient.repository.ts:19-51 | a run of events is refused as soon as one is out of order: a released runner accepts no further event, and a non-empty legal run never ends idle |
| LegacyRepository.WriterTrace | src/patient/patient.repository.ts:19-51 | the writer's events: start, one statement per slice in order, commit exactly when no statement is refused (rollback otherwise), then release |
| LegacyRepository.WriterTraceIsLegal | src/patient/patient.repository.ts:17-52 | the events are a legal query-runner run ending released. There is one start and one release; it commits exactly when no statement was refused and rolls back exactly when one was |
| LegacyRepository.IssueStatements | src/patient/patient.repository.ts:25-42 | one statement per slice of at most `batchSize`, in order. The writer fails iff some statement is refused; otherwise the working table is the whole list upserted |
| LegacyRepository.LegacyPatientRepository.BulkInsertOrUpdate | src/patient/patient.repository.ts:13-53 | an empty list does nothing at all. Otherwise the events are start, the statements, commit or rollback, then release. It succeeds iff no statement is refused. On success the table is the list upserted in order; on failure it is unchanged, with the fixed error |
| LegacyService.LegacyChartKey | src/patient/patient.service.ts:37 | `chart_number \|\| ''`: empty exactly for an absent or empty chart number, otherwise the chart number |
| LegacyService.LegacyKeyString | src/patient/patient.service.ts:37 | the hyphen-joined key as written: the name and a hyphen, then the phone, then a hyphen and the chart key (`''` when absent) |
| LegacyService.LegacyKeyOf | src/patient/patient.service.ts:37 | the field key: its chart part is empty exactly for an absent or empty chart number, and otherwise the chart number |
| LegacyService.LegacyKeyStringAgrees | src/patient/patient.service.ts:37 | for valid rows with hyphen-free names, the hyphen-joined key and the field key separate the same rows |
| LegacyService.LegacyKeyStringCollides | src/patient/patient.service.ts:37 | two valid rows with different (name, phone, chart) share the hyphen-joined key, so the loop as written drops the second |
| LegacyService.LiteralEmptyChartIsOwnKey | src/patient/patient.service.ts:37 | a literal `'empty'` chart number is a key of its own here, unlike in the current service; absent and `''` still share one |
| LegacyService.ValidRows | src/patient/patient.service.ts:29-34 | exactly the rows that pass validation, and no more rows than the input |
| LegacyService.Deduplicate | src/patient/patient.service.ts:27-46 | invalid rows are skipped. `patients` holds the entities of the first valid row of each key, in input order. The map's keys are those of the valid rows, one entry per kept entity, each from the first valid row with its key |
| LegacyService.Upload | src/patient/patient.service.ts:21-51 | the kept entities go to the writer. The upload succeeds iff nothing is kept or no statement is refused. On success it returns the number of distinct keys among the valid rows and the table is the kept entities upserted; on failure the table is unchanged and the error is the fixed one |

## Left out

- HTTP controllers, multer wiring and the inline filter of `patient.controller.ts` are request routing. The filter logic is modelled once, in `ExcelFilter`.
- Spreadsheet parsing (`excel.parser.ts`, the header map) calls the `xlsx` library. The upload loops take the parsed rows as their input.
- Dependency injection and connection configuration are wiring only.
- The SQL text of `IN (...)` lists built by interpolation is modelled as set membership. Quoting and injection are not modelled.
- `Promise.all` over the slice inserts and the claim updates runs its statements concurrently. The model runs them one after another, in input order.
- MySQL and TypeORM details are not modelled:
  - `ON DUPLICATE KEY` firing on the primary key or another unique index;
  - real auto-increment values, which are replaced by an increasing counter;
  - `created_at` and `updated_at`;
  - the column projection of the two find queries, which return whole rows here.
- Regular expressions and class-validator are written as explicit predicates. The character-length semantics of UTF-16 and MySQL are not distinguished.
- Query-string coercion of `pageNo` and `pageSize` is not modelled; they are integers.
- PatientTable.IndexOfKey, PatientTable.KeysUnique, PatientRepository.FindExistingPatients and PatientRepository.FindPatientsWithEmptyChart compare names, phones and chart numbers by exact string equality. No collation is configured, so MySQL compares them under its default case-insensitive collation. Keys that are equal only under that collation (chart `a1` against `A1` for one name and phone) are merged by the database, while the model keeps them as different keys, inserting a second row.
- PatientRepository.FindAllOrderById: a limit of 0 yields no rows in the model. TypeORM leaves a zero `.limit()` out of the MySQL query, which then returns every row from offset 0, and fails for a non-zero offset. The only caller passes `getLimit()`, which is at least 10 (`Paging.GetLimit`).
- PatientService.Upload and PatientRepository.PatientStore.ExecuteUpsert: that TypeORM leaves `InsertResult.identifiers` empty under `.updateEntity(false)` is TypeORM's behaviour, which is not part of this model; the model states it as the statement's result.
- The response DTOs only copy fields or build a fixed message.
- Reconciliation.BulkInsertOrUpdate: the repository calls this method but no file defines it. The model composes it from the four primitives:
  - claimers are the candidates without an exact match;
  - the placeholder map takes the last placeholder row of each pair;
  - every candidate is upserted after the claims.

  The `uniqueMap` argument the service passes is not used by this composition.
- LegacyService.Upload: the older service passes its `uniqueMap` where the writer expects a numeric batch size. The model uses the default size of 5000 instead of modelling the JavaScript coercion.
- LegacyService.Upload: the older DTO declares no `toEntity`, so the conversion is a parameter of the upload.
- LegacyService.Upload: validation errors are only logged with `console.warn`, and logging is not modelled.
- LegacyRepository.LegacyPatientRepository.BulkInsertOrUpdate: a store refusal is a parameter, the set of refused statement indices. The reason for a refusal and the exception object are not modelled.
- PatientRepository.PatientStore.UpdatePatientsWithEmptyChart: a refused claim is modelled as a duplicate-entry refusal that leaves its row alone, while the other claims still run. The call then fails as a whole; the concurrent `Promise.all` ordering is not modelled.
- PatientService.Deduplicate and LegacyService.Deduplicate key the map on the three fields kept apart, not on the hyphen-joined string (see Findings). The string keys are modelled as written in `PatientService.KeyString` and `LegacyService.LegacyKeyString`.

## Findings

| source | as written | input that shows it | evidently intended | confidence | as-written member | corrected member |
|---|---|---|---|---|---|---|
| src/patient/service/patient.service.ts:17 | the duplicate key joins name, phone and chart number with `-`, which names and chart numbers may themselves contain | name `A-01012345678`, phone `01012345678`, chart `x` against name `A`, phone `01012345678`, chart `01012345678-x`: both keys are `A-01012345678-01012345678-x`, so the second patient is dropped | one key per (name, phone, chart) triple, so that only true repeats are dropped | not executed | PatientService.KeyStringCollides | PatientService.Deduplicate |
| src/patient/service/patient.service.ts:32-35 | the count adds up `identifiers.length` over the insert results, but every insert runs with `.updateEntity(false)` (src/patient/repository/patient.repository.ts:92), under which TypeORM reports no identifiers | any non-empty upload, such as one row: the count is 0, while the service tests expect 1 and 3 | the number of patients written, one per distinct key, as the older service returns `patients.length` | not executed | PatientService.Upload | PatientService.UploadCountingWritten |
| src/patient/patient.service.ts:37 | the same hyphen-joined key with the `''` sentinel | the same two rows; both pass the older validation | one key per (name, phone, chart) triple | not executed | LegacyService.LegacyKeyStringCollides | LegacyService.Deduplicate |
