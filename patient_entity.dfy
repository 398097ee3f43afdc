/**
 * The patient entity of `src/patient/domain/patient.entity.ts`: the in-memory
 * entity built by `Patient.of`, the row the `patients` table stores, the
 * unique key over (name, phone, chart_number) and the `'empty'` column default.
 */
module PatientEntity {
  import opened Wrappers
  import opened Text

  /** The `chart_number` column default, also the placeholder of a missing chart number. */
  const EMPTY_CHART_NUMBER: string := "empty"

  /** Column lengths of the schema. */
  const CHART_NUMBER_LENGTH: nat := 20
  const NAME_LENGTH: nat := 16
  const PHONE_LENGTH: nat := 15
  const SSN_LENGTH: nat := 20

  /** An entity before it is stored: `chart_number`, `address`, `memo` may be undefined. */
  datatype Patient = Patient(
    chartNumber: Option<string>,
    name: string,
    phone: string,
    ssn: string,
    address: Option<string>,
    memo: Option<string>)

  /** A stored row: the id is assigned by the store and the chart number is always present. */
  datatype Row = Row(
    id: nat,
    chartNumber: string,
    name: string,
    phone: string,
    ssn: string,
    address: Option<string>,
    memo: Option<string>)

  /** The columns of the unique constraint `@Unique(['name', 'phone', 'chart_number'])`. */
  datatype Key = Key(name: string, phone: string, chartNumber: string)

  /** `chart_number ?? 'empty'`: what the store holds for a chart number, absent ones defaulted. */
  function StoredChartNumber(chartNumber: Option<string>): (stored: string)
    ensures chartNumber.None? ==> stored == EMPTY_CHART_NUMBER
    ensures chartNumber.Some? ==> stored == chartNumber.value
  {
    chartNumber.GetOr(EMPTY_CHART_NUMBER)
  }

  function RowKey(r: Row): Key {
    Key(r.name, r.phone, r.chartNumber)
  }

  /** The unique key a patient is stored under. */
  function PatientKey(p: Patient): Key {
    Key(p.name, p.phone, StoredChartNumber(p.chartNumber))
  }

  /** The row an INSERT of `p` creates under the fresh id `id` (column default applied). */
  function NewRow(id: nat, p: Patient): (r: Row)
    ensures r.id == id && RowKey(r) == PatientKey(p)
    ensures r.ssn == p.ssn && r.address == p.address && r.memo == p.memo
  {
    Row(id, StoredChartNumber(p.chartNumber), p.name, p.phone, p.ssn, p.address, p.memo)
  }

  /** The patient fits the bounded columns (text columns are not bounded in the model). */
  predicate FitsColumns(p: Patient) {
    && |StoredChartNumber(p.chartNumber)| <= CHART_NUMBER_LENGTH
    && |p.name| <= NAME_LENGTH
    && |p.phone| <= PHONE_LENGTH
    && |p.ssn| <= SSN_LENGTH
  }

  // ---------------------------------------------------------------------
  // SSN masking

  /** `/^\d{6}$/`: only the birth-date part. */
  predicate IsBirthDateOnly(ssn: string) {
    |ssn| == 6 && AllDigits(ssn)
  }

  /** `/^\d{6}-\d{7}$/`: a complete number with its hyphen. */
  predicate IsFullSsn(ssn: string) {
    |ssn| == 14 && AllDigits(ssn[..6]) && ssn[6] == '-' && AllDigits(ssn[7..])
  }

  /** The masked shape: birth date, hyphen, one digit, six asterisks. */
  predicate IsMaskedSsn(ssn: string) {
    |ssn| == 14 && AllDigits(ssn[..6]) && ssn[6] == '-' && IsDigit(ssn[7]) && ssn[8..] == "******"
  }

  /**
   * `Patient.maskSSN`: a full number keeps its first 8 characters (birth date,
   * hyphen, one digit) and the rest becomes asterisks; a birth date alone gets
   * `-0******` appended; any other string is stored as given.
   */
  function MaskSsn(ssn: string): (masked: string)
    ensures IsFullSsn(ssn) ==> IsMaskedSsn(masked) && masked[..8] == ssn[..8]
    ensures IsBirthDateOnly(ssn) ==> IsMaskedSsn(masked) && masked[..6] == ssn && masked[7] == '0'
    ensures !IsFullSsn(ssn) && !IsBirthDateOnly(ssn) ==> masked == ssn
  {
    if IsFullSsn(ssn) then ssn[..8] + "******"
    else if IsBirthDateOnly(ssn) then ssn + "-0******"
    else ssn
  }

  /** A masked number has neither input shape, so masking it again changes nothing. */
  lemma MaskedIsNotMaskable(ssn: string)
    requires IsMaskedSsn(ssn)
    ensures !IsFullSsn(ssn) && !IsBirthDateOnly(ssn)
  {
    assert !IsDigit(ssn[8]);
    assert ssn[8] == ssn[7..][1];
  }

  /** `maskSSN` is idempotent. */
  lemma MaskSsnIdempotent(ssn: string)
    ensures MaskSsn(MaskSsn(ssn)) == MaskSsn(ssn)
  {
    if IsFullSsn(ssn) || IsBirthDateOnly(ssn) {
      MaskedIsNotMaskable(MaskSsn(ssn));
    }
  }

  /** Both masked outputs are 14 characters long, within the 20-character `ssn` column. */
  lemma MaskedSsnFitsColumn(ssn: string)
    requires IsFullSsn(ssn) || IsBirthDateOnly(ssn)
    ensures |MaskSsn(ssn)| == 14 <= SSN_LENGTH
  {
  }

  // ---------------------------------------------------------------------
  // Patient.of

  /**
   * `Patient.of`: chart number, name, address and memo are copied as given (an
   * absent chart number stays absent until the column default applies on
   * insert), the phone loses every hyphen and the SSN is masked.
   */
  function Of(chartNumber: Option<string>, name: string, phone: string, ssn: string,
              address: Option<string>, memo: Option<string>): (p: Patient)
    ensures p.chartNumber == chartNumber && p.name == name
    ensures p.address == address && p.memo == memo
    ensures '-' !in p.phone && p.phone == StripHyphens(phone)
    ensures '-' !in phone ==> p.phone == phone
    ensures p.ssn == MaskSsn(ssn)
  {
    Patient(chartNumber, name, StripHyphens(phone), MaskSsn(ssn), address, memo)
  }
}
