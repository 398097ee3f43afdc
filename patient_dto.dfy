/** The field rules of the older `PatientDTO` (one parsed spreadsheet row, validated by the legacy upload). */
module PatientDto {
  import opened Wrappers
  import opened Text
  import opened PatientEntity

  datatype PatientDto = PatientDto(
    chartNumber: Option<string>,
    name: string,
    phone: string,
    ssn: string,
    address: Option<string>,
    memo: Option<string>)

  /** `@Length(1, 16)` on `name`. */
  function IsValidName(name: string): (ok: bool)
    ensures ok ==> 0 < |name| <= NAME_LENGTH
  {
    1 <= |name| <= 16
  }

  /** `/^\d{11}$/`: eleven digits, no hyphens. */
  function IsValidPhone(phone: string): (ok: bool)
    ensures ok ==> '-' !in phone && |phone| <= PHONE_LENGTH
  {
    |phone| == 11 && AllDigits(phone)
  }

  /** `/^\d{6}-\d{7}$|^\d{6}$/`: exactly the two shapes `maskSSN` masks. */
  function IsValidSsn(ssn: string): (ok: bool)
    ensures ok ==> |ssn| == 6 || |ssn| == 14
  {
    IsFullSsn(ssn) || IsBirthDateOnly(ssn)
  }

  /** What class-validator's `validate(dto)` accepts; chart number, address and memo are optional. */
  function IsValid(dto: PatientDto): (ok: bool)
    ensures ok ==> |dto.name| <= NAME_LENGTH && |dto.phone| == 11 && '-' !in dto.phone
  {
    IsValidName(dto.name) && IsValidPhone(dto.phone) && IsValidSsn(dto.ssn)
  }

  /**
   * Every row the legacy validation accepts has an SSN that masking actually
   * masks, a phone that `Patient.of` would leave as it is, and fits its columns.
   */
  lemma ValidDtoIsMaskedAndFits(dto: PatientDto)
    requires IsValid(dto)
    ensures IsMaskedSsn(MaskSsn(dto.ssn)) && MaskSsn(dto.ssn) != dto.ssn
    ensures StripHyphens(dto.phone) == dto.phone && |dto.phone| <= PHONE_LENGTH
    ensures |dto.name| <= NAME_LENGTH && |MaskSsn(dto.ssn)| <= SSN_LENGTH
  {
    DigitsHaveNoHyphen(dto.phone);
    MaskedIsNotMaskable(MaskSsn(dto.ssn));
  }
}
