/**
 * The field rules of `PatientUploadRequest` (one parsed spreadsheet row) and
 * its conversion to an entity. The class-validator decorators are written out
 * as predicates over the characters of each field.
 */
module UploadRequest {
  import opened Wrappers
  import opened Text
  import opened PatientEntity

  datatype PatientUploadRequest = PatientUploadRequest(
    chartNumber: Option<string>,
    name: string,
    phone: string,
    ssn: string,
    address: Option<string>,
    memo: Option<string>)

  /** `@Length(1, 16)` on `name`. */
  function IsValidName(name: string): (ok: bool)
    ensures ok ==> 0 < |name| <= NAME_LENGTH
  {
    1 <= |name| <= 16
  }

  /** `-?\d{m}-?\d{4}` matched to the end of `s`. */
  function IsHyphenatedGroups(s: string, m: nat): (ok: bool)
    ensures ok ==> m + 4 <= |s| <= m + 6
  {
    var t := DropOptionalHyphen(s);
    && |t| >= m
    && AllDigits(t[..m])
    && var u := DropOptionalHyphen(t[m..]);
       |u| == 4 && AllDigits(u)
  }

  /** `01[016789]-?\d{4}-?\d{4}`: a mobile number. */
  function IsMobilePhone(s: string): (ok: bool)
    ensures ok ==> 11 <= |s| <= 13 && s[..2] == "01"
  {
    |s| >= 3 && s[0] == '0' && s[1] == '1' && s[2] in "016789" && IsHyphenatedGroups(s[3..], 4)
  }

  /** `0[2-9]\d?-?\d{3,4}-?\d{4}` with `extra` digits for `\d?` and `mid` for `\d{3,4}`. */
  function IsAreaPhoneWith(s: string, extra: nat, mid: nat): (ok: bool)
    ensures ok ==> 6 + extra + mid <= |s| <= 8 + extra + mid
  {
    && extra <= 1
    && |s| >= 2 + extra
    && s[0] == '0' && '2' <= s[1] <= '9'
    && AllDigits(s[2..2 + extra])
    && IsHyphenatedGroups(s[2 + extra..], mid)
  }

  /** `0[2-9]\d?-?\d{3,4}-?\d{4}`: an area-code number, one of the four ways the regex can match. */
  function IsAreaPhone(s: string): (ok: bool)
    ensures ok ==> 9 <= |s| <= 13 && s[0] == '0' && s[1] != '1'
  {
    IsAreaPhoneWith(s, 0, 3) || IsAreaPhoneWith(s, 0, 4) ||
    IsAreaPhoneWith(s, 1, 3) || IsAreaPhoneWith(s, 1, 4)
  }

  /** The `@Matches` rule on `phone`. */
  function IsValidPhone(s: string): (ok: bool)
    ensures ok ==> 9 <= |s| <= 13 && s[0] == '0'
  {
    IsMobilePhone(s) || IsAreaPhone(s)
  }

  /** The number two decimal digits spell. */
  function TwoDigitValue(s: string): int
    requires |s| == 2
  {
    (s[0] as int - '0' as int) * 10 + (s[1] as int - '0' as int)
  }

  /** `(0[1-9]|1[0-2])` */
  function IsValidMonth(mm: string): (ok: bool)
    ensures ok ==> |mm| == 2 && AllDigits(mm) && 1 <= TwoDigitValue(mm) <= 12
  {
    |mm| == 2 &&
    ((mm[0] == '0' && '1' <= mm[1] <= '9') || (mm[0] == '1' && '0' <= mm[1] <= '2'))
  }

  /** `(0[1-9]|1\d|2\d|3[0-1])` */
  function IsValidDay(dd: string): (ok: bool)
    ensures ok ==> |dd| == 2 && AllDigits(dd) && 1 <= TwoDigitValue(dd) <= 31
  {
    |dd| == 2 &&
    ((dd[0] == '0' && '1' <= dd[1] <= '9') ||
     ((dd[0] == '1' || dd[0] == '2') && IsDigit(dd[1])) ||
     (dd[0] == '3' && '0' <= dd[1] <= '1'))
  }

  /** `(-?[1-4]\d{6})?` matched to the end. */
  function IsValidSsnTail(t: string): (ok: bool)
    ensures ok ==> |t| == 0 || |t| == 7 || |t| == 8
  {
    t == [] ||
    var u := DropOptionalHyphen(t);
    |u| == 7 && '1' <= u[0] <= '4' && AllDigits(u[1..])
  }

  /** The `@Matches` rule on `ssn`: YYMMDD, then optionally `-`, a digit 1-4 and six digits. */
  function IsValidSsn(s: string): (ok: bool)
    ensures ok ==> |s| == 6 || |s| == 13 || |s| == 14
  {
    && |s| >= 6
    && AllDigits(s[..2])
    && IsValidMonth(s[2..4])
    && IsValidDay(s[4..6])
    && IsValidSsnTail(s[6..])
  }

  /** All decorators of the request; chart number, address and memo may be absent. */
  function IsValid(req: PatientUploadRequest): (ok: bool)
    ensures ok ==> |req.name| <= NAME_LENGTH && 9 <= |req.phone| <= 13 && |req.ssn| <= 14
  {
    IsValidName(req.name) && IsValidPhone(req.phone) && IsValidSsn(req.ssn)
  }

  /** `toEntity`: `Patient.of` applied to the fields in declaration order. */
  function ToEntity(req: PatientUploadRequest): (p: Patient)
    ensures p == Of(req.chartNumber, req.name, req.phone, req.ssn, req.address, req.memo)
    ensures p.chartNumber == req.chartNumber && p.address == req.address && p.memo == req.memo
  {
    Of(req.chartNumber, req.name, req.phone, req.ssn, req.address, req.memo)
  }

  // ---------------------------------------------------------------------
  // What the rules imply

  /** `-?\d{m}-?\d{4}` leaves exactly `m + 4` digits once hyphens are removed. */
  lemma HyphenatedGroupsDigits(s: string, m: nat)
    requires IsHyphenatedGroups(s, m)
    ensures AllDigits(StripHyphens(s)) && |StripHyphens(s)| == m + 4
  {
    var t := DropOptionalHyphen(s);
    var u := DropOptionalHyphen(t[m..]);
    StripHyphensDropOptional(s);
    StripHyphensDropOptional(t[m..]);
    StripHyphensSplit(t, m);
    DigitsHaveNoHyphen(t[..m]);
    DigitsHaveNoHyphen(u);
    assert StripHyphens(s) == t[..m] + u;
    AllDigitsAppend(t[..m], u);
  }

  /** A prefix of digits followed by groups: the digits stay in front of the groups' digits. */
  lemma PrefixedGroupsDigits(s: string, k: nat, m: nat)
    requires k <= |s| && AllDigits(s[..k]) && IsHyphenatedGroups(s[k..], m)
    ensures AllDigits(StripHyphens(s)) && |StripHyphens(s)| == k + m + 4
  {
    StripHyphensSplit(s, k);
    DigitsHaveNoHyphen(s[..k]);
    HyphenatedGroupsDigits(s[k..], m);
  }

  /**
   * Every accepted phone number is 9 to 11 digits once its hyphens are removed,
   * so the stored phone fits the 15-character `phone` column.
   */
  lemma ValidPhoneDigits(s: string)
    requires IsValidPhone(s)
    ensures AllDigits(StripHyphens(s))
    ensures 9 <= |StripHyphens(s)| <= 11 <= PHONE_LENGTH
  {
    if IsMobilePhone(s) {
      assert AllDigits(s[..3]);
      PrefixedGroupsDigits(s, 3, 4);
    } else if IsAreaPhoneWith(s, 0, 3) {
      AreaPhoneDigits(s, 0, 3);
    } else if IsAreaPhoneWith(s, 0, 4) {
      AreaPhoneDigits(s, 0, 4);
    } else if IsAreaPhoneWith(s, 1, 3) {
      AreaPhoneDigits(s, 1, 3);
    } else {
      AreaPhoneDigits(s, 1, 4);
    }
  }

  lemma AreaPhoneDigits(s: string, extra: nat, mid: nat)
    requires IsAreaPhoneWith(s, extra, mid)
    ensures AllDigits(StripHyphens(s)) && |StripHyphens(s)| == 2 + extra + mid + 4
  {
    assert AllDigits(s[..2 + extra]) by {
      assert forall i | 0 <= i < 2 + extra :: s[i] == (if i < 2 then s[i] else s[2..2 + extra][i - 2]);
    }
    PrefixedGroupsDigits(s, 2 + extra, mid);
  }

  /** An accepted SSN has 6, 13 or 14 characters, and masking handles each length as follows. */
  lemma ValidSsnMasking(s: string)
    requires IsValidSsn(s)
    ensures |s| == 6 || |s| == 13 || |s| == 14
    ensures |s| == 6 ==> MaskSsn(s) == s + "-0******"
    ensures |s| == 14 ==> MaskSsn(s) == s[..8] + "******"
    ensures |s| == 13 ==> MaskSsn(s) == s
  {
    assert AllDigits(s[..6]) by {
      assert forall i | 0 <= i < 6 :: s[i] == (if i < 2 then s[..2][i] else if i < 4 then s[2..4][i - 2] else s[4..6][i - 4]);
    }
    var t := s[6..];
    if t != [] {
      var u := DropOptionalHyphen(t);
      if t[0] == '-' {
        assert |s| == 14;
        assert forall i | 7 <= i < 14 :: s[i] == u[i - 7];
        assert s[7..] == u;
        assert IsFullSsn(s);
      } else {
        assert |s| == 13 && s[6] != '-';
        assert !IsFullSsn(s) && !IsBirthDateOnly(s);
      }
    } else {
      assert s == s[..6];
    }
  }

  /** A request that passes validation yields an entity fitting the name, phone and ssn columns. */
  lemma ValidRequestFitsColumns(req: PatientUploadRequest)
    requires IsValid(req)
    ensures var p := ToEntity(req);
            |p.name| <= NAME_LENGTH && 9 <= |p.phone| <= 11 && AllDigits(p.phone) && |p.ssn| <= SSN_LENGTH
  {
    ValidPhoneDigits(req.phone);
    ValidSsnMasking(req.ssn);
  }
}
