/** `SalaryInput`, the validated request: eight required fields, and the two
    experience fields must not be negative (`ge=0`). Construction either
    yields the input or lists every violation, field by field. */
module Schema {
  import opened Wrappers

  /** The request fields in declaration order. */
  datatype InputField =
    | CountryField | YearsCodeField | WorkExpField | EducationLevelField
    | DevTypeField | IndustryField | AgeField | IcOrPmField

  /** A keyword argument list as given to `SalaryInput(**data)`; `None` is an omitted field. */
  datatype RawRequest = RawRequest(
    country: Option<string>, yearsCode: Option<real>, workExp: Option<real>,
    educationLevel: Option<string>, devType: Option<string>, industry: Option<string>,
    age: Option<string>, icOrPm: Option<string>)

  datatype SalaryInput = SalaryInput(
    country: string, yearsCode: real, workExp: real,
    educationLevel: string, devType: string, industry: string,
    age: string, icOrPm: string)

  /** One entry of pydantic's `ValidationError`. */
  datatype SchemaError = Missing(field: InputField) | LessThanZero(field: InputField)

  function FieldPosition(f: InputField): nat
  {
    match f
    case CountryField => 0
    case YearsCodeField => 1
    case WorkExpField => 2
    case EducationLevelField => 3
    case DevTypeField => 4
    case IndustryField => 5
    case AgeField => 6
    case IcOrPmField => 7
  }

  function TextErrors(v: Option<string>, f: InputField): seq<SchemaError>
  {
    if v.None? then [Missing(f)] else []
  }

  /** A required `float` with `ge=0`. */
  function AmountErrors(v: Option<real>, f: InputField): seq<SchemaError>
  {
    match v
    case None => [Missing(f)]
    case Some(y) => if y < 0.0 then [LessThanZero(f)] else []
  }

  const InputFields: seq<InputField> :=
    [CountryField, YearsCodeField, WorkExpField, EducationLevelField,
     DevTypeField, IndustryField, AgeField, IcOrPmField]

  /** The violations of one field: none, or one entry naming that field. */
  function FieldErrors(raw: RawRequest, f: InputField): (r: seq<SchemaError>)
    ensures |r| <= 1 && forall e :: e in r ==> e.field == f
  {
    match f
    case CountryField => TextErrors(raw.country, f)
    case YearsCodeField => AmountErrors(raw.yearsCode, f)
    case WorkExpField => AmountErrors(raw.workExp, f)
    case EducationLevelField => TextErrors(raw.educationLevel, f)
    case DevTypeField => TextErrors(raw.devType, f)
    case IndustryField => TextErrors(raw.industry, f)
    case AgeField => TextErrors(raw.age, f)
    case IcOrPmField => TextErrors(raw.icOrPm, f)
  }

  function ErrorsOf(raw: RawRequest, fs: seq<InputField>): seq<SchemaError>
  {
    if fs == [] then [] else FieldErrors(raw, fs[0]) + ErrorsOf(raw, fs[1..])
  }

  /** All violations, in field order. */
  function Errors(raw: RawRequest): seq<SchemaError>
  {
    ErrorsOf(raw, InputFields)
  }

  predicate Ascending(fs: seq<InputField>)
  {
    forall i, j :: 0 <= i < j < |fs| ==> FieldPosition(fs[i]) < FieldPosition(fs[j])
  }

  /** An error is listed exactly when its own field reports it, and the
      listing follows the order of the fields. */
  lemma {:induction false} ErrorsOfFacts(raw: RawRequest, fs: seq<InputField>)
    requires Ascending(fs)
    ensures forall e :: e in ErrorsOf(raw, fs) <==> e.field in fs && e in FieldErrors(raw, e.field)
    ensures forall e :: e in ErrorsOf(raw, fs) ==> e.field in fs
    ensures forall i, j :: 0 <= i < j < |ErrorsOf(raw, fs)| ==>
      FieldPosition(ErrorsOf(raw, fs)[i].field) < FieldPosition(ErrorsOf(raw, fs)[j].field)
  {
    if fs != [] {
      var head, tail := FieldErrors(raw, fs[0]), ErrorsOf(raw, fs[1..]);
      ErrorsOfFacts(raw, fs[1..]);
      assert fs == [fs[0]] + fs[1..];
      forall f | f in fs[1..] ensures FieldPosition(fs[0]) < FieldPosition(f) {
        var k :| 0 <= k < |fs[1..]| && fs[1..][k] == f;
        assert fs[k + 1] == f;
      }
      var all := head + tail;
      forall i, j | 0 <= i < j < |all|
        ensures FieldPosition(all[i].field) < FieldPosition(all[j].field)
      {
        if j >= |head| {
          assert all[j] == tail[j - |head|] && all[j] in tail;
          if i < |head| {
            assert all[i] in head;
          } else {
            assert all[i] == tail[i - |head|];
          }
        }
      }
    }
  }

  /** Every field given, and neither experience value negative. The categorical
      fields carry no constraint here: any string is accepted. */
  predicate Acceptable(raw: RawRequest)
  {
    && raw.country.Some? && raw.educationLevel.Some? && raw.devType.Some?
    && raw.industry.Some? && raw.age.Some? && raw.icOrPm.Some?
    && raw.yearsCode.Some? && raw.yearsCode.value >= 0.0
    && raw.workExp.Some? && raw.workExp.value >= 0.0
  }

  function Given(raw: RawRequest, f: InputField): bool
  {
    match f
    case CountryField => raw.country.Some?
    case YearsCodeField => raw.yearsCode.Some?
    case WorkExpField => raw.workExp.Some?
    case EducationLevelField => raw.educationLevel.Some?
    case DevTypeField => raw.devType.Some?
    case IndustryField => raw.industry.Some?
    case AgeField => raw.age.Some?
    case IcOrPmField => raw.icOrPm.Some?
  }

  /** A given amount below zero. */
  predicate Negative(raw: RawRequest, f: InputField)
  {
    || (f == YearsCodeField && raw.yearsCode.Some? && raw.yearsCode.value < 0.0)
    || (f == WorkExpField && raw.workExp.Some? && raw.workExp.value < 0.0)
  }

  /** The errors of the whole request are the errors of its fields, in field order. */
  lemma ErrorsByField(raw: RawRequest)
    ensures forall e :: e in Errors(raw) <==> e in FieldErrors(raw, e.field)
    ensures forall i, j :: 0 <= i < j < |Errors(raw)| ==>
      FieldPosition(Errors(raw)[i].field) < FieldPosition(Errors(raw)[j].field)
  {
    ErrorsOfFacts(raw, InputFields);
    forall f ensures f in InputFields {
      assert InputFields[FieldPosition(f)] == f;
    }
  }

  /** The violations are exactly the omitted fields and the negative amounts,
      listed in field order. */
  lemma ErrorsExact(raw: RawRequest)
    ensures forall f :: Missing(f) in Errors(raw) <==> !Given(raw, f)
    ensures forall f :: LessThanZero(f) in Errors(raw) <==> Negative(raw, f)
    ensures forall i, j :: 0 <= i < j < |Errors(raw)| ==>
      FieldPosition(Errors(raw)[i].field) < FieldPosition(Errors(raw)[j].field)
  {
    ErrorsByField(raw);
  }

  /** A request has no violation exactly when it is acceptable. */
  lemma NoErrorsAcceptable(raw: RawRequest)
    ensures Errors(raw) == [] <==> Acceptable(raw)
  {
    ErrorsExact(raw);
    if Errors(raw) != [] {
      var e := Errors(raw)[0];
      assert e in Errors(raw);
      assert !Given(raw, e.field) || Negative(raw, e.field);
    }
    if !Acceptable(raw) {
      if raw.yearsCode.Some? && raw.yearsCode.value < 0.0 {
        assert LessThanZero(YearsCodeField) in Errors(raw);
      } else if raw.workExp.Some? && raw.workExp.value < 0.0 {
        assert LessThanZero(WorkExpField) in Errors(raw);
      } else {
        var f :| f in InputFields && !Given(raw, f);
        assert Missing(f) in Errors(raw);
      }
    }
  }

  /** The keyword arguments a constructed input came from. */
  function Raw(s: SalaryInput): RawRequest
  {
    RawRequest(Some(s.country), Some(s.yearsCode), Some(s.workExp), Some(s.educationLevel),
               Some(s.devType), Some(s.industry), Some(s.age), Some(s.icOrPm))
  }

  /** `SalaryInput(**data)`: succeeds exactly on acceptable requests and then
      keeps every value as given; otherwise raises with the violations. */
  function MakeSalaryInput(raw: RawRequest): (r: Result<SalaryInput, seq<SchemaError>>)
    ensures r.Success? <==> Acceptable(raw)
    ensures r.Success? ==> Raw(r.value) == raw
    ensures r.Failure? ==> r.error != [] && r.error == Errors(raw)
  {
    NoErrorsAcceptable(raw);
    if Errors(raw) == [] then
      Success(SalaryInput(raw.country.value, raw.yearsCode.value, raw.workExp.value,
                          raw.educationLevel.value, raw.devType.value, raw.industry.value,
                          raw.age.value, raw.icOrPm.value))
    else
      Failure(Errors(raw))
  }

  /** Construction undoes `Raw` on a valid input: nothing is changed on the way in. */
  lemma MakeRawRoundTrip(s: SalaryInput)
    requires s.yearsCode >= 0.0 && s.workExp >= 0.0
    ensures MakeSalaryInput(Raw(s)) == Success(s)
  {
  }

  /** A negative `years_code` or `work_exp` is reported, whatever else the request holds. */
  lemma RejectsNegative(raw: RawRequest, f: InputField)
    requires Negative(raw, f)
    ensures MakeSalaryInput(raw).Failure?
    ensures LessThanZero(f) in MakeSalaryInput(raw).error
  {
    ErrorsExact(raw);
  }

  /** Every field is required: omitting any one is reported as missing. */
  lemma RejectsMissingField(raw: RawRequest, f: InputField)
    requires !Given(raw, f)
    ensures MakeSalaryInput(raw).Failure?
    ensures Missing(f) in MakeSalaryInput(raw).error
  {
    ErrorsExact(raw);
  }

  /** Zero is a valid amount for both experience fields (`ge=0` is inclusive). */
  lemma AcceptsZero(s: SalaryInput)
    requires s.yearsCode == 0.0 && s.workExp == 0.0
    ensures MakeSalaryInput(Raw(s)).Success?
    ensures MakeSalaryInput(Raw(s)).value.yearsCode == 0.0 && MakeSalaryInput(Raw(s)).value.workExp == 0.0
  {
  }
}
