/**
  The verdict `validateAddressWithUPS` draws from the first candidate of the
  validation response (UPSValidation.js:95-133).
*/
module Verdict {
  import opened Wrappers
  import JsString
  import Address

  /** The fields of the response's candidate the verdict reads; None is an absent field. */
  datatype Candidate = Candidate(
    postcodePrimaryLow: string,
    politicalDivision2: Option<string>,
    postcodeExtendedLow: Option<string>,
    classificationCode: string)

  datatype Classification = Residential | Commercial | Unknown

  /** The object the validator returns: `classification` is only set on a valid verdict. */
  datatype ValidationResult = ValidationResult(
    valid: bool,
    classification: Option<Classification>,
    errorMessage: string)

  const MismatchPrefix: string := "Based on the address given City or Zip Code is incorrect. Expected: "

  /**
    The text of the error raised by calling `toUpperCase` on the missing city of
    a candidate, in the form a Rhino host gives a method call on undefined.
  */
  const MissingCityError: string := "TypeError: Cannot call method \"toUpperCase\" of undefined"

  /** A possibly missing field as string concatenation renders it. */
  function JsText(field: Option<string>): (t: string)
    ensures field.Some? ==> t == field.value
    ensures field.None? ==> t == "undefined"
  {
    field.GetOr("undefined")
  }

  /** Classification code "2" is residential, "1" commercial, anything else unknown. */
  function Classify(code: string): (k: Classification)
    ensures k == Residential <==> code == "2"
    ensures k == Commercial <==> code == "1"
    ensures k == Unknown <==> code != "1" && code != "2"
  {
    if code == "2" then Residential
    else if code == "1" then Commercial
    else Unknown
  }

  /** Whether the candidate agrees with the request: same primary postal code, same city ignoring case. */
  predicate Matches(request: Address.AddressKeyFormat, c: Candidate) {
    && c.postcodePrimaryLow == request.postcodePrimaryLow
    && c.politicalDivision2.Some?
    && JsString.ToUpperCase(c.politicalDivision2.value) == JsString.ToUpperCase(request.politicalDivision2)
  }

  /** Whether the city comparison is reached with no candidate city, so that `toUpperCase` raises. */
  predicate CityMissingAtComparison(request: Address.AddressKeyFormat, c: Candidate) {
    c.postcodePrimaryLow == request.postcodePrimaryLow && c.politicalDivision2.None?
  }

  /** The message of a mismatch: the fixed prefix, then the candidate's city, postal code and extended code. */
  function MismatchMessage(c: Candidate): string {
    MismatchPrefix + JsText(c.politicalDivision2) + ", " + c.postcodePrimaryLow + "-" + JsText(c.postcodeExtendedLow)
  }

  /**
    The verdict of `validateAddressWithUPS`. The postal codes are compared first,
    so a missing city only raises when the codes are equal.
  */
  function Validate(request: Address.AddressKeyFormat, c: Candidate): (v: Result<ValidationResult, string>)
    ensures v.Failure? <==> CityMissingAtComparison(request, c)
    ensures v.Failure? ==> v.error == MissingCityError
    ensures v.Success? ==> (v.value.valid <==> Matches(request, c))
    ensures v.Success? ==> (v.value.valid <==> v.value.classification.Some?)
    ensures v.Success? && v.value.valid ==>
      v.value.errorMessage == "" && v.value.classification == Some(Classify(c.classificationCode))
    ensures v.Success? && !v.value.valid ==> v.value.errorMessage == MismatchMessage(c)
  {
    if c.postcodePrimaryLow != request.postcodePrimaryLow then
      Success(ValidationResult(false, None, MismatchMessage(c)))
    else if c.politicalDivision2.None? then
      Failure(MissingCityError)
    else if JsString.ToUpperCase(c.politicalDivision2.value) != JsString.ToUpperCase(request.politicalDivision2) then
      Success(ValidationResult(false, None, MismatchMessage(c)))
    else
      Success(ValidationResult(true, Some(Classify(c.classificationCode)), ""))
  }

  /** Only the primary postal code and the city of the request take part in the verdict. */
  lemma VerdictReadsOnlyPostcodeAndCity(r1: Address.AddressKeyFormat, r2: Address.AddressKeyFormat, c: Candidate)
    requires r1.postcodePrimaryLow == r2.postcodePrimaryLow
    requires r1.politicalDivision2 == r2.politicalDivision2
    ensures Validate(r1, c) == Validate(r2, c)
  {
  }

  /** A request city that differs from the candidate's only in letter case still matches. */
  lemma VerdictIgnoresCityCase(request: Address.AddressKeyFormat, c: Candidate, city: string)
    requires c.postcodePrimaryLow == request.postcodePrimaryLow
    requires c.politicalDivision2 == Some(city)
    requires |city| == |request.politicalDivision2|
    requires forall i | 0 <= i < |city| ::
      JsString.UpperChar(city[i]) == JsString.UpperChar(request.politicalDivision2[i])
    ensures Validate(request, c).Success? && Validate(request, c).value.valid
  {
    var t := request.politicalDivision2;
    forall i | 0 <= i < |city|
      ensures JsString.ToUpperCase(city)[i] == JsString.ToUpperCase(t)[i]
    {
    }
    assert JsString.ToUpperCase(city) == JsString.ToUpperCase(t);
  }

  /** A differing primary postal code makes the verdict invalid whatever the cities, even an absent one. */
  lemma PostcodeMismatchIsInvalid(request: Address.AddressKeyFormat, c: Candidate)
    requires c.postcodePrimaryLow != request.postcodePrimaryLow
    ensures Validate(request, c).Success? && !Validate(request, c).value.valid
    ensures Validate(request, c).value.errorMessage[..|MismatchPrefix|] == MismatchPrefix
  {
  }

  /**
    A candidate without a city whose postal code differs is rejected without
    raising, and the message names the city as "undefined".
  */
  lemma MissingCityMismatchMessage(request: Address.AddressKeyFormat, c: Candidate)
    requires c.postcodePrimaryLow != request.postcodePrimaryLow && c.politicalDivision2.None?
    ensures Validate(request, c) == Success(ValidationResult(false, None,
      MismatchPrefix + "undefined, " + c.postcodePrimaryLow + "-" + JsText(c.postcodeExtendedLow)))
  {
    assert MismatchPrefix + "undefined" + ", " == MismatchPrefix + "undefined, ";
  }

  /** A candidate that echoes the request's postal code and city is accepted, and classified by its code alone. */
  lemma EchoIsValid(request: Address.AddressKeyFormat, code: string)
    ensures var v := Validate(request, Candidate(request.postcodePrimaryLow, Some(request.politicalDivision2), None, code));
      v.Success? && v.value.valid && v.value.errorMessage == "" && v.value.classification == Some(Classify(code))
  {
  }
}
