/**
  The status decision of `afterSubmitAddressValidation` (UPSValidation.js:144-484):
  which single status string, if any, the handler writes onto the order.
  Reading and writing the record, the address query and the HTTPS calls are not
  modelled; their results are inputs.
*/
module Workflow {
  import opened Wrappers
  import Address
  import Verdict
  import Token

  const VerifiedStatus: string := "Verified Address"
  const NonUsStatus: string := "Addresses out of the US are not validated"
  const ManualStatus: string := "Address verified manually"
  const InvalidPrefix: string := "Invalid address: "
  const NotFoundStatus: string := "Given Address was not found on UPS database."
  const ErrorPrefix: string := "ERROR ON THE ADDRESS VERIFICATION: "

  /** The handler writes one status, or nothing. */
  datatype Outcome = NoWrite | Write(status: string)

  /** How the token-and-validation step ended: a verdict, no candidate, or any other error. */
  datatype StepResult = Checked(result: Verdict.ValidationResult) | NotFound | Failed(text: string)

  /** A status that marks the order as settled, so that the handler leaves it alone. */
  predicate IsSettled(status: string) {
    status == VerifiedStatus || status == NonUsStatus || status == ManualStatus
  }

  /** The status the step's result leads to. */
  function StepStatus(step: StepResult): string {
    match step
    case Checked(v) => if !v.valid then InvalidPrefix + v.errorMessage else VerifiedStatus
    case NotFound => NotFoundStatus
    case Failed(text) => ErrorPrefix + text
  }

  /**
    The decision in source order: settled status, then country, then the
    manual-verification flag, then the step's verdict or error.
  */
  function Decide(current: string, country: string, manualFlag: bool, step: StepResult): (o: Outcome)
    ensures o.NoWrite? <==> IsSettled(current)
    ensures !IsSettled(current) && country != "US" ==> o == Write(NonUsStatus)
    ensures !IsSettled(current) && country == "US" && manualFlag ==> o == Write(ManualStatus)
    ensures !IsSettled(current) && country == "US" && !manualFlag ==> o == Write(StepStatus(step))
  {
    if IsSettled(current) then NoWrite
    else if country != "US" then Write(NonUsStatus)
    else if manualFlag then Write(ManualStatus)
    else Write(StepStatus(step))
  }

  /** Every status the handler writes is one of the fixed strings or starts with one of the fixed prefixes. */
  lemma WrittenStatusVocabulary(current: string, country: string, manualFlag: bool, step: StepResult)
    requires Decide(current, country, manualFlag, step).Write?
    ensures var s := Decide(current, country, manualFlag, step).status;
      || s == VerifiedStatus || s == NonUsStatus || s == ManualStatus || s == NotFoundStatus
      || (|s| >= |InvalidPrefix| && s[..|InvalidPrefix|] == InvalidPrefix)
      || (|s| >= |ErrorPrefix| && s[..|ErrorPrefix|] == ErrorPrefix)
  {
    var s := Decide(current, country, manualFlag, step).status;
    if country == "US" && !manualFlag {
      match step
      case Checked(v) =>
        if !v.valid {
          assert s == InvalidPrefix + v.errorMessage;
          assert s[..|InvalidPrefix|] == InvalidPrefix;
        }
      case NotFound =>
      case Failed(text) =>
        assert s[..|ErrorPrefix|] == ErrorPrefix;
    }
  }

  /** Statuses that begin with the invalid or error prefix never count as settled. */
  lemma PrefixedStatusNotSettled(text: string)
    ensures !IsSettled(InvalidPrefix + text)
    ensures !IsSettled(ErrorPrefix + text)
    ensures !IsSettled(NotFoundStatus)
  {
    assert (InvalidPrefix + text)[0] == 'I';
    assert (ErrorPrefix + text)[0] == 'E';
    assert (ErrorPrefix + text)[1] == 'R';
  }

  /**
    Running the handler again on the status it just wrote writes nothing exactly
    when that status is a settled one; an invalid, not-found or error status is
    checked again.
  */
  lemma RerunIdempotence(current: string, country: string, manualFlag: bool, step: StepResult,
                         country': string, manualFlag': bool, step': StepResult)
    requires Decide(current, country, manualFlag, step).Write?
    ensures var s := Decide(current, country, manualFlag, step).status;
      Decide(s, country', manualFlag', step').NoWrite? <==>
        (country != "US" || manualFlag || (step.Checked? && step.result.valid))
  {
    if country == "US" && !manualFlag {
      match step
      case Checked(v) =>
        PrefixedStatusNotSettled(v.errorMessage);
      case NotFound =>
        PrefixedStatusNotSettled("");
      case Failed(text) =>
        PrefixedStatusNotSettled(text);
    }
  }

  /** The classification of a valid verdict has no effect on the status. */
  lemma ClassificationDoesNotAffectStatus(current: string, country: string, manualFlag: bool,
                                          v1: Verdict.ValidationResult, v2: Verdict.ValidationResult)
    requires v1.valid && v2.valid
    ensures Decide(current, country, manualFlag, Checked(v1)) == Decide(current, country, manualFlag, Checked(v2))
  {
  }

  // ------------------------------------------------------ the whole handler

  /**
    The order fields the handler reads. The shipping country is read once, in
    `ship`, for both the US check and the request address.
  */
  datatype Order = Order(
    status: string,
    manualFlag: bool,
    ship: Address.ShipFields)

  /** The token call: a parsed reply, or a failure of the call or the parse (the caught error's text). */
  datatype TokenCall = TokenAnswered(reply: Token.TokenReply) | TokenCallFailed(text: string)

  /** The validation call: the response's candidate (None when it has none), or a failure with its text. */
  datatype ValidationCall = ValidationAnswered(candidate: Option<Verdict.Candidate>) | ValidationCallFailed(text: string)

  /** Whether the token call yields an access token. */
  predicate TokenObtained(token: TokenCall) {
    token.TokenAnswered? && Token.AccessToken(token.reply).Success?
  }

  /** Token first, then the request address, then validation. */
  function ValidationStep(ship: Address.ShipFields, token: TokenCall, validation: ValidationCall): (step: StepResult)
    ensures token.TokenCallFailed? ==> step == Failed(token.text)
    ensures token.TokenAnswered? && Token.AccessToken(token.reply).Failure? ==>
      step == Failed(Token.AccessToken(token.reply).error.message)
    ensures TokenObtained(token) && validation.ValidationCallFailed? ==> step == Failed(validation.text)
    ensures step.NotFound? <==> TokenObtained(token) && validation == ValidationAnswered(None)
    ensures TokenObtained(token) && validation.ValidationAnswered? && validation.candidate.Some? ==>
      var v := Verdict.Validate(Address.BuildRequestAddress(ship), validation.candidate.value);
      && (v.Success? ==> step == Checked(v.value))
      && (v.Failure? ==> step == Failed(v.error))
    ensures step.Checked? ==> TokenObtained(token) && validation.ValidationAnswered? && validation.candidate.Some?
  {
    match token
    case TokenCallFailed(text) => Failed(text)
    case TokenAnswered(reply) =>
      match Token.AccessToken(reply)
      case Failure(e) => Failed(e.message)
      case Success(_) =>
        var request := Address.BuildRequestAddress(ship);
        match validation
        case ValidationCallFailed(text) => Failed(text)
        case ValidationAnswered(None) => NotFound
        case ValidationAnswered(Some(c)) =>
          match Verdict.Validate(request, c)
          case Success(v) => Checked(v)
          case Failure(text) => Failed(text)
  }

  /**
    `afterSubmitAddressValidation` for one order and the answers of the two
    calls: exactly one status write unless the current status is settled.
  */
  function Run(order: Order, token: TokenCall, validation: ValidationCall): (o: Outcome)
    ensures o.Write? <==> !IsSettled(order.status)
    ensures !IsSettled(order.status) && order.ship.country != "US" ==> o == Write(NonUsStatus)
    ensures !IsSettled(order.status) && order.ship.country == "US" && order.manualFlag ==> o == Write(ManualStatus)
    ensures !IsSettled(order.status) && order.ship.country == "US" && !order.manualFlag ==>
      var step := ValidationStep(order.ship, token, validation);
      && (o == Write(VerifiedStatus) <==> step.Checked? && step.result.valid)
      && (step.Failed? ==> o == Write(ErrorPrefix + step.text))
  {
    Decide(order.status, order.ship.country, order.manualFlag, ValidationStep(order.ship, token, validation))
  }

  /** A settled order is left alone, and a non-US or manually verified one gets its fixed status, whatever the calls would answer. */
  lemma ExemptionsIgnoreCalls(order: Order, t1: TokenCall, v1: ValidationCall, t2: TokenCall, v2: ValidationCall)
    requires IsSettled(order.status) || order.ship.country != "US" || order.manualFlag
    ensures Run(order, t1, v1) == Run(order, t2, v2)
  {
  }

  /** A failed token step ends the run before the validation call has any effect. */
  lemma TokenFailureIgnoresValidation(order: Order, token: TokenCall, v1: ValidationCall, v2: ValidationCall)
    requires !TokenObtained(token)
    requires !IsSettled(order.status) && order.ship.country == "US" && !order.manualFlag
    ensures Run(order, token, v1) == Run(order, token, v2)
    ensures Run(order, token, v1).status[..|ErrorPrefix|] == ErrorPrefix
  {
  }

  /** A failed validation call writes the error prefix followed by the text of the error it raised. */
  lemma FailedValidationWritesError(order: Order, reply: Token.TokenReply, text: string)
    requires !IsSettled(order.status) && order.ship.country == "US" && !order.manualFlag
    requires !Token.Truthy(reply.error)
    ensures Run(order, TokenAnswered(reply), ValidationCallFailed(text)) == Write(ErrorPrefix + text)
  {
  }

  /** A response without a candidate writes exactly the not-found status. */
  lemma MissingCandidateWritesNotFound(order: Order, reply: Token.TokenReply)
    requires !IsSettled(order.status) && order.ship.country == "US" && !order.manualFlag
    requires !Token.Truthy(reply.error)
    ensures Run(order, TokenAnswered(reply), ValidationAnswered(None)) == Write(NotFoundStatus)
  {
  }

  /** A matching residential candidate writes "Verified Address" and is classified Residential. */
  lemma MatchingCandidateVerifies(order: Order, reply: Token.TokenReply, c: Verdict.Candidate)
    requires !IsSettled(order.status) && order.ship.country == "US" && !order.manualFlag
    requires !Token.Truthy(reply.error)
    requires Verdict.Matches(Address.BuildRequestAddress(order.ship), c)
    requires c.classificationCode == "2"
    ensures Run(order, TokenAnswered(reply), ValidationAnswered(Some(c))) == Write(VerifiedStatus)
    ensures ValidationStep(order.ship, TokenAnswered(reply), ValidationAnswered(Some(c))).result.classification
      == Some(Verdict.Residential)
  {
  }

  /**
    A candidate that does not match writes the invalid status naming the
    candidate's city and postal codes, unless the postal codes agree and the
    candidate has no city, in which case the comparison raises.
  */
  lemma MismatchWritesInvalid(order: Order, reply: Token.TokenReply, c: Verdict.Candidate)
    requires !IsSettled(order.status) && order.ship.country == "US" && !order.manualFlag
    requires !Token.Truthy(reply.error)
    requires !Verdict.Matches(Address.BuildRequestAddress(order.ship), c)
    ensures Run(order, TokenAnswered(reply), ValidationAnswered(Some(c))) ==
      if Verdict.CityMissingAtComparison(Address.BuildRequestAddress(order.ship), c)
      then Write(ErrorPrefix + Verdict.MissingCityError)
      else Write(InvalidPrefix + Verdict.MismatchPrefix + Verdict.JsText(c.politicalDivision2) + ", " +
                 c.postcodePrimaryLow + "-" + Verdict.JsText(c.postcodeExtendedLow))
  {
  }
}
