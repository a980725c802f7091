/**
  The token request of `getUPSAccessToken` (UPSValidation.js:13-50): the Basic
  credential it sends, and how it reads the endpoint's reply. The HTTPS call and
  the JSON parsing are not modelled; the parsed reply is an input.
*/
module Token {
  import opened Wrappers
  import Base64

  datatype Credentials = Credentials(username: string, password: string)

  /** The fields of the parsed token reply the source reads; None is an absent field. */
  datatype TokenReply = TokenReply(
    error: Option<string>,
    errorDescription: Option<string>,
    accessToken: string)

  /** The error the source creates when the reply carries an error. */
  datatype TokenError = TokenError(name: string, message: string)

  const ErrorName: string := "UPS_ACCESS_TOKEN_ERROR"
  const ErrorMessagePrefix: string := "Error obtaining UPS access token: "
  const BasicPrefix: string := "Basic "

  /** The `Authorization` header: "Basic " and the Base64 of "username:password". */
  method AuthorizationHeader(c: Credentials) returns (header: string)
    requires Base64.IsByteString(c.username) && Base64.IsByteString(c.password)
    ensures |header| >= |BasicPrefix| && header[..|BasicPrefix|] == BasicPrefix
    ensures Base64.Decode(header[|BasicPrefix|..]) == Some(c.username + ":" + c.password)
    ensures header[|BasicPrefix|..] == Base64.Std(c.username + ":" + c.password)
  {
    var userPass := c.username + ":" + c.password;
    assert Base64.IsByteString(userPass) by {
      forall i | 0 <= i < |userPass|
        ensures userPass[i] as int < 256
      {
        if i < |c.username| {
          assert userPass[i] == c.username[i];
        } else if i > |c.username| {
          assert userPass[i] == c.password[i - |c.username| - 1];
        }
      }
    }
    var encoded := Base64.Encode(userPass);
    header := BasicPrefix + encoded;
    assert header[|BasicPrefix|..] == encoded;
  }

  /** A present field is truthy when it is a non-empty string. */
  predicate Truthy(field: Option<string>) {
    field.Some? && field.value != ""
  }

  /** The reply yields the access token unless its `error` field is truthy. */
  function AccessToken(reply: TokenReply): (r: Result<string, TokenError>)
    ensures r.Failure? <==> Truthy(reply.error)
    ensures r.Success? ==> r.value == reply.accessToken
    ensures r.Failure? ==> r.error.name == ErrorName
    ensures r.Failure? ==> r.error.message == ErrorMessagePrefix + reply.errorDescription.GetOr("undefined")
  {
    if Truthy(reply.error) then
      Failure(TokenError(ErrorName, ErrorMessagePrefix + reply.errorDescription.GetOr("undefined")))
    else
      Success(reply.accessToken)
  }

  /**
    Whether the token is obtained depends on the `error` field alone: an error
    reply fails whatever its token, and the description is only read into the
    message of that failure.
  */
  lemma AccessTokenReadsErrorFirst(r1: TokenReply, r2: TokenReply)
    requires r1.error == r2.error
    ensures AccessToken(r1).Success? <==> AccessToken(r2).Success?
    ensures AccessToken(r1).Success? && r1.accessToken == r2.accessToken ==> AccessToken(r1) == AccessToken(r2)
    ensures AccessToken(r1).Failure? && r1.errorDescription == r2.errorDescription ==> AccessToken(r1) == AccessToken(r2)
  {
  }
}
