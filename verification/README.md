# UPS address validation for sales orders — a Dafny model

`UPSValidation.js` is a NetSuite user-event script. When a sales order is
submitted, it reads the order's shipping address and asks the UPS Address
Validation API whether the address is right. It then writes one status string
into the order's address-status field. This project models the logic of that
script and proves properties of it:

- `base64Encode`, the hand-written encoder behind the `Authorization: Basic`
  header of the token request (module `Base64`, on the JavaScript bit
  operators of module `Bits`);
- how the token reply is read (module `Token`);
- how the request address is built from the order's zip, state and city
  (module `Address`, on the `slice` and `toUpperCase` semantics of module
  `JsString`);
- the verdict drawn from the first candidate of the validation response
  (module `Verdict`);
- the status decision of `afterSubmitAddressValidation`: the settled-status
  check, then the country, then the manual-verification flag, then the
  verdict or the caught error (module `Workflow`).

The record store, the SuiteQL query and the two HTTPS calls are inputs. The
token reply and the validation response are given already parsed. A call that
throws is given as the text of the error it raises.

The encoder is modelled twice. `Base64.Std` is the encoding of section 4 of
RFC 4648: 24-bit groups cut into four 6-bit groups, and `=` padding. It has a
decoder, `Base64.Decode`, as its partner. `Base64.Encode` is the source's loop:
`charCodeAt`, which gives NaN past the end, then `>>`, `&`, `<<` and `|`, then
`charAt` on the 65-character table. It is proved equal to `Std`. The table is
written as four concatenated literals that spell the source's table. The proof
evaluates each of its 65 positions.

Behaviours of the script that are easy to misread:

- A zip whose length is not 5 is not checked to have 9 digits. `slice(0, 5)`
  and `slice(-4)` are applied to whatever is there. A 4-character zip is sent
  as both the primary and the extended code, and so is any shorter zip
  (`Address.BuildRequestAddress`).
- The mismatch message concatenates the candidate's `PostcodeExtendedLow`
  even when the candidate has none. It then ends in `-undefined`
  (`Verdict.JsText`).
- The postal codes are compared before the cities. A candidate without a city
  is therefore rejected with "Expected: undefined, ..." when its postal code
  differs. When the postal codes agree, `toUpperCase` is called on the missing
  city and raises a `TypeError`, and the error status is written
  (`Verdict.Validate`, `Workflow.MismatchWritesInvalid`). The text of that
  error is written as a Rhino host renders a method call on undefined.
- The US check and the request's `CountryCode` read the same `shipcountry`
  field, so the model keeps one country, in the shipping fields.
- A response without a candidate is recognised in the source by the text of
  the resulting `TypeError`. Here it is a typed case: `ValidationAnswered(None)`
  becomes `NotFound`.

## Model

| member | source | states |
|---|---|---|
| Bits.AndLowMask | UPSValidation.js:503-505 | `x & (2^k - 1)` keeps the low k bits: it equals `x % 2^k` for every x and k |
| Bits.ShrIsDiv | UPSValidation.js:502 | shifting right by k bits is division by 2^k |
| Bits.OrDisjoint | UPSValidation.js:503-504 | or-ing a value shifted left by k with a value below 2^k is the same as adding them |
| JsString.SlicePrefix | UPSValidation.js:291 | `slice(0, n)` is the first n characters, or the whole string when it is shorter, and it is a prefix of the string |
| JsString.SliceLast | UPSValidation.js:292 | `slice(-n)` is the last n characters, or the whole string when it is shorter, and it is a suffix of the string |
| JsString.ToUpperCase | UPSValidation.js:97 | the result has the input's length, contains no lower-case letter, maps each lower-case letter to its capital and leaves every other character alone |
| JsString.ToUpperCaseIdempotent | UPSValidation.js:97 | upper-casing twice gives the same result as upper-casing once |
| JsString.ToUpperCaseIgnoresCase | UPSValidation.js:97 | two strings that differ only in letter case upper-case to the same string |
| Base64.AlphabetIsTable | UPSValidation.js:492 | positions 0-63 of the encoder's table hold the Base64 alphabet of RFC 4648 in order, and position 64 holds '=' |
| Base64.DigitFacts | UPSValidation.js:492 | no alphabet digit is '=', and distinct 6-bit values have distinct digits |
| Base64.ValueOf | UPSValidation.js:492 | the decoder's inverse of the table: a digit's 6-bit value, and None exactly for characters that are not digits |
| Base64.FirstSextet | UPSValidation.js:502 | `chr1 >> 2` is the first 6-bit group of the 24-bit input group |
| Base64.SecondSextet | UPSValidation.js:503 | `((chr1 & 3) << 4) \| (chr2 >> 4)` is the second 6-bit group |
| Base64.ThirdSextet | UPSValidation.js:504 | `((chr2 & 15) << 2) \| (chr3 >> 6)` is the third 6-bit group |
| Base64.FourthSextet | UPSValidation.js:505 | `chr3 & 63` is the fourth 6-bit group |
| Base64.LoopIndicesAreSextets | UPSValidation.js:502-511 | the four indices of an iteration are the 6-bit groups of the code units it read, and 64 (the pad) for a missing second or third one |
| Base64.TableChar | UPSValidation.js:513-515 | `keyStr.charAt(k)` for an index up to 64 is the RFC 4648 digit of k, or '=' at 64 |
| Base64.LoopGroupChars | UPSValidation.js:502-515 | the four characters of an iteration are the RFC 4648 quantum of the one, two or three code units it read |
| Base64.LoopStep | UPSValidation.js:497-516 | one iteration keeps the loop invariant: the output so far, followed by the encoding of the unread input, is the encoding of the whole input |
| Base64.LoopGroupIsQuantum | UPSValidation.js:498-515 | one loop iteration appends the next four-character quantum of the RFC 4648 encoding, padding included, and consumes up to three characters |
| Base64.Encode | UPSValidation.js:491-519 | for byte-valued input, the loop's output is the RFC 4648 encoding and decodes back to the input; its length is 4·⌈n/3⌉; every character is from the table; '=' fills exactly the last (3 − n mod 3) mod 3 positions |
| Base64.StdLength | UPSValidation.js:497-516 | the encoding has 4·⌈n/3⌉ characters, so the empty string encodes to the empty string |
| Base64.StdPadding | UPSValidation.js:507-515 | '=' appears exactly in the last (3 − n mod 3) mod 3 positions: none when n mod 3 = 0, two when it is 1, one when it is 2 |
| Base64.NoPadInQuantumHead | UPSValidation.js:507-515 | '=' never occupies either of the first two positions of a quantum |
| Base64.StdAlphabet | UPSValidation.js:513-515 | every output character is one of the 65 table characters |
| Base64.QuantumRoundTrip | UPSValidation.js:502-515 | decoding the quantum of a one-, two- or three-octet group gives back exactly those octets |
| Base64.DecodeOneQuantum | UPSValidation.js:513-515 | a string of a single well-formed quantum decodes to that quantum's octets |
| Base64.DecodeOneOctet | UPSValidation.js:507-508 | a final group of one octet, padded with '==', decodes back to that octet |
| Base64.DecodeTwoOctets | UPSValidation.js:509-510 | a final group of two octets, padded with '=', decodes back to those octets |
| Base64.StdFacts | UPSValidation.js:491-519 | the encoding of every byte string decodes back to it, has 4·⌈n/3⌉ characters, uses only table characters and has '=' exactly in its padding positions |
| Base64.DecodeStd | UPSValidation.js:486-519 | a standard decoder recovers every byte string from its encoding (round trip) |
| Token.AuthorizationHeader | UPSValidation.js:28 | the header is "Basic " followed by the RFC 4648 encoding of "username:password", and that part decodes back to "username:password" |
| Token.AccessTokenReadsErrorFirst | UPSValidation.js:36-49 | whether the token is obtained depends only on the reply's `error` field; the token is read only on success and the description only into the failure's message |
| Token.AccessToken | UPSValidation.js:34-49 | the reply gives the access token exactly when its `error` field is not truthy; otherwise it gives an UPS_ACCESS_TOKEN_ERROR whose message is the fixed prefix followed by the error description |
| Address.BuildRequestAddress | UPSValidation.js:270-295 | a 5-character zip is sent as is with no extended code. A longer zip is sent as its first five characters plus its last four as the extended code. A zip of at most 4 characters is sent whole as both. Region is city,state,primary; the city, state, country and first address line are copied |
| Address.PrimaryIsPrefix | UPSValidation.js:279-291 | the primary code is a prefix of the zip, at most 5 characters long, and exactly 5 characters when the zip has at least 5 |
| Address.ZipPlus4Splits | UPSValidation.js:291-292 | a 9-character zip splits into a 5-character primary code and a 4-character extended code that rejoin to the zip |
| Address.HyphenatedZipSplits | UPSValidation.js:291-292 | a zip written "12345-6789" splits around the hyphen |
| Address.ZipExamples | UPSValidation.js:270-295 | "123456789" gives primary "12345" and extended "6789"; "12345" gives primary "12345" and no extended code |
| Verdict.Classify | UPSValidation.js:112-133 | code "2" means Residential, "1" means Commercial, and any other code means Unknown |
| Verdict.Validate | UPSValidation.js:95-133 | the comparison raises exactly when the postal codes are equal and the candidate has no city. Otherwise the verdict is valid exactly when the primary postal codes are equal and the upper-cased cities are equal. A valid verdict has a classification from the candidate's code and an empty message. An invalid one has no classification and the mismatch message naming the candidate's city, postal code and extended code, with an absent field rendered "undefined" |
| Verdict.VerdictReadsOnlyPostcodeAndCity | UPSValidation.js:95-98 | two requests with the same primary code and city get the same verdict, whatever their state, address line, country or extended code |
| Verdict.VerdictIgnoresCityCase | UPSValidation.js:97 | a request city that differs from the candidate's only in letter case, with the same postal code, is accepted |
| Verdict.PostcodeMismatchIsInvalid | UPSValidation.js:96-105 | a differing primary postal code makes the verdict invalid without raising, whatever the cities, and its message starts with the fixed prefix |
| Verdict.MissingCityMismatchMessage | UPSValidation.js:96-105 | a candidate without a city whose postal code differs is rejected, and its message reads "Expected: undefined, " followed by the postal codes |
| Verdict.EchoIsValid | UPSValidation.js:95-133 | a candidate that repeats the request's postal code and city is valid and is classified by its code alone |
| Workflow.Decide | UPSValidation.js:166-230 | no write exactly when the current status is settled. Otherwise a non-US country writes the non-US status, then a set manual flag writes the manual status, then the step's status is written |
| Workflow.WrittenStatusVocabulary | UPSValidation.js:193-230 | every written status is one of the four fixed strings, or starts with "Invalid address: " or with "ERROR ON THE ADDRESS VERIFICATION: " |
| Workflow.PrefixedStatusNotSettled | UPSValidation.js:166 | invalid-address, error and not-found statuses never count as settled |
| Workflow.RerunIdempotence | UPSValidation.js:166-168 | re-running on the status just written writes nothing exactly when that status was the verified, non-US or manual one; after an invalid, not-found or error status the order is checked again |
| Workflow.ClassificationDoesNotAffectStatus | UPSValidation.js:339-415 | every valid verdict writes the same status, whatever its classification |
| Workflow.ValidationStep | UPSValidation.js:233-306 | the token is obtained first, and its failure is the step's error whatever the validation call returns. With a token, a failed validation call is the step's error with that call's text, a response without a candidate is NotFound, and a candidate gives the verdict of `Verdict.Validate` against the address built from the order, or that verdict's error when the comparison raises |
| Workflow.Run | UPSValidation.js:150-483 | exactly one status write unless the current status is settled. A non-US order writes the non-US status and a manually verified one the manual status. Otherwise "Verified Address" is written exactly when the step's verdict is valid, and a failed step writes the error prefix followed by the error's text |
| Workflow.ExemptionsIgnoreCalls | UPSValidation.js:166-230 | for a settled, non-US or manually verified order the outcome does not depend on either call |
| Workflow.TokenFailureIgnoresValidation | UPSValidation.js:456-477 | when the token step fails, the validation call has no effect and the status starts with the error prefix |
| Workflow.FailedValidationWritesError | UPSValidation.js:456-477 | with a token, a failed validation call writes "ERROR ON THE ADDRESS VERIFICATION: " followed by the text of its error |
| Workflow.MissingCandidateWritesNotFound | UPSValidation.js:431-452 | a response without a candidate writes exactly "Given Address was not found on UPS database." |
| Workflow.MatchingCandidateVerifies | UPSValidation.js:339-415 | a matching candidate with code "2" writes "Verified Address" and is classified Residential |
| Workflow.MismatchWritesInvalid | UPSValidation.js:315-332 | a candidate that does not match writes "Invalid address: " followed by the mismatch message that names the candidate's city and codes; when the postal codes agree and the candidate has no city, the error status of the raised `TypeError` is written instead |

## Left out

- The HTTPS calls to the token and validation endpoints, and `JSON.parse` of their bodies, are not modelled. Their results are inputs (`Workflow.TokenCall`, `Workflow.ValidationCall`), and a failed call is the text of the error it raises.
- `record.load`, `getValue`, `setValue`, `submitFields` and the SuiteQL query are host record-store I/O. Only the status string that would be submitted is modelled. The in-memory `setValue` copies are never saved, so they are not writes.
- `log.debug` and `log.error` only log.
- The classification-to-field writes that are commented out in the source are dead code.
- Failures the source does not anticipate are not modelled: a missing query row, a null zip, a null city in the query row, and a matching candidate without `AddressClassification`. Each raises a `TypeError` inside the handler's `try`, so the error prefix followed by the host's message would be written. A null city raises only once the postal codes agree and the city is upper-cased; before that the `Region` field reads "null,<state>,<zip>".
- An error raised by `record.load` is not modelled. `newRecord` is then still undefined in the `catch`, so its `setValue` raises again, nothing is written, and the exception leaves the handler.
- A missing candidate is a typed case. The comparison of the caught error's text with the `TypeError` message is not reproduced.
- Base64.Encode: requires byte-valued characters (codes below 256). For larger UTF-16 code units the source's indices pass 64, and `charAt` then yields "" or '='.
- JsString.ToUpperCase: upper-cases ASCII letters only. JavaScript's full Unicode case mapping (for example 'é' to 'É', 'ß' to "SS") is not modelled.
- Verdict.Validate: the error text for a candidate without a city, `TypeError: Cannot call method "toUpperCase" of undefined`, stands in for the host's message. The script never states it, and another host words it differently.
- Workflow.ValidationStep: for a token error the status embeds the error's message. The host's `toString()` rendering of the created error around that message is not modelled.
- Bits.AndLowMask: with Bits.ShrIsDiv and Bits.OrDisjoint, models JavaScript's `&`, `|`, `<<` and `>>` on naturals below 2^31 only. The encoder's operands are bytes, so the 32-bit conversion never changes them.
- The hard-coded credential placeholders and the merchant-id header are configuration, not logic.
