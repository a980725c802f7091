/**
  The request address `afterSubmitAddressValidation` builds from the order before
  calling the validation endpoint (UPSValidation.js:270-295).
*/
module Address {
  import opened Wrappers
  import JsString

  /**
    The shipping fields the builder reads: zip, state and country from the order
    record, city and first address line from the first row of the address query.
  */
  datatype ShipFields = ShipFields(
    zip: string,
    state: string,
    country: string,
    city: string,
    addressLine1: string)

  /** The `AddressKeyFormat` object of the validation request. */
  datatype AddressKeyFormat = AddressKeyFormat(
    addressLine: seq<string>,
    region: string,
    politicalDivision2: string,
    politicalDivision1: string,
    postcodePrimaryLow: string,
    postcodeExtendedLow: Option<string>,
    countryCode: string)

  /** The `Region` field: city, state and primary postal code, comma-separated. */
  function Region(city: string, state: string, primary: string): string {
    city + "," + state + "," + primary
  }

  /**
    A 5-character zip is sent verbatim with no extended code; any other zip is
    split with `slice(0, 5)` and `slice(-4)`.
  */
  function BuildRequestAddress(f: ShipFields): (a: AddressKeyFormat)
    ensures a.addressLine == [f.addressLine1]
    ensures a.politicalDivision2 == f.city && a.politicalDivision1 == f.state && a.countryCode == f.country
    ensures a.region == Region(f.city, f.state, a.postcodePrimaryLow)
    ensures |f.zip| == 5 <==> a.postcodeExtendedLow.None?
    ensures |f.zip| == 5 ==> a.postcodePrimaryLow == f.zip
    ensures |f.zip| != 5 && |f.zip| >= 5 ==>
      a.postcodePrimaryLow == f.zip[..5] && a.postcodeExtendedLow == Some(f.zip[|f.zip| - 4..])
    ensures |f.zip| <= 4 ==> a.postcodePrimaryLow == f.zip && a.postcodeExtendedLow == Some(f.zip)
  {
    if |f.zip| == 5 then
      AddressKeyFormat([f.addressLine1], Region(f.city, f.state, f.zip), f.city, f.state, f.zip, None, f.country)
    else
      JsString.SlicePrefix(f.zip, 5);
      JsString.SliceLast(f.zip, 4);
      var primary := JsString.Slice(f.zip, 0, 5);
      AddressKeyFormat([f.addressLine1], Region(f.city, f.state, primary), f.city, f.state, primary,
                       Some(JsString.SliceFrom(f.zip, -4)), f.country)
  }

  /** The primary code is always a prefix of the zip, of length 5 when the zip has at least 5 characters. */
  lemma PrimaryIsPrefix(f: ShipFields)
    ensures var p := BuildRequestAddress(f).postcodePrimaryLow;
      |p| <= 5 && p <= f.zip && (|f.zip| >= 5 ==> |p| == 5)
  {
  }

  /** A nine-digit ZIP+4 splits into its first five and last four characters, which rejoin to the zip. */
  lemma ZipPlus4Splits(f: ShipFields)
    requires |f.zip| == 9
    ensures var a := BuildRequestAddress(f);
      && a.postcodeExtendedLow.Some?
      && |a.postcodePrimaryLow| == 5 && |a.postcodeExtendedLow.value| == 4
      && a.postcodePrimaryLow + a.postcodeExtendedLow.value == f.zip
  {
    var a := BuildRequestAddress(f);
    assert f.zip[..5] + f.zip[5..] == f.zip;
  }

  /** A hyphenated ZIP+4 ("12345-6789") splits around the hyphen. */
  lemma HyphenatedZipSplits(f: ShipFields)
    requires |f.zip| == 10 && f.zip[5] == '-'
    ensures var a := BuildRequestAddress(f);
      && a.postcodeExtendedLow.Some?
      && a.postcodePrimaryLow + "-" + a.postcodeExtendedLow.value == f.zip
  {
    var a := BuildRequestAddress(f);
    assert f.zip[..5] + "-" + f.zip[6..] == f.zip;
  }

  /** A ZIP+4 zip and a five-digit zip: "123456789" and "12345". */
  lemma ZipExamples(city: string, state: string, line: string)
    ensures var a := BuildRequestAddress(ShipFields("123456789", state, "US", city, line));
      a.postcodePrimaryLow == "12345" && a.postcodeExtendedLow == Some("6789")
    ensures var a := BuildRequestAddress(ShipFields("12345", state, "US", city, line));
      a.postcodePrimaryLow == "12345" && a.postcodeExtendedLow.None?
  {
    var z := "123456789";
    assert z[..5] == "12345";
    assert z[5..] == "6789";
  }
}
