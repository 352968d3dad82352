/** The supplier client's request variables, written by one file and read by another. */
module QueryRoundTrip {
  import opened JsonSyntax
  import opened JsonEscape
  import opened JsonWrite
  import opened JsonParser
  import opened Wrappers

  /** Building the variables and parsing them gives back the part number, the country and the currency, whatever
      they are, and no error. */
  method AskAndParse(mpn: Bytes, country: Bytes, currency: Bytes, accepts: Bytes -> bool)
    returns (root: Option<Json>, error: Option<Error>)
    requires NulFree(mpn) && NulFree(country) && NulFree(currency)
    ensures root == Some(JObject(map[Ascii("q") := JString(mpn), Ascii("country") := JString(country),
                                     Ascii("currency") := JString(currency)]))
    ensures error == None
  {
    var variables := QueryVariables(mpn, country, currency);
    QueryKeys();
    KeyTexts();
    VariablesPrinted(accepts, Q, mpn, COUNTRY, country, CURRENCY, currency);
    ghost var d := ObjectDocument(ThreeMembers(Q, mpn, COUNTRY, country, CURRENCY, currency));
    root, error := Parse(variables, accepts);
    assert variables == PrintDocument(d) && WfDocument(accepts, d) && Fits(d.t.v, 0);
  }

  lemma KeyTexts()
    ensures Ascii("q") == Q && Ascii("country") == COUNTRY && Ascii("currency") == CURRENCY
  {
  }
}
