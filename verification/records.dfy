/**
 * One UN/LOCODE location as the dataset builder writes it and the destination
 * matcher reads it (one element of the `locode.json` array).
 */
module Records {
  import opened Wrappers

  datatype PortRecord = PortRecord(
    locode: string,       // countryCode + portCode, e.g. "GBHUL"
    portCode: string,     // the three-character location part, e.g. "HUL"
    port: string,         // the location name as written in the code list
    countryCode: string,  // ISO 3166 alpha-2 code, e.g. "GB"
    country: string,      // country name, "" when the code is unknown
    lat: Option<real>,    // signed decimal degrees, None when unparsable
    lon: Option<real>,
    portNorm: string)     // "NAME, COUNTRY" normalised for matching
}
