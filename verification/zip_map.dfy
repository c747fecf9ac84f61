/**
 * The per-row record parser of the Slovak city map: each row of the data
 * file (name, postal code, population and gps text) becomes a `City`.
 */
module ZipMap {
  import opened Wrappers
  import opened JsString
  import opened JsNumber
  import opened GpsPattern
  import opened JsArray

  /** One row of the data file as the loader hands it over: every field as text. */
  datatype CityInfo = CityInfo(name: string, zip: string, population: string, gps: string)

  /**
   * A parsed city. `population` is `None` where `parseInt` gives `NaN`;
   * `lat` and `lon` are the texts handed to `parseFloat`.
   */
  datatype City = City(name: string, zip: string, population: Option<nat>, lat: string, lon: string)

  /** Indexing the `null` that `exec` returns for a gps text that does not match throws. */
  datatype RowError = GpsMismatch

  /** Parses one row, or fails when its gps text does not match `(.+)°N (.+)°E`. */
  function ParseCity(info: CityInfo): (r: Result<City, RowError>)
    ensures r.Failure? <==> forall m :: !IsMatch(info.gps, m)
    ensures r.Success? ==> r.value.name == info.name
    ensures r.Success? ==> ' ' !in r.value.zip && ' ' !in r.value.lat && ' ' !in r.value.lon
    ensures r.Success? ==> (r.value.population.Some? <==> StripSpaces(info.population) != [] && IsDigit(StripSpaces(info.population)[0]))
  {
    match Exec(info.gps)
    case None => Failure(GpsMismatch)
    case Some(m) =>
      var zip := StripSpaces(info.zip);
      var population := ParseInt(StripSpaces(info.population));
      var lat := StripSpaces(m.Group1(info.gps));
      var lon := StripSpaces(m.Group2(info.gps));
      Success(City(info.name, zip, population, lat, lon))
  }

  /** `data.map(...)` over the rows: one city per row in row order, or the first row that throws. */
  function ParseCities(rows: seq<CityInfo>): (r: Result<seq<City>, Thrown<RowError>>)
    ensures r.Success? <==> forall p :: 0 <= p < |rows| ==> ParseCity(rows[p]).Success?
    ensures r.Success? ==> |r.value| == |rows| && forall p :: 0 <= p < |rows| ==> ParseCity(rows[p]) == Success(r.value[p])
    ensures r.Failure? ==> r.error.index < |rows| && ParseCity(rows[r.error.index]).Failure?
    ensures r.Failure? ==> forall p :: 0 <= p < r.error.index ==> ParseCity(rows[p]).Success?
  {
    MapOrThrow(ParseCity, rows)
  }

  /**
   * Writing a row's gps text from a latitude and a longitude (single-line,
   * non-empty, no `°N ` in the longitude, no `°E` in the tail) and parsing the
   * row gives back exactly those texts, spaces removed, next to the name, the
   * normalised zip and the parsed population.
   */
  lemma ParseCityOfParts(name: string, zip: string, population: string, lat: string, lon: string, tail: string)
    requires lat != [] && lon != []
    requires SingleLine(lat) && SingleLine(lon) && SingleLine(tail)
    requires Lacks(lon, NorthSep) && Lacks(tail, EastMark)
    ensures ParseCity(CityInfo(name, zip, population, GpsText(lat, lon, tail)))
      == Success(City(name, StripSpaces(zip), ParseInt(StripSpaces(population)), StripSpaces(lat), StripSpaces(lon)))
  {
    ExecOfParts(lat, lon, tail);
  }

  /**
   * Whatever the gps text, a row whose text has `m` as its first match in
   * backtracking order becomes the city whose coordinates are the two groups
   * of `m` with their spaces removed.
   */
  lemma ParseCityOfMatch(info: CityInfo, m: Match)
    requires IsFirstMatch(info.gps, m)
    ensures ParseCity(info) == Success(City(info.name, StripSpaces(info.zip), ParseInt(StripSpaces(info.population)),
      StripSpaces(m.Group1(info.gps)), StripSpaces(m.Group2(info.gps))))
  {
    FirstMatchUnique(info.gps, m);
  }

  /** The population round trip: a count written in decimal, with spaces anywhere, parses to that count. */
  lemma PopulationOfDigits(info: CityInfo, n: nat, rest: string)
    requires ParseCity(info).Success?
    requires StripSpaces(info.population) == ShowNat(n) + rest
    requires rest == [] || !IsDigit(rest[0])
    ensures ParseCity(info).value.population == Some(n)
  {
    ParseIntShowNat(n, rest);
  }

  /** Mapping rows that all parse, split anywhere, gives the two halves' cities one after the other. */
  lemma ParseCitiesAppend(a: seq<CityInfo>, b: seq<CityInfo>)
    requires ParseCities(a).Success? && ParseCities(b).Success?
    ensures ParseCities(a + b) == Success(ParseCities(a).value + ParseCities(b).value)
  {
    MapOrThrowAppend(ParseCity, a, b);
  }

  /** The zip of the sample row below, spaces removed. */
  lemma BratislavaZip()
    ensures StripSpaces("811 01") == "81101"
  {
    assert StripSpaces("01") == "01";
    assert StripSpaces(" 01") == "01";
    assert StripSpaces("1 01") == "101";
    assert StripSpaces("11 01") == "1101";
  }

  /** The population of the sample row below, spaces removed. */
  lemma BratislavaDigits()
    ensures StripSpaces("1 200 000") == "1200000"
  {
    assert StripSpaces("000") == "000";
    assert StripSpaces(" 000") == "000";
    assert StripSpaces("00 000") == "00000";
    assert StripSpaces(" 200 000") == "200000";
  }

  /** The population of the sample row below, parsed. */
  lemma BratislavaPopulation()
    ensures ParseInt("1200000") == Some(1200000)
  {
    assert ShowNat(12) == "12";
    assert ShowNat(120) == "120";
    assert ShowNat(1200) == "1200";
    assert ShowNat(12000) == "12000";
    assert ShowNat(120000) == "120000";
    assert ShowNat(1200000) == "1200000";
    ParseIntShowNat(1200000, []);
    assert ShowNat(1200000) + [] == "1200000";
  }

  /** The coordinates of the sample row below: one line each, no space, no `°N ` in the longitude. */
  lemma BratislavaCoordinates(lat: string, lon: string)
    requires lat == "48.15" && lon == "17.11"
    ensures SingleLine(lat) && SingleLine(lon) && Lacks(lon, NorthSep)
    ensures StripSpaces(lat) == lat && StripSpaces(lon) == lon
  {
    StripSpacesNoSpace(lat);
    StripSpacesNoSpace(lon);
    LacksDegreeSign(lon);
  }

  /** A row of the data file: "811 01", "1 200 000" and "48.15°N 17.11°E" give 81101, 1200000, "48.15" and "17.11". */
  lemma BratislavaRow(info: CityInfo, lat: string, lon: string)
    requires lat == "48.15" && lon == "17.11"
    requires info.name == "Bratislava" && info.zip == "811 01" && info.population == "1 200 000"
    requires info.gps == GpsText(lat, lon, [])
    ensures ParseCity(info) == Success(City("Bratislava", "81101", Some(1200000), "48.15", "17.11"))
  {
    BratislavaCoordinates(lat, lon);
    BratislavaZip();
    BratislavaDigits();
    BratislavaPopulation();
    LacksDegreeSign([]);
    assert SingleLine([]);
    ParseCityOfParts(info.name, info.zip, info.population, lat, lon, []);
  }
}
