# Row parser of the Slovak zip-code map, modelled in Dafny

The map loads a tab-separated file of Slovak cities and turns every row
(`name`, `zip`, `population`, `gps`, all text) into a `City` object inside
the `data.map` callback of `data2Vis` (`zip_map.js`). This project models
that callback and the `City` constructor, and proves what they do:

- the zip is `zip.replace(/ /g, '')`: every U+0020 space is removed and every
  other character is kept, in order and with its multiplicity;
- the population is `parseInt` of the population text with its spaces
  removed: the value of the longest run of decimal digits at its start, or
  `NaN` (here `None`) when it does not start with a digit;
- the coordinates come from `/(.+)°N (.+)°E/g.exec(gps)`. The regular
  expression is modelled by its backtracking semantics: the leftmost start
  first, then the longest first group, then the longest second group, with
  `.` matching anything but a line terminator. The latitude and longitude are
  the two groups with their spaces removed. When nothing matches, `exec`
  returns `null` and `coordinates[1]` throws; the row fails;
- `data.map` gives one city per row, in row order, and the first row that
  throws aborts the whole mapping.

Files and modules:

- `wrappers.dfy` (`Wrappers`): `Option` (`None` stands for `NaN`) and `Result`.
- `js_string.dfy` (`JsString`): `StripSpaces`, the `replace(/ /g, '')` call.
- `js_number.dfy` (`JsNumber`): `ParseInt`, the decimal part of `parseInt`,
  and `ShowNat`, a decimal rendering used as its inverse in the round-trip lemma.
- `gps_pattern.dfy` (`GpsPattern`): the declarative meaning of a match
  (`IsMatch`, `TriedBefore`, `IsFirstMatch`) and the search `Exec` that is
  proved to return the first match, or `None` exactly when there is no match.
- `js_array.dfy` (`JsArray`): `MapOrThrow`, `Array.prototype.map` with a
  callback that may throw.
- `zip_map.dfy` (`ZipMap`): `CityInfo` (a row), `City`, `ParseCity` (the
  callback and the constructor) and `ParseCities` (the `data.map` call).

The code never checks that a postal code has five digits or that the zip
and population fields are non-empty. An empty zip stays empty, and a
population without a leading digit becomes `NaN` without failing the row.
The only check that fails a row is the gps pattern. `replace(/ /g, '')`
removes only U+0020 SPACE; tabs and no-break spaces are kept.

## Model

| member | source | states |
|---|---|---|
| `JsString.StripSpaces` | zip_map.js:9 | the normalised text contains no space and is never longer than the input |
| `JsString.StripSpacesCounts` | zip_map.js:9 | every character other than a space occurs as often in the result as in the input; spaces occur zero times |
| `JsString.StripSpacesAppend` | zip_map.js:9 | removal works character by character over a concatenation, so the kept characters stay in input order |
| `JsString.StripSpacesChar` | zip_map.js:9 | a single character is dropped exactly when it is a space |
| `JsString.StripSpacesNoSpace` | zip_map.js:9 | a text without spaces is returned unchanged |
| `JsString.StripSpacesIdempotent` | zip_map.js:9 | normalising twice equals normalising once |
| `JsNumber.LeadingDigits` | zip_map.js:10 | the digits `parseInt` reads: a prefix of the text, all decimal digits, and maximal (the text ends or the next character is not a digit) |
| `JsNumber.ParseInt` | zip_map.js:10 | `NaN` (None) exactly when the text is empty or does not start with a digit |
| `JsNumber.DecimalValueShowNat` | zip_map.js:10 | reading the decimal rendering of a number gives the number |
| `JsNumber.ParseIntShowNat` | zip_map.js:10 | round trip: a number written in decimal, followed by any text not starting with a digit, parses back to that number |
| `JsNumber.DecimalValueLeadingZero` | zip_map.js:10 | a zero put in front of a digit string leaves the number it denotes unchanged |
| `JsNumber.ParseIntLeadingZero` | zip_map.js:10 | a leading zero before a digit does not change what `parseInt` returns ("007" and "7" give 7), so with the round trip every leading digit run has its decimal value |
| `JsNumber.ParseIntIgnoresTail` | zip_map.js:10 | only the leading run of digits matters; what follows it is ignored |
| `GpsPattern.LastEast` | zip_map.js:12 | the greedy `(.+)°E` from a given index: the largest end of group 2 that still has `°E` after it, or none |
| `GpsPattern.LastNorth` | zip_map.js:12 | the greedy `(.+)°N (.+)°E` from a fixed start: the match with the longest group 1, then the longest group 2, among those with group 1 ending at or before a bound |
| `GpsPattern.ExecFrom` | zip_map.js:12 | the search from a start index onwards returns a match tried before every other match starting there or later, or none when every match starts earlier |
| `GpsPattern.Exec` | zip_map.js:12 | `exec` returns the first match in backtracking order (leftmost start, then longest group 1, then longest group 2), and `null` exactly when the pattern matches nowhere |
| `GpsPattern.FirstMatchUnique` | zip_map.js:12 | the backtracking order has no ties: the first match is unique and it is what `exec` returns |
| `GpsPattern.ExecSplits` | zip_map.js:12 | a match cuts the text into prefix + group 1 + `°N ` + group 2 + `°E` + ignored tail, with both groups non-empty |
| `GpsPattern.SingleLineMatches` | zip_map.js:12 | on a text without line terminators the pattern matches exactly when some `°N ` after index 0 is followed, after at least one character, by `°E` |
| `GpsPattern.SingleLineGreedy` | zip_map.js:12 | on a text without line terminators the match starts at 0, group 1 ends at the last `°N ` that a later `°E` can still follow, and group 2 ends at the last `°E` |
| `GpsPattern.ExecOfParts` | zip_map.js:12-14 | on `lat°N lon°E` + tail (one line, no `°N ` in the longitude, no `°E` in the tail) the groups are exactly `lat` and `lon` |
| `JsArray.MapOrThrow` | zip_map.js:8-17 | `map` with a callback that may throw: one result per element in order, or the throw of the first element whose callback throws, all earlier elements having succeeded |
| `JsArray.MapOrThrowAppend` | zip_map.js:8 | mapping a concatenation whose halves both succeed gives the concatenated results |
| `ZipMap.ParseCity` | zip_map.js:9-16 | a row fails exactly when its gps text matches nowhere; otherwise the city keeps the name, and its zip, latitude and longitude hold no space, and its population is a number exactly when the space-stripped text starts with a digit |
| `ZipMap.ParseCityOfMatch` | zip_map.js:16-26 | for the first match of the gps text, the city holds the name unchanged, the stripped zip, the parsed stripped population and the two groups with spaces removed, as passed to the `City` constructor |
| `ZipMap.ParseCityOfParts` | zip_map.js:12-16 | a row whose gps text is written as `lat°N lon°E` + tail parses to exactly `lat` and `lon`, spaces removed |
| `ZipMap.PopulationOfDigits` | zip_map.js:10 | a population written in decimal, with spaces anywhere and any non-digit tail, parses to that count |
| `ZipMap.ParseCities` | zip_map.js:8-17 | one city per row in row order when every row parses; otherwise the failure of the first row whose gps text does not match |
| `ZipMap.ParseCitiesAppend` | zip_map.js:8 | the cities of two batches of rows, parsed together, are the cities of each batch one after the other |
| `ZipMap.BratislavaRow` | zip_map.js:8-16 | the row Bratislava / "811 01" / "1 200 000" / "48.15°N 17.11°E" becomes Bratislava, "81101", 1200000, "48.15", "17.11" |

## Left out

- Fetching and tokenising the file with `d3.tsv`, the asynchronous callback and its `throw error` (zip_map.js:4-6): I/O and a library outside the model. Rows arrive as an already split sequence of `CityInfo` records.
- `parseFloat` of the latitude and longitude (zip_map.js:13-14): floating-point conversion. The model stops at the space-stripped texts that would be converted.
- JsNumber.ParseInt: models only plain decimal digits. `parseInt` also skips leading whitespace other than U+0020 (tabs, no-break spaces, line terminators), reads a `+` or `-` sign and a `0x` prefix, and returns a double-precision number that is inexact above 2^53. Here such texts parse as their leading decimal digits or as `NaN`, and the value is an exact natural number.
- A row without one of the four columns: `d3.tsv` would give `undefined` and `.replace` would throw. Every `CityInfo` has all four fields.
- ZipMap.ParseCities: the thrown `TypeError` carries no row index; the model's failure records the index of the failing row, which the code does not expose.
- Strings are sequences of Unicode scalar values, while JavaScript indexes UTF-16 code units and `.` (no `u` flag) matches one code unit. The literals `°N ` and `°E` are single code units, so a run of characters matched by `.+` is a run of code units and the groups are the same texts.
- The immediately invoked wrapper function, the hard-coded data path and the `window`/`document` globals (zip_map.js:1, 29-31): plumbing with no behaviour.
- The `cities` array is never used after it is built (zip_map.js:8-18). There is nothing to model beyond the value it would hold.
- Radius scales, colour and prefix matching, zoom, marker reconciliation and tooltips do not appear in `zip_map.js`, so the model has none of them.
