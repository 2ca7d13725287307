# PueVen Navigator — store search and grid positions in Dafny

PueVen Navigator is an augmented-reality wayfinding app for a shopping mall.
Almost all of it is user interface built on a 3D engine. This project models
the two small pure components that hold the app's logic:

- **Store-directory filtering** (`src/modules/selectorScreen/selectorHelpers.js`).
  `filterStore` searches the directory by store name (`nombre`). The search
  ignores letter case and white space around the term. An absent or empty
  term keeps every store. `getStoresByCategory` keeps the stores whose
  category (`categoria`) equals the given one. An absent or empty category,
  or the catch-all `"Todas"`, keeps every store.
- **Grid-code conversion** (`src/utils/geolocation.js`).
  `conversorToVector3` turns a directory grid code such as `"A10"` into a
  scene position: x = 5 · (code of the first character − 65), y = 0,
  z = 5 · `parseInt`(rest of the code). `userPosition` is a stub that
  always returns the origin.

Modules:

| module | file | contents |
|---|---|---|
| `Wrappers` | wrappers.dfy | `Option`, used for absent JavaScript arguments |
| `SeqFilter` | seq_filter.dfy | `Array.prototype.filter` as `Filter`, with subsequence, multiplicity and idempotence lemmas, and the left-to-right scan as a method |
| `JsString` | js_string.dfy | `trim`, `toLowerCase` and `includes` |
| `SelectorHelpers` | selector_helpers.dfy | `Store`, `FilterStore`, `GetStoresByCategory` and their properties |
| `JsNumber` | js_number.dfy | `Number` (an integer or NaN), `parseInt` without a radix, the decimal numeral `ToDecimal` |
| `Geolocation` | geolocation.dfy | `Vector3`, `ConversorToVector3`, `UserPosition`, grid codes and their decoding |

Modelling choices:

- A JavaScript value that may be absent is an `Option`. JavaScript falsiness of
  a search term or category (`!searchTerm`, `!category`) is `None` or `""`.
- `trim` and `parseInt` strip exactly the ECMAScript WhiteSpace and
  LineTerminator code points (sections 12.2 and 12.3 of ECMA-262).
- `toLowerCase` is modelled for ASCII and for the upper-case letters of the
  Latin-1 Supplement (`À`..`Þ` except `×`). This covers the Spanish letters
  in store names (`Ñ`, `É`, …). Every other character is left unchanged, so
  this only approximates JavaScript's full Unicode case mapping.
- `includes` is a substring test (`JsString.Includes`). `JsString.IncludesIff`
  proves it equal to "occurs at some index".
- Strings are sequences of Unicode scalar values, while JavaScript strings
  are UTF-16 code units. Trimming, lower-casing and substring search give the
  same answers in both views. Only `charCodeAt(0)` and `substring(1)` see the
  difference. For a first character outside the Basic Multilingual Plane,
  `charCodeAt(0)` returns the high surrogate, and the remaining text starts
  with a lone low surrogate. That makes `parseInt` return NaN. `Geolocation.FirstCodeUnit`
  and `Geolocation.ParseRow` model both effects explicitly.
- `parseInt` is modelled in full. It skips leading white space, reads one
  optional sign, switches to radix 16 after `0x`/`0X`, and reads the longest
  run of digits. An empty run gives NaN. So a row part that starts with
  decimal digits gives z = 5 × their value only if it does not start with
  `0x`: `"A0x1F"` lies at z = 155 (`Geolocation.ConversorHexRow`).
- A NaN coordinate is the constructor `NaN` of `JsNumber.Number`. Arithmetic
  on it gives NaN again, as in JavaScript.
- `conversorToVector3` takes no floor, checks no column range and has no
  fallback position: a code such as "Z5" or "a3" converts like any other.

## Model

| member | source | states |
|---|---|---|
| `SeqFilter.Filter` | src/modules/selectorScreen/selectorHelpers.js:16-18 | every element of the filter result passes the test, and the result is no longer than the input |
| `SeqFilter.FilterIsSubsequence` | src/modules/selectorScreen/selectorHelpers.js:16 | the filter result is an order-preserving subsequence of the input |
| `SeqFilter.FilterMultiplicity` | src/modules/selectorScreen/selectorHelpers.js:16-18 | an accepted value occurs in the result exactly as often as in the input; a rejected value does not occur at all |
| `SeqFilter.FilterMembership` | src/modules/selectorScreen/selectorHelpers.js:16-18 | a value is in the result if and only if it is in the input and passes the test |
| `SeqFilter.FilterAllAccepted` | src/modules/selectorScreen/selectorHelpers.js:16-18 | when every element passes, the input comes back unchanged |
| `SeqFilter.FilterIdempotent` | src/modules/selectorScreen/selectorHelpers.js:16-18 | filtering the result again with the same test changes nothing |
| `SeqFilter.FilterAppend` | src/modules/selectorScreen/selectorHelpers.js:16 | filtering a concatenation is concatenating the filtered parts |
| `SeqFilter.FilterScan` | src/modules/selectorScreen/selectorHelpers.js:16-18 | the element-by-element scan that appends each accepted element computes exactly `Filter` |
| `JsString.TrimStart` | src/modules/selectorScreen/selectorHelpers.js:15 | the result is no longer than the input and does not start with white space |
| `JsString.TrimStartSpec` | src/modules/selectorScreen/selectorHelpers.js:15 | the result of `TrimStart` is a suffix of the input, and everything it drops is white space |
| `JsString.TrimEnd` | src/modules/selectorScreen/selectorHelpers.js:15 | the result is no longer than the input and does not end with white space |
| `JsString.TrimEndSpec` | src/modules/selectorScreen/selectorHelpers.js:15 | the result of `TrimEnd` is a prefix of the input, and everything it drops is white space |
| `JsString.Trim` | src/modules/selectorScreen/selectorHelpers.js:15 | the trimmed term has no white space at either end, and it is empty exactly when the input is white space only |
| `JsString.TrimIsSlice` | src/modules/selectorScreen/selectorHelpers.js:15 | the trimmed term is a contiguous slice of the input with only white space before and after it |
| `JsString.TrimIdempotent` | src/modules/selectorScreen/selectorHelpers.js:15 | trimming twice is trimming once |
| `JsString.TrimPadded` | src/modules/selectorScreen/selectorHelpers.js:15 | white space added around a term does not change its trimmed form |
| `JsString.ToLowerCase` | src/modules/selectorScreen/selectorHelpers.js:15-17 | lower-casing keeps the length, leaves no upper-case letter, moves each upper-case letter 32 code points up and keeps every other character |
| `JsString.ToLowerCaseIdempotent` | src/modules/selectorScreen/selectorHelpers.js:15-17 | lower-casing an already lower-cased string changes nothing |
| `JsString.ToLowerCaseTrim` | src/modules/selectorScreen/selectorHelpers.js:15 | lower-casing then trimming equals trimming then lower-casing |
| `JsString.IncludesIff` | src/modules/selectorScreen/selectorHelpers.js:17 | `includes` holds if and only if the term occurs at some index of the name |
| `JsString.IncludesEmpty` | src/modules/selectorScreen/selectorHelpers.js:17 | every name includes the empty term |
| `SelectorHelpers.FilterStore` | src/modules/selectorScreen/selectorHelpers.js:12-19 | an absent or empty term returns the list unchanged; otherwise the result is an order-preserving subsequence of the list, every store in it has a lower-cased name containing the normalised term (soundness), and every store of the list whose name contains it is in the result (completeness) |
| `SelectorHelpers.NormalizeTermIdempotent` | src/modules/selectorScreen/selectorHelpers.js:15 | normalising a search term (lower-case, then trim) a second time changes nothing |
| `SelectorHelpers.FilterStoreMultiplicity` | src/modules/selectorScreen/selectorHelpers.js:16-18 | a matching store occurs in the search result as often as in the directory, so no store is duplicated or lost; a non-matching store does not occur; an empty term keeps every store |
| `SelectorHelpers.FilterStoreWhiteSpaceTerm` | src/modules/selectorScreen/selectorHelpers.js:13-17 | a term made only of white space returns the whole list |
| `SelectorHelpers.FilterStoreNormalized` | src/modules/selectorScreen/selectorHelpers.js:15-17 | searching for a term is the same as searching for its lower-cased, trimmed form |
| `SelectorHelpers.FilterStoreCaseInsensitive` | src/modules/selectorScreen/selectorHelpers.js:15-17 | two terms that differ only in letter case give the same result |
| `SelectorHelpers.FilterStorePadded` | src/modules/selectorScreen/selectorHelpers.js:15-17 | white space around the term does not change the result |
| `SelectorHelpers.FilterStoreIdempotent` | src/modules/selectorScreen/selectorHelpers.js:12-19 | searching the result again with the same term returns the same list |
| `SelectorHelpers.GetStoresByCategory` | src/modules/selectorScreen/selectorHelpers.js:28-32 | an absent or empty category, or "Todas", returns the list unchanged; otherwise the result is an order-preserving subsequence whose stores all have exactly that category, and every store of that category is in it |
| `SelectorHelpers.GetStoresByCategoryMultiplicity` | src/modules/selectorScreen/selectorHelpers.js:31 | each store of the category occurs in the result as often as in the list; any other store does not occur |
| `SelectorHelpers.GetStoresByCategoryIdempotent` | src/modules/selectorScreen/selectorHelpers.js:28-32 | selecting the same category twice is selecting it once |
| `JsNumber.DigitRun` | src/utils/geolocation.js:17 | the digit run is the longest prefix of the text made of digits of the radix |
| `JsNumber.ParseUnsigned` | src/utils/geolocation.js:17 | unsigned digits parse to a number only if they start with a decimal digit, and that number is not negative |
| `JsNumber.ParseInt` | src/utils/geolocation.js:17 | text that does not start with a decimal digit after white space and an optional sign parses to NaN |
| `JsNumber.ParseIntPadded` | src/utils/geolocation.js:17 | leading white space does not change what `parseInt` reads |
| `JsNumber.ParseIntDecimalRun` | src/utils/geolocation.js:17 | text that starts with a run of decimal digits, and not with "0x", parses to the value of that run; whatever follows the run is ignored |
| `JsNumber.ParseIntSignedRun` | src/utils/geolocation.js:17 | behind a "+" such a run parses to its value, behind a "-" to its negation |
| `JsNumber.ParseIntHexRun` | src/utils/geolocation.js:17 | after "0x" or "0X" the run of hexadecimal digits parses in radix 16, and an empty run gives NaN |
| `JsNumber.ToDecimal` | src/utils/geolocation.js:12 | the decimal numeral of a row is non-empty, all digits, has no leading zero and denotes the row |
| `JsNumber.ParseIntToDecimal` | src/utils/geolocation.js:17 | `parseInt` of the decimal numeral of n is n |
| `JsNumber.ParseIntNegatedDecimal` | src/utils/geolocation.js:17 | `parseInt` of "-" followed by the numeral of n is −n |
| `Geolocation.FirstCodeUnit` | src/utils/geolocation.js:16 | `charCodeAt` gives a 16-bit code unit: the character's code inside the Basic Multilingual Plane, and beyond it the high surrogate that selects the character's block of 0x400 code points |
| `Geolocation.CharCodeAt0` | src/utils/geolocation.js:16 | `charCodeAt(0)` is a number exactly when the code is non-empty, and for a first character inside the Basic Multilingual Plane it is that character's code |
| `Geolocation.ParseRow` | src/utils/geolocation.js:17 | for a first character inside the Basic Multilingual Plane, the row is `parseInt` of the text after it; for an empty code or a first character beyond that plane, the row is NaN |
| `Geolocation.ConversorToVector3` | src/utils/geolocation.js:15-20 | y is always 0; x is a number exactly when the code is non-empty; a column letter A..Z gives an x between 0 and 125; for a first character inside the Basic Multilingual Plane, x is 5 × (its code − 65) |
| `Geolocation.UserPosition` | src/utils/geolocation.js:28-30 | the user position is the origin (0, 0, 0) |
| `Geolocation.ConversorGridCode` | src/utils/geolocation.js:15-19 | the code of column c and row n converts to (5 · (code(c) − 65), 0, 5 · n) |
| `Geolocation.ConversorExampleA10` | src/utils/geolocation.js:12 | "A10" converts to (0, 0, 50), the documented example |
| `Geolocation.ConversorColumnStep` | src/utils/geolocation.js:16-19 | each later column letter moves x by 5 |
| `Geolocation.ConversorXIgnoresRow` | src/utils/geolocation.js:16-19 | x does not depend on the row part |
| `Geolocation.ConversorZIgnoresColumn` | src/utils/geolocation.js:17-19 | z does not depend on the column letter |
| `Geolocation.ConversorRow` | src/utils/geolocation.js:17-19 | for a column character inside the Basic Multilingual Plane, z is 5 × `parseInt` of the row part, NaN included |
| `Geolocation.ConversorDecimalRow` | src/utils/geolocation.js:17-19 | a row part that starts with a run of decimal digits, and not with "0x", gives z = 5 × the run's value; whatever follows the run is ignored |
| `Geolocation.ConversorRowNotNumeral` | src/utils/geolocation.js:17-19 | a row part that, after white space and an optional sign, does not start with a decimal digit gives z = NaN |
| `Geolocation.ConversorRowNotANumber` | src/utils/geolocation.js:17-19 | a row part that is empty, or starts with a character that is not white space, a sign or a digit, gives z = NaN |
| `Geolocation.ConversorHexRow` | src/utils/geolocation.js:17 | a row written "0x1F" is read in radix 16, so "A0x1F" gives z = 155 |
| `Geolocation.CellOfConversor` | src/utils/geolocation.js:15-19 | every position on the 5-unit grid with column A..Z and a non-negative row decodes to a grid code that converts back to the same position |
| `Geolocation.ConversorCellOf` | src/utils/geolocation.js:15-19 | converting the code of a column A..Z and a row and then decoding gives the code back, so distinct cells get distinct positions |
| `Geolocation.UserPositionIsCellA0` | src/utils/geolocation.js:28-30 | the stand-in user position is the position of cell "A0" |

## Left out

- The resolver `getCoordinates` is imported by `src/modules/arScreen/arScreen.js` and `src/modules/arScreen/arHelpers.js`. Its definition is not part of this model, so no floor- or row-dependent resolver is modelled.
- `src/modules/arScreen/arScreen.js` and `src/modules/arScreen/arHelpers.js` contain no waypoint-visibility logic.
- Arrow placement in `setupPath` (`src/modules/arScreen/arHelpers.js`) is left out: it builds five engine meshes at the fixed positions (0, 0, 3i) for i = 1..5 and turns each toward the destination with the engine's `lookAt`, whose destination comes from `getCoordinates`, which is not part of this model.
- The per-frame update in `src/modules/arScreen/arScreen.js` is left out: it computes a floating-point distance to the destination, shows it rounded, and switches to the arrival text when it is below 3.
- `filterStore` and `getStoresByCategory` return the caller's own array when the term or category selects everything, and a new array from `filter` otherwise. Lists are values (`seq`) here, so that difference in object identity is not modelled.
- `src/utils/distanceMeter.js` is left out because it is floating-point geometry (square root, rounding).
- Engine, XR session, GUI and React Native code is left out: screens, panels, buttons, camera, lights, map meshes, fonts, global observable state and UI singletons.
- Geolocation.ConversorToVector3: coordinates are exact integers. JavaScript numbers are doubles, so row values beyond 2^53 would round, and `parseInt("-0")` would give −0. Neither case is modelled.
- JsString.ToLowerCase: only ASCII and the Latin-1 upper-case letters are lowered. Other scripts and the special mappings that change length (for example `İ`) are not modelled.
- The store record holds only `nombre` and `categoria`. The directory's other fields (floor, grid code, description) play no part in either filter.
- Arguments are typed: a search term or category is a string or absent. Other falsy or non-string JavaScript values are not modelled.
