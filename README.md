# Stock quote route, modelled in Dafny

The web app's quote route, `GET /api/stock?code=<ticker>`, asks a brokerage
API for the daily candles of a ticker. It turns each provider record into
a chart point and returns the points sorted by date. If anything fails, it
returns a single fixed placeholder point instead. This project models that
normalisation core. It proves what the route promises about it:

- the ticker defaults to Samsung Electronics;
- the base date is the day's date with its dashes removed;
- the provider's `YYYYMMDD` becomes the chart's `YYYY-MM-DD` and back;
- prices are read the way JavaScript's `parseInt` reads them, truncating
  any fraction;
- the sort keeps every point and leaves them in date order, which for
  well-formed dates is calendar order;
- every failure ends in the placeholder.

Modules, one per file:

- `StockTypes` (`stock_types.dfy`): the provider record `RawRecord` and the
  chart point `ChartPoint`. A price that does not parse (`NaN`) is `None`.
- `JsString` (`js_string.dfy`): `String.prototype.slice`,
  `replace(/-/g, "")`, and the `<`/`>` order on strings, with its order
  laws.
- `JsNumber` (`parse_int.dfy`): `parseInt` without a radix, and what it
  returns for each shape of text.
- `ChartTime` (`chart_time.dfy`): the two date forms, the round trips
  between them, and the proof that string order on chart times is calendar
  order.
- `StockRoute` (`stock_route.dfy`): the ticker default, the chart request,
  validation of the reply, the per-record mapping, the in-place sort of an
  array of points, and the handler `Get`.

The provider, the only source of I/O, is a parameter of `Get`: a function
from the chart request to the reply. The current time enters as its ISO-8601
text.

## Model

| member | source | states |
|---|---|---|
| StockRoute.TickerCode | app/api/stock/route.ts:12 | the code is never empty; a non-empty query value is used as given; an absent or empty one gives "005930" |
| StockRoute.RequestFor | app/api/stock/route.ts:11-15 | the request carries the chosen ticker and "1" (adjusted prices); for an ISO timestamp its base date is eight digits that reformat to the timestamp's `YYYY-MM-DD` |
| ChartTime.BaseDate | app/api/stock/route.ts:15 | the base date is the first ten characters with every '-' removed; its contract is carried by `ChartTime.BaseDateOfTimestamp` |
| ChartTime.BaseDateOfTimestamp | app/api/stock/route.ts:15 | the base date of `YYYY-MM-DDT...` is the eight digits `YYYYMMDD`, and reformatting it gives back the timestamp's date |
| JsString.Slice | app/api/stock/route.ts:51 | `slice` clamps both bounds: `s[from..to]` when the bounds are in order and inside the string, the whole rest `s[from..]` when only `to` is past the end, "" when the range is empty or starts past the end; every character comes from the matching position |
| JsString.RemoveDashes | app/api/stock/route.ts:15 | `replace(/-/g, "")`; its contract is carried by `JsString.RemoveDashesRemovesOnlyDashes` and `JsString.RemoveDashesOfParts` |
| JsString.RemoveDashesRemovesOnlyDashes | app/api/stock/route.ts:15 | no '-' is left; the result is shorter by exactly the number of '-' in the input; text without '-' is unchanged |
| JsString.RemoveDashesOfParts | app/api/stock/route.ts:15 | removing the dashes of `y-m-d` whose parts have no dash gives `y + m + d` |
| StockRoute.Validate | app/api/stock/route.ts:43-47 | records are returned exactly when both calls succeeded and the field is an array, and then they are that array's items; a failed call, a missing or falsy field and a non-array all give none |
| ChartTime.FormatTime | app/api/stock/route.ts:51 | the time has two dashes plus the first eight characters of the date; for a date of eight or more characters, dashes at positions 4 and 7 with year, month and day copied from the date |
| ChartTime.FormatTimeRoundTrip | app/api/stock/route.ts:51 | for an eight-character date without '-', deleting the dashes of its chart time gives the date back |
| ChartTime.FormatTimeWellFormed | app/api/stock/route.ts:51 | eight decimal digits become a well-formed `YYYY-MM-DD` |
| ChartTime.ChartTimeRoundTrip | app/api/stock/route.ts:51 | in the other direction, a well-formed chart time without its dashes is eight digits that reformat to the same chart time |
| ChartTime.ExampleFormatTime | app/api/stock/route.ts:51 | "20250115" becomes "2025-01-15" |
| StockRoute.ToChartPointKeepsDate | app/api/stock/route.ts:50-51 | a record dated `YYYYMMDD` becomes a point on the same calendar day, and its dashes removed give the record's date |
| JsNumber.ParseInt | app/api/stock/route.ts:52-55 | `parseInt` without a radix; what it returns for each shape of text is stated by `JsNumber.ParseSigned`, `JsNumber.ParseDecimal`, `JsNumber.ParseHex`, `JsNumber.ParseNaN` and `JsNumber.ParseTruncates` |
| JsNumber.DigitValue | app/api/stock/route.ts:52-55 | the digit table of `parseInt`: a value below 10 is the character '0' plus that value, a value from 10 to 35 is 'a' or 'A' plus the value less 10, and 36 (no digit) is given exactly to characters outside '0'..'9', 'a'..'z', 'A'..'Z' |
| JsNumber.ExampleDigits | app/api/stock/route.ts:52-55 | '7' is 7, 'f' and 'F' are 15, 'z' is 35, '.' is no digit |
| JsNumber.TrimStartRemovesWhiteSpace | app/api/stock/route.ts:52-55 | `parseInt` skips exactly a white-space prefix: what is left is a suffix that does not start with white space |
| JsNumber.DigitPrefixIsLongest | app/api/stock/route.ts:52-55 | the digits read form the longest prefix of digits: a prefix, all digits, and followed by a non-digit or by nothing |
| JsNumber.ValueBound | app/api/stock/route.ts:52-55 | n digits in a radix denote less than radix^n |
| JsNumber.ParseSigned | app/api/stock/route.ts:52-55 | after white space and an optional sign, the result is the magnitude with the sign applied, or NaN when there is no magnitude |
| JsNumber.ParseDecimal | app/api/stock/route.ts:52-55 | white space, a sign, decimal digits and then a non-digit parse to the signed decimal value of the digits |
| JsNumber.ParseHex | app/api/stock/route.ts:52-55 | after "0x" or "0X" the digits are read in base 16, and no hexadecimal digit gives NaN |
| JsNumber.ParseNaN | app/api/stock/route.ts:52-55 | text with no digit where the number starts gives NaN |
| JsNumber.ParseFractional | app/api/stock/route.ts:52-55 | `digits.fraction` parses to the signed integer part, and the fraction is ignored |
| JsNumber.TruncateKeepsIntegerPart | app/api/stock/route.ts:52-55 | truncating the real number `±digits.fraction` toward zero gives the signed integer part |
| JsNumber.ParseTruncates | app/api/stock/route.ts:52-55 | a price with a fractional part parses to its real value truncated toward zero, not rounded |
| JsNumber.ExampleWholePrice | app/api/stock/route.ts:52 | "50000" parses to 50000 |
| JsNumber.ExampleFractionalPrice | app/api/stock/route.ts:52 | "50000.7" parses to 50000 |
| JsNumber.ExampleNegativePrice | app/api/stock/route.ts:52 | "-1200" parses to -1200 (no range check) |
| JsNumber.ExampleSpacedPrice | app/api/stock/route.ts:52 | " +70100" parses to 70100 |
| JsNumber.ExampleHexPrice | app/api/stock/route.ts:52 | "0x1F" parses to 31 |
| JsNumber.ExampleNaN | app/api/stock/route.ts:52 | "abc" parses to NaN |
| StockRoute.ToChartPoint | app/api/stock/route.ts:50-56 | one record's point: the reformatted date and the four prices through `parseInt`; its contract is carried by `StockRoute.ToChartPointKeepsDate` and `StockRoute.ToChartPointTruncatesClose` |
| StockRoute.ToChartPointTruncatesClose | app/api/stock/route.ts:55 | a closing price `±digits.fraction` becomes the truncated number, which is the signed integer part |
| StockRoute.MapRecords | app/api/stock/route.ts:50-56 | one point per record, in the records' order, each being that record's point |
| JsString.Less | app/api/stock/route.ts:58 | the string comparison behind `a.time > b.time`; its order laws are `JsString.LessIrreflexive`, `JsString.LessAsymmetric`, `JsString.LessTransitive` and `JsString.LessTrichotomous` |
| JsString.LessIrreflexive | app/api/stock/route.ts:58 | no string is less than itself |
| JsString.LessAsymmetric | app/api/stock/route.ts:58 | two strings are never each less than the other |
| JsString.LessTransitive | app/api/stock/route.ts:58 | string `<` is transitive |
| JsString.LessTrichotomous | app/api/stock/route.ts:58 | two different strings are always ordered one way or the other |
| JsString.NotAfterTransitive | app/api/stock/route.ts:58 | "not after" on strings is transitive |
| JsString.NotAfterAntisymmetric | app/api/stock/route.ts:58 | two strings each not after the other are equal |
| JsString.LessAppend | app/api/stock/route.ts:58 | comparing strings whose first parts have equal length compares the first parts, and the rest only when they are equal |
| ChartTime.DigitsOrder | app/api/stock/route.ts:58 | digit strings of equal length compare as strings exactly as their numbers compare |
| ChartTime.TimeOrderIsChronological | app/api/stock/route.ts:58 | for well-formed chart times, the string `<` the sort uses holds exactly when the first is an earlier calendar day, and equal strings are the same day |
| StockRoute.Compare | app/api/stock/route.ts:58 | the comparator passed to `sort`; its contract is carried by `StockRoute.CompareConsistency` |
| StockRoute.CompareConsistency | app/api/stock/route.ts:58 | the comparator answers only 1 or -1; on distinct times swapping the arguments flips the answer; on equal times it answers -1 both ways |
| StockRoute.SortByTime | app/api/stock/route.ts:58 | the array is reordered in place so that no point has a later time than a point after it, and the array holds the same points as before (a permutation) |
| StockRoute.SortedPermutationUnique | app/api/stock/route.ts:58 | when no two points share a date, the sorted arrangement of the points is unique |
| StockRoute.SortedIsChronological | app/api/stock/route.ts:58 | in a sorted result of well-formed times, no point falls on an earlier day than any point before it |
| StockRoute.TwoDaysComeBackInOrder | app/api/stock/route.ts:50-58 | records dated 2025-01-03 then 2025-01-02 come back as the 2025-01-02 point followed by the 2025-01-03 point, whatever their prices |
| StockRoute.Fallback | app/api/stock/route.ts:67 | the placeholder point 2025-01-01 with prices 50000, 51000, 49000 and 50500; `StockRoute.Get` promises it is the whole answer on any failure |
| StockRoute.Get | app/api/stock/route.ts:9-69 | when the call fails or the reply is not an array of records, the answer is exactly the placeholder point (2025-01-01, 50000/51000/49000/50500); otherwise it is the mapped records, sorted by time, as a permutation of the same length; the answer is empty exactly when the provider returned an empty array |

## Left out

- The two HTTP calls: the token request, the chart request with its headers, and the environment keys are not modelled. A single `provider` function stands for them, and any failure of either call is `Failed`.
- `NextResponse.json` and `console.error` are left out. `Get` returns the point sequence it would serialise.
- `new Date()` and `toISOString` are left out, as clock access. The current time is the parameter `isoNow`, and the base date is derived from its text.
- Ill-typed records are not modelled, for example a record without `dt`, which would throw inside `map` and so end in the placeholder. Records here always have their five string fields.
- JavaScript numbers are IEEE doubles. `parseInt` of a value beyond 2^53 may lose precision, and "-0" gives -0, which JSON writes as 0. The model keeps exact integers.
- `Less` compares Unicode scalar values. JavaScript compares UTF-16 code units, and the two orders differ only when characters outside the Basic Multilingual Plane meet characters in U+E000..U+FFFF. Dates are ASCII.
- StockRoute.SortByTime: the engine's own sort algorithm is not modelled. The comparator answers -1 when a point is compared with itself, so it is never a consistent comparator in the sense of ECMA-262 (`Array.prototype.sort`), and the standard then leaves the whole sort order implementation-defined (ties included), promising only a permutation. That the result is sorted by time is an assumption about the engine's sort, which the model takes as the route's evident intent; it is not something the standard guarantees for this comparator (see `StockRoute.CompareConsistency`).
- The chart page (`app/page.tsx`) and the button component (`components/StockButton.tsx`) are not part of this model.
