# Receipt points, modelled in Dafny

The receipt processor is a small HTTP service. It accepts a purchase
receipt, computes a loyalty score for it, stores the receipt under a fresh
identifier, and returns the score when asked. This project models the
scoring function `calculatePoints` (main.go:102-154) and the `Receipt` and
`Item` records it reads (main.go:20-33).

`calculatePoints` starts an accumulator at zero and adds seven independent
rules to it:

1. one point per ASCII letter or digit of the retailer name;
2. 50 points when the total parses and equals its floor;
3. 25 points when the total parses and leaves no remainder modulo 0.25;
4. 5 points per complete pair of items;
5. per item, `ceil(price * 0.2)` when the trimmed description's length is
   divisible by three and the price parses;
6. 6 points when the date splits on `-` into three fields and the third
   reads as an integer `day` with `day % 2 == 1`;
7. 10 points when the time parses with layout `15:04` and its hour is in
   [14, 16).

A field that does not parse makes its own rule add nothing. Scoring never
fails.

Modules:

- `Scoring` holds the records, one function per rule, the sum `Points`,
  and the method `CalculatePoints`. That method is the source's loop over
  the items with its accumulator, and it is proved to return `Points`.
  Each block that reads a parsed field is its own small method
  (`TotalBonus`, `ItemBonus`, `DayBonus`, `TimeBonus`). Each of these runs
  the Go test as written, on exact reals (`total == math.Floor(total)`,
  `math.Mod(total, 0.25) == 0`, `math.Ceil(price * 0.2)`, `day % 2 == 1`),
  and is proved equal to its rule function.
- `ScoringFacts` proves what the rules promise:
  - the three outcomes of the total rules;
  - the score does not depend on item order;
  - the score is non-negative when no price is negative;
  - the pair bonus grows with the item count;
  - blank descriptions qualify;
  - the exact set of dates and times that earn a bonus.
- `ScoringExamples` proves worked examples of each rule:
  - the retailers "Target" and "M&M Corner Market";
  - the totals "35.00", "9.00", "9.25", "9.10" and "nine";
  - two, three and four items;
  - the item "Emils Cheese Pizza" at "12.25", and one whose price is "free";
  - the dates "2022-01-01" and "2022-01-02";
  - the times "14:33", "13:59" and "16:00";
  - a receipt whose score is negative.
- `Strings` models the three string operations:
  - counting matches of `[a-zA-Z0-9]`;
  - `strings.TrimSpace` on ASCII white space;
  - `strings.Split` with a one-byte separator, with `Join` as its inverse.
- `Strconv` models `strconv.ParseFloat` on decimal literals, giving an
  exact `Decimal`, and `strconv.Atoi` within the 64-bit range. Each comes
  with a printer and a round-trip lemma.
- `Clock` models `time.Parse("15:04", s)` as far as scoring reads it. It
  comes with the two spellings it accepts and lemmas showing it accepts
  nothing else.
- `Decimals`, `GoMath`, `Digits` and `Wrappers` hold:
  - the exact decimal type and its three integer tests, each proved equal
    to the Go real-number expression it replaces;
  - Go's `math.Floor`, `math.Ceil`, `math.Mod` and truncating `%`;
  - decimal digits;
  - `Option`.

Strings are `seq<char>`, and one `char` stands for one byte of the Go
string, so `|s|` is Go's `len(s)`.

## Model

| member | source | states |
|---|---|---|
| `Scoring.CalculatePoints` | main.go:102-154 | The accumulator that the source updates rule by rule, with a loop over the items, ends equal to `Points(receipt)`. That is the sum of the seven rules whatever the fields hold, so scoring is total and deterministic. |
| `Scoring.Points` | main.go:102-154 | Definition of the score: the sum of the seven rule functions over the fields of a `Receipt`. The record's fields are those of the Go struct at main.go:20-28, and each `Item` has a description and a price as at main.go:30-33. |
| `Scoring.RetailerPoints` | main.go:105-107 | The retailer rule adds at most one point per character of the name. |
| `Scoring.RetailerPointsCountsMatches` | main.go:105-107 | The retailer rule is the number of positions of the name that `[a-zA-Z0-9]` matches. |
| `Strings.AlnumCount` | main.go:106-107 | The match count is at most the length, and equals it exactly when every character is an ASCII letter or digit. |
| `Strings.AlnumCountIsMatchCount` | main.go:106-107 | The count equals the size of the set of matching positions. |
| `Strings.AlnumCountAppend` | main.go:106-107 | The count of a concatenation is the sum of the counts. |
| `Scoring.TotalBonus` | main.go:109-120 | The total block as written adds the round-dollar rule plus the quarter rule. It adds nothing when the total does not parse, 50 when the value equals its floor, and 25 when `Mod(value, 0.25)` is zero. |
| `Scoring.RoundDollarPoints` | main.go:113-115 | The round-dollar rule adds 0 or 50, and 0 when the total does not parse. |
| `Scoring.RoundDollarPointsIsFloorTest` | main.go:113-115 | On a parsed total, the rule adds 50 exactly when the exact value equals `Floor` of itself. |
| `Scoring.QuarterPoints` | main.go:117-119 | The quarter rule adds 0 or 25, and 0 when the total does not parse. |
| `Scoring.QuarterPointsIsModTest` | main.go:117-119 | On a parsed total, the rule adds 25 exactly when `Mod(value, 0.25)` is zero. |
| `ScoringFacts.TotalRulesCases` | main.go:110-120 | The two total rules add 0 for an unparsable total. Otherwise they add 75 when the value equals its floor, 25 when only the quarter test holds, and 0 otherwise. |
| `ScoringFacts.TotalRulesOfDecimal` | main.go:113-119 | For the decimal a total parses to, the two rules add 75 when it is whole, 25 when it is a quarter multiple that is not whole, and else 0. |
| `Scoring.PairPoints` | main.go:122-123 | The pair rule is a multiple of 5, namely five times the largest `k` with `2k <= len(items)`. |
| `ScoringFacts.PairPointsMonotone` | main.go:122-123 | More items never earn fewer pair points. |
| `Scoring.ItemBonus` | main.go:126-133 | The loop body as written (`TrimSpace`, the length test, `ParseFloat`, `Ceil(price * 0.2)`) adds exactly `ItemPoints(item)`. |
| `Scoring.ItemPoints` | main.go:127-133 | An item adds 0 when its trimmed description's length is not divisible by three, and 0 when its price does not parse. |
| `Scoring.ItemPointsIsCeilTest` | main.go:128-131 | A qualifying item with a parsed price adds `Ceil(value * 0.2)` of the exact price. |
| `Scoring.ItemPointsNonNegative` | main.go:131 | An item whose price is not negative adds nothing negative. |
| `Scoring.ItemsPoints` | main.go:126-134 | Definition of the item loop's total: the sum of `ItemPoints` over the items, taken in order. |
| `Scoring.ItemsPointsNonNegative` | main.go:126-134 | With no negative price, the loop over the items adds a non-negative amount. |
| `Scoring.ItemsPointsPrefix` | main.go:126-134 | One more turn of the loop adds that item's points to the prefix sum. |
| `ScoringFacts.ItemsPointsAppend` | main.go:126-134 | The item loop's sum over `a + b` is its sum over `a` plus its sum over `b`. |
| `ScoringFacts.RemoveItem` | main.go:126-134 | Removing the `k`-th item takes one copy of it out of the multiset, and lowers the item sum by exactly that item's points. |
| `ScoringFacts.ItemsPointsPermutation` | main.go:126-134 | Two item lists with the same multiset of items have the same item sum. |
| `ScoringFacts.PointsIgnoreItemOrder` | main.go:102-154 | Replacing a receipt's items by any permutation of them leaves its score unchanged. |
| `ScoringFacts.PointsNonNegative` | main.go:102-154 | When no price parses to a negative number, the score is not negative. |
| `ScoringFacts.BlankDescriptionQualifies` | main.go:127-133 | An all-white-space description trims to length 0 and qualifies. The item adds `CeilFifth(price)`, or 0 when the price does not parse. |
| `Scoring.DayBonus` | main.go:136-143 | The date block as written (`Split` on `-`, three parts, `Atoi` of the third, Go `day % 2 == 1`) adds exactly `DayPoints(date)`. |
| `Scoring.DayOfMonth` | main.go:137-139 | Definition of the day read from a date: `Atoi` of the third part when `Split` on `-` gives exactly three parts, and nothing otherwise. |
| `Scoring.DayPoints` | main.go:136-143 | The day rule adds 0 or 6. It adds 6 exactly when there are three fields, the third reads, and Go's truncating `day % 2` is 1. |
| `ScoringFacts.DayOfMonthNonNegative` | main.go:137-139 | A date whose day reads has exactly two `-`. Its day is never negative, since the third field cannot hold a `-`. |
| `ScoringFacts.DayPointsOfFields` | main.go:136-143 | For `year-month-day` made of three `-`-free fields, the rule adds 6 exactly when `day` reads as a positive odd number. |
| `Scoring.TimeBonus` | main.go:145-151 | The time block as written adds exactly `TimePoints(time)`. |
| `Scoring.TimePoints` | main.go:145-151 | The time rule adds 0 or 10. |
| `ScoringFacts.TimeRuleWindow` | main.go:145-151 | The time rule adds 10 exactly for the texts `HH:MM` of valid times from 14:00 up to, but not including, 16:00. |
| `Strings.TrimSpace` | main.go:127 | Trimming never lengthens the text. |
| `Strings.TrimSpaceTrims` | main.go:127 | The trimmed text is a slice of the input with only white space on either side. It neither starts nor ends with white space. It is empty exactly when the input is all white space. |
| `Strings.TrimSpaceUnchanged` | main.go:127 | Text that neither starts nor ends with white space is unchanged by trimming. |
| `Strings.TrimSpaceIdempotent` | main.go:127 | Trimming twice is trimming once. |
| `Strings.IndexOf` | main.go:137 | The index found holds the separator, and no earlier position does. |
| `Strings.Split` | main.go:137-138 | Splitting yields at least one part. |
| `Strings.SplitSpec` | main.go:137-138 | There is one more part than there are separators, no part holds the separator, and joining the parts gives the input back. |
| `Strings.SplitJoin` | main.go:137-138 | Splitting undoes joining when no part holds the separator. |
| `Strings.SplitAfterPiece` | main.go:137 | A separator-free piece followed by the separator splits off as the first part. |
| `Strconv.Atoi` | main.go:139 | A value that is read lies in the 64-bit range, and it is negative only when the text starts with `-`. |
| `Strconv.AtoiDigits` | main.go:139 | A run of digits, leading zeros included, reads as the number it spells, and the same after a `+`. After a `-` it reads as that number negated. A value outside the 64-bit range is an error. |
| `Strconv.AtoiAccepts` | main.go:139 | What `Atoi` accepts is an optional sign and at least one digit, and nothing else. The value is what the digits spell, with that sign. |
| `Strconv.Itoa` | main.go:139 | Every 64-bit integer printed in decimal reads back as itself. |
| `Strconv.ParseFloat` | main.go:110 | Empty text does not parse. |
| `Strconv.ParseFloatAccepts` | main.go:110 | Every text that parses has an optional sign, then whole digits and optionally a point and fraction digits, with at least one digit in all. After that comes nothing, or `e`/`E` with an optional sign and at least one digit. |
| `Strconv.ScanMantissaParts` | main.go:110 | The mantissa scan cuts its text into whole digits, an optional point, fraction digits (only after a point) and the rest. |
| `Strconv.ParseExponentAccepts` | main.go:110 | An exponent suffix that is accepted is empty, or `e`/`E`, an optional sign and at least one digit. |
| `Strconv.ScanMantissa` | main.go:110 | The scanned mantissa is all digits, and it has no more fraction digits than digits. |
| `Strconv.ParsePlainLiteral` | main.go:110 | A literal `[-]whole[.frac]` parses to the number its digits spell, scaled by the number of fraction digits. |
| `Strconv.ParseFormatRoundTrip` | main.go:129 | Parsing a printed decimal gives back exactly that decimal. |
| `Strconv.FormatDecimalParts` | main.go:129 | The printed decimal has `scale` fraction digits, and its whole and fraction digits together spell the magnitude. |
| `Clock.ParseClock` | main.go:146 | A time that parses has an hour below 24 and a minute below 60. |
| `Clock.ParseFormatClock` | main.go:146 | Every valid time written `HH:MM` parses back as itself. |
| `Clock.ParseFormatShortClock` | main.go:146 | Every valid time before 10:00 written `H:MM` parses back as itself. |
| `Clock.ParseClockOnlyFormats` | main.go:146 | Any text that parses is one of those two spellings of the time returned. |
| `Decimals.WholeIffFloor` | main.go:113 | The integer test `IsWhole` holds exactly when the exact value equals its floor. |
| `Decimals.QuarterIffMod` | main.go:117 | The integer test `IsQuarterMultiple` holds exactly when `Mod(value, 0.25)` is zero. |
| `Decimals.CeilFifthIsCeil` | main.go:131 | The integer `CeilFifth` equals `Ceil(value * 0.2)`. |
| `Decimals.WholeIsQuarterMultiple` | main.go:113-119 | Every whole number is a multiple of a quarter. |
| `Decimals.CeilFifthNonNegative` | main.go:131 | A non-negative price earns a non-negative number of points. |
| `GoMath.Floor` | main.go:113 | The result is the greatest integer not above `x`. |
| `GoMath.Ceil` | main.go:131 | The result is the least integer not below `x`. |
| `GoMath.Mod` | main.go:117 | `x` equals `y` times its truncated quotient plus the result. The result is zero exactly when the quotient is whole. It has the sign of `x` and is smaller in magnitude than `y`. |
| `GoMath.ModBounds` | main.go:117 | The remainder left by the truncated quotient has the sign of `x` and is smaller in magnitude than `y`. |
| `GoMath.Rem` | main.go:140 | `a` is a multiple of `b` plus the result. The result has the sign of `a` and is smaller in magnitude than `b`. |
| `GoMath.RemTwoIsOne` | main.go:140 | Go's `a % 2 == 1` holds exactly for the positive odd numbers. |
| `ScoringExamples.RetailerTarget` | main.go:105-107 | "Target" earns 6 points. |
| `ScoringExamples.RetailerMAndMCornerMarket` | main.go:105-107 | "M&M Corner Market" earns 14 points. |
| `ScoringExamples.TotalThirtyFiveDollars` | main.go:110-120 | Total "35.00" earns 75 points. |
| `ScoringExamples.TotalNineDollars` | main.go:110-120 | Total "9.00" earns 75 points. |
| `ScoringExamples.TotalNineTwentyFive` | main.go:110-120 | Total "9.25" earns 25 points. |
| `ScoringExamples.TotalNineTen` | main.go:110-120 | Total "9.10" earns nothing. |
| `ScoringExamples.TotalNotANumber` | main.go:110-111 | A total that does not parse earns nothing from either total rule. |
| `ScoringExamples.PairPointsOfCounts` | main.go:123 | Two or three items earn 5 pair points, and four earn 10. |
| `ScoringExamples.TrimCheesePizza` | main.go:127-128 | "Emils Cheese Pizza" trims to 18 characters. |
| `ScoringExamples.ItemCheesePizza` | main.go:126-133 | "Emils Cheese Pizza" at "12.25" earns 3 points. |
| `ScoringExamples.ItemMalformedPrice` | main.go:129-130 | A qualifying item whose price does not parse earns nothing. |
| `ScoringExamples.DayFirstOfJanuary` | main.go:136-143 | "2022-01-01" earns 6 points. |
| `ScoringExamples.DaySecondOfJanuary` | main.go:136-143 | "2022-01-02" earns nothing. |
| `ScoringExamples.TimeFourteenThirtyThree` | main.go:145-151 | "14:33" earns 10 points. |
| `ScoringExamples.TimeThirteenFiftyNine` | main.go:145-151 | "13:59" earns nothing. |
| `ScoringExamples.TimeSixteenHundred` | main.go:145-151 | "16:00" earns nothing. |
| `ScoringExamples.ItemMinusHundred` | main.go:131 | An item priced "-100" with an empty description earns -20. |
| `ScoringExamples.EmptyFieldsScoreNothing` | main.go:105-151 | Empty retailer, total, date and time fields earn nothing from their rules. |
| `ScoringExamples.OnlyItemsScore` | main.go:102-154 | When every other rule adds 0, the score is the item sum. |
| `ScoringExamples.NegativePriceGivesNegativeScore` | main.go:102-154 | A receipt whose only item is priced "-100" scores -20, so the score can be negative. |

## Left out

- The HTTP handlers `ProcessReceipt` and `GetPoints` and the router in
  `main` are request and response plumbing over `net/http`,
  `encoding/json` and `gorilla/mux`.
- The Redis client is left out: `initRedis`, and the `Set` and `Get` calls
  with their error paths. The store is an external service.
- UUID generation is a foreign call that draws randomness.
- The `id` and `points` fields of `Receipt` are carried in the record, but
  scoring never reads them.
- `float64` is not modelled. `ParseFloat` returns an exact decimal, and
  `math.Floor`, `math.Mod` and `math.Ceil` act on exact reals. The model
  therefore leaves out:
  - binary rounding when a literal is read. For example, "15.0000000000000001"
    reads as exactly 15 in `float64`, so an item priced that way earns 3 in
    Go, but 4 in the model;
  - the range error `ParseFloat` reports for literals beyond `float64`;
  - the conversion `int(...)` of values beyond the 64-bit range.
- `Strconv.ParseFloat` accepts only decimal literals with an optional
  sign, point and exponent. It does not accept Go's other spellings:
  `Inf`, `Infinity` and `NaN` in any case, hexadecimal floats, and `_`
  digit separators. Go does read these. A total of "Inf" earns 50 there,
  since `math.Floor(+Inf)` is `+Inf`, but 0 in the model, where it does not
  parse.
- The accumulator is an unbounded integer, so 64-bit overflow of `points`
  is not modelled.
- `Strings.TrimSpace` trims ASCII white space only, not the Unicode white
  space Go also removes. Strings are sequences of bytes, so UTF-8 decoding
  is not modelled. The regular expression `[a-zA-Z0-9]` only ever matches
  one ASCII byte, so counting bytes gives the same number of matches.
- The `regexp` engine itself is replaced by a direct character test.
- `Clock.ParseClock` implements only the layout `15:04`, not the general
  grammar of `time.Parse`.
- `Scoring.CalculatePoints` calls the four total, item, date and time rule
  blocks as separate methods, where the source writes them inline. Each
  method holds exactly the statements of its block.
- A negative price makes its item's contribution negative (main.go:131),
  so the score can be negative. Non-negativity is proved only when no
  price is negative (`ScoringFacts.PointsNonNegative`).
  `ScoringExamples.NegativePriceGivesNegativeScore` shows a negative score.
