# Apartment listing scraper: text parsing, in Dafny

This project models the text-parsing core of an apartment-listing scraper,
`src/scrapers/apartment.js`. The scraper loads a listing page, asks for the
text of a handful of elements and turns those texts into the fields of a
listing object. The model covers that text-to-field part:

- `parsePrice`: drop the first `.`, turn the first `,` into `.`, take the
  leftmost match of `(\d+\D?\d*)\s*€` and read its group with `parseFloat`.
  The result is `null` when nothing matches.
- `parseArea`: take the leftmost match of `(\d*.\d*) m²`. The `.` is
  unescaped, so it matches any character except a line terminator. The
  group's first `,` becomes `.` and `parseFloat` reads it. A group without
  any digit reads as NaN, not as `null`.
- The room count: `parseInt(text, 10)`, which gives NaN and never `null`.
- `parseAvailableFrom`: a whole-text date `dd.mm.yy` first, then the word
  `sofort` anywhere, then nothing.
- `scrapAddress`: the street from the first of exactly two children, cut
  at its first comma and trimmed. Postal code and city come from the
  leftmost `(\d{5}) (\S+)` in the zip-region text before its first comma.
  They are both set or both `null`.
- `scrapImages`: only its guard, which gives no images when the slider is
  missing.
- `scrap`: which keys the listing object gets, and from which text.

The JavaScript primitives involved are written out in `text.dfy` and
`numbers.dfy`:

- the regex classes `\d`, `\s`, `\S` and `.`;
- `replace` with a string pattern, which touches only the first occurrence;
- `split`, `reverse`, `join`, `trim` and `indexOf`;
- `parseFloat` and `parseInt`.

Whitespace is ECMAScript's WhiteSpace and LineTerminator set. Numbers are
exact decimals, `mantissa * 10^exponent`, rather than doubles.

Each regex is modelled twice:

- as a specification predicate: the match at `i` with group `s[i..e]`
  (`PriceMatch`, `AreaMatch`, `ZipMatch`, `DateShape`);
- as the scan `exec` performs: a matcher per start position and a
  left-to-right search (`CaptureAt`/`CityEndAt` and `ScanFrom`).

Lemmas prove the following about each scan:

- it finds nothing exactly when no match exists;
- otherwise it returns the leftmost match, with the group the backtracking
  matcher picks.

For these three patterns, that group is the longest one at that position.

The page is an input value (`Apartment.Page`). It holds:

- the text of each queried element;
- the number of slider elements and the images' `data-src` values;
- the address block's text, children texts and zip-region text.

Whether a date lies in the past is the parameter `before`, applied to the
date string handed to `new Date`.

Four behaviours of the code are easy to miss:

- The area group `\d*.\d*` is not a floating-point token. It can be a lone
  character such as `x` in `x m²`, and that reads as NaN.
- The room count is never absent. Text without leading digits gives NaN.
- The postal code and the city are separated by exactly one space
  character, not by any whitespace.
- Thousands grouped with a space are cut at that space: `1 234 €` reads as
  1 (`Price.ParsePriceSpaceGrouped`). The pattern accepts the space inside
  the group, but `parseFloat` stops reading at it.

## Model

| member | source | states |
|---|---|---|
| `Text.IndexOf` | src/scrapers/apartment.js:9 | `indexOf` finds nothing exactly when the character does not occur; otherwise it finds an occurrence with none before it |
| `Text.ReplaceFirst` | src/scrapers/apartment.js:9 | no contract of its own; `replace(c, r)` with a string pattern, specified by `IndexOf` and `ReplaceFirstAt` |
| `Text.ReplaceFirstAt` | src/scrapers/apartment.js:9 | `replace` with a string pattern rewrites the first occurrence only, whatever follows it |
| `Text.Split` | src/scrapers/apartment.js:20 | `split` yields at least one piece, and no piece holds the separator |
| `Text.SplitFirst` | src/scrapers/apartment.js:20 | `split(c)[0]` is the prefix up to the first `c`, or the whole text when there is none |
| `Text.Join` | src/scrapers/apartment.js:44 | no contract of its own; `join(sep)`, specified by `JoinSplit` and `JoinThree` |
| `Text.JoinSplit` | src/scrapers/apartment.js:44 | joining the pieces of a split with the separator gives back the text |
| `Text.SplitThree` | src/scrapers/apartment.js:44 | text with the separator only between three pieces splits into exactly those pieces |
| `Text.JoinThree` | src/scrapers/apartment.js:44 | `join` puts the separator between three pieces and nowhere else |
| `Text.Reverse` | src/scrapers/apartment.js:44 | `reverse` keeps the length and puts element `k` at position `n - 1 - k` |
| `Text.Trim` | src/scrapers/apartment.js:20 | `trim` returns the text cut between whitespace-only ends, with no whitespace left at either end |
| `Text.TrimIdempotent` | src/scrapers/apartment.js:20 | trimming twice is trimming once |
| `Text.ContainsFrom` | src/scrapers/apartment.js:51 | `indexOf(pat, i) !== -1` holds exactly when `pat` occurs at some index from `i` on |
| `Numbers.ParseInt` | src/scrapers/apartment.js:75 | `parseInt(s, 10)` on exact integers is a whole number or NaN; it reads no exponent and no `Infinity` |
| `Numbers.ParseIntOfIntegerText` | src/scrapers/apartment.js:75 | whitespace, an optional sign and digits read as those digits, negated after `-`; what follows the digits is ignored |
| `Numbers.ParseIntFiniteIff` | src/scrapers/apartment.js:75 | `parseInt` gives a number exactly when the text starts, after whitespace and a sign, with a digit; otherwise NaN |
| `Numbers.ParseFloat` | src/scrapers/apartment.js:11 | no contract of its own; `parseFloat`, specified by `ParseFloatOfDecimalText`, `ParseFloatOfDigits`, `ParseFloatOfExponentText` and `ParseFloatOfLeadingDigit` |
| `Numbers.ParseFloatOfDecimalText` | src/scrapers/apartment.js:11 | `parseFloat` reads `digits.digits` exactly, up to a character that cannot continue it |
| `Numbers.ParseFloatOfPoint` | src/scrapers/apartment.js:11 | `digits.digits` is the digits with the point moved in by the fraction's length |
| `Numbers.ParseFloatOfDigits` | src/scrapers/apartment.js:11 | a digit run followed by a character that cannot continue a number reads as the run's value |
| `Numbers.ParseFloatOfExponentText` | src/scrapers/apartment.js:11 | `digits e digits` reads as the digits times a power of ten |
| `Numbers.ParseFloatOfLeadingDigit` | src/scrapers/apartment.js:11 | text that starts with a digit always reads as a finite exact decimal |
| `Price.Sanitize` | src/scrapers/apartment.js:9 | no contract of its own; the two first-occurrence `replace` calls, specified by `SanitizeGrouped` and `SanitizeUnchanged` |
| `Price.CaptureAt` | src/scrapers/apartment.js:10 | no contract of its own; the backtracking matcher at one start position, specified by `CaptureAtIsLongestMatch` |
| `Price.EuroAtIff` | src/scrapers/apartment.js:10 | the scan for `\s*€` at `e` succeeds exactly when whitespace and then `€` follow `e` |
| `Price.CaptureAtSound` | src/scrapers/apartment.js:10 | the group the matcher reports at `i` is a match of `(\d+\D?\d*)\s*€` |
| `Price.CaptureAtLongest` | src/scrapers/apartment.js:10 | no match at `i` has a longer group than the one the matcher reports |
| `Price.CaptureAtIsLongestMatch` | src/scrapers/apartment.js:10 | at every position the matcher reports exactly the longest group of a match there |
| `Price.ScanFrom` | src/scrapers/apartment.js:10 | the scan returns the first start position from `i` on that has a match, and none when no later position has one |
| `Price.PriceToken` | src/scrapers/apartment.js:10 | no contract of its own; `exec(...)[1]`, specified by `PriceTokenIsExec` and `PriceTokenLeadingDigit` |
| `Price.PriceTokenIsExec` | src/scrapers/apartment.js:10 | the group is absent exactly when no match exists; otherwise it belongs to the leftmost match, taken as long as possible, and has the shape digits, at most one non-digit, digits |
| `Price.PriceTokenLeadingDigit` | src/scrapers/apartment.js:10 | every price group starts with a digit |
| `Price.ParsePrice` | src/scrapers/apartment.js:8-12 | no contract of its own; `parsePrice`, specified by `ParsePriceNullIff`, `ParsePriceGrouped`, `ParsePriceOfInteger` and `ParsePriceSpaceGrouped` |
| `Price.ParsePriceNullIff` | src/scrapers/apartment.js:8-12 | `parsePrice` is `null` exactly when the sanitised text has no match; a match always reads as a finite exact decimal |
| `Price.SanitizeGrouped` | src/scrapers/apartment.js:9 | sanitising `1.234,56` drops only the first `.` and turns only the first `,` into `.` |
| `Price.PriceTokenGrouped` | src/scrapers/apartment.js:9-10 | from `1.234,56 €` the group captured after sanitising is `1234.56` |
| `Price.ParsePriceGrouped` | src/scrapers/apartment.js:8-12 | `1.234,56 €` after text without digits, `.` or `,` reads as 1234.56 |
| `Price.ParsePriceOfPoint` | src/scrapers/apartment.js:11 | a captured `digits.digits` reads as its exact decimal value |
| `Price.PriceTokenAt` | src/scrapers/apartment.js:10 | a match right after a prefix without digits is the one `exec` reports |
| `Price.PriceTokenOfInteger` | src/scrapers/apartment.js:9-10 | from `850 €` the group is `850 `: `\D?` takes the space |
| `Price.ParsePriceOfInteger` | src/scrapers/apartment.js:8-12 | `850 €` reads as 850 |
| `Price.PriceTokenSpaceGrouped` | src/scrapers/apartment.js:9-10 | from `1 234 €` the group is `1 234` |
| `Price.ParsePriceSpaceGrouped` | src/scrapers/apartment.js:8-12 | `1 234 €` reads as 1: `parseFloat` stops at the space |
| `Area.CaptureAt` | src/scrapers/apartment.js:4 | no contract of its own; the backtracking matcher at one start position, specified by `CaptureAtIsLongestMatch` |
| `Area.CaptureAtSound` | src/scrapers/apartment.js:4 | the group the matcher reports at `i` is a match of `(\d*.\d*) m²` |
| `Area.CaptureAtLongest` | src/scrapers/apartment.js:4 | no match at `i` has a longer group than the one the matcher reports |
| `Area.CaptureAtIsLongestMatch` | src/scrapers/apartment.js:4 | at every position the matcher reports exactly the longest group of a match there |
| `Area.ScanFrom` | src/scrapers/apartment.js:4 | the scan returns the first start position from `i` on that has a match |
| `Area.AreaToken` | src/scrapers/apartment.js:4 | no contract of its own; `exec(...)[1]`, specified by `AreaTokenIsExec` and `AreaTokenShape` |
| `Area.AreaTokenIsExec` | src/scrapers/apartment.js:4 | the group is absent exactly when no match exists; otherwise it belongs to the leftmost match, taken as long as possible |
| `Area.AreaTokenShape` | src/scrapers/apartment.js:4 | a group is never empty and holds at most one character other than a digit |
| `Area.ParseArea` | src/scrapers/apartment.js:3-6 | no contract of its own; `parseArea`, specified by `ParseAreaNullIff`, `ParseAreaNaNIff` and `ParseAreaOfDecimal` |
| `Area.ParseAreaNullIff` | src/scrapers/apartment.js:3-6 | `parseArea` is `null` exactly when the text has no match |
| `Area.ParseAreaNaNIff` | src/scrapers/apartment.js:5 | a match reads as NaN exactly when its group starts with a non-digit that is alone or cannot start a number |
| `Area.TokenNaNIff` | src/scrapers/apartment.js:5 | the same for any group of the shape digits, one character, digits, once its first `,` is a `.` |
| `Area.LeadingCharNaNIff` | src/scrapers/apartment.js:5 | one non-digit other than `,` before digits reads as NaN exactly when no digit follows or it is not whitespace, a sign or a point |
| `Area.ParseAreaOfDecimal` | src/scrapers/apartment.js:3-6 | `digits.digits m²` reads as its exact decimal value |
| `Area.ParseAreaOfPoint` | src/scrapers/apartment.js:5 | a captured `digits.digits` reads as its exact decimal value |
| `AvailableFrom.DateGroup` | src/scrapers/apartment.js:42 | no contract of its own; the anchored date pattern's group, specified by `DateGroupComplete` and `DateGroupSound` |
| `AvailableFrom.DateGroupComplete` | src/scrapers/apartment.js:42 | a text of the shape non-digits, `d{1,2}.d{1,2}.d{2}`, whitespace yields the group `dd.mm.yy` |
| `AvailableFrom.DateGroupAt` | src/scrapers/apartment.js:42 | the group read off by positions: first digit, the two points, end of the year |
| `AvailableFrom.DateGroupSound` | src/scrapers/apartment.js:42 | a group is only reported for a text of that shape, and it is the shape's `dd.mm.yy` |
| `AvailableFrom.DateString` | src/scrapers/apartment.js:44 | no contract of its own; `'20' + group.split('.').reverse().join('-')`, specified by `DateStringOfParts` |
| `AvailableFrom.DateStringOfParts` | src/scrapers/apartment.js:44 | the date string is `20` + yy + `-` + mm + `-` + dd, not padded |
| `AvailableFrom.ParseAvailableFrom` | src/scrapers/apartment.js:39-62 | empty text gives no date and not available; a date exactly when the pattern matches, then available as `before` says; otherwise available exactly when `sofort` occurs |
| `AvailableFrom.DateWins` | src/scrapers/apartment.js:42-49 | a matching text yields its date even when `sofort` comes before the date |
| `AvailableFrom.SofortIff` | src/scrapers/apartment.js:51-61 | without a date, the text is available exactly when `sofort` occurs in it |
| `Address.CityEndAt` | src/scrapers/apartment.js:24 | no contract of its own; the matcher at one start position, specified by `CityEndAtIsLongestMatch` |
| `Address.CityEndAtIsLongestMatch` | src/scrapers/apartment.js:24 | at every position the matcher reports exactly the longest match of `(\d{5}) (\S+)` there |
| `Address.ScanFrom` | src/scrapers/apartment.js:24 | the scan returns the first start position from `i` on that has a match |
| `Address.ZipMatchOf` | src/scrapers/apartment.js:24 | no contract of its own; `addressRegex.exec`, specified by `ZipMatchOfIsExec` and `ZipTakesLastFiveDigits` |
| `Address.ZipMatchOfIsExec` | src/scrapers/apartment.js:24 | no match is reported exactly when none exists; otherwise the leftmost, longest one |
| `Address.ZipAndCity` | src/scrapers/apartment.js:23 | no contract of its own; the zip-region text up to its first comma, specified by `Text.SplitFirst` |
| `Address.ScrapAddress` | src/scrapers/apartment.js:14-30 | the street exactly for two children, cut at the first comma, trimmed and comma-free. Postal code and city are both set or both `null`, `null` exactly when there is no match, and otherwise the leftmost match's groups: five digits and a non-empty run of non-whitespace |
| `Address.TrimHasNoComma` | src/scrapers/apartment.js:20 | trimming text without a comma leaves none |
| `Address.ZipTakesLastFiveDigits` | src/scrapers/apartment.js:24-27 | six digits before the space give the last five as postal code: `123456 X` yields `23456` |
| `Apartment.ScrapImages` | src/scrapers/apartment.js:33-34 | a missing slider gives no images |
| `Apartment.Scrap` | src/scrapers/apartment.js:64-91 | every key holds its extractor's result: the prices are `parsePrice` of their texts, `null` exactly when their pattern finds nothing; the area is `parseArea` of its text with the first `,` made a `.`; rooms is `parseInt` of its text, a number or NaN; images are `scrapImages`' result, empty for a missing slider; the availability keys are always set as `parseAvailableFrom` gives them; the address keys are present only when the block's trimmed text is non-empty, then postal code and city are always present, `null` together, and otherwise the leftmost match's two groups, and the street only for two children, as the first child's text cut at its first comma and trimmed |
| `Apartment.AreaOfCommaText` | src/scrapers/apartment.js:74 | `54,5 m²` reads as 54.5: the comma becomes a point before the pattern runs |
| `Apartment.RoomsOfDigits` | src/scrapers/apartment.js:75 | a room count written as digits is that integer: `3` yields 3 |

## Left out

- Loading the page and querying it with cheerio are not modelled. This
  covers `cheerio.load`, the selectors, `children`, `first`, `find` and
  `text`. Their results are the fields of `Apartment.Page`. The
  `addressBlock &&` test is always true for a cheerio selection, so only
  the trimmed-text test is modelled.
- `scrapImages` beyond its guard is not modelled. Mapping `img.sp-image` to
  `data-src` values is cheerio's `map` and `get`, so the sources are an
  input.
- `new Date(dateStr)` and the clock are not modelled. Whether the date lies
  in the past is the parameter `before`, applied to the date string.
  `availableFrom` holds that string rather than a `Date` object.
- Floating-point rounding is not modelled. Numbers are exact decimals, so
  huge exponents, `-0` and precision loss are left out.
- Numbers.ParseInt: a digit run too large for a double (about 309 digits or
  more) reads as `Infinity` in JavaScript but as its exact value here.
- Numbers.ParseFloatOfLeadingDigit: "finite" means finite as an exact
  decimal; JavaScript reads a digit run too large for a double as `Infinity`.
- Price.ParsePriceNullIff: "finite" means finite as an exact decimal; a
  price group too large for a double reads as `Infinity` in JavaScript.
- Characters are Dafny's Unicode scalar values, while JavaScript strings are
  UTF-16 code units. Text outside the Basic Multilingual Plane is not
  modelled.
- Document-load failure is not modelled; the code never reports one.
