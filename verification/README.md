# Amazon order-history scraper: a Dafny model of its string and page logic

The scraper (`index.js`) pages through an Amazon order history, one year
filter at a time. It runs these steps:

- It reads the order count from a listing page.
- It turns that count into a number of 10-order pages.
- It requests every page at `startIndex = page * 10`.
- It turns each order row into `{title, price}`. A row without a usable price becomes `null`.
- It concatenates all filters' rows and drops the `null` entries.

This project models that logic as pure Dafny functions and proves its
behaviour. The HTML document and the HTTP server are inputs to the model:

- The text of the order-count element for a filter is `countText(filter)`.
- The title and price texts of the rows served for a filter at a start index are `rows(filter, startIndex)`.

The JavaScript built-ins the code depends on are modelled with their
ECMAScript behaviour, in modules `JsStrings` and `JsNumbers`:

- `trim` removes the ECMAScript WhiteSpace and LineTerminator characters.
- `split(' ')` splits on single spaces, so consecutive spaces give empty tokens.
- `replace(',', '.')` replaces only the first comma.
- `parseInt` skips leading whitespace and takes an optional sign. It reads hexadecimal after a `0x` or `0X` prefix, and gives NaN when there are no digits.
- `parseFloat` is modelled only as the question "is the result NaN?".

`Array.prototype.flat` and `filter((x) => !!x)` are modelled in module
`Collections`. The pages requested and the scraping itself are in module
`OrderScraper`. `Wrappers` holds `Option` and `Result`.

Behaviour of the code worth knowing:

- The count text and the price text are split on single spaces.
  - A price text such as `EUR\t12` is a single token, so its row is dropped.
  - A count text that starts with a space gives `null`.
- The count is read by `parseInt`, so only its leading digits matter. `"25pedidos"` and `"007"` are read as 25 and 7, and `"1.234 pedidos"` counts one order.
- A count of `0` orders gives 0 pages. `fetchOrders` treats 0 like `null` (both are falsy), so the filter fails with "Cannot fetch page count". A count from `-9` to `-1` gives `-0` pages, which is falsy too.
- A count text whose first token has no digits gives NaN pages. NaN is falsy too.
- A count of `-10` or less gives a negative page count. That is truthy, so the filter does not fail. `Array.from({length: -2})` is empty, so the filter succeeds with no pages and no orders.

## Model

| member | source | states |
|---|---|---|
| OrderScraper.PagesFor | index.js:65 | `Math.ceil(items / 10)` for an integer count: the result `r` is the unique integer with `10(r-1) < items <= 10r` |
| OrderScraper.ParsePageCount | index.js:56-66 | the page count is `null` exactly when the count text is empty or begins with a space, that is, when its first `' '`-separated token is empty |
| OrderScraper.IsFalsy | index.js:107 | `!pageCount` holds for `null`, NaN and 0; the contract is carried by FetchOrdersFails and CountFalsyOfDigits |
| OrderScraper.PageCountOfDigits | index.js:60-65 | a count text `lead sign digits rest` (whitespace other than a space, an optional `+` or `-`, decimal digits with any leading zeros, then anything that does not continue the digits) gives `ceil(v / 10)` pages for the signed value `v` of the digits |
| OrderScraper.NumeralPageCount | index.js:60-65 | the decimal numeral of `n` followed by text that does not continue it gives `ceil(n / 10)` pages |
| OrderScraper.CountFalsyOfDigits | index.js:60-65 | for such a count text, the page count is falsy exactly when the signed value lies in `-9 .. 0`; every positive count gives a truthy page count |
| OrderScraper.PageCountNaN | index.js:65 | a non-empty first token with no digit or sign where `parseInt` looks for one gives NaN, not `null` |
| OrderScraper.ParseRow | index.js:82-100 | the per-row callback: its contract is carried by KeptRow, ParseRowLayout, KeptPriceLocation and the RowWith lemmas below |
| OrderScraper.KeptRow | index.js:88-100 | a kept row holds the trimmed title and a non-empty price token without spaces that has a numeric prefix once its first comma is read as a point |
| OrderScraper.KeptPriceLocation | index.js:88 | a kept row's price sits right after the first token of the trimmed price text and one space, and is followed by a space or the end of the text |
| OrderScraper.ParseRowLayout | index.js:88-100 | for any price text whose trim is `currency price rest` (surrounding newlines and indentation allowed), the row is kept, with the price verbatim and the title trimmed, exactly when the comma-normalised price has a numeric prefix; otherwise it is `null` |
| OrderScraper.RowWithoutSecondToken | index.js:88-91 | a price text whose trim has no space (such as `$`) has no second token, so the row is `null` |
| OrderScraper.RowWithEmptySecondToken | index.js:88-91 | in a price text whose trim has two spaces after the currency (as in `$  12`), the two spaces make the second token empty, so the row is `null` |
| OrderScraper.RowWithDigitPrice | index.js:93-100 | in a price text whose trim is `currency price rest`, a price token starting with a digit (`12,50`) is kept unchanged, comma included |
| OrderScraper.RowWithWordPrice | index.js:93-95 | in a price text whose trim is `currency price rest`, a price token starting with none of whitespace, a sign, a digit, `.`, `,` or `I` gives NaN, so the row is `null` |
| OrderScraper.RowWithLeadingComma | index.js:93-100 | in a price text whose trim is `currency ,5`, the price token `,5` is read as `.5` by `parseFloat`, so the row is kept with `,5` as its price |
| OrderScraper.ParseOrders | index.js:77-102 | one entry per matched row, in markup order; each entry is that row's record or `null`, with no compaction |
| OrderScraper.StartIndex | index.js:39 | `startIndex` is a multiple of 10, and dividing it by 10 gives back the page index |
| OrderScraper.PageIndexes | index.js:111 | the page indexes are `0 .. pageCount-1`; a count that is not positive gives none |
| OrderScraper.RequestedOffsets | index.js:111-112 | one offset per page index: the first is 0 and each next one is 10 more |
| OrderScraper.OffsetAt | index.js:39 | the offset requested for page `k` is `10k` |
| OrderScraper.OffsetsIncreasing | index.js:39 | offsets `j - i` pages apart differ by `10(j - i)`, so no page is requested twice |
| OrderScraper.OffsetsCoverItems | index.js:39 | for a count of `items > 0` orders, every requested offset is below `items`, and every order position lies in exactly one requested page |
| OrderScraper.FetchOrders | index.js:105-116 | one filter: its contract is carried by FetchOrdersFails, FetchOrdersLength, FetchOrdersLayout and FetchOrdersReadsRequested |
| OrderScraper.PageEntries | index.js:112-113 | `Promise.all` over the page requests: entry `k` is the parse of the page at offset `k`, in offset order |
| OrderScraper.FetchOrdersFails | index.js:105-109 | a filter fails, with "Cannot fetch page count", exactly when its page count is `null`, NaN or 0 |
| OrderScraper.MissingCountFails | index.js:59-63 | a missing count element (empty text) makes the filter fail |
| OrderScraper.FetchOrdersLength | index.js:105-116 | a non-zero page count `n` makes the filter succeed with one entry per row of pages `0 .. n-1` (none for a negative count); FetchOrdersLayout places each entry |
| OrderScraper.FetchOrdersLayout | index.js:111-115 | with `n` pages, row `j` of page `k` sits after all rows of earlier pages |
| OrderScraper.FetchOrdersReadsRequested | index.js:111-113 | the result depends only on the pages at the requested offsets |
| OrderScraper.FilterOutcome | index.js:130 | the outcome of `fetchOrders` for one filter, served by `rows(filter, ·)`; its contract is carried by Outcomes, RunFails and RunMembership |
| OrderScraper.Outcomes | index.js:130 | one outcome per filter, in filter order |
| OrderScraper.Run | index.js:130-131 | the whole run: its contract is carried by RunFails, RunAppend, RunMembership and RunScenario |
| OrderScraper.RunFails | index.js:130 | the run fails, with "Cannot fetch page count" and no partial result, exactly when some filter's page count is `null`, NaN or 0 |
| OrderScraper.RunAppend | index.js:130-131 | running two filter lists back to back gives the two results concatenated, in filter order |
| OrderScraper.RunMembership | index.js:131 | a record is in a successful run's result exactly when some filter produced it as a non-`null` entry |
| OrderScraper.RunScenario | index.js:105-131 | one filter with 21 to 30 orders, whose three pages each hold a valid row and a row with no price token, yields the valid record three times |
| Collections.Flatten | index.js:115 | `flat()` keeps every element: the result's length is the sum of the inner lengths |
| Collections.FlattenAppend | index.js:131 | flattening distributes over concatenation |
| Collections.FlattenAt | index.js:115 | element `j` of inner sequence `k` sits after all elements of the inner sequences before it |
| Collections.FlattenMembership | index.js:131 | an element of the flattened sequence comes from some inner sequence, and every element of an inner sequence appears in it |
| Collections.Compact | index.js:131 | `filter((x) => !!x)` removes exactly the `null` entries: the length drops by the number of `null`s |
| Collections.CompactAppend | index.js:131 | compacting distributes over concatenation |
| Collections.CompactMembership | index.js:131 | a record survives compacting exactly when it was present as an entry |
| Collections.CompactNoNulls | index.js:131 | with no `null` entry, compacting only unwraps, keeping length and order |
| JsStrings.TrimStart | index.js:88 | removes a maximal whitespace prefix: the result is a suffix of the input, everything cut is whitespace, and the result does not start with whitespace |
| JsStrings.TrimEnd | index.js:88 | removes a maximal whitespace suffix: the result is a prefix of the input, everything cut is whitespace, and the result does not end with whitespace |
| JsStrings.Trim | index.js:88-98 | `trim()` is TrimEnd after TrimStart; its contract is carried by those two and TrimIdempotent |
| JsStrings.TrimStartWhitespacePrefix | index.js:88 | whitespace in front of a text that does not start with whitespace is exactly what `TrimStart` removes |
| JsStrings.TrimIdempotent | index.js:88 | trimming twice is trimming once |
| JsStrings.Split | index.js:60 | `split(' ')` yields at least one piece, and no piece contains a space |
| JsStrings.JoinSplit | index.js:60 | joining the pieces with single spaces gives the original text back |
| JsStrings.SplitJoin | index.js:88 | splitting joined space-free pieces gives the same pieces |
| JsStrings.SplitNoSpace | index.js:88 | a text without spaces is a single piece |
| JsStrings.SplitPrefix | index.js:60 | a space-free piece followed by a space becomes the first token, and the rest splits on its own |
| JsStrings.FirstTokenEmpty | index.js:60-61 | the first token is empty exactly when the text is empty or starts with a space |
| JsStrings.FirstTokenIsPrefix | index.js:60 | the text begins with its first token, followed by a space or the end |
| JsStrings.FirstTokenOfPrefix | index.js:60 | a space-free prefix is part of the first token: the first token of `p + rest` is `p` followed by the first token of `rest` |
| JsStrings.SecondTokenLocation | index.js:88 | with a second token, the text begins with the first token, one space and the second token, followed by a space or the end |
| JsStrings.SplitCount | index.js:60 | there is one more piece than there are spaces |
| JsStrings.ReplaceFirst | index.js:93 | the replacement keeps the length |
| JsStrings.ReplaceFirstAbsent | index.js:93 | without a comma the text is unchanged |
| JsStrings.ReplaceFirstAt | index.js:93 | only the first comma is replaced; later commas stay |
| JsNumbers.DigitValue | index.js:65 | a digit's value is below the radix |
| JsNumbers.DigitPrefix | index.js:65 | `parseInt` reads the longest run of radix digits at the start |
| JsNumbers.DecimalValueRoundTrip | index.js:65 | reading the decimal numeral of `n` gives `n` back |
| JsNumbers.ParseInt | index.js:65 | `parseInt(text)` with radix unspecified; its contract is carried by ParseIntDigits, ParseIntNumeral, ParseIntNegative and ParseIntNoDigits |
| JsNumbers.SignedValue | index.js:65 | the value of an optionally signed digit string: not positive after `-`, not negative otherwise |
| JsNumbers.ParseIntDigits | index.js:65 | `parseInt` of leading whitespace, an optional sign, decimal digits with any leading zeros and a rest that does not continue them gives the signed value of the digits |
| JsNumbers.ParseUnsignedDigits | index.js:65 | decimal digits not continued by a digit, nor by `x` or `X` after a lone `0`, are read in radix 10 |
| JsNumbers.ParseIntNumeral | index.js:65 | `parseInt` of a numeral followed by text that does not continue it (no digit, `x` or `X`) gives the number |
| JsNumbers.ParseIntNegative | index.js:65 | a leading minus sign negates the number |
| JsNumbers.ParseUnsignedNumeral | index.js:65 | a numeral without a hexadecimal prefix is read in radix 10 |
| JsNumbers.DigitPrefixOfNumeral | index.js:65 | the digit prefix of a numeral followed by a non-digit is the numeral |
| JsNumbers.ParseIntNoDigits | index.js:65 | when the first character after whitespace is no digit and no sign, `parseInt` gives NaN |
| JsNumbers.HasFloatPrefix | index.js:93 | `!isNaN(parseFloat(text))`; its contract is carried by FloatPrefixFromDigit, FloatPrefixFromPoint and NoFloatPrefix |
| JsNumbers.FloatPrefixFromDigit | index.js:93 | a text starting with a digit is not NaN for `parseFloat` |
| JsNumbers.FloatPrefixFromPoint | index.js:93 | a point followed by a digit (`.5`) is not NaN for `parseFloat` |
| JsNumbers.NoFloatPrefix | index.js:93 | a text starting with none of whitespace, a sign, a digit, `.` or `I` is NaN for `parseFloat` |

## Left out

- HTTP requests (`axios.get`), the cookie header and the query parameters are not modelled. The server is the input function `rows(filter, startIndex)`, and the count page is the input `countText(filter)`.
- `fetchOrders` passes the global `COOKIE` to `fetchPage` rather than its own `cookie` argument. Both are the same value in `main`, and cookies are not modelled.
- The cheerio selectors (`ORDERS_SELECTOR`, `ORDER_COUNT_SELECTOR` and the title and price selectors) are not modelled. A page is given as its matched rows, each with the text of its title and price elements.
- `console.log`, `Papa.unparse`, `JSON.stringify` and the two `fs.writeFile` calls are I/O on the result and are left out.
- The filter list in `main` is a parameter, not the eight fixed years.
- Concurrency is not modelled. `Promise.all` is modelled by its result: values in request order, or a rejection.
- FetchOrders: the only rejection in the model is the "Cannot fetch page count" error. Transport failures of `axios.get` (index.js:24, 41) are not modelled.
- PageIndexes: builds a sequence of any length. `Array.from({ length: pageCount })` throws a RangeError for a page count above 2^32 - 1, and that error is not modelled.
- ParseInt: results are unbounded integers. The model does not capture the loss of precision of JavaScript numbers above 2^53, or `Infinity` for numerals beyond the double range.
- HasFloatPrefix: models only whether `parseFloat` gives NaN, which is all the code uses; the parsed value is not computed.
- JsStrings.Split and the other string functions work on Unicode scalar values, not UTF-16 code units. This makes no difference for the spaces, commas and digits the code looks for.
