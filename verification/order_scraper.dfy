/**
 * The string and integer logic of the order-history scraper: reading the
 * page count, validating order rows, the page offsets requested for one
 * filter, and assembling the records of every filter into the run result.
 *
 * The HTML document and the HTTP server are inputs: the text of the order
 * count element is a string, and the rows of the page served for a filter at
 * a given start index are a function `(filter, startIndex) -> rows`.
 */
module OrderScraper {
  import opened Wrappers
  import opened JsStrings
  import opened JsNumbers
  import opened Collections

  /** Number of orders on one listing page. */
  const ITEMS_PER_PAGE: nat := 10

  /** Message of the error thrown when a filter's page count is unusable. */
  const PAGE_COUNT_ERROR: string := "Cannot fetch page count"

  /** What `parsePageCount` returns: `null`, `NaN` or an integer number of pages. */
  datatype PageCount = NullCount | NaNCount | Pages(n: int)

  /** The texts of one matched order row: its title element and its price element. */
  datatype RawRow = RawRow(titleText: string, priceText: string)

  /** A scraped order line: trimmed title and the price token as it appeared. */
  datatype Order = Order(title: string, price: string)

  // ---------------------------------------------------------------------------
  // Page count

  /** `Math.ceil(items / ITEMS_PER_PAGE)` for an integer number of items. */
  function PagesFor(items: int): (r: int)
    ensures ITEMS_PER_PAGE * (r - 1) < items <= ITEMS_PER_PAGE * r
  {
    (items + ITEMS_PER_PAGE - 1) / ITEMS_PER_PAGE
  }

  /**
   * `parsePageCount`: the first `' '`-separated token of the count text is
   * the number of orders; `null` when that token is empty, otherwise the
   * ceiling of `parseInt(token) / ITEMS_PER_PAGE` (NaN stays NaN).
   */
  function ParsePageCount(countText: string): (r: PageCount)
    ensures r.NullCount? <==> (countText == [] || countText[0] == ' ')
  {
    var amount := Split(countText)[0];
    FirstTokenEmpty(countText);
    if amount == [] then NullCount
    else
      match ParseInt(amount)
      case NaN => NaNCount
      case Int(v) => Pages(PagesFor(v))
  }

  /** `!pageCount`: `null`, `NaN` and `0` are falsy. */
  predicate IsFalsy(pc: PageCount)
  {
    pc.NullCount? || pc.NaNCount? || (pc.Pages? && pc.n == 0)
  }

  /**
   * A count text laid out as `lead sign digits rest` gives the ceiling of
   * `v / ITEMS_PER_PAGE` pages, where `v` is the signed value of the digits:
   * `lead` is whitespace other than a space (a space would end the first
   * token), `sign` is empty, `+` or `-`, leading zeros count for nothing, and
   * `rest` is anything that does not continue the digits. So `"25 pedidos"`,
   * `"25pedidos"`, `"007"`, `"\n+25"` and `"-25"` are all read, and
   * `"1.234 pedidos"` counts one order.
   */
  lemma PageCountOfDigits(lead: string, sign: string, d: string, rest: string)
    requires ' ' !in lead && AllWhitespace(lead)
    requires sign == "" || sign == "+" || sign == "-"
    requires d != [] && forall i :: 0 <= i < |d| ==> IsDecimalDigit(d[i])
    requires rest == [] || (!IsDecimalDigit(rest[0]) && (d == "0" ==> rest[0] != 'x' && rest[0] != 'X'))
    ensures ParsePageCount(lead + sign + d + rest) == Pages(PagesFor(SignedValue(sign, d)))
  {
    var token := Split(rest)[0];
    CountToken(lead, sign, d, rest);
    ParseIntDigits(lead, sign, d, token);
    PageCountOfToken(lead + sign + d + rest, SignedValue(sign, d));
  }

  /** The first token of such a count text is `lead sign digits` and the first token of `rest`. */
  lemma CountToken(lead: string, sign: string, d: string, rest: string)
    requires ' ' !in lead
    requires sign == "" || sign == "+" || sign == "-"
    requires forall i :: 0 <= i < |d| ==> IsDecimalDigit(d[i])
    ensures var token := Split(rest)[0];
      && Split(lead + sign + d + rest)[0] == lead + sign + d + token
      && (token == [] || token[0] == rest[0])
  {
    var p := lead + sign + d;
    assert ' ' !in p by {
      forall i | 0 <= i < |p| ensures p[i] != ' ' {
        if i >= |lead| + |sign| {
          assert p[i] == d[i - |lead| - |sign|] && IsDecimalDigit(d[i - |lead| - |sign|]);
        } else if i >= |lead| {
          assert p[i] == sign[i - |lead|];
        } else {
          assert p[i] == lead[i];
        }
      }
    }
    FirstTokenOfPrefix(p, rest);
    FirstTokenIsPrefix(rest);
  }

  /** The canonical numeral of `n` followed by text that does not continue it gives `ceil(n / ITEMS_PER_PAGE)` pages. */
  lemma NumeralPageCount(n: nat, rest: string)
    requires rest == [] || (!IsDecimalDigit(rest[0]) && (n == 0 ==> rest[0] != 'x' && rest[0] != 'X'))
    ensures ParsePageCount(NatToDecimal(n) + rest) == Pages(PagesFor(n))
  {
    BareDigitsPageCount(NatToDecimal(n), rest);
    DecimalValueRoundTrip(n);
  }

  /** A count text made of digits and a rest that does not continue them, with no lead and no sign. */
  lemma BareDigitsPageCount(d: string, rest: string)
    requires d != [] && forall i :: 0 <= i < |d| ==> IsDecimalDigit(d[i])
    requires rest == [] || (!IsDecimalDigit(rest[0]) && (d[0] == '0' ==> rest[0] != 'x' && rest[0] != 'X'))
    ensures ParsePageCount(d + rest) == Pages(PagesFor(DigitsValue(d, false)))
  {
    assert d == "0" ==> d[0] == '0';
    PageCountOfDigits("", "", d, rest);
    NoLeadNoSign(d, rest);
  }

  lemma NoLeadNoSign(d: string, rest: string)
    ensures "" + "" + d + rest == d + rest
  {
  }

  lemma PageCountOfToken(countText: string, v: int)
    requires Split(countText)[0] != [] && ParseInt(Split(countText)[0]) == Int(v)
    ensures ParsePageCount(countText) == Pages(PagesFor(v))
  {
  }

  /**
   * Such a count text gives a falsy page count exactly when its value is in
   * `-9 .. 0`: zero orders, or a small negative number whose ceiling is `-0`.
   * Any positive count gives at least one page.
   */
  lemma CountFalsyOfDigits(lead: string, sign: string, d: string, rest: string)
    requires ' ' !in lead && AllWhitespace(lead)
    requires sign == "" || sign == "+" || sign == "-"
    requires d != [] && forall i :: 0 <= i < |d| ==> IsDecimalDigit(d[i])
    requires rest == [] || (!IsDecimalDigit(rest[0]) && (d == "0" ==> rest[0] != 'x' && rest[0] != 'X'))
    ensures IsFalsy(ParsePageCount(lead + sign + d + rest)) <==> -(ITEMS_PER_PAGE as int) < SignedValue(sign, d) <= 0
  {
    PageCountOfDigits(lead, sign, d, rest);
  }

  /**
   * A first token with no digit where `parseInt` looks for one (here: a
   * leading line break before the number) gives NaN, not `null`.
   */
  lemma PageCountNaN(countText: string)
    requires countText != [] && countText[0] != ' '
    requires var t := TrimStart(Split(countText)[0]);
      t == [] || !(IsDecimalDigit(t[0]) || t[0] == '-' || t[0] == '+')
    ensures ParsePageCount(countText) == NaNCount
  {
    ParseIntNoDigits(Split(countText)[0]);
  }

  // ---------------------------------------------------------------------------
  // Order rows

  /**
   * The per-row mapping of `parseOrders`: the second `' '`-separated token
   * of the trimmed price text is the price; the row is `null` when that
   * token is missing or empty, or when it has no numeric prefix once its
   * first `,` is read as `.`; otherwise the record keeps the trimmed title
   * and the price token unchanged.
   */
  function ParseRow(row: RawRow): Option<Order>
  {
    var tokens := Split(Trim(row.priceText));
    if |tokens| < 2 || tokens[1] == [] then None
    else
      var price := tokens[1];
      if !HasFloatPrefix(ReplaceFirst(price, ',', '.')) then None
      else Some(Order(Trim(row.titleText), price))
  }

  /**
   * A kept row carries the trimmed title and a non-empty, space-free price
   * token that, first comma read as a point, begins with a number.
   */
  lemma KeptRow(row: RawRow)
    requires ParseRow(row).Some?
    ensures var o := ParseRow(row).value;
      && o.title == Trim(row.titleText)
      && o.price != [] && ' ' !in o.price
      && HasFloatPrefix(ReplaceFirst(o.price, ',', '.'))
  {
    var tokens := Split(Trim(row.priceText));
    assert ' ' !in tokens[1];
  }

  /**
   * A price text whose trim is laid out as `currency price rest` (currency
   * and price without spaces, rest empty or starting with a space) is decided
   * by the price token alone: kept verbatim with the trimmed title exactly
   * when the token, first comma read as a point, has a numeric prefix.
   */
  lemma ParseRowLayout(title: string, priceText: string, currency: string, price: string, rest: string)
    requires ' ' !in currency && ' ' !in price && price != []
    requires rest == [] || rest[0] == ' '
    requires Trim(priceText) == currency + " " + price + rest
    ensures ParseRow(RawRow(title, priceText)) ==
      if HasFloatPrefix(ReplaceFirst(price, ',', '.')) then Some(Order(Trim(title), price)) else None
  {
    SecondToken(currency, price, rest);
  }

  lemma SecondToken(currency: string, price: string, rest: string)
    requires ' ' !in currency && ' ' !in price
    requires rest == [] || rest[0] == ' '
    ensures var tokens := Split(currency + " " + price + rest); |tokens| >= 2 && tokens[1] == price
  {
    if rest == [] {
      SplitNoSpace(price);
      SplitPrefix(currency, price);
      assert currency + " " + price + rest == currency + " " + price;
    } else {
      SplitPrefix(price, rest[1..]);
      SplitPrefix(currency, price + " " + rest[1..]);
      assert currency + " " + price + rest == currency + " " + (price + " " + rest[1..]);
    }
  }

  /**
   * A kept row's price is the token between the first and the second space
   * of the trimmed price text: the text is `currency price rest`, where the
   * currency is the space-free first token and `rest` is empty or starts
   * with a space.
   */
  lemma KeptPriceLocation(row: RawRow, o: Order)
    requires ParseRow(row) == Some(o)
    ensures PriceAfterCurrency(Trim(row.priceText), o.price)
  {
    var t := Trim(row.priceText);
    assert |Split(t)| >= 2 && o.price == Split(t)[1];
    SecondTokenAfterCurrency(t, o.price);
  }

  lemma SecondTokenAfterCurrency(text: string, price: string)
    requires |Split(text)| >= 2 && price == Split(text)[1]
    ensures PriceAfterCurrency(text, price)
  {
    SecondTokenLocation(text);
  }

  /** `text` is `currency price rest`: a space-free currency token, one space, the price, then a space or nothing. */
  predicate PriceAfterCurrency(text: string, price: string)
  {
    var currency := Split(text)[0];
    && ' ' !in currency && |currency| + 1 + |price| <= |text|
    && text[..|currency| + 1 + |price|] == currency + " " + price
    && (|currency| + 1 + |price| == |text| || text[|currency| + 1 + |price|] == ' ')
  }

  /** A trimmed price text without a space (a bare currency mark such as `$`) drops the row. */
  lemma RowWithoutSecondToken(title: string, priceText: string)
    requires ' ' !in Trim(priceText)
    ensures ParseRow(RawRow(title, priceText)) == None
  {
    SplitNoSpace(Trim(priceText));
  }

  /** Two spaces after the first token (as in `$  12`) make the second token empty: the row is dropped. */
  lemma RowWithEmptySecondToken(title: string, priceText: string, currency: string, rest: string)
    requires ' ' !in currency
    requires Trim(priceText) == currency + "  " + rest
    ensures ParseRow(RawRow(title, priceText)) == None
  {
    EmptySecondToken(currency, rest);
  }

  lemma EmptySecondToken(currency: string, rest: string)
    requires ' ' !in currency
    ensures var tokens := Split(currency + "  " + rest); |tokens| >= 2 && tokens[1] == []
  {
    SplitPrefix("", rest);
    assert "" + " " + rest == " " + rest;
    SplitPrefix(currency, " " + rest);
    assert currency + " " + (" " + rest) == currency + "  " + rest;
  }

  /** A price token starting with a digit (as `12,50`) is kept, verbatim. */
  lemma RowWithDigitPrice(title: string, priceText: string, currency: string, price: string, rest: string)
    requires ' ' !in currency && ' ' !in price && price != [] && IsDecimalDigit(price[0])
    requires rest == [] || rest[0] == ' '
    requires Trim(priceText) == currency + " " + price + rest
    ensures ParseRow(RawRow(title, priceText)) == Some(Order(Trim(title), price))
  {
    ParseRowLayout(title, priceText, currency, price, rest);
    FloatPrefixFromDigit(ReplaceFirst(price, ',', '.'));
  }

  /**
   * A price token starting with none of whitespace, a sign, a digit, a
   * point, a comma or `I` (as `abc`) drops the row.
   */
  lemma RowWithWordPrice(title: string, priceText: string, currency: string, price: string, rest: string)
    requires ' ' !in currency && ' ' !in price && price != []
    requires !(IsJsWhitespace(price[0]) || price[0] in "+-.,I" || IsDecimalDigit(price[0]))
    requires rest == [] || rest[0] == ' '
    requires Trim(priceText) == currency + " " + price + rest
    ensures ParseRow(RawRow(title, priceText)) == None
  {
    ParseRowLayout(title, priceText, currency, price, rest);
    NoFloatPrefix(ReplaceFirst(price, ',', '.'));
  }

  /** A comma used as the decimal mark in front of digits (as `,5`) is read as `.5`: the row is kept. */
  lemma RowWithLeadingComma(title: string, priceText: string, currency: string, digits: string)
    requires ' ' !in currency && digits != [] && IsDecimalDigit(digits[0]) && ' ' !in digits
    requires Trim(priceText) == currency + " " + ([','] + digits)
    ensures ParseRow(RawRow(title, priceText)) == Some(Order(Trim(title), [','] + digits))
  {
    var price := [','] + digits;
    assert ' ' !in price;
    ParseRowLayout(title, priceText, currency, price, []);
    assert currency + " " + price + [] == currency + " " + price;
    ReplaceFirstAt(price, ',', '.', 0);
    assert ReplaceFirst(price, ',', '.') == ['.'] + digits by {
      assert price[..0] == [] && price[1..] == digits;
    }
    FloatPrefixFromPoint(digits);
  }

  /**
   * `parseOrders`: one entry per matched row, in document order, each the
   * row's record or `null`. Each row is its own one-element list, flattened.
   */
  function ParseOrders(rows: seq<RawRow>): (r: seq<Option<Order>>)
    ensures |r| == |rows|
    ensures forall i :: 0 <= i < |rows| ==> r[i] == ParseRow(rows[i])
  {
    var entries := seq(|rows|, i requires 0 <= i < |rows| => ParseRow(rows[i]));
    FlattenSingletons(entries);
    Flatten(seq(|entries|, i requires 0 <= i < |entries| => [entries[i]]))
  }

  // ---------------------------------------------------------------------------
  // Pagination

  /** `startIndex` of the request for a page. */
  function StartIndex(pageIndex: nat): (r: nat)
    ensures r % ITEMS_PER_PAGE == 0 && r / ITEMS_PER_PAGE == pageIndex
  {
    pageIndex * ITEMS_PER_PAGE
  }

  /** `Array.from({ length: pageCount }).map((_, i) => i)`; a negative length is 0. */
  function PageIndexes(pageCount: int): (r: seq<nat>)
    ensures |r| == if pageCount > 0 then pageCount else 0
    ensures forall k :: 0 <= k < |r| ==> r[k] == k
  {
    seq(if pageCount > 0 then pageCount else 0, i => i)
  }

  /** The `startIndex` of every page requested, in page-index order. */
  function RequestedOffsets(pageCount: int): (r: seq<nat>)
    ensures |r| == if pageCount > 0 then pageCount else 0
    ensures r != [] ==> r[0] == 0
    ensures forall k :: 0 <= k < |r| - 1 ==> r[k + 1] == r[k] + ITEMS_PER_PAGE
  {
    var pages := PageIndexes(pageCount);
    seq(|pages|, k requires 0 <= k < |pages| => StartIndex(pages[k]))
  }

  /** Requested offsets are strictly increasing, hence distinct. */
  lemma OffsetsIncreasing(pageCount: int, i: nat, j: nat)
    requires i < j < |RequestedOffsets(pageCount)|
    ensures RequestedOffsets(pageCount)[i] + ITEMS_PER_PAGE * (j - i) == RequestedOffsets(pageCount)[j]
  {
    OffsetAt(pageCount, i);
    OffsetAt(pageCount, j);
  }

  /**
   * For a count of `items > 0` orders, the requested pages cover every
   * order position exactly once, and no page starts past the last order.
   */
  lemma OffsetsCoverItems(items: nat, pos: nat)
    requires 0 < items && pos < items
    ensures var offs := RequestedOffsets(PagesFor(items));
      && (forall k :: 0 <= k < |offs| ==> offs[k] < items)
      && (exists k :: 0 <= k < |offs| && offs[k] <= pos < offs[k] + ITEMS_PER_PAGE)
      && (forall k, l ::
            (0 <= k < |offs| && 0 <= l < |offs| && offs[k] <= pos < offs[k] + ITEMS_PER_PAGE
             && offs[l] <= pos < offs[l] + ITEMS_PER_PAGE) ==> k == l)
  {
    var offs := RequestedOffsets(PagesFor(items));
    forall k | 0 <= k < |offs| ensures offs[k] == ITEMS_PER_PAGE * k {
      OffsetAt(PagesFor(items), k);
    }
    var k := pos / ITEMS_PER_PAGE;
    assert offs[k] <= pos < offs[k] + ITEMS_PER_PAGE;
  }

  lemma OffsetAt(pageCount: int, k: nat)
    requires k < |RequestedOffsets(pageCount)|
    ensures RequestedOffsets(pageCount)[k] == ITEMS_PER_PAGE * k
  {
  }

  // ---------------------------------------------------------------------------
  // One filter

  /**
   * `fetchOrders(cookie)(filter)`: read the page count from the count text;
   * throw when it is falsy; otherwise parse the page at every requested
   * offset and concatenate the entries in page-index order.
   */
  function FetchOrders(countText: string, pageRows: nat -> seq<RawRow>): Result<seq<Option<Order>>, string>
  {
    var pc := ParsePageCount(countText);
    if IsFalsy(pc) then Failure(PAGE_COUNT_ERROR)
    else
      Success(Flatten(PageEntries(RequestedOffsets(pc.n), pageRows)))
  }

  /** `Promise.all` over the page requests: the entries of each page, in offset order. */
  function PageEntries(offsets: seq<nat>, pageRows: nat -> seq<RawRow>): (r: seq<seq<Option<Order>>>)
    ensures |r| == |offsets|
    ensures forall k :: 0 <= k < |offsets| ==> r[k] == ParseOrders(pageRows(offsets[k]))
  {
    seq(|offsets|, k requires 0 <= k < |offsets| => ParseOrders(pageRows(offsets[k])))
  }

  /** `fetchOrders` throws "Cannot fetch page count" exactly when the page count is `null`, NaN or 0. */
  lemma FetchOrdersFails(countText: string, pageRows: nat -> seq<RawRow>)
    ensures FetchOrders(countText, pageRows).Failure? <==> IsFalsy(ParsePageCount(countText))
    ensures FetchOrders(countText, pageRows).Failure? ==> FetchOrders(countText, pageRows).error == PAGE_COUNT_ERROR
  {
  }

  /** A count element with no text (missing from the page) aborts the filter. */
  lemma MissingCountFails(pageRows: nat -> seq<RawRow>)
    ensures FetchOrders("", pageRows) == Failure(PAGE_COUNT_ERROR)
  {
  }

  /** Rows on the pages before page `k`. */
  function RowsBefore(pageRows: nat -> seq<RawRow>, k: nat): nat
  {
    if k == 0 then 0 else RowsBefore(pageRows, k - 1) + |pageRows(StartIndex(k - 1))|
  }

  /**
   * Positional collection: the entry of row `j` on page `k` sits after the
   * rows of all earlier pages.
   */
  lemma FetchOrdersLayout(countText: string, pageRows: nat -> seq<RawRow>, n: nat, k: nat, j: nat)
    requires ParsePageCount(countText) == Pages(n)
    requires k < n && j < |pageRows(StartIndex(k))|
    ensures FetchOrders(countText, pageRows).Success?
    ensures RowsBefore(pageRows, k) + j < |FetchOrders(countText, pageRows).value|
      && FetchOrders(countText, pageRows).value[RowsBefore(pageRows, k) + j] == ParseRow(pageRows(StartIndex(k))[j])
  {
    assert FetchOrders(countText, pageRows) == Success(Flatten(PageEntries(RequestedOffsets(n), pageRows)));
    PagesLayout(n, pageRows, k, j);
  }

  /**
   * A filter whose page count is a non-zero number succeeds, and its result
   * holds exactly the rows of the requested pages: none for a negative count.
   */
  lemma FetchOrdersLength(countText: string, pageRows: nat -> seq<RawRow>, n: int)
    requires ParsePageCount(countText) == Pages(n) && n != 0
    ensures FetchOrders(countText, pageRows).Success?
    ensures |FetchOrders(countText, pageRows).value| == RowsBefore(pageRows, if n > 0 then n else 0)
  {
    var pages := PageEntries(RequestedOffsets(n), pageRows);
    assert FetchOrders(countText, pageRows) == Success(Flatten(pages));
    if n > 0 {
      PageSizes(n, pageRows);
      PagesLength(pageRows, pages, |pages|);
      assert pages[..|pages|] == pages;
    }
  }

  lemma PagesLayout(n: nat, pageRows: nat -> seq<RawRow>, k: nat, j: nat)
    requires k < n && j < |pageRows(StartIndex(k))|
    ensures var v := Flatten(PageEntries(RequestedOffsets(n), pageRows));
      && |v| == RowsBefore(pageRows, n)
      && RowsBefore(pageRows, k) + j < |v|
      && v[RowsBefore(pageRows, k) + j] == ParseRow(pageRows(StartIndex(k))[j])
  {
    var pages := PageEntries(RequestedOffsets(n), pageRows);
    PageSizes(n, pageRows);
    FlattenPages(pages, pageRows, k, j);
    PageEntryAt(n, pageRows, k, j);
  }

  /** Flattening pages whose sizes are those of the served pages. */
  lemma FlattenPages(pages: seq<seq<Option<Order>>>, pageRows: nat -> seq<RawRow>, k: nat, j: nat)
    requires forall i :: 0 <= i < |pages| ==> |pages[i]| == |pageRows(StartIndex(i))|
    requires k < |pages| && j < |pages[k]|
    ensures |Flatten(pages)| == RowsBefore(pageRows, |pages|)
    ensures RowsBefore(pageRows, k) + j < |Flatten(pages)| && Flatten(pages)[RowsBefore(pageRows, k) + j] == pages[k][j]
  {
    PagesLength(pageRows, pages, |pages|);
    assert pages[..|pages|] == pages;
    PagesLength(pageRows, pages, k);
    FlattenAt(pages, k, j);
  }

  lemma PageSizes(n: nat, pageRows: nat -> seq<RawRow>)
    ensures var pages := PageEntries(RequestedOffsets(n), pageRows);
      |pages| == n && forall i :: 0 <= i < |pages| ==> |pages[i]| == |pageRows(StartIndex(i))|
  {
    var pages := PageEntries(RequestedOffsets(n), pageRows);
    forall i | 0 <= i < |pages| ensures |pages[i]| == |pageRows(StartIndex(i))| {
      OffsetAt(n, i);
    }
  }

  lemma PageEntryAt(n: nat, pageRows: nat -> seq<RawRow>, k: nat, j: nat)
    requires k < n && j < |pageRows(StartIndex(k))|
    ensures var pages := PageEntries(RequestedOffsets(n), pageRows);
      j < |pages[k]| && pages[k][j] == ParseRow(pageRows(StartIndex(k))[j])
  {
    OffsetAt(n, k);
  }

  lemma {:induction false} PagesLength(pageRows: nat -> seq<RawRow>, pages: seq<seq<Option<Order>>>, k: nat)
    requires k <= |pages|
    requires forall i :: 0 <= i < |pages| ==> |pages[i]| == |pageRows(StartIndex(i))|
    ensures TotalLength(pages[..k]) == RowsBefore(pageRows, k)
  {
    if k > 0 {
      PagesLength(pageRows, pages, k - 1);
      assert pages[..k] == pages[..k - 1] + [pages[k - 1]];
      TotalLengthSnoc(pages[..k - 1], pages[k - 1]);
    }
  }

  /** Only the pages at the requested offsets matter: the server's other pages are never read. */
  lemma FetchOrdersReadsRequested(countText: string, f: nat -> seq<RawRow>, g: nat -> seq<RawRow>)
    requires var pc := ParsePageCount(countText);
      pc.Pages? ==> forall k :: 0 <= k < pc.n ==> f(StartIndex(k)) == g(StartIndex(k))
    ensures FetchOrders(countText, f) == FetchOrders(countText, g)
  {
    var pc := ParsePageCount(countText);
    if !IsFalsy(pc) {
      var offsets := RequestedOffsets(pc.n);
      assert PageEntries(offsets, f) == PageEntries(offsets, g);
    }
  }

  // ---------------------------------------------------------------------------
  // The whole run

  /** The outcome of `fetchOrders` for one filter, served by `rows`. */
  function FilterOutcome(filter: string, countText: string -> string, rows: (string, nat) -> seq<RawRow>)
    : Result<seq<Option<Order>>, string>
  {
    FetchOrders(countText(filter), (p: nat) => rows(filter, p))
  }

  /** `Promise.all(filters.map(fetchOrders(COOKIE)))`: one outcome per filter, in filter order. */
  function Outcomes(filters: seq<string>, countText: string -> string, rows: (string, nat) -> seq<RawRow>)
    : (r: seq<Result<seq<Option<Order>>, string>>)
    ensures |r| == |filters|
    ensures forall k :: 0 <= k < |filters| ==> r[k] == FilterOutcome(filters[k], countText, rows)
  {
    seq(|filters|, k requires 0 <= k < |filters| => FilterOutcome(filters[k], countText, rows))
  }

  /** The resolved values of outcomes that all succeeded. */
  function Values(outcomes: seq<Result<seq<Option<Order>>, string>>): (r: seq<seq<Option<Order>>>)
    requires forall k :: 0 <= k < |outcomes| ==> outcomes[k].Success?
    ensures |r| == |outcomes|
    ensures forall k :: 0 <= k < |outcomes| ==> r[k] == outcomes[k].value
  {
    seq(|outcomes|, k requires 0 <= k < |outcomes| => outcomes[k].value)
  }

  /**
   * `main` without the output files: every filter's outcome is collected in
   * filter order; if any filter throws the run fails with that error;
   * otherwise the entries are concatenated and the `null` ones dropped.
   */
  function Run(filters: seq<string>, countText: string -> string, rows: (string, nat) -> seq<RawRow>)
    : Result<seq<Order>, string>
  {
    var outcomes := Outcomes(filters, countText, rows);
    if exists k :: 0 <= k < |outcomes| && outcomes[k].Failure? then Failure(PAGE_COUNT_ERROR)
    else Success(Compact(Flatten(Values(outcomes))))
  }

  /**
   * The run fails, with "Cannot fetch page count", exactly when the page
   * count of some filter is `null`, NaN or 0; no partial result survives.
   */
  lemma RunFails(filters: seq<string>, countText: string -> string, rows: (string, nat) -> seq<RawRow>)
    ensures Run(filters, countText, rows).Failure? <==>
      exists k :: 0 <= k < |filters| && IsFalsy(ParsePageCount(countText(filters[k])))
    ensures Run(filters, countText, rows).Failure? ==> Run(filters, countText, rows).error == PAGE_COUNT_ERROR
  {
    var outcomes := Outcomes(filters, countText, rows);
    forall k | 0 <= k < |filters|
      ensures outcomes[k].Failure? <==> IsFalsy(ParsePageCount(countText(filters[k])))
    {
      FetchOrdersFails(countText(filters[k]), (p: nat) => rows(filters[k], p));
    }
  }

  /** Running two filter lists back to back gives the two results concatenated, in filter order. */
  lemma RunAppend(a: seq<string>, b: seq<string>, countText: string -> string, rows: (string, nat) -> seq<RawRow>)
    requires Run(a, countText, rows).Success? && Run(b, countText, rows).Success?
    ensures Run(a + b, countText, rows) == Success(Run(a, countText, rows).value + Run(b, countText, rows).value)
  {
    var oa, ob := Outcomes(a, countText, rows), Outcomes(b, countText, rows);
    OutcomesAppend(a, b, countText, rows);
    RunValue(a, countText, rows);
    RunValue(b, countText, rows);
    RunValue(a + b, countText, rows);
    var va, vb := Values(oa), Values(ob);
    ValuesAppend(oa, ob);
    FlattenAppend(va, vb);
    CompactAppend(Flatten(va), Flatten(vb));
  }

  lemma OutcomesAppend(a: seq<string>, b: seq<string>, countText: string -> string, rows: (string, nat) -> seq<RawRow>)
    ensures Outcomes(a + b, countText, rows) == Outcomes(a, countText, rows) + Outcomes(b, countText, rows)
  {
    var oa, ob := Outcomes(a, countText, rows), Outcomes(b, countText, rows);
    var oab := Outcomes(a + b, countText, rows);
    forall k | 0 <= k < |oab| ensures oab[k] == (oa + ob)[k] {
      if k < |a| { assert (a + b)[k] == a[k]; } else { assert (a + b)[k] == b[k - |a|]; }
    }
  }

  lemma ValuesAppend(x: seq<Result<seq<Option<Order>>, string>>, y: seq<Result<seq<Option<Order>>, string>>)
    requires forall k :: 0 <= k < |x| ==> x[k].Success?
    requires forall k :: 0 <= k < |y| ==> y[k].Success?
    ensures Values(x + y) == Values(x) + Values(y)
  {
  }

  lemma RunValue(filters: seq<string>, countText: string -> string, rows: (string, nat) -> seq<RawRow>)
    requires Run(filters, countText, rows).Success?
    ensures forall k :: 0 <= k < |filters| ==> Outcomes(filters, countText, rows)[k].Success?
    ensures Run(filters, countText, rows).value == Compact(Flatten(Values(Outcomes(filters, countText, rows))))
  {
  }

  /** A record is in a successful run's result exactly when some filter produced it. */
  lemma RunMembership(filters: seq<string>, countText: string -> string, rows: (string, nat) -> seq<RawRow>, o: Order)
    requires Run(filters, countText, rows).Success?
    ensures o in Run(filters, countText, rows).value <==>
      exists k :: 0 <= k < |filters| && Some(o) in FilterOutcome(filters[k], countText, rows).value
  {
    var values := Values(Outcomes(filters, countText, rows));
    CompactMembership(Flatten(values), o);
    FlattenMembership(values, Some(o));
  }

  /**
   * One filter reporting between 21 and 30 orders (say "25 orders") whose
   * three pages each hold a row with a valid price (such as `$ 12,99`) and a
   * row with no price token (such as `$`): the result is the valid record
   * three times.
   */
  lemma RunScenario(filter: string, countText: string -> string, rows: (string, nat) -> seq<RawRow>,
                    orders: nat, countRest: string, title: string, currency: string, price: string, bad: RawRow)
    requires 20 < orders <= 30 && (countRest == [] || !IsDecimalDigit(countRest[0]))
    requires countText(filter) == NatToDecimal(orders) + countRest
    requires forall p: nat :: rows(filter, p) == [RawRow(title, currency + " " + price), bad]
    requires ' ' !in currency && ' ' !in price && price != [] && IsDecimalDigit(price[0])
    requires Trim(currency + " " + price) == currency + " " + price
    requires ' ' !in Trim(bad.priceText)
    ensures var o := Order(Trim(title), price);
      Run([filter], countText, rows) == Success([o, o, o])
  {
    var o := Order(Trim(title), price);
    var entries := [Some(o), None];
    ScenarioOutcome(filter, countText, rows, orders, countRest, title, currency, price, bad);
    SingleFilterRun(filter, countText, rows, entries + entries + entries);
    CompactThree(o);
  }

  lemma ScenarioOutcome(filter: string, countText: string -> string, rows: (string, nat) -> seq<RawRow>,
                        orders: nat, countRest: string, title: string, currency: string, price: string, bad: RawRow)
    requires 20 < orders <= 30 && (countRest == [] || !IsDecimalDigit(countRest[0]))
    requires countText(filter) == NatToDecimal(orders) + countRest
    requires forall p: nat :: rows(filter, p) == [RawRow(title, currency + " " + price), bad]
    requires ' ' !in currency && ' ' !in price && price != [] && IsDecimalDigit(price[0])
    requires Trim(currency + " " + price) == currency + " " + price
    requires ' ' !in Trim(bad.priceText)
    ensures var entries := [Some(Order(Trim(title), price)), None];
      FilterOutcome(filter, countText, rows) == Success(entries + entries + entries)
  {
    var page := [RawRow(title, currency + " " + price), bad];
    var entries := [Some(Order(Trim(title), price)), None];
    ThreePages(orders, countRest);
    ScenarioPage(title, currency, price, bad);
    ThreePageFilter(filter, countText, rows, page, entries);
  }

  /** Between 21 and 30 orders make three pages. */
  lemma ThreePages(orders: nat, countRest: string)
    requires 20 < orders <= 30 && (countRest == [] || !IsDecimalDigit(countRest[0]))
    ensures ParsePageCount(NatToDecimal(orders) + countRest) == Pages(3)
  {
    NumeralPageCount(orders, countRest);
    assert PagesFor(orders) == 3;
  }

  lemma CompactThree(o: Order)
    ensures Compact([Some(o), None] + [Some(o), None] + [Some(o), None]) == [o, o, o]
  {
    var entries := [Some(o), None];
    CompactAppend(entries + entries, entries);
    CompactAppend(entries, entries);
    assert Compact(entries) == [o] by { assert entries[1..] == [None]; }
  }

  /** A filter whose count gives three pages, all serving the same rows. */
  lemma ThreePageFilter(filter: string, countText: string -> string, rows: (string, nat) -> seq<RawRow>,
                        page: seq<RawRow>, entries: seq<Option<Order>>)
    requires ParsePageCount(countText(filter)) == Pages(3)
    requires forall p: nat :: rows(filter, p) == page
    requires ParseOrders(page) == entries
    ensures FilterOutcome(filter, countText, rows) == Success(entries + entries + entries)
  {
    var filterRows: nat -> seq<RawRow> := (p: nat) => rows(filter, p);
    ConstantPages(filterRows, page, entries);
    FlattenThree(entries);
    assert FetchOrders(countText(filter), filterRows) == Success(entries + entries + entries);
  }

  lemma ConstantPages(f: nat -> seq<RawRow>, page: seq<RawRow>, entries: seq<Option<Order>>)
    requires forall p: nat :: f(p) == page
    requires ParseOrders(page) == entries
    ensures PageEntries(RequestedOffsets(3), f) == [entries, entries, entries]
  {
  }

  lemma FlattenThree<T>(s: seq<T>)
    ensures Flatten([s, s, s]) == s + s + s
  {
    assert [s, s, s][1..] == [s, s];
    assert [s, s][1..] == [s];
    assert Flatten([s]) == s + Flatten([]);
  }

  /** With one filter, the run is that filter's entries without the `null` ones. */
  lemma SingleFilterRun(filter: string, countText: string -> string, rows: (string, nat) -> seq<RawRow>,
                        all: seq<Option<Order>>)
    requires FilterOutcome(filter, countText, rows) == Success(all)
    ensures Run([filter], countText, rows) == Success(Compact(all))
  {
    var outcomes := Outcomes([filter], countText, rows);
    assert outcomes == [Success(all)];
    assert !exists k :: 0 <= k < |outcomes| && outcomes[k].Failure?;
    assert Run([filter], countText, rows) == Success(Compact(Flatten(Values(outcomes))));
    assert Values(outcomes) == [all];
    assert Flatten([all]) == all + Flatten([]);
    assert Flatten<Option<Order>>([]) == [];
    assert Flatten([all]) == all;
    assert Compact(Flatten(Values(outcomes))) == Compact(all);
  }

  lemma ParseOrdersPair(a: RawRow, b: RawRow)
    ensures ParseOrders([a, b]) == [ParseRow(a), ParseRow(b)]
  {
    var r := ParseOrders([a, b]);
    assert |r| == 2 && r[0] == ParseRow(a) && r[1] == ParseRow(b);
  }

  lemma ScenarioPage(title: string, currency: string, price: string, bad: RawRow)
    requires ' ' !in currency && ' ' !in price && price != [] && IsDecimalDigit(price[0])
    requires Trim(currency + " " + price) == currency + " " + price
    requires ' ' !in Trim(bad.priceText)
    ensures ParseOrders([RawRow(title, currency + " " + price), bad]) == [Some(Order(Trim(title), price)), None]
  {
    GoodRow(title, currency, price);
    BadRow(bad);
    ParseOrdersPair(RawRow(title, currency + " " + price), bad);
  }

  lemma GoodRow(title: string, currency: string, price: string)
    requires ' ' !in currency && ' ' !in price && price != [] && IsDecimalDigit(price[0])
    requires Trim(currency + " " + price) == currency + " " + price
    ensures ParseRow(RawRow(title, currency + " " + price)) == Some(Order(Trim(title), price))
  {
    assert currency + " " + price + [] == currency + " " + price;
    RowWithDigitPrice(title, currency + " " + price, currency, price, []);
  }

  lemma BadRow(bad: RawRow)
    requires ' ' !in Trim(bad.priceText)
    ensures ParseRow(bad) == None
  {
    RowWithoutSecondToken(bad.titleText, bad.priceText);
    assert bad == RawRow(bad.titleText, bad.priceText);
  }
}
