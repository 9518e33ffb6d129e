# A Dafny model of the INPRES earthquake spider

`inpres.py` is a Scrapy spider that harvests the earthquake catalogue of
Argentina's Instituto Nacional de Prevención Sísmica (INPRES). It runs in three
callbacks:

- `fill_form` chooses the date window from the output of earlier runs and
  submits the search form.
- `get_each_page` reads the pagination anchors of the first results page and
  requests the page of every anchor except the last one.
- `parse` walks the rows of a results page and turns each one into an
  `InpresItem`: identifier, timestamp, coordinates, a "felt" flag, depth,
  magnitude, intensity, province and detail URL.

This project models those three callbacks and the record they produce, as
functions over already-extracted page content. It proves what each callback
yields, including every way a row can make `parse` raise.

Modules:

- `Wrappers`: `Option` and `Result`.
- `Text`: Python's `str.split()`, `str.split(sep)`, `''.join` and `str.isspace`.
- `Coerce`: pydantic's coercion of a string to `int`, including the
  4300-character limit, the sign and underscores. It also models `int()`'s own
  stripping: Python's whitespace except the separators U+001C to U+001F, which
  `str.split()` treats as whitespace but `int()` does not strip.
- `Dates`: calendar dates, `strptime('%d/%m/%Y %H:%M:%S')` and
  `strftime('%d/%m/%Y')`.
- `Records`: `InpresItem` and one iteration of the row loop (`ParseRow`).
- `Pages`: the `parse` loop and `get_each_page`.
- `Planner`: `fill_form`.

Some consequences of the code as it is written:

- A depth cell written `33Km` (no space before the unit) is one token. `int()`
  refuses it, so validation of `profundidad` fails.
- A row that raises is not skipped. The exception leaves the `parse`
  generator, so the rest of that page is lost. Records yielded before it
  stand.
- The first results page yields no records at all (see Findings). An
  end-to-end run therefore produces only the records of the pages the
  follow-up requests fetch.
- An output file holding a header but no rows does not fall back to
  `29/07/1998`. `df.fecha.max()` is then `NaT`, and its `strftime` raises.
  Only a file with no content at all (`EmptyDataError`) gets the default.

## Model

| member | source | states |
|---|---|---|
| Text.ConcatWordsRemovesSpace | inpres.py:97 | `''.join(s.split())` deletes exactly the whitespace characters of `s`. |
| Text.Words | inpres.py:96-97 | Every token of `s.split()` is non-empty and free of whitespace. |
| Text.WordsAfterBlank | inpres.py:96-97 | Where `split()` cuts: after a blank run, a word ending at whitespace or at the end is the next token, and splitting goes on after it. Together with `WordsEmptyIffBlank`, this fixes every token. |
| Text.WordsEmptyIffBlank | inpres.py:96 | `s.split()` is empty exactly when `s` is blank. |
| Text.Concat | inpres.py:97 | `''.join` of whitespace-free tokens is free of whitespace. |
| Text.RemoveSpace | inpres.py:97 | Deleting the whitespace of `s` leaves no whitespace and does not lengthen `s`. |
| Text.FirstWord | inpres.py:96 | `s.split()[0]` exists exactly when `s` is not blank, and it is a non-empty token without whitespace. |
| Text.FirstWordAfterBlank | inpres.py:96 | For a cell with leading whitespace, such as " 33 Km", the first token is the word after that whitespace. |
| Text.FirstWordDecomposes | inpres.py:96 | Conversely, the first token is preceded only by whitespace and followed by whitespace or by the end of the cell. |
| Text.FirstWordOfWordThenSpace | inpres.py:96 | A token followed by whitespace, or by nothing, is the first token of the cell. |
| Text.WordSplitsToItself | inpres.py:97 | Re-splitting and re-joining a single token leaves it unchanged, so line 97 is idempotent after line 96. |
| Text.Split | inpres.py:99 | `str.split('/')`: at least one part, and no part holds the separator. There are two or more parts exactly when the separator occurs. |
| Text.JoinSplit | inpres.py:99 | Joining the parts of `href.split('/')` with '/' gives `href` back. |
| Text.SplitAtFirst | inpres.py:99 | Splitting at the first separator gives the text before it, then the split of the rest. |
| Coerce.ParseInt | inpres.py:14-19 | A coerced `int` comes from text of at most 4300 characters that is not blank. The values are given by `ParseLiteral`, `ParseLeadingZeros` and `ParseShowNat`. `ParseIntShape` gives the converse: every accepted text is `int()` whitespace, an optional sign, a literal, then `int()` whitespace. |
| Coerce.ParseIntShape | inpres.py:14-19 | Every text the coercion accepts is `int()` whitespace, an optional sign, an underscore-separated digit literal and `int()` whitespace, within 4300 characters. Its value is the literal's, negated after '-'. So a space after the sign, a doubled or edge underscore, and any other character are refused. |
| Coerce.StripShape | inpres.py:14-19 | The text around the stripped core is `int()` whitespace on both sides. |
| Coerce.ParseCoreShape | inpres.py:14-19 | A stripped text that `int()` accepts is an optional sign followed by a decimal literal. |
| Coerce.SpaceAfterSignRefused | inpres.py:14-19 | "- 5" is refused. |
| Coerce.DoubledUnderscoreRefused | inpres.py:14-19 | "1__2" is refused. |
| Coerce.EdgeUnderscoreRefused | inpres.py:14-19 | "_5" and "5_" are refused. |
| Coerce.StrippedAlready | inpres.py:14-19 | A text with no `int()` whitespace at either end is its own strip. |
| Coerce.ParseCore | inpres.py:14-19 | After stripping, an accepted text starts with a sign or a digit, never with whitespace. A leading '-' gives a value of at most zero; otherwise the value is not negative. |
| Coerce.Strip | inpres.py:14-19 | The strip inside `int()` keeps a contiguous slice of the text that neither starts nor ends with `int()` whitespace. |
| Coerce.StripAround | inpres.py:14-19 | The strip removes exactly the surrounding `int()` whitespace. |
| Coerce.ParseLiteral | inpres.py:14-19 | A literal with an optional sign and surrounding whitespace coerces to its value, negated after '-'. |
| Coerce.SignedLiteral | inpres.py:14-19 | An optional sign followed by a literal gives the literal's value, negated after '-'. |
| Coerce.ParseLeadingZeros | inpres.py:14 | Leading zeros do not change the value: "0482910" coerces to 482910. |
| Coerce.LiteralValueZeros | inpres.py:14 | A literal's value ignores leading zeros. |
| Coerce.SeparatorNotStripped | inpres.py:14 | U+001C is whitespace to `str.isspace()`, but "\x1c5" does not coerce. |
| Coerce.Zeros | inpres.py:14 | `k` zero digits. |
| Coerce.ParseShowNat | inpres.py:14-19 | Coercing the decimal rendering of `n` yields `n`. |
| Coerce.ForeignCharRejected | inpres.py:19 | A character that is not whitespace, a digit, a sign or '_' (such as a unit letter) makes coercion fail. |
| Coerce.ShowNat | inpres.py:99 | The usual decimal rendering of an identifier in a detail link: non-empty and all digits. `ParseShowNat` gives its inverse. |
| Dates.ParseTimestamp | inpres.py:90 | The timestamp `strptime` returns is always a real `datetime`: year 1..9999, a day within its month, second below 60. `TimestampOfFields` decides any text of the format field by field. `PaddedTimestampChecked`, `UnpaddedTimestampChecked`, `OutOfRangeRefused` and `SpaceDayAccepted` give acceptances and refusals for digit fields. `ParseTimestampFields`, with the shape stated by `DayField`, `NumberField` and `YearField`, gives the converse, so text with anything but digits in a field ("\n05", "03x", "202x") is refused. |
| Dates.PaddedTimestampChecked | inpres.py:90 | For any two-digit fields, a four-digit year and any non-empty whitespace gap before the clock, the parse succeeds exactly when they form a valid `datetime`, and yields it. A month of 13, a day of 32, an hour of 24 or a second of 60 is refused. |
| Dates.TimestampRoundTrip | inpres.py:90 | Parsing a formatted date and clock yields the original `datetime`. |
| Dates.FormatDateInjective | inpres.py:56 | Two dates with the same `%d/%m/%Y` text are the same date. |
| Dates.KeyOrdersDates | inpres.py:56 | A later `datetime` never falls on an earlier calendar day. |
| Dates.DateKeyInjective | inpres.py:56 | The chronological key of a valid date identifies it. |
| Dates.OutOfRangeRefused | inpres.py:90 | Month 13, day 32, hour 24 and minute 60 are refused, because no field pattern matches them. |
| Dates.TimestampOfFields | inpres.py:90 | For digit-only fields, a four-digit year and any non-empty whitespace gap (the format's space matches `\s+`), the parse is the `datetime` the six field patterns and the constructor give. |
| Dates.ClockAfterGap | inpres.py:90 | After the year, the gap is exactly the leading whitespace, and the clock splits into its three fields. |
| Dates.UnpaddedTimestampChecked | inpres.py:90 | The leading zero is optional. With the day, month, hour, minute and second written as `str(n)`, the parse still succeeds exactly on a valid `datetime`, and yields it. |
| Dates.NumberFieldShowNat | inpres.py:90 | A one- or two-digit `str(n)` matches a `%m`, `%H`, `%M` or `%S` pattern exactly when `n` is in the pattern's range. |
| Dates.DayFieldShowNat | inpres.py:90 | A one- or two-digit `str(n)` matches `%d` exactly when `n` is 1..31. |
| Dates.ParseTimestampFields | inpres.py:90 | Conversely, a parsed `datetime` is read from its text. The three '/'-parts give the day, the month and the year (its first four characters). After a gap of whitespace, the three ':'-parts give the clock. |
| Dates.NumberField | inpres.py:90 | A `%m`, `%H`, `%M` or `%S` field that matches is one or two digits, and its value is in the pattern's range. |
| Dates.DayField | inpres.py:90 | A `%d` field that matches is one or two digits, or a space and a digit 1..9, and its value is 1..31. |
| Dates.YearField | inpres.py:90 | A `%Y` field that matches is exactly four digits. |
| Dates.SpaceDayAccepted | inpres.py:90 | A space followed by a digit 1..9 is accepted as that day, as CPython's `%d` pattern allows. |
| Dates.NumberFieldPad2 | inpres.py:90 | A two-digit field matches a `%m`, `%H`, `%M` or `%S` pattern exactly when its value is in the pattern's range. |
| Dates.DayFieldPad2 | inpres.py:90 | A two-digit field matches `%d` exactly when its value is 1..31. |
| Dates.Pad2 | inpres.py:56 | `%d` and `%m` are two digits whose value is the field. |
| Dates.Pad4 | inpres.py:56 | `%Y` is four digits that read back as the year. |
| Dates.FormatDate | inpres.py:56-62 | `%d/%m/%Y` is ten characters: two digits, '/', two digits, '/', four digits. The day, month and year read back from their positions. |
| Records.Cells | inpres.py:88 | `tds[1:-1]` drops the first and last cell and keeps the others in order. |
| Records.JoinUrl | inpres.py:102 | The URL is `base_url`, a slash, then the link unchanged. |
| Records.DepthToken | inpres.py:96-97 | The depth text exists exactly when the cell is not blank, and it is the cell's first token. |
| Records.InvalidFields | inpres.py:99-102 | Validation fails, with a non-empty list of fields, exactly when `id` or the depth did not coerce. |
| Records.InvalidFieldsNames | inpres.py:99-102 | The validation error names `id` exactly when `id` failed, and `profundidad` exactly when the depth failed. It names nothing else and at most two fields, with `id` first when it failed. |
| Records.ParseRow | inpres.py:86-104 | One run of the loop body, with the first exception it raises. What it yields is stated by `ParseRowFields`. Each way it raises, in order, is stated by `ShortRowRaises`, `BadTimestampFirst`, `DepthBeforeLink`, `LinkBeforeCells`, `TruncatedRowRaises` and the `*Decides` lemmas. `ValidationDecides` covers an id segment and a depth token that both fail coercion. |
| Records.ParseLinked | inpres.py:91-102 | The loop body after the timestamp and depth token are read: the link, its id segment, cells 5 to 7 and the two coercions. The `Linked*` lemmas state it. |
| Records.ValidationDecides | inpres.py:99-102 | In an otherwise good row, the detail link and the depth cell decide validation together. When either coercion fails, the row raises one error naming every failed field, `id` then `profundidad`. Otherwise the record takes both values and the joined URL. |
| Records.LinkedValidation | inpres.py:99-102 | The same in the link stage: one error listing both coercions' failures, or a record with both new values. |
| Records.ShortRowRaises | inpres.py:88-90 | A row of fewer than four `td`s raises IndexError on `cells[0]` or `cells[1]`. |
| Records.BadTimestampFirst | inpres.py:90 | Any row whose date and clock cells `strptime` refuses raises ValueError, whatever its other cells and link. |
| Records.DepthBeforeLink | inpres.py:90-96 | After an accepted timestamp, a missing depth cell raises IndexError and a blank one raises IndexError from `split()[0]`, whatever the link. |
| Records.LinkBeforeCells | inpres.py:91-101 | After the depth token, no link raises AttributeError and a link without '/' raises IndexError, even in a short row. A short row with an id segment then raises IndexError at its first missing cell. |
| Records.ExtraCellIgnored | inpres.py:88 | A good row with one more `td` before its last yields the same record, since only cells 0 to 7 are read. |
| Records.CellsExtra | inpres.py:88 | `tds[1:-1]` of a row with a `td` inserted before the last is the old cells followed by that `td`. |
| Records.LinkedExtra | inpres.py:98-101 | The link stage reads cells up to index 7 only. |
| Records.ParseRowFields | inpres.py:86-104 | A record requires at least ten `td`s. Its timestamp parses from cells 0 and 1. Lat, lng, magnitude, intensity and province are their cells verbatim. `felt` is the red marker. The link exists and holds a '/', and the URL joins it to the base. A row with fewer than four `td`s raises an IndexError. |
| Records.FeltMarkerNeverRaises | inpres.py:92-94 | The red marker only sets `felt`. Flipping it never changes whether a row raises, nor any other field. |
| Records.LinkedFelt | inpres.py:92-102 | Once the timestamp and depth are read, the marker reaches the record's `felt` and nothing else. |
| Records.DisplayedRowParses | inpres.py:86-104 | A row printed from an event parses back to that event. The row must carry the date and clock formats, digits and a whitespace-led unit for depth, and the identifier as the second link segment. |
| Records.TimestampDecides | inpres.py:88-90 | In an otherwise good row, date and clock cells that `strptime` refuses raise a ValueError. Any others change only the record's timestamp. |
| Records.LinkedTimestamp | inpres.py:90-102 | Once the depth token is read, other date and clock cells change only the timestamp. |
| Records.TruncatedRowRaises | inpres.py:88-101 | A good row cut to fewer than ten `td`s, with its detail link kept in the new last `td`, raises an IndexError at the first index the shorter `cells` lacks. That is 0 or 1 for the timestamp, 4 for the depth, or 5 to 7 for magnitude, intensity and province. If the new last `td` holds no link, `LinkBeforeCells` gives the AttributeError instead. |
| Records.LinkedShort | inpres.py:98-101 | With an id segment but fewer than eight cells, building the item raises an IndexError at the first missing cell. |
| Records.DepthCellDecides | inpres.py:96-102 | In an otherwise good row, a blank depth cell raises an IndexError. Otherwise the first token becomes the depth, or fails validation of `profundidad`. |
| Records.LinkedDepth | inpres.py:96-102 | Once the timestamp is read, another depth token in an otherwise good row only changes the depth, or fails validation of `profundidad`. |
| Records.DepthTokenWithUnit | inpres.py:96-97 | "33 Km" and "33 \n Km" give the token "33". |
| Records.ThirtyThree | inpres.py:98-100 | The token "33" coerces to the integer 33. |
| Records.DepthTokenAfterBlank | inpres.py:96-97 | A depth cell with whitespace before the number and a whitespace-led unit after it yields the number's digits as its token. |
| Records.DepthTokenGluedUnit | inpres.py:96-97 | "33Km" is one token and is not an integer. |
| Records.DepthTokenBlank | inpres.py:96 | A blank depth cell has no token. |
| Records.DepthExamples | inpres.py:96-102 | In a good row, "33 Km" gives depth 33, "33Km" fails validation of `profundidad`, and a blank cell raises. |
| Records.LinkDecides | inpres.py:91-102 | In an otherwise good row: no anchor raises an AttributeError, and a link without '/' raises an IndexError. Otherwise the second segment becomes the identifier, or fails validation of `id`. |
| Records.LinkExampleSegment | inpres.py:99 | The second segment of "ver/482910/detalle" is "482910", worth 482910. |
| Records.DetailLinkExample | inpres.py:99-102 | The link "ver/482910/detalle" gives identifier 482910 and the URL base + "/ver/482910/detalle". |
| Records.ForeignCharInIdRejected | inpres.py:99-102 | In an otherwise good row, an identifier segment holding a character `int()` refuses fails validation of `id`. Such a character is U+001C, or a letter. |
| Records.SplitLink | inpres.py:99 | For a link of the form prefix/identifier[/rest], the first two segments are the prefix and the identifier. |
| Pages.DataRows | inpres.py:84 | `rows[1:]` skips the label row and keeps the rest in order. |
| Pages.Outcomes | inpres.py:86-104 | Each data row is parsed on its own. |
| Pages.Harvest | inpres.py:84-104 | The loop over a page's data rows. `TakeRecords` states its records and its stop, and `HarvestStopsAtFailure` states that rows after a failure are never read. |
| Pages.TakeRecords | inpres.py:86-104 | The yielded records are the leading good rows' records, in order. The walk either covers every row, or stops exactly at the first row that raised, with that row's error. |
| Pages.TakeRecordsDetermined | inpres.py:86-104 | Those facts determine the walk's outcome uniquely. |
| Pages.HarvestStopsAtFailure | inpres.py:86-104 | Rows after the first failing row never affect the outcome. |
| Pages.Walk | inpres.py:86-104 | The loop over the rows' outcomes collects the leading records and stops at the first error, as `TakeRecords` does. |
| Pages.Parse | inpres.py:83-104 | The row loop yields exactly what the walk over `rows[1:]` yields, and ends with the same error. |
| Pages.NavigationAnchors | inpres.py:70 | `[:-1]` drops the last pagination anchor and keeps the others in order. |
| Pages.Labelled | inpres.py:71-74 | The link list exists exactly when every anchor has a text node. Each label is that text without whitespace, and each `href` is carried unchanged. |
| Pages.PageLinks | inpres.py:70-74 | The link list exists exactly when every anchor except the last has text. Then it has one entry per such anchor, in order, with the label stripped of whitespace and the `href` unchanged. |
| Pages.FollowUrl | inpres.py:81 | The follow-up URL is `base_url`, a slash, then the `href`, or "None" when the anchor has no `href`. |
| Pages.Requests | inpres.py:80-81 | One request per link, in order, to base + "/" + href. |
| Pages.EachPage | inpres.py:69-81 | Only requests are yielded. If an anchor other than the last lacks text, the callback raises before any request. Otherwise it yields one request per anchor except the last, in order. |
| Pages.GetEachPage | inpres.py:69-81 | The callback with line 77 corrected yields exactly what `EachPageIntended` describes. That is the first page's records, then either the row error or the requests (see `IntendedEmitsFirstPage`). |
| Pages.YieldRequests | inpres.py:80-81 | The request loop yields `Requests(links)`: one request per link, in order. |
| Pages.YieldItems | inpres.py:77 | The corrected line 77, `yield from self.parse(response)`, re-yields the page's records: one item per record, in order. |
| Pages.EachPageIgnoresRows | inpres.py:77 | As written, the first page's rows do not affect the callback, and it yields no record. |
| Pages.Items | inpres.py:104 | One yielded item per record, in order. |
| Pages.EachPageIntended | inpres.py:69-81 | The corrected callback raises `NoAnchorText` exactly when the link list cannot be built, and then yields nothing. It completes exactly when the link list is built and no row of the page raised. |
| Pages.IntendedEmitsFirstPage | inpres.py:77 | With `yield from self.parse(response)`, the first page's records come first. The same requests follow when no row raised. A row that raised ends the callback at that row. |
| Pages.FirstPageLossWitness | inpres.py:77 | For a header and one good row, the callback as written yields nothing. The corrected one yields that row's record. |
| Pages.HarvestOneGoodRow | inpres.py:84-104 | A label row followed by one good row yields that row's record and no error. |
| Pages.OneGoodRow | inpres.py:77 | For a label row and one good row, and no further pages, the callback as written yields nothing. The corrected one yields the record. |
| Planner.Latest | inpres.py:56 | `df.fecha.max()` is one of the timestamps and is not earlier than any of them. |
| Planner.DateFrom | inpres.py:54-58 | `fill_form` raises `FileNotFoundError` exactly when the file is missing. It raises on the column's `NaT` maximum exactly when the table has no rows. Otherwise, `date_from` is a `DD/MM/YYYY` text. |
| Planner.FormData | inpres.py:53-64 | The form has exactly the keys `datepicker`, `datepicker2` and `tilde1`. They hold `date_from`, today as `%d/%m/%Y`, and "checkbox". `fill_form` raises exactly when computing `date_from` raises. |
| Planner.EpochDefault | inpres.py:57-58 | An output file without content starts the window on "29/07/1998". |
| Planner.DateFromLatestDay | inpres.py:55-56 | With earlier records, `date_from` is the day of one of them, and no earlier record falls on a later day. |
| Planner.LatestMonotone | inpres.py:56 | Adding records never makes the maximum earlier. |
| Planner.DateFromMonotone | inpres.py:55-56 | Adding records never moves the window's first day back. |

## Left out

- HTML, XPath and Scrapy are not modelled. A page arrives already extracted:
  - each row as its cells' string values, the detail-link `href` and the red-marker flag;
  - each pagination anchor as its text node and `href`.
- Request scheduling, concurrency and the order in which follow-up pages
  arrive belong to Scrapy. Each page is modelled on its own.
- `start_requests` and `FormRequest.from_response` only issue requests; the
  model stops at the form data.
- Records.ParseRow: `lat`, `lng` and `magnitud` are kept as text because float
  coercion is not modelled. Text that pydantic would refuse as a float is
  accepted here. Validation errors therefore only ever name `id` and
  `profundidad`.
- Coerce.ParseInt: only ASCII digits are accepted. Python's `int()` also
  accepts other Unicode decimal digits.
- Dates.ParseTimestamp: in CPython's `%d`, `%Y`, `%H`, `%M` and `%S`
  patterns, `\d` also matches non-ASCII decimal digits. The model accepts
  ASCII digits only.
- Dates.Pad4: years below 1000 are printed with four digits. How `%Y` pads such
  years depends on the platform's C library.
- Planner.FormData: `datetime.now()` is the parameter `now`. The CSV file is the
  parameter `prior`, holding what `pd.read_csv` would find.
- Pipelines and `custom_settings` (CSV sorting, data package, InfluxDB) are
  configuration of code outside this model.
- Coerce.ParseInt follows pydantic v1's integer validator. This is a
  modelling choice: pydantic v2 still accepts `.dict()` and `Field(unit=...)`,
  and its string-to-int rules are not modelled.

## Findings

| source | as written | input that shows it | evidently intended | confidence | as-written member | corrected member |
|---|---|---|---|---|---|---|
| inpres.py:77 | `self.parse(response)` creates a generator and discards it, so no row of the first results page is ever parsed or yielded | a first page with a label row and one well-formed data row: the callback yields no record | `yield from self.parse(response)`, so the first page's records are yielded before the follow-up requests | not executed | Pages.FirstPageLossWitness | Pages.IntendedEmitsFirstPage |
