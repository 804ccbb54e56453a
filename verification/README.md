# Swedish nameday service — a Dafny model

The service holds a table from date keys (`"MM-DD"`) to the Swedish names
celebrated on that day. It answers queries about it over HTTP. The table is
built from the calendar tables of a Wikipedia page.

This project models two parts of the service:

- **The extractor.** The row loop of `parse_tables` turns the cell texts of
  the `wikitable` tables into that table:
  - it skips rows it cannot read;
  - it writes keys with `{:02d}`;
  - it stores nothing for holiday dates;
  - it removes parenthesised annotations on a few dates;
  - it splits the names cell on `" och "` and `,`.
- **The endpoints.** These are the handlers over the table in memory:
  - lookup by date, today or a given date;
  - case-insensitive lookup by name;
  - lookup by month;
  - the totals;
  - the API-key check;
  - the refresh, which replaces the table only when extraction produced
    something.

Modules:

- `Wrappers`: `Option`, `Result` and `Outcome`.
- `Text`: the Python string operations the code relies on:
  - `str.isspace` over Unicode whitespace;
  - `lower`;
  - `strip`;
  - `split(sep)` and `split()`;
  - `replace`.
- `Decimal`: Python's `int(token)` and the `{n:02d}` format.
- `Calendar`: date keys, month prefixes, and the Gregorian rule behind
  `datetime(2000, m, d)`.
- `Names`: the names cell becoming a list:
  - the regular expression `\s*\([^)]*\)` applied by `re.sub`;
  - the split on `" och "` and `,`;
  - stripping each piece and dropping the empty ones.
- `Extract`: `MONTH_MAP`, `EMPTY_DATES` and `DATES_WITH_JUNK`, one row, the
  fold over all rows, and the nested loops as written.
- `Service`: the HTTP handlers, as functions of the table and the request.
- `Scenarios`: concrete calendar rows and the entries stored for them.

Three behaviours of the code are worth stating up front:

- **A day token `int()` cannot read aborts the parse.**
  - The code calls `int(day)` outside any `try` (fetch.py:79). A row such as
    `"x januari"` therefore raises `ValueError`, which ends the whole parse.
  - `Extract.ParseTables` returns `Failure(InvalidDay(token))` for the first
    such row.
  - In `Service.Refresh` that failure becomes an internal server error, and
    the table in memory is kept.
- **The leap day is accepted.** main.py:102 calls 2000 "a non-leap year", but
  2000 is a leap year. So `datetime(2000, 2, 29)` succeeds and
  `/api/date/2/29` is answered. `Service.LeapDay` states this.
- **The day is not range-checked.** The day is never checked against the
  month, so `"40 Januari"` is stored under `"01-40"`
  (`Scenarios.DayNotRangeChecked`).

## Model

| member | source | states |
|---|---|---|
| Text.Lower | fetch.py:67 | lower-casing keeps the length, leaves no upper-case letter and changes only upper-case letters |
| Text.LowerConcat | fetch.py:67 | lower-casing works character by character over a concatenation |
| Text.LowerIdempotent | main.py:118-123 | lower-casing twice is lower-casing once, so a lower-cased query compares like the original |
| Text.Trim | fetch.py:97 | `strip` returns text that neither starts nor ends with whitespace and is no longer than its input |
| Text.TrimSlice | fetch.py:97 | the stripped text is the slice of the input that starts after the leading whitespace and is followed only by whitespace |
| Text.TrimExact | fetch.py:97 | whatever whitespace surrounds a stripped text, stripping gives exactly that text back |
| Text.TrimIdempotent | fetch.py:90 | stripping twice is stripping once |
| Text.Split | fetch.py:98 | splitting gives at least one piece; no piece holds the separator; every character of a piece comes from the input |
| Text.JoinSplit | fetch.py:98 | joining the pieces of a split with the separator restores the input |
| Text.SplitJoin | fetch.py:98 | splitting a join of separator-free pieces gives those pieces back, empty ones included |
| Text.SplitAppend | fetch.py:98 | a separator splits the text in two: the pieces before it, then the pieces after it |
| Text.SplitNone | fetch.py:98 | text without the separator splits into itself alone |
| Text.Replace | fetch.py:98 | replacing introduces no character that is in neither the input nor the replacement |
| Text.ReplaceCopies | fetch.py:98 | text that cannot start an occurrence of the pattern is copied unchanged |
| Text.ReplaceFront | fetch.py:98 | an occurrence at the front is replaced and the scan resumes after it |
| Text.ReplaceNone | fetch.py:98 | text in which the pattern does not occur is copied unchanged |
| Text.ReplaceBarrier | fetch.py:98 | no occurrence spans a character the pattern does not hold, so the text on either side of one is replaced separately |
| Text.Words | fetch.py:70 | `split()` yields only non-empty tokens free of whitespace |
| Text.WordsJoin | fetch.py:70-71 | single-space-joined words split back into exactly those words |
| Decimal.ParseInt | fetch.py:79 | `int` rejects empty or all-whitespace text; an accepted token, stripped, is an optional sign, then digits and underscores ending in a digit; a negative value comes only with a '-' |
| Decimal.Pad2 | main.py:82 | `{n:02d}` writes at least two characters: two digits for 0..99, digits for any non-negative number, a leading '-' for a negative one |
| Decimal.DecValue | fetch.py:79 | the decimal digits written for `n` spell `n` |
| Decimal.ParseUnsigned | fetch.py:79 | an unsigned digit string reads as the number it spells |
| Decimal.ParseMinus | fetch.py:79 | '-' followed by a digit string reads as the negated value |
| Decimal.LeadingZero | fetch.py:79 | `int("0" + d) == int(d)`: the day tokens "1" and "01" read alike |
| Decimal.ParsePad2 | fetch.py:79 | `int` reads back the number `{n:02d}` wrote, for every integer |
| Decimal.Pad2Injective | main.py:82 | two different numbers never format to the same text |
| Decimal.ParseIntRejects | fetch.py:79 | a token holding a character that is not whitespace, a digit, a sign or '_' makes `int` raise |
| Calendar.DateKey | main.py:82 | a key is five characters for two-digit parts, with '-' at index 2 and the formatted month before it |
| Calendar.DateKeyInjective | main.py:106 | two two-digit months with their days give the same key only when both parts are equal |
| Calendar.DateKeyPrefix | main.py:147 | a date's key starts with a month's prefix exactly when it is that month |
| Calendar.MonthPrefix | main.py:147 | the prefix of a month 0..99 is three characters ending in '-' |
| Calendar.MonthPrefixOf | main.py:147 | `startswith(f"{month:02d}-")` holds exactly when the key's first two characters are the month's digits and the third is '-' |
| Calendar.ValidDate | main.py:101-104 | an accepted date has a year 1..9999, a month 1..12 and a day 1..31; days 1..28 of every month of those years are accepted; 29 February only in a leap year |
| Calendar.DaysInMonth | main.py:102 | every month has 28 to 31 days, and 29 exactly for February of a leap year |
| Calendar.Year2000Covers | main.py:101-104 | every date of any year is a date of the year 2000 |
| Extract.MonthMapNumbers | fetch.py:14-27 | `MONTH_MAP` has exactly the twelve Swedish month names as keys, and maps the i-th to the two-digit number i |
| Extract.DateWords | fetch.py:67-70 | the lower-cased date cell splits into non-empty tokens free of whitespace |
| Extract.MonthNumber | fetch.py:75 | a month name's number is 1..12 and names that month |
| Extract.NamesFor | fetch.py:82-102 | an empty date gets no names; every name is non-empty, stripped and comma-free; on an annotated date no name has a parenthesised group left |
| Extract.ParseRow | fetch.py:62-102 | a row of fewer than two cells is skipped; an unreadable day is one `int` rejects; an entry's names keep every guarantee of `NamesFor`: none for an empty date, each non-empty, stripped and comma-free, none with a parenthesised group on an annotated date |
| Extract.SkipIff | fetch.py:64-77 | a row is skipped exactly when it has under two cells, or its date cell is not two tokens, or the second token is not a month name |
| Extract.EntryKey | fetch.py:74-79 | a stored row's key is the date key of the named month and the day `int` reads |
| Extract.ExtraCellsIgnored | fetch.py:67-68 | cells after the second never change the result |
| Extract.DateCellWords | fetch.py:67-74 | a date cell "<day> <Month>" gives the two lower-cased tokens |
| Extract.DateRow | fetch.py:67-102 | a row with a known month and a readable day is stored under that date's key with the names its cell gives |
| Extract.LeadingZeroDay | fetch.py:79 | the rows "01 <month>" and "1 <month>" give the same result |
| Extract.EmptyDatesFirst | fetch.py:82-87 | the empty dates and the annotated dates are disjoint, so an empty date always stores no names |
| Extract.Tail | fetch.py:60 | every row but the header is visited |
| Extract.Results | fetch.py:62-102 | the row step is applied to each row in visiting order, and each result keeps the row step's guarantees on its names |
| Extract.Accumulate | fetch.py:82-102 | storing entries one by one never removes a key |
| Extract.AccumulateWellFormed | fetch.py:82-102 | folding results that keep the row step's guarantees gives a table whose every list keeps them |
| Extract.AccumulateFails | fetch.py:79 | the fold fails exactly when a row has an unreadable day, and then with the first such token |
| Extract.ParseTables | fetch.py:53-104 | a successful parse yields a table where empty dates hold no names, every name is non-empty, stripped and comma-free, and no name on an annotated date holds a parenthesised group |
| Extract.ParseTablesFails | fetch.py:79 | the parse fails exactly when some visited row has an unreadable day; the error names the first such row's token |
| Extract.AccumulateLastWins | fetch.py:83-102 | after the fold a key holds the names of the last entry with that key; a key no entry has keeps what the table had |
| Extract.ParseTablesLastWins | fetch.py:83-102 | a key is present exactly when some row produced it, and it holds the names of the last such row |
| Extract.LastEntryNone | fetch.py:82-102 | no row result has a key exactly when the search for its last entry finds none |
| Extract.LastEntryWitness | fetch.py:82-102 | the list found for a key is carried by an entry with that key, after which no entry has it |
| Extract.ParseTablesSource | fetch.py:59-102 | every stored key and its list come from a visited row producing exactly that entry, and no later row produces that key |
| Extract.ParseTablesKeyShape | fetch.py:79 | every stored key is `f"{month:02d}-{day:02d}"` for a month 1..12 and some day |
| Extract.BodyAppend | fetch.py:59-62 | `Body`, the rows the loops visit, of two runs of tables is `Body` of the first run, then `Body` of the second |
| Extract.BodyOne | fetch.py:60 | `Body` of a single table is its rows after the header |
| Extract.HeaderIgnored | fetch.py:60 | the first row of any table, wherever it stands among the tables, never affects the result |
| Extract.AccumulateConcat | fetch.py:59-62 | folding two runs of rows is folding the first, then the second from where the first left off, unless the first failed |
| Extract.StoreRows | fetch.py:62-102 | the inner loop over one table's rows computes the fold |
| Extract.ExtractTables | fetch.py:55-104 | the nested loops over tables and rows compute `ParseTables` |
| Names.ParenMatch | fetch.py:90 | a match of `\s*\([^)]*\)` at the front has a positive length within the text |
| Names.ParenMatchIff | fetch.py:90 | the match at the front has length `n` exactly when the first `n` characters are whitespace, '(', characters other than ')', and ')' |
| Names.ParenMatchSound | fetch.py:90 | the text a match covers is such a parenthesised group |
| Names.ParenMatchComplete | fetch.py:90 | a prefix that is such a group is the match found |
| Names.StripParens | fetch.py:90 | `re.sub` with an empty replacement never lengthens the text and introduces no character |
| Names.StripParensClean | fetch.py:90 | after the substitution no '(' is followed later by a ')' |
| Names.StripParensNoPair | fetch.py:90 | text without a '('-then-')' pair is left as it is |
| Names.StripParensIdempotent | fetch.py:90 | substituting twice is substituting once |
| Names.StripParensCopies | fetch.py:90 | text without '(' that does not end in whitespace is copied, since no match can start inside it |
| Names.StripAnnotation | fetch.py:90 | "name (note)" becomes "name": the annotation and the space before it are removed |
| Names.Fragments | fetch.py:89 | the cell splits into at least one piece; no piece holds a comma; without '(' in the cell no piece has one |
| Names.CleanOne | fetch.py:90 | a cleaned piece is stripped, has no comma if the piece had none, and on the annotation path has no parenthesised group |
| Names.Clean | fetch.py:88-92 | the kept pieces are non-empty and stripped, no more numerous than the fragments, and free of groups on the annotation path |
| Names.CleanSingle | fetch.py:90-92 | one fragment keeps its cleaned form, or nothing when that is empty |
| Names.CleanAppend | fetch.py:88-92 | cleaning two runs of fragments gives the kept pieces of the first run, then those of the second: order and repeats are kept |
| Names.CleanMembers | fetch.py:91-92 | a text is kept exactly when it is the non-empty cleaned form of some fragment |
| Names.PlainNames | fetch.py:96-100 | the default path stores only non-empty, stripped, comma-free names |
| Names.AnnotatedNames | fetch.py:88-92 | the annotation path stores non-empty, stripped, comma-free names with no parenthesised group left |
| Names.FragmentsAppend | fetch.py:89 | a comma in the cell splits its fragments into those before it and those after it |
| Names.NamesAppend | fetch.py:88-100 | on both paths, a cell "a,b" stores the names of `a`, then the names of `b`, in order and with repeats |
| Names.PieceNames | fetch.py:88-100 | a part holding no comma and no " och " is one name, its stripped (and on the annotation path, de-annotated) text, or none when that is empty; it may hold several words |
| Names.AnnotatedWithoutParens | fetch.py:87-100 | without '(' in the cell, both paths store the same list |
| Names.AnnotatedSingle | fetch.py:88-92 | "Name (note)" yields just the name on the annotation path |
| Names.ReplaceInterleave | fetch.py:98 | in a list of single-word names, replacing " och " by "," turns each conjunction into a comma and changes nothing else |
| Names.SplitInterleave | fetch.py:98-99 | splitting a comma-separated list of names and stripping the pieces gives the names in order |
| Names.PlainNamesRoundTrip | fetch.py:96-100 | names written with any mix of ",", ", " and " och " come back exactly, in order |
| Names.AnnotatedNamesRoundTrip | fetch.py:88-92 | the annotation path gives the same names back when none is annotated |
| Scenarios.ConjunctionSplits | fetch.py:89-100 | "Erik och Erika" is two names on both paths |
| Scenarios.CommaSplits | fetch.py:96-100 | "Kristoffer, Christoffer" is two names |
| Scenarios.AnnotationRemoved | fetch.py:88-92 | "Mariana (Valborg)" stores "Mariana" |
| Scenarios.DateEntry | fetch.py:67-102 | "<day> <Month>" with a plain numeric day is stored under that month and day |
| Scenarios.ValborgRow | fetch.py:87-94 | the row for 30 April stores the annotated name without its annotation under "04-30" |
| Scenarios.NewYearRow | fetch.py:82-84 | the row for 1 January stores no names, whatever its cell says |
| Scenarios.OrdinaryRow | fetch.py:96-102 | an ordinary date stores its comma-separated names, stripped |
| Scenarios.DayNotRangeChecked | fetch.py:79 | "40 Januari" is stored under "01-40" |
| Scenarios.UnreadableDay | fetch.py:79 | the day token "x" is reported as unreadable, not skipped |
| Scenarios.SmallTable | fetch.py:59-104 | a table with a header, an annotated date, a one-cell row and an empty date yields exactly "04-30" with "Mariana" and "01-01" with no names |
| Service.GetToday | main.py:82-88 | the answer carries today's five-character key and, as `get(date_key, [])` gives them, that date's stored names or none, with their count |
| Service.GetDate | main.py:94-113 | 400 for a month outside 1..12, then for a day outside 1..31, then for a date 2000 does not have; otherwise the key, the names stored or none, and their count |
| Service.TodayAgreesWithDate | main.py:82-107 | every real date of any year is accepted by the date lookup and answered as today's lookup answers it |
| Service.LeapDay | main.py:101-104 | 02-29 is accepted; 02-30 and 04-31 are invalid dates; the month check comes before the day check |
| Service.SameName | main.py:118-123 | names equal ignoring case have the same length, and every name is equal to itself |
| Service.FirstMatch | main.py:122-128 | the position found holds the first name equal to the query ignoring case; none exactly when no name is |
| Service.Hit | main.py:122-128 | a date contributes one match, carrying the stored spelling of its first matching name, or nothing when no name matches |
| Service.Matches | main.py:121-128 | there are no more matches than dates, and each match is a listed date of the table with a name equal to the query ignoring case |
| Service.GetName | main.py:118-137 | failure is the 404 for the queried name; success carries the name and a positive count equal to the number of matches |
| Service.MatchesSound | main.py:121-127 | every reported match is a listed date of the table, with that date's first case-insensitive match |
| Service.MatchesComplete | main.py:121-128 | every date holding the name, ignoring case, is reported |
| Service.MatchesAppend | main.py:121 | the dates are searched in iteration order: searching two runs of dates is searching one after the other |
| Service.MatchesDistinct | main.py:121-128 | with each date listed once, no date is reported twice |
| Service.GetNameNotFound | main.py:130-131 | the 404 is raised exactly when no date holds the name, ignoring case |
| Service.GetMonth | main.py:142-154 | 400 exactly for a month outside 1..12; otherwise the entries, unchanged, whose key starts with the month's two digits and '-', and their number |
| Service.GetMonthDates | main.py:146-148 | a date's entry is listed for its own month and for no other |
| Service.GetMonthParsed | main.py:146-148 | on a parsed table, a month lists exactly the stored keys of that month's dates |
| Service.TotalRemove | main.py:162 | any date may be counted first in the total |
| Service.TotalUpdate | main.py:162 | storing a list under a date changes the total by the difference in length |
| Service.TotalZero | main.py:162 | the total is zero exactly when every stored list is empty |
| Service.TotalNames | main.py:162 | the loop over the dates sums the lengths of all stored lists |
| Service.GetAll | main.py:159-163 | the whole table is returned with its number of dates and names |
| Service.VerifyApiKey | main.py:50-54 | 500 when no key is configured or it is empty; 401 when the supplied key differs; passes exactly on a match with a configured key |
| Service.Refresh | main.py:169-189 | the key check comes first; a failed fetch or parse is a 500; an empty result is the "Failed to fetch" 500; only on success does the table become the parsed data, reported with its totals |

## Left out

- Fetching the page (`fetch_html`, fetch.py:40-50) is not modelled: it is network I/O. `Service.Refresh` receives its outcome as a parameter.
- HTML parsing with BeautifulSoup (fetch.py:54-57, 60, 63) is not modelled: `find_all` and `get_text(strip=True)` are library code. A table is the sequence of its rows, and a row is the sequence of its cells' stripped texts.
- fetch.py's `main` (writing the JSON file) is not modelled: it is file I/O.
- `load_namedays` and the KV / JSON-file writes in `refresh_namedays` (main.py:34-47, 177-182) are not modelled: they are storage I/O. The table is a value passed in and returned. The writes at main.py:178-182 are not inside a `try`, so a failed write makes `/api/refresh` answer 500 and keeps `NAMEDAYS` as it was. `Service.Refresh` does not model that failure: it reports success for any non-empty parsed data.
- The root endpoint (main.py:59-73) is left out: it returns a constant.
- FastAPI routing and request validation are not modelled. This includes the 422 for a path parameter that is not an integer, or a missing `x-api-key` header on `/api/refresh`. Handlers are modelled from the point their body runs.
- The clock is not modelled: `Service.GetToday` takes the year, month and day that `datetime.now()` would report.
- Concurrent requests and the global rebinding of `NAMEDAYS` are not modelled. `Service.Refresh` returns the next table instead.
- The JSON shape of responses is not modelled: each body is a datatype with the same fields.
- Text.Lower: models `str.lower` for ASCII and Latin-1 letters only. This covers every letter of the Swedish alphabet. Other Unicode case mappings are out of scope.
- Decimal.ParseInt: accepts ASCII digits only. Python's `int` also reads other Unicode decimal digits. Those are out of scope.
- Decimal.ParseInt: does not model the limit on the length of a decimal string that Python 3.11 and later apply. There, a token of more than 4300 digits makes `int` raise `ValueError`, so the parse fails, while the model reads the number and stores an entry.
- Decimal.ParseInt: strips the characters U+001C..U+001F, which `str.isspace` counts as whitespace but `int` does not skip. A day token never holds whitespace, because it comes from `split()`, so the row loop cannot see the difference.
- Service.Matches: its own contract bounds the number of matches and says each is a date of the table with a matching name. That the match is the date's first one, that no date is missed, the order and that no date repeats are stated by `Service.MatchesSound`, `Service.MatchesComplete`, `Service.MatchesAppend` and `Service.MatchesDistinct`.
- Service.GetName: the iteration order of the dictionary is an explicit parameter, a list naming each key once. Python's insertion order is not modelled beyond that.
- Extract.Accumulate: its own contract only says keys are never removed. Its content is stated by `Extract.AccumulateFails`, `Extract.AccumulateLastWins` and `Extract.AccumulateWellFormed`.
- Service.TotalNames: the total is specified by a ghost function over the table. The sum over dictionary values is modelled as a loop over the keys in any order.
