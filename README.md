# Book populator: the book-record pipeline, in Dafny

The program (tsundoku's "Book Populator") reads ISBNs typed at a prompt, looks
each up in its PostgreSQL `books` table, queries the Google Books volumes API,
asks the user to confirm, and inserts one row per accepted book. This project
models the decision logic of `main.go` between the typed line and the row
handed to the `insert` statement:

- **ISBN gate** (`BookPopulator.SanitizedIsbn`, `BookPopulator.FetchData`):
  the line is trimmed with Go's `strings.TrimSpace` (`GoStrings.TrimSpace`,
  Unicode white space as `unicode.IsSpace` defines it), and an ISBN whose
  UTF-8 byte length (`GoStrings.Utf8Len`, Go's `len`) is below 10 is refused.
- **Response gate**: a decoded response with `TotalItems < 1` is "no records"
  and `Items` is not read; otherwise `Items[0]` is read.
- **Date normalisation** (`Dates.GetParsedTime`): `time.Parse` with the
  layout `"2006-01-02"` (the full-date form of section 5.6 of RFC 3339),
  element by element as Go's parser does it; on failure the current time,
  which is a parameter.
- **Row construction** (`BookPopulator.SaveJson`): a loop over the
  identifiers keeps the last `ISBN_13` and the last `ISBN_10`; categories and
  authors are joined with `","`; the other fields are copied from `Items[0]`.
- **Reply rules** (`BookPopulator.ProcessLine`, `BookPopulator.FetchData`):
  a reply declines when `strings.ToLower` makes it exactly `"n"`.

Files: `gostrings.dfy` (the Go `strings`/`unicode` functions the pipeline
uses), `dates.dfy` (parsing and formatting of `YYYY-MM-DD`), `models.dfy`
(`models/book.go` and `models/BookData.go` as datatypes), `populator.dfy`
(`main.go`).

Some behaviours of the code are easy to mistake. The identifier scan keeps the
last matching entry, not the first. A reply declines only when it is exactly
`n` or `N`; a reply that merely starts with `n` does not. The code queries
Google Books only, with no second lookup service. It reads fixed fields of
the decoded response and accepts only the `YYYY-MM-DD` date layout. The row's
`Source` field is never set.

## Model

| member | source | states |
|---|---|---|
| `GoStrings.TrimLeft` | main.go:103 | the result is a suffix of the input, everything cut off is white space, and it does not start with white space |
| `GoStrings.TrimRight` | main.go:103 | the result is a prefix of the input, everything cut off is white space, and it does not end with white space |
| `GoStrings.TrimSpace` | main.go:102-104 | the result is no longer than the input and neither starts nor ends with white space |
| `GoStrings.TrimSpaceIsTrimmedSlice` | main.go:102-104 | TrimSpace returns a contiguous slice of its input with only white space outside it and none at its two ends |
| `GoStrings.TrimmedSliceIsUnique` | main.go:102-104 | any slice with only white space around it and none at its ends equals TrimSpace of the input (the slice is unique) |
| `GoStrings.TrimSpaceIdempotent` | main.go:102-104 | trimming twice equals trimming once |
| `BookPopulator.SanitizedIsbn` | main.go:102-104 | the sanitized ISBN is no longer than the line and neither starts nor ends with white space |
| `BookPopulator.SanitizedIsbnTrims` | main.go:102-104 | the sanitized ISBN is the input with leading and trailing white space removed and nothing else changed, and sanitizing it again changes nothing |
| `BookPopulator.SanitizedIsbnOfPadded` | main.go:102-104 | white space around an ISBN is cut off and the ISBN itself is kept whole |
| `GoStrings.Utf8Len` | main.go:136 | Go's `len` of a string lies between its rune count and four times it |
| `GoStrings.Utf8LenIsRuneCount` | main.go:136 | the byte length equals the rune count exactly when every rune is ASCII |
| `GoStrings.Utf8LenAppend` | main.go:136 | the byte length of a concatenation is the sum of the byte lengths |
| `BookPopulator.FetchData` | main.go:133-178 | each outcome by an if-and-only-if over the inputs: "invalid input" exactly when the sanitized ISBN has fewer than 10 bytes; otherwise "no records" exactly when `TotalItems < 1`; a panic exactly when `TotalItems >= 1` and `Items` is empty; otherwise declined (with the title of `Items[0]`) exactly on the reply "n"/"N" and saved on any other reply, the saved row being the one built from `Items[0]` |
| `BookPopulator.ShortIsbnIssuesNoRequest` | main.go:135-138 | a sanitized ISBN under 10 bytes gives the error whatever the response, the reply or the time: no request is needed |
| `BookPopulator.IsbnGateCountsBytes` | main.go:135-137 | an ISBN inside white space is refused exactly when its own UTF-8 byte length is below 10 (for ASCII text: fewer than 10 characters); the white space never counts |
| `BookPopulator.WideIsbnPasses` | main.go:135-137 | nine characters of which one takes two bytes make ten bytes and pass the gate |
| `BookPopulator.PlainIsbnPasses` | main.go:135-137 | an ASCII ISBN of at least 10 characters with no white space at its ends passes the gate unchanged |
| `BookPopulator.NoTotalItemsNeverReadsItems` | main.go:158-161 | with `TotalItems < 1` the outcome is "no records" whatever `Items` holds |
| `BookPopulator.SavedRowIgnoresLaterItems` | main.go:163-172 | responses that agree on `Items[0]` give the same outcome: later items are ignored |
| `BookPopulator.SingleVolumeScenario` | main.go:133-219 | an accepted one-volume response carrying the ISBN as `ISBN_13` and a valid date saves its title, that ISBN13, an empty ISBN10 and the date at midnight |
| `Dates.ParseFullDateSound` | main.go:181 | `time.Parse("2006-01-02", s)` succeeds only with a valid calendar date (month 1-12, day within the month, leap years included) whose canonical `YYYY-MM-DD` rendering is exactly `s` |
| `Dates.ParseFullDate` | main.go:181 | a successful `time.Parse("2006-01-02", s)` gives a valid date with a four-digit year, and `s` is ten characters with "-" at positions 4 and 7 |
| `Dates.LongYear` | main.go:27 | the year element of the layout succeeds if and only if the text starts with four digits, reads their value and leaves the rest |
| `Dates.ZeroPaddedNum` | main.go:27 | the month and day elements succeed if and only if the text starts with two digits, read their value and leave the rest |
| `Dates.Literal` | main.go:27 | a "-" of the layout succeeds if and only if the text starts with that character, and leaves the rest |
| `Dates.IsLeap` | main.go:181 | Gregorian leap years: a year divisible by 400 is leap, one divisible by 100 but not 400 is not, one divisible by 4 but not 100 is, and no other year is |
| `Dates.DaysIn` | main.go:181 | a month has 28 to 31 days, and 29 exactly for February of a leap year |
| `Dates.FormatDate` | main.go:27 | the rendering is ten characters: digits, with "-" at positions 4 and 7 |
| `Dates.ParseFormat` | main.go:27 | parsing the `YYYY-MM-DD` rendering of a valid date with a four-digit year gives that date back |
| `Dates.ParseFailsOnlyOnNonDates` | main.go:180-188 | parsing fails exactly on the strings that render no valid date |
| `Dates.GetParsedTime` | main.go:180-188 | getParsedTime is total: it returns the supplied current time, or midnight of a valid date whose rendering is the input |
| `Dates.GetParsedTimeOfDate` | main.go:180-188 | a valid `YYYY-MM-DD` string yields that date at midnight UTC |
| `Dates.GetParsedTimeFallback` | main.go:183-185 | every string that renders no valid date yields the supplied current time |
| `Dates.GetParsedTimeIdempotentOnDates` | main.go:180-188 | normalising the rendering of a normalised valid date gives the same timestamp, whatever the current time |
| `Dates.GetParsedTimeFallbackDropsClock` | main.go:183-185 | on the fallback path a second normalisation keeps only the date of the current time, at midnight |
| `BookPopulator.LastIdentifier` | main.go:194-205 | the kept identifier is "" or the identifier of an entry of that exact type |
| `BookPopulator.LastIdentifierIsLastMatch` | main.go:197-205 | when entry k is the last entry of a type, its identifier is the one kept |
| `BookPopulator.LastIdentifierNoMatch` | main.go:194-205 | with no entry of a type, its field stays "" |
| `BookPopulator.LastIdentifierIgnoresOtherKinds` | main.go:197-205 | removing every entry of other types leaves the kept identifier unchanged |
| `BookPopulator.BookDataOf` | main.go:207-219 | each ISBN column is "" or the identifier of an entry of exactly that type; the date is the current time or midnight of a valid date that renders as the volume's `publishedDate`; `Source` is "" |
| `BookPopulator.SaveJson` | main.go:190-219 | the row is built from `Items[0]` only: title, subtitle, description, publisher, thumbnail and self link verbatim, ISBN13/ISBN10 the last entry of each type, categories and authors joined with ",", the parsed date, and an empty `Source` |
| `GoStrings.Join` | main.go:215-216 | a non-empty list's join starts with its first element |
| `GoStrings.SplitJoin` | main.go:215-216 | splitting a comma-join on "," gives back a non-empty list none of whose elements holds a comma |
| `GoStrings.JoinSplit` | main.go:215-216 | joining the pieces of a split reproduces the string |
| `GoStrings.SplitPrefix` | main.go:215-216 | a comma-free piece comes off the front of a join intact |
| `GoStrings.Split` | main.go:215-216 | Split gives one more piece than there are separators (so never the empty list) |
| `GoStrings.JoinEmptyList` | main.go:215-216 | the empty list joins to "", which splits to `[""]`, not to the empty list |
| `BookPopulator.BookDataListsRecoverable` | main.go:215-216 | the stored Categories column splits back to its list whenever that list is non-empty and comma-free, and the same holds for Authors on its own |
| `GoStrings.ToLower` | main.go:84 | the result has the length of the input, maps each rune on its own, and holds no upper-case ASCII letter |
| `GoStrings.LowersToN` | main.go:84 | `strings.ToLower(s) == "n"` holds exactly for "n" and "N" |
| `BookPopulator.IsNo` | main.go:84 | a reply declines exactly when it is "n" or "N" |
| `BookPopulator.ProcessLine` | main.go:69-98 | a line is fetched exactly when no copy is stored or the reply to "Skip?" is "n"/"N", and is otherwise skipped with the stored title; a fetched line gets fetchData's outcome; no further line is read exactly when the line is "q" or fetchData panics on a response with `TotalItems >= 1` and no items |
| `BookPopulator.StoredBookRefetchedOnlyOnNo` | main.go:77-89 | a book already stored is fetched again exactly when the reply is "n" or "N", and otherwise skipped with its stored title |
| `BookPopulator.NewBookAlwaysFetched` | main.go:90-92 | a book not yet stored is always fetched and the stored-copy reply is not read |
| `BookPopulator.FetchedBookSavedUnlessNo` | main.go:171-175 | once the gates pass, the book is saved exactly when the reply is neither "n" nor "N", and is otherwise declined with its title |
| `BookPopulator.QuitLineSavesNothing` | main.go:94-97 | the line "q" ends the loop and, if fetched, is refused as too short |
| `BookPopulator.EmptyItemsPanics` | main.go:158-163 | a response with `TotalItems` 1 and no items reaches `Items[0]` on an empty list |
| `BookPopulator.GuardedFetchData` | main.go:158-163 | the corrected fetchData never panics, and says "no records" exactly when the ISBN passes and the response has `TotalItems < 1` or no items |
| `BookPopulator.GuardedFetchDataAgrees` | main.go:158-178 | wherever fetchData does not panic, the corrected version gives the same outcome |

## Left out

- Storage: the connection (`runApplication`), the lookup query of `checkBookIfExists` and the `insert` with its `Scan` are I/O through a driver that is not part of this model. The lookup's count and title are parameters of `ProcessLine`; a saved outcome carries the row that would be inserted, and whether the insert succeeds is not modelled.
- The lookup is made with the raw line, not the sanitized ISBN; the model passes its result in as given and does not relate it to the ISBN.
- The HTTP request, reading the body and `json.Unmarshal` are I/O: the decoded `Result` is a parameter. A decoding error is only printed by the program, so whatever was decoded is what the model receives; a body of JSON `null` (which would leave a nil pointer) is not modelled. The panics on transport errors are not modelled.
- `time.Now().UTC()` is the parameter `now`.
- `godotenv`, environment variables, the scanner, printing and logging in `main` are left out; replies are parameters.
- Response fields that never reach the row (`Kind`, `ID`, `Etag`, `SaleInfo`, `AccessInfo`, `SearchInfo`, `ReadingModes`, `PageCount`, `AverageRating`, the other unread `VolumeInfo` fields and `ImageLinks.SmallThumbnail`) are not in the datatypes.
- Strings are sequences of Unicode scalar values; a Go string holding invalid UTF-8 cannot be written down, so its byte length and trimming are not modelled.
- ToLower: maps only the ASCII letters A-Z; Go's Unicode case mapping of other letters is not modelled. No rune other than `N` lower-cases to `n`, so the "n" comparisons it is used for are exact.
- FormatDate: renders only years 0 to 9999, the range the layout prints with four digits; dates outside it are not formatted.
- Go's `int` is 64 bits wide; `TotalItems` is an unbounded integer, which changes nothing for the comparison with 1.

## Findings

| source | as written | input that shows it | evidently intended | confidence | as-written member | corrected member |
|---|---|---|---|---|---|---|
| main.go:158-163 | only `TotalItems < 1` is checked before `parsedData.Items[0]` is read | a response `{"totalItems": 1}` without an `items` list, for an ISBN of at least 10 bytes: `Items[0]` indexes an empty slice and the program panics | treat a response without items as "no records" | medium, not executed | `BookPopulator.EmptyItemsPanics` | `BookPopulator.GuardedFetchData` |

`BookPopulator.ProcessLine` keeps the as-written `FetchData`, so a loop turn
that panics ends the program. `GuardedFetchData` is the corrected gate. It is
proved never to panic, and to agree with `FetchData` on every input where
`FetchData` does not panic (`BookPopulator.GuardedFetchDataAgrees`).
