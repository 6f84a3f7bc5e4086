# LiteraFlow book catalogue, modelled in Dafny

LiteraFlow is a small book-catalogue web service. Clients create book
records (optionally downloading the book file from a URL), list them with
filters, fetch one by id, download its file, and upload a spreadsheet of
denied titles and authors; every book whose name or author is on that list
is flagged `is_denied`, and a denied book can no longer be downloaded.

This project models the part of it that makes decisions:

- `Models` — the `books` table: the row, its column defaults, the unique
  `(name, author, date_published)` constraint, `to_dict`, and the table as a
  class `BookTable` whose `rows` the services change in place. `Valid()` is
  the sequence starting at 1 or later, the primary key, the unique triple,
  "every id came from the sequence", and "no stored text holds U+0000".
- `BookService` — `create_book` (destination path, download-failure mapping,
  insert with the duplicate check), `get_books`, `get_book_by_id`, and the
  three exception classes (the timeout error is a refinement of the download
  error).
- `DeniedList` — the bulk `UPDATE … SET is_denied = true WHERE name IN … OR
  author IN …`.
- `DeniedBooksParser` — reading the `name` and `author` sheets of an
  already-decoded workbook.
- `Dto` — the creation DTO (defaults and the required-field validator), the
  filter DTO and `filters_exist`, and `create_dto_safely`.
- `BooksApi` — the five HTTP handlers as decisions from their parsed input
  and the service's answer to a status and body.
- Helpers: `Wrappers` (Option, Result), `Json`, `Decimal` (digit strings),
  `Dates` (calendar dates and their ISO 8601 extended calendar-date form
  `YYYY-MM-DD`, ISO 8601:2004 section 4.1.2.2).

Parameters stand in for what the code gets from outside: the random uuid,
the configured books directory, the outcome of the network download, the
fields the validation library decoded, and the workbook the spreadsheet
reader decoded.

Behaviour reproduced as the code has it, where it differs from the
documented intent:

- A download that gets a non-200 response does not raise, so it is a
  `Downloaded` outcome and the row still records its `file_path`, although
  no file was written.
- Filters are "present" when not None, but each where-clause is added only
  for a truthy value: a filter given as `""` makes `filters_exist` true and
  constrains nothing.
- A required sheet with no columns at all (written from an empty frame)
  fails with the IndexError of `iloc[:, 0]`, so "both sheets empty" is a
  400, not an empty denial; a sheet with a header and no rows parses to an
  empty list.
- The handler for `ClientConnectorDNSError` in `_download_file` comes after
  the handler for its base class `aiohttp.ClientError`, so a DNS failure
  gets the client-error message (`BookService.DownloadError`).
- A duplicate insert still draws a value from the id sequence, as
  PostgreSQL's `nextval` does; ids stay unique and increasing.
- `create_dto_safely` names its DTO-class parameter `dto`, so a JSON body
  or a query string with a `dto` key raises a TypeError (500) before any
  validation, and nothing is inserted.
- The `id` column is a PostgreSQL `integer`: an all-digit id above
  2147483647 (or a download id outside the 32-bit range) is refused by the
  database driver, so the answer is 500, not 404.
- PostgreSQL `text` cannot hold U+0000, and the driver refuses such a
  value when it binds it, before the statement runs. A new book whose text
  holds it fails at commit with an error `create_book` does not catch (500,
  no id drawn). A truthy listing filter holding it makes the query raise
  (500). A denied name or author holding it makes the bulk update raise
  (500, no row changed).
- The bulk update binds one argument per denied name and author, plus the
  `is_denied` value. The driver (asyncpg) refuses a statement with more
  than 32767 arguments, so lists with more than 32766 values in all answer
  500 and change no row.
- `get_book` converts the digit string with `int()`, which by default
  refuses more than 4300 digits (leading zeros count), so such an id
  answers 500.
- The download URL's "extension" is the text after the last `.` of the URL
  path, or the whole path when it has none, so `/b/300929/epub` yields
  the destination `<dir>/<uuid>./b/300929/epub`.

## Model

| member | source | states |
|---|---|---|
| `Dates.IsoFormat` | literaflow/models/book.py:34 | `isoformat()` gives ten characters with hyphens at positions 4 and 7 |
| `Dates.ParseIsoFormat` | literaflow/models/book.py:34 | reading back the rendering of any date gives that date |
| `Dates.FormatParseIso` | literaflow/models/book.py:34 | every string that reads as a date is exactly that date's rendering |
| `Decimal.ValueOfPadded` | literaflow/api/v1/books.py:77 | `int()` of a zero-padded decimal rendering gives the number back |
| `Dto.CreateDtoSafely` | literaflow/core/dto.py:21-36 | exactly one of (dto, None) and (None, errors); one entry per error, copying loc, msg and type |
| `Dto.BookModel` | literaflow/core/dto.py:39-55 | accepted iff name, author and date decode, optional fields do not fail, name and author non-empty; defaults genre "", is_denied false, url None; a rejection carries at least one error |
| `Dto.FiltersModel` | literaflow/core/dto.py:58-63 | every filter optional; accepted iff no field fails to decode; absent fields are None |
| `Dto.FiltersExist` | literaflow/core/dto.py:65-72 | true iff at least one of name, author, date_published, genre is not None |
| `Dto.FiltersExistIffParameterGiven` | literaflow/core/dto.py:59-72 | for accepted query parameters whose decoded fields match the parameter names, filters exist iff one of name, author, date_published, genre was given |
| `Dto.AbsentRequiredKeysAreReported` | literaflow/core/dto.py:40-55 | a body lacking name, author or date_published is rejected, with a "missing" / "Field required" entry located at each absent key |
| `Models.NewRow` | literaflow/models/book.py:20-26 | an omitted genre is "", an omitted is_denied is false, file_path stays as given (may be null) |
| `Models.ToDict` | literaflow/models/book.py:28-38 | exactly the keys id, name, author, date_published, genre, is_denied, file_path; the date as its ISO string; a null path as JSON null |
| `Models.FromToDict` | literaflow/models/book.py:28-38 | `to_dict` loses nothing: its output reads back to the same row |
| `Models.BookTable.constructor` | literaflow/models/book.py:12-16 | an empty table satisfies the invariant: primary key, unique triple, ids from the sequence, no text holding U+0000 |
| `BookService.DownloadError` | literaflow/services/book.py:34-63 | no error iff the download completed; every failure is a download error; it is the timeout subclass iff the download timed out; DNS failures get the client-error message |
| `BookService.DnsMessageNeverRaised` | literaflow/services/book.py:45-58 | because the `ClientError` handler comes first, no outcome raises the DNS handler's message |
| `BookService.Split` | literaflow/services/book.py:28 | `split` yields at least one piece, none containing the separator; a single piece when the separator is absent |
| `BookService.JoinSplit` | literaflow/services/book.py:28 | joining the pieces of a split gives the string back |
| `BookService.ExtensionIsAfterLastDot` | literaflow/services/book.py:26-28 | the extension is a dot-free suffix of the path preceded by a dot, and the whole path iff it has no dot |
| `BookService.DestinationPath` | literaflow/services/book.py:20-32 | None iff there is no URL; otherwise books dir + "/" + uuid + "." + extension |
| `BookService.PendingRow` | literaflow/services/book.py:79-86 | the inserted row carries the DTO's name, author, date, genre and is_denied, the given id, and as file_path the destination path (null iff there is no URL) |
| `BookService.CreateBook` | literaflow/services/book.py:65-99 | a failed download returns its error and leaves the table alone; a row holding U+0000 returns the uncaught database error and leaves rows and sequence alone; a duplicate triple returns AlreadyExists, draws an id and adds no row; otherwise exactly the new row is appended; the invariant is kept |
| `BookService.CreateTwice` | literaflow/services/book.py:88-96 | on any table not yet holding the book, for text the database can hold, creating it twice gives one success, one AlreadyExists, exactly one new row, and two ids drawn from the sequence |
| `BookService.Where` | literaflow/services/book.py:113-125 | a row is selected iff it is stored and equals every truthy filter (and the date when given), and as many times as it is stored |
| `BookService.GetBooks` | literaflow/services/book.py:101-125 | with no filter set every stored row is returned; with filters, a truthy filter value holding U+0000 fails; otherwise exactly the matching rows, each as often as stored |
| `BookService.FalsyFiltersSelectAll` | literaflow/services/book.py:113-122 | filters that exist but are all empty strings select every row |
| `BookService.EmptyStringFiltersListEverything` | literaflow/services/book.py:101-125 | `get_books` with filters that exist but are all empty strings succeeds with every stored row |
| `BookService.FindById` | literaflow/services/book.py:127-134 | a found row is stored and has the id; None iff no row has it |
| `BookService.GetBookById` | literaflow/services/book.py:127-134 | fails, with the int4 error, iff the id is outside the range of the `id` column (literaflow/models/annotations.py:7); otherwise the row with that id, or None iff no row has it; reads the table only |
| `BookService.GetBookByIdFindsTheRow` | literaflow/services/book.py:127-134 | with unique ids the lookup returns the one row holding the id |
| `BookService.FindByIdUnique` | literaflow/services/book.py:127-134 | with unique ids the lookup of every stored row's id returns that row |
| `DeniedBooksParser.DropMissing` | literaflow/utils/denied_books_parser.py:25-29 | no longer than the column; a value is kept iff it is a present cell |
| `DeniedBooksParser.DropMissingAppend` | literaflow/utils/denied_books_parser.py:25-29 | dropping distributes over concatenation, so kept cells keep their order |
| `DeniedBooksParser.DropMissingAllPresent` | literaflow/utils/denied_books_parser.py:25-29 | a column with no missing cell is kept whole, in order |
| `DeniedBooksParser.FirstColumnValues` | literaflow/utils/denied_books_parser.py:25-26 | fails iff the sheet has no column; otherwise the present cells of the first column only |
| `DeniedBooksParser.ParseDeniedBooks` | literaflow/utils/denied_books_parser.py:14-31 | unreadable or missing sheet is a read failure; success iff both sheets exist with a column; names and authors from the first columns |
| `DeniedBooksParser.HeaderOnlySheetsParseEmpty` | literaflow/utils/denied_books_parser.py:25-31 | header-only sheets parse to two empty lists |
| `DeniedBooksParser.ColumnlessSheetFails` | literaflow/utils/denied_books_parser.py:25-26 | a required sheet without columns fails whatever the other holds |
| `DeniedList.DenyAllAt` | literaflow/services/denied_list.py:15-24 | same number of rows; targeted rows denied, others keep their flag, no flag cleared, every other column unchanged |
| `DeniedList.DenyAllIdempotent` | literaflow/services/denied_list.py:15-26 | applying the same lists twice equals applying them once |
| `DeniedList.DenyNothing` | literaflow/services/denied_list.py:19-20 | empty name and author lists leave the table unchanged |
| `DeniedList.DenyAllKeepsKeys` | literaflow/services/denied_list.py:23 | each row keeps every column but is_denied, so ids, the unique triple and U+0000-free text are preserved |
| `DeniedList.UpdateDeniedBooks` | literaflow/services/denied_list.py:11-26 | fails and changes nothing iff the statement would bind more than 32767 arguments or a listed name or author holds U+0000; otherwise the rows become the row-by-row denial of the old rows; nothing else changes; the invariant is kept |
| `BooksApi.ErrorDictJson` | literaflow/api/v1/books.py:30-33 | an error entry serialises to an object with exactly loc, msg and type, carrying the entry's values |
| `BooksApi.ValidationFailure` | literaflow/api/v1/books.py:30-33 | a 400 whose JSON body has only the key "errors": an array with one serialised entry per error, in order |
| `BooksApi.CreateBookResponse` | literaflow/api/v1/books.py:37-52 | any download error (timeout included) is 500 with its JSON error, AlreadyExists is 409, the uncaught database error is the framework's 500, success is 201 with the row's `to_dict` |
| `BooksApi.TimeoutIsDownloadFailure` | literaflow/api/v1/books.py:39-43 | a timed-out download is answered 500 like the other download failures |
| `BooksApi.CreateBookEndpoint` | literaflow/api/v1/books.py:16-52 | missing or invalid body is 400, a non-object or a `dto` key 500; validation errors are 400; in all these, on a failed download and on text holding U+0000 (500) the rows and the id sequence are untouched; 409 draws an id and adds no row; 201 draws an id and appends exactly the new row |
| `BooksApi.ToDicts` | literaflow/api/v1/books.py:70 | the listing is each row's `to_dict`, in order |
| `BooksApi.GetBooksEndpoint` | literaflow/api/v1/books.py:55-70 | a `dto` parameter gives 500; filter errors give 400 with the error list; a query the database refuses gives 500; otherwise 200 with the selected rows |
| `BooksApi.ListingWithoutFilterParametersIsEverything` | literaflow/api/v1/books.py:55-70 | a query naming none of the four filters, and no `dto`, lists every stored book |
| `BooksApi.NulInNameFilterIsServerError` | literaflow/api/v1/books.py:55-70 | `?name=a%00` is answered 500, since the database refuses the bound value |
| `BooksApi.GetBookEndpoint` | literaflow/api/v1/books.py:73-91 | 400 "Invalid book ID" iff the id is not all digits; 500 iff digits but longer than `int()`'s 4300-digit limit or above the int4 maximum; 404 "Book not found" iff convertible, in range and no row; 200 with the row otherwise |
| `BooksApi.NonDigitIdsAreRejected` | literaflow/api/v1/books.py:76-82 | "-1" and "abc" are rejected with 400 |
| `BooksApi.GetBookFindsStoredRow` | literaflow/api/v1/books.py:76-91 | the decimal id of a stored row, zero-padded to at most 4300 digits, returns that row |
| `BooksApi.OverlongIdIsServerError` | literaflow/api/v1/books.py:76-77 | any id zero-padded past 4300 digits is answered 500 |
| `BooksApi.DownloadBookResponse` | literaflow/api/v1/books.py:99-113 | 403 iff the row exists and is denied, whatever its file; 404 when missing or without a non-empty file_path; the file is served iff found, not denied and with a path |
| `BooksApi.DownloadBookEndpoint` | literaflow/api/v1/books.py:94-113 | 500 iff the id is outside the int4 range; 404 "Book not found" when no row has the id; otherwise the checks of `DownloadBookResponse` on the one row holding it |
| `BooksApi.DeniedRowIsForbidden` | literaflow/api/v1/books.py:104-108 | after a denial update that targets a row, `download_book` for its id gives 403 |
| `BooksApi.UploadDeniedBooksEndpoint` | literaflow/api/v1/books.py:116-140 | no part is 500; a first field not named `file` is 400; a parse failure is 400; lists the driver refuses (too many values, or U+0000) are 500; in all these the table is untouched; otherwise the denial update is applied and the answer is 200 |
| `BooksApi.UploadThenDownload` | literaflow/api/v1/books.py:94-140 | uploading a list the driver accepts that targets a stored book answers 200, and downloading that book afterwards answers 403 "Book is denied for download" |

## Left out

- The network download, the file write and the 120-second timeout (literaflow/utils/files.py): I/O; they enter only as a `DownloadOutcome`.
- The `mkdir` of the destination directory and the file left behind when a download succeeds but the insert fails (duplicate or U+0000): filesystem effects.
- The uuid generation and the books-directory setting: randomness and configuration; both are parameters.
- Field decoding by the validation library (string, date and URL parsing, coercion) and the `url` and `ctx` keys of its error entries: library internals; decoded fields enter as `Field` values.
- Spreadsheet decoding and the `astype(str)` rendering of non-string cells: library internals; cells enter as optional strings.
- Database timestamps `created_at` and `updated_at`: server-assigned, never exposed by `to_dict`.
- Concurrent requests and duplicate-insert races: resolved by the database's unique constraint, not by this code; the model is sequential.
- The text of the framework's responses for raised HTTP errors and unhandled exceptions: modelled as `ReasonBody` and `ServerErrorPage`.
- `download_book`'s unchecked `int()` on the path segment: a non-numeric id raises inside the framework; the model takes the parsed integer.
- `str.isdigit` on non-ASCII digit characters: `IsDigitString` accepts ASCII digits only.
- Repeated query parameters and multipart parts after the first: framework parsing.
- Logging of failures: no effect on results.
- Text with lone surrogates (a JSON `"\ud800"` decodes to one, and the driver cannot encode it): a Dafny `string` holds Unicode scalar values only, so such text cannot be expressed here.
- `web.FileResponse`: `FileBody(path)` means the path is handed to it; whether the file exists (it answers 404 for a missing file) and the streaming are not modelled.
- BookService.CreateBook: the id sequence is unbounded; exhausting the 32-bit sequence (an insert error once `nextval` passes 2147483647) is not modelled.
- BookService.GetBooks: states which rows are returned and how often, not their order, since the query has no ORDER BY (the model returns them in table order).
- DeniedList.UpdateDeniedBooks: computes the updated rows in one pass and replaces the rows at once, as the single atomic statement does, rather than writing row by row.
