/**
 * The book service (literaflow/services/book.py) and its exceptions
 * (literaflow/services/exceptions.py): destination paths for downloaded
 * files, the mapping of download failures to service errors, creation with
 * the unique-triple check, filtered listing and lookup by id.
 *
 * The download itself is network I/O; it enters as a `DownloadOutcome`.
 * The random uuid and the books directory enter as parameters.
 */
module BookService {
  import opened Wrappers
  import opened Dates
  import opened Dto
  import opened Models

  // ---------------------------------------------------------------- errors

  /**
   * The service's exceptions. `BookDownloadTimeoutError` is a subclass of
   * `BookDownloadError`, so both are one kind here, refined by `timeout`.
   * `DatabaseFailure` is a driver error that `create_book` does not catch
   * and lets propagate.
   */
  datatype ServiceError =
    | BookDownloadError(timeout: bool, message: string)
    | BookAlreadyExistsError(message: string)
    | DatabaseFailure(cause: DatabaseError)

  /** What `except BookDownloadError` catches: the timeout subclass included. */
  predicate IsBookDownloadError(e: ServiceError) {
    e.BookDownloadError?
  }

  /** What `except BookDownloadTimeoutError` catches. */
  predicate IsBookDownloadTimeoutError(e: ServiceError) {
    e.BookDownloadError? && e.timeout
  }

  /**
   * How the download ended. A response with a non-200 status does not raise,
   * so it is `Downloaded`. `DnsFailure` is aiohttp's
   * `ClientConnectorDNSError`, itself a subclass of `aiohttp.ClientError`.
   */
  datatype DownloadOutcome = Downloaded | TimedOut | ClientFailure | DnsFailure | OtherFailure

  const ClientErrorMessage := "Client error occurred while downloading the book"
  const DnsErrorMessage := "Failed to resolve the DNS for the download URL"
  const AlreadyExistsMessage := "The book already exists in the database."

  /**
   * `_download_file`'s handlers, tried in order. The DNS handler comes after
   * the `ClientError` handler, which already catches the DNS error, so it is
   * never reached and its message `DnsErrorMessage` is never raised.
   */
  function DownloadError(o: DownloadOutcome): (r: Option<ServiceError>)
    ensures r.None? <==> o == Downloaded
    ensures r.Some? ==> IsBookDownloadError(r.value)
    ensures r.Some? ==> (IsBookDownloadTimeoutError(r.value) <==> o == TimedOut)
    ensures o == DnsFailure ==> r == Some(BookDownloadError(false, ClientErrorMessage))
  {
    match o
    case Downloaded => None
    case TimedOut => Some(BookDownloadError(true, ""))
    case ClientFailure => Some(BookDownloadError(false, ClientErrorMessage))
    case DnsFailure => Some(BookDownloadError(false, ClientErrorMessage))
    case OtherFailure => Some(BookDownloadError(false, ""))
  }

  /** No download outcome raises the DNS handler's message. */
  lemma DnsMessageNeverRaised(o: DownloadOutcome)
    ensures DownloadError(o).Some? ==> DownloadError(o).value.message != DnsErrorMessage
  {
  }

  // ---------------------------------------------------- destination paths

  /** Python's `s.split(sep)`: the pieces between occurrences of `sep`, at least one. */
  function Split(s: string, sep: char): (parts: seq<string>)
    ensures |parts| >= 1
    ensures forall i :: 0 <= i < |parts| ==> sep !in parts[i]
    ensures sep !in s ==> parts == [s]
    ensures sep in s ==> |parts| > 1
  {
    if s == [] then [""]
    else
      var rest := Split(s[1..], sep);
      assert s == [s[0]] + s[1..];
      if s[0] == sep then [""] + rest
      else [[s[0]] + rest[0]] + rest[1..]
  }

  /** `sep.join(parts)`. */
  function Join(parts: seq<string>, sep: char): (s: string)
    requires |parts| >= 1
  {
    if |parts| == 1 then parts[0] else parts[0] + [sep] + Join(parts[1..], sep)
  }

  /** Splitting loses nothing: joining the pieces gives the string back. */
  lemma {:induction false} JoinSplit(s: string, sep: char)
    ensures Join(Split(s, sep), sep) == s
  {
    if s != [] {
      var rest := Split(s[1..], sep);
      JoinSplit(s[1..], sep);
      if s[0] != sep {
        var parts := Split(s, sep);
        assert parts[1..] == rest[1..];
        if |rest| > 1 {
          assert Join(rest, sep) == rest[0] + [sep] + Join(rest[1..], sep);
        }
      }
    }
  }

  /** `path.split(".")[-1]`. */
  function Extension(path: string): (ext: string) {
    var parts := Split(path, '.');
    parts[|parts| - 1]
  }

  /**
   * The extension is the text after the last '.' of the path, or the whole
   * path when it holds no '.'.
   */
  lemma {:induction false} ExtensionIsAfterLastDot(path: string)
    ensures var e := Extension(path);
      && '.' !in e
      && |e| <= |path| && path[|path| - |e|..] == e
      && (|e| == |path| <==> '.' !in path)
      && (|e| < |path| ==> path[|path| - |e| - 1] == '.')
  {
    if path != [] {
      var tail := path[1..];
      ExtensionIsAfterLastDot(tail);
      var rest := Split(tail, '.');
      var parts := Split(path, '.');
      if path[0] == '.' {
        assert parts[|parts| - 1] == rest[|rest| - 1];
      } else if |rest| > 1 {
        assert parts[|parts| - 1] == rest[|rest| - 1];
      } else {
        assert parts == [[path[0]] + rest[0]];
        assert path == [path[0]] + tail;
      }
    }
  }

  /**
   * `_generate_destination_path`: None without a URL, otherwise
   * `<books dir>/<uuid>.<extension of the URL path>`. The directory creation
   * it performs is not modelled.
   */
  function DestinationPath(url: Option<Url>, booksDir: string, uuid: string): (r: Option<string>)
    ensures r.None? <==> url.None?
    ensures r.Some? ==> r.value == booksDir + "/" + uuid + "." + Extension(url.value.path)
  {
    if url.None? then None
    else Some(booksDir + "/" + uuid + "." + Extension(url.value.path))
  }

  // -------------------------------------------------------------- creation

  /** The row `create_book` inserts for a DTO, given the id the sequence hands out. */
  function PendingRow(id: int, dto: Dto.Book, booksDir: string, uuid: string): (row: BookRow)
    ensures row.id == id && row.name == dto.name && row.author == dto.author
    ensures row.datePublished == dto.datePublished && row.genre == dto.genre && row.isDenied == dto.isDenied
    ensures row.filePath == DestinationPath(dto.url, booksDir, uuid)
    ensures row.filePath.None? <==> dto.url.None?
  {
    NewRow(id, dto.name, dto.author, dto.datePublished, Some(dto.genre), Some(dto.isDenied),
           DestinationPath(dto.url, booksDir, uuid))
  }

  /**
   * `create_book`: compute the destination, download when a URL is given
   * (a failure aborts before the insert), then insert. The insert draws an id
   * from the sequence whether or not the commit then fails on the unique
   * triple, as PostgreSQL's `nextval` does.
   */
  method CreateBook(table: BookTable, dto: Dto.Book, booksDir: string, uuid: string, download: DownloadOutcome)
    returns (result: Result<BookRow, ServiceError>)
    requires table.Valid()
    modifies table
    ensures table.Valid()
    ensures dto.url.Some? && download != Downloaded ==>
      && result == Failure(DownloadError(download).value)
      && table.rows == old(table.rows) && table.nextId == old(table.nextId)
    ensures (dto.url.None? || download == Downloaded) ==>
      var row := PendingRow(old(table.nextId), dto, booksDir, uuid);
      RowHoldsNul(row) ==>
        && result == Failure(DatabaseFailure(NulInText))
        && table.rows == old(table.rows) && table.nextId == old(table.nextId)
    ensures (dto.url.None? || download == Downloaded) ==>
      var row := PendingRow(old(table.nextId), dto, booksDir, uuid);
      !RowHoldsNul(row) ==>
      && table.nextId == old(table.nextId) + 1
      && (HasTripleOf(old(table.rows), row) ==>
            result == Failure(BookAlreadyExistsError(AlreadyExistsMessage)) && table.rows == old(table.rows))
      && (!HasTripleOf(old(table.rows), row) ==>
            result == Success(row) && table.rows == old(table.rows) + [row])
  {
    var destination := DestinationPath(dto.url, booksDir, uuid);
    if dto.url.Some? {
      var failure := DownloadError(download);
      if failure.Some? {
        return Failure(failure.value);
      }
    }
    var row := NewRow(table.nextId, dto.name, dto.author, dto.datePublished,
                      Some(dto.genre), Some(dto.isDenied), destination);
    assert row == PendingRow(table.nextId, dto, booksDir, uuid);
    if RowHoldsNul(row) {
      return Failure(DatabaseFailure(NulInText));
    }
    table.nextId := table.nextId + 1;
    if HasTripleOf(table.rows, row) {
      return Failure(BookAlreadyExistsError(AlreadyExistsMessage));
    }
    assert forall i :: 0 <= i < |table.rows| ==> table.rows[i].id < row.id;
    assert forall i :: 0 <= i < |table.rows| ==> !SameTriple(table.rows[i], row);
    table.rows := table.rows + [row];
    result := Success(row);
  }

  /**
   * Creating a book whose triple is not yet stored and whose text the
   * database can hold, then the same book again: the first call adds exactly
   * its row, the second conflicts and adds nothing.
   */
  method CreateTwice(table: BookTable, dto: Dto.Book, booksDir: string, uuid1: string, uuid2: string)
    returns (first: Result<BookRow, ServiceError>, second: Result<BookRow, ServiceError>)
    requires table.Valid()
    requires !HasTripleOf(table.rows, PendingRow(table.nextId, dto, booksDir, uuid1))
    requires !RowHoldsNul(PendingRow(table.nextId, dto, booksDir, uuid1))
    requires !RowHoldsNul(PendingRow(table.nextId + 1, dto, booksDir, uuid2))
    modifies table
    ensures first.Success? && second == Failure(BookAlreadyExistsError(AlreadyExistsMessage))
    ensures table.Valid() && table.rows == old(table.rows) + [first.value]
    ensures table.nextId == old(table.nextId) + 2
  {
    first := CreateBook(table, dto, booksDir, uuid1, Downloaded);
    assert table.rows[|table.rows| - 1] == first.value;
    assert SameTriple(table.rows[|table.rows| - 1], PendingRow(table.nextId, dto, booksDir, uuid2));
    second := CreateBook(table, dto, booksDir, uuid2, Downloaded);
  }

  // --------------------------------------------------------------- listing

  /** A filter value that the where-clauses act on: present and truthy. */
  predicate Truthy(s: Option<string>) {
    s.Some? && s.value != ""
  }

  /** The where-clauses `get_books` adds: one per truthy filter (a date is always truthy). */
  predicate Matches(row: BookRow, f: BookFilters) {
    && (Truthy(f.name) ==> row.name == f.name.value)
    && (Truthy(f.author) ==> row.author == f.author.value)
    && (f.datePublished.Some? ==> row.datePublished == f.datePublished.value)
    && (Truthy(f.genre) ==> row.genre == f.genre.value)
  }

  /**
   * The rows a query with those where-clauses selects, in table order: each
   * matching row as often as it is stored, no other row.
   */
  function Where(rows: seq<BookRow>, f: BookFilters): (r: seq<BookRow>)
    ensures |r| <= |rows|
    ensures forall row :: row in r <==> row in rows && Matches(row, f)
    ensures forall x :: multiset(r)[x] == if Matches(x, f) then multiset(rows)[x] else 0
  {
    if rows == [] then []
    else
      assert rows == [rows[0]] + rows[1..];
      if Matches(rows[0], f) then [rows[0]] + Where(rows[1..], f)
      else Where(rows[1..], f)
  }

  /** Whether a filter value bound into the query (a truthy string) holds U+0000. */
  predicate BoundFilterHoldsNul(f: BookFilters) {
    || (Truthy(f.name) && HoldsNul(f.name.value))
    || (Truthy(f.author) && HoldsNul(f.author.value))
    || (Truthy(f.genre) && HoldsNul(f.genre.value))
  }

  /**
   * `get_books`: every row when no filter exists, otherwise the rows matching
   * each truthy filter; a bound filter value holding U+0000 makes the query
   * raise.
   */
  function GetBooks(table: BookTable, f: BookFilters): (r: Result<seq<BookRow>, DatabaseError>)
    reads table
    ensures r.Failure? <==> FiltersExist(f) && BoundFilterHoldsNul(f)
    ensures r.Failure? ==> r.error == NulInText
    ensures !FiltersExist(f) ==> r == Success(table.rows)
    ensures r.Success? ==> forall row :: row in r.value <==> row in table.rows && Matches(row, f)
    ensures r.Success? ==> forall x :: multiset(r.value)[x] == if Matches(x, f) then multiset(table.rows)[x] else 0
  {
    if !FiltersExist(f) then Success(table.rows)
    else if BoundFilterHoldsNul(f) then Failure(NulInText)
    else Success(Where(table.rows, f))
  }

  /** Filters that exist but are all empty strings select every row, like no filters at all. */
  lemma {:induction false} FalsyFiltersSelectAll(rows: seq<BookRow>, f: BookFilters)
    requires !Truthy(f.name) && !Truthy(f.author) && f.datePublished.None? && !Truthy(f.genre)
    ensures Where(rows, f) == rows
  {
    if rows != [] {
      FalsyFiltersSelectAll(rows[1..], f);
      assert rows == [rows[0]] + rows[1..];
    }
  }

  /** The quirk at the service level: filters that are all empty strings list every stored row. */
  lemma EmptyStringFiltersListEverything(table: BookTable, f: BookFilters)
    requires !Truthy(f.name) && !Truthy(f.author) && f.datePublished.None? && !Truthy(f.genre)
    ensures GetBooks(table, f) == Success(table.rows)
  {
    FalsyFiltersSelectAll(table.rows, f);
  }

  // ---------------------------------------------------------------- lookup

  function FindById(rows: seq<BookRow>, id: int): (r: Option<BookRow>)
    ensures r.Some? ==> r.value in rows && r.value.id == id
    ensures r.None? <==> forall i :: 0 <= i < |rows| ==> rows[i].id != id
  {
    if rows == [] then None
    else if rows[0].id == id then Some(rows[0])
    else FindById(rows[1..], id)
  }

  /**
   * `get_book_by_id`: the row with that id, or None when there is none; an
   * id the `integer` column cannot hold raises in the driver.
   */
  function GetBookById(table: BookTable, id: int): (r: Result<Option<BookRow>, DatabaseError>)
    reads table
    ensures r.Failure? <==> !FitsInt4(id)
    ensures r.Failure? ==> r.error == IdOutOfInt4Range
    ensures r.Success? && r.value.Some? ==> r.value.value in table.rows && r.value.value.id == id
    ensures r.Success? ==> (r.value.None? <==> forall i :: 0 <= i < |table.rows| ==> table.rows[i].id != id)
  {
    if !FitsInt4(id) then Failure(IdOutOfInt4Range) else Success(FindById(table.rows, id))
  }

  /** With unique ids, the row found is the one row holding the id. */
  lemma GetBookByIdFindsTheRow(rows: seq<BookRow>, id: int, k: nat)
    requires UniqueIds(rows) && k < |rows| && rows[k].id == id
    ensures FindById(rows, id) == Some(rows[k])
  {
    var r := FindById(rows, id);
    var j :| 0 <= j < |rows| && rows[j] == r.value;
    assert j == k;
  }

  /** The same, for every row at once. */
  lemma FindByIdUnique(rows: seq<BookRow>, id: int)
    requires UniqueIds(rows)
    ensures forall k :: 0 <= k < |rows| && rows[k].id == id ==> FindById(rows, id) == Some(rows[k])
  {
    forall k | 0 <= k < |rows| && rows[k].id == id
      ensures FindById(rows, id) == Some(rows[k])
    {
      GetBookByIdFindsTheRow(rows, id, k);
    }
  }
}
