/**
 * The HTTP handlers (literaflow/api/v1/books.py): each one reduced to the
 * decision it makes from its parsed input and the service's answer. Request
 * parsing that the web framework does (reading the body, the multipart
 * stream) enters already done.
 */
module BooksApi {
  import opened Wrappers
  import opened Json
  import opened Decimal
  import opened Dto
  import opened Models
  import opened BookService
  import opened DeniedBooksParser
  import opened DeniedList

  /**
   * A response body: JSON, the framework's rendering of an HTTP error raised
   * with a reason, a file stream, or the framework's page for an unhandled
   * exception.
   */
  datatype Body = JsonBody(json: Json) | ReasonBody(reason: string) | FileBody(path: string) | ServerErrorPage

  datatype Response = Response(status: int, body: Body)

  /** A JSON object with one string member, such as `{"error": text}` or `{"message": text}`. */
  function SingleKeyBody(key: string, text: string): (b: Body)
    ensures b.JsonBody? && b.json.JObject? && b.json.fields.Keys == {key} && b.json.fields[key] == JStr(text)
  {
    JsonBody(JObject(map[key := JStr(text)]))
  }

  /** One error entry as the JSON object `{"loc": [...], "msg": ..., "type": ...}`. */
  function ErrorDictJson(e: ErrorDict): (j: Json)
    ensures j.JObject? && j.fields.Keys == {"loc", "msg", "type"}
    ensures j.fields["msg"] == JStr(e.msg) && j.fields["type"] == JStr(e.kind)
    ensures var loc := j.fields["loc"];
      loc.JArray? && |loc.items| == |e.loc| && forall i :: 0 <= i < |e.loc| ==> loc.items[i] == JStr(e.loc[i])
  {
    JObject(map[
      "loc" := JArray(seq(|e.loc|, i requires 0 <= i < |e.loc| => JStr(e.loc[i]))),
      "msg" := JStr(e.msg),
      "type" := JStr(e.kind)])
  }

  /** The 400 response carrying the validation error list. */
  function ValidationFailure(errors: seq<ErrorDict>): (r: Response)
    ensures r.status == 400 && r.body.JsonBody? && r.body.json.JObject?
    ensures r.body.json.fields.Keys == {"errors"}
    ensures var list := r.body.json.fields["errors"];
      && list.JArray? && |list.items| == |errors|
      && forall i :: 0 <= i < |errors| ==> list.items[i] == ErrorDictJson(errors[i])
  {
    Response(400, JsonBody(JObject(map["errors" := JArray(seq(|errors|, i requires 0 <= i < |errors| => ErrorDictJson(errors[i])))])))
  }

  function ToDicts(rows: seq<BookRow>): (js: seq<Json>)
    ensures |js| == |rows| && forall i :: 0 <= i < |rows| ==> js[i] == ToDict(rows[i])
  {
    seq(|rows|, i requires 0 <= i < |rows| => ToDict(rows[i]))
  }

  // ------------------------------------------------------ POST /v1/books

  /** The body of a creation request as the handler sees it after `request.json()`. */
  datatype CreateRequest =
    | NoBody
    | InvalidJson
    | NotAnObject                                               // valid JSON that `**body` cannot unpack
    | JsonObject(input: map<string, Json>, fields: BookFields)  // the object and its decoded fields

  /**
   * `create_dto_safely` takes the DTO class as its parameter `dto`, so a
   * request key `dto` unpacked into the same call collides with it and
   * raises a TypeError before any validation.
   */
  predicate ClashesWithDtoParameter(keys: set<string>) {
    "dto" in keys
  }

  /** The status the handler gives each outcome of the service's `create_book`. */
  function CreateBookResponse(result: Result<BookRow, ServiceError>): (r: Response)
    ensures result.Failure? && IsBookDownloadError(result.error) ==>
      r == Response(500, SingleKeyBody("error", "Failed to download book file"))
    ensures result.Failure? && result.error.BookAlreadyExistsError? ==>
      r == Response(409, SingleKeyBody("error", "Book already exists"))
    ensures result.Failure? && result.error.DatabaseFailure? ==> r == Response(500, ServerErrorPage)
    ensures result.Success? ==> r == Response(201, JsonBody(ToDict(result.value)))
  {
    match result
    case Failure(BookDownloadError(_, _)) => Response(500, SingleKeyBody("error", "Failed to download book file"))
    case Failure(BookAlreadyExistsError(_)) => Response(409, SingleKeyBody("error", "Book already exists"))
    case Failure(DatabaseFailure(_)) => Response(500, ServerErrorPage)
    case Success(book) => Response(201, JsonBody(ToDict(book)))
  }

  /** A timed-out download is reported like any other download failure. */
  lemma TimeoutIsDownloadFailure()
    ensures CreateBookResponse(Failure(DownloadError(TimedOut).value)).status == 500
  {
  }

  /**
   * `create_book` handler: body checks, DTO validation (the service is not
   * called on errors), then the service call and its status mapping. A row
   * whose text the database cannot hold makes the commit raise an error
   * nothing catches.
   */
  method CreateBookEndpoint(table: BookTable, request: CreateRequest, booksDir: string, uuid: string,
                            download: DownloadOutcome)
    returns (resp: Response)
    requires table.Valid()
    modifies table
    ensures table.Valid()
    ensures request.NoBody? ==> resp == Response(400, ReasonBody("No request body provided"))
    ensures request.InvalidJson? ==> resp == Response(400, ReasonBody("Invalid JSON body"))
    ensures request.NotAnObject? ==> resp == Response(500, ServerErrorPage)
    ensures request.JsonObject? && ClashesWithDtoParameter(request.input.Keys) ==>
      resp == Response(500, ServerErrorPage)
    ensures (!request.JsonObject? || ClashesWithDtoParameter(request.input.Keys)
             || BookModel(JObject(request.input), request.fields).Rejected?) ==>
      table.rows == old(table.rows) && table.nextId == old(table.nextId)
    ensures request.JsonObject? && !ClashesWithDtoParameter(request.input.Keys)
            && BookModel(JObject(request.input), request.fields).Rejected? ==>
      resp == ValidationFailure(CreateDtoSafely(BookModel(JObject(request.input), request.fields)).1.value)
    ensures request.JsonObject? && !ClashesWithDtoParameter(request.input.Keys)
            && BookModel(JObject(request.input), request.fields).Validated? ==>
      var dto := BookModel(JObject(request.input), request.fields).value;
      var row := PendingRow(old(table.nextId), dto, booksDir, uuid);
      if dto.url.Some? && download != Downloaded then
        && resp == Response(500, SingleKeyBody("error", "Failed to download book file"))
        && table.rows == old(table.rows) && table.nextId == old(table.nextId)
      else if RowHoldsNul(row) then
        && resp == Response(500, ServerErrorPage)
        && table.rows == old(table.rows) && table.nextId == old(table.nextId)
      else if HasTripleOf(old(table.rows), row) then
        && resp == Response(409, SingleKeyBody("error", "Book already exists"))
        && table.rows == old(table.rows) && table.nextId == old(table.nextId) + 1
      else
        && resp == Response(201, JsonBody(ToDict(row)))
        && table.rows == old(table.rows) + [row] && table.nextId == old(table.nextId) + 1
  {
    match request
    case NoBody => return Response(400, ReasonBody("No request body provided"));
    case InvalidJson => return Response(400, ReasonBody("Invalid JSON body"));
    case NotAnObject => return Response(500, ServerErrorPage);
    case JsonObject(input, fields) =>
      if ClashesWithDtoParameter(input.Keys) {
        return Response(500, ServerErrorPage);
      }
      var (bookDto, errors) := CreateDtoSafely(BookModel(JObject(input), fields));
      if errors.Some? && |errors.value| > 0 {
        return ValidationFailure(errors.value);
      }
      var result := CreateBook(table, bookDto.value, booksDir, uuid, download);
      resp := CreateBookResponse(result);
  }

  // ------------------------------------------------------- GET /v1/books

  /**
   * `get_books` handler: a `dto` parameter raises (500), filter errors give
   * 400, a query the database refuses raises (500), otherwise 200 with every
   * selected row's `to_dict`. `params` are the names of the query
   * parameters, `query` their decoded values.
   */
  function GetBooksEndpoint(table: BookTable, params: set<string>, query: FilterFields): (r: Response)
    reads table
    ensures ClashesWithDtoParameter(params) ==> r == Response(500, ServerErrorPage)
    ensures !ClashesWithDtoParameter(params) && FiltersModel(query).Rejected? ==>
      r == ValidationFailure(CreateDtoSafely(FiltersModel(query)).1.value)
    ensures !ClashesWithDtoParameter(params) && FiltersModel(query).Validated? ==>
      var books := GetBooks(table, FiltersModel(query).value);
      && (books.Failure? ==> r == Response(500, ServerErrorPage))
      && (books.Success? ==> r == Response(200, JsonBody(JArray(ToDicts(books.value)))))
  {
    if ClashesWithDtoParameter(params) then Response(500, ServerErrorPage) else
    var (filters, errors) := CreateDtoSafely(FiltersModel(query));
    if errors.Some? && |errors.value| > 0 then ValidationFailure(errors.value)
    else
      match GetBooks(table, filters.value)
      case Failure(_) => Response(500, ServerErrorPage)
      case Success(books) => Response(200, JsonBody(JArray(ToDicts(books))))
  }

  /**
   * A listing whose query names none of the four filters (other parameters
   * are ignored by the DTO) returns every stored book.
   */
  lemma ListingWithoutFilterParametersIsEverything(table: BookTable, params: set<string>, query: FilterFields)
    requires FilterFieldsFor(params, query) && !ClashesWithDtoParameter(params)
    requires "name" !in params && "author" !in params && "date_published" !in params && "genre" !in params
    ensures GetBooksEndpoint(table, params, query) == Response(200, JsonBody(JArray(ToDicts(table.rows))))
  {
  }

  /** A name filter holding U+0000 reaches the database, which refuses it. */
  lemma NulInNameFilterIsServerError(table: BookTable)
    ensures GetBooksEndpoint(table, {"name"}, FilterFields(Decoded("a\0"), Missing, Missing, Missing))
         == Response(500, ServerErrorPage)
  {
    assert HoldsNul("a\0") by { assert "a\0"[1] == '\0'; }
  }

  // -------------------------------------------------- GET /v1/books/{id}

  /** `str.isdigit` on an ASCII path segment: non-empty and digits only. */
  predicate IsDigitString(s: string) {
    |s| > 0 && AllDigits(s)
  }

  /**
   * Python's default limit on the digits `int()` converts from a string
   * (`sys.get_int_max_str_digits()`); a longer digit string, leading zeros
   * included, makes `int()` raise a ValueError.
   */
  const IntMaxStrDigits := 4300

  /** The digit strings `int()` converts. */
  predicate ConvertibleByInt(s: string) {
    IsDigitString(s) && |s| <= IntMaxStrDigits
  }

  /**
   * `get_book` handler: 400 unless the id is all digits, 500 when `int()`
   * refuses its length or the database refuses it as an int4, 404 without a
   * row, else 200 with the row.
   */
  function GetBookEndpoint(table: BookTable, rawId: string): (r: Response)
    reads table
    ensures r.status == 400 <==> !IsDigitString(rawId)
    ensures r.status == 400 ==> r.body == SingleKeyBody("error", "Invalid book ID")
    ensures r.status == 500 <==> IsDigitString(rawId) && (|rawId| > IntMaxStrDigits || Value(rawId) > Int4Max)
    ensures r.status == 500 ==> r.body == ServerErrorPage
    ensures r.status == 404 <==> ConvertibleByInt(rawId) && GetBookById(table, Value(rawId)) == Success(None)
    ensures r.status == 404 ==> r.body == SingleKeyBody("error", "Book not found")
    ensures r.status == 200 ==>
      && ConvertibleByInt(rawId) && GetBookById(table, Value(rawId)).Success?
      && GetBookById(table, Value(rawId)).value.Some?
      && r.body == JsonBody(ToDict(GetBookById(table, Value(rawId)).value.value))
    ensures r.status in {200, 400, 404, 500}
  {
    if !IsDigitString(rawId) then Response(400, SingleKeyBody("error", "Invalid book ID"))
    else if |rawId| > IntMaxStrDigits then Response(500, ServerErrorPage)
    else
      match GetBookById(table, Value(rawId))
      case Failure(_) => Response(500, ServerErrorPage)
      case Success(None) => Response(404, SingleKeyBody("error", "Book not found"))
      case Success(Some(book)) => Response(200, JsonBody(ToDict(book)))
  }

  /** A sign or a letter makes the id invalid. */
  lemma NonDigitIdsAreRejected(table: BookTable)
    ensures GetBookEndpoint(table, "-1").status == 400
    ensures GetBookEndpoint(table, "abc").status == 400
  {
  }

  /**
   * Asking for a stored row's id, written in decimal with leading zeros up
   * to `int()`'s digit limit, returns that row.
   */
  lemma GetBookFindsStoredRow(table: BookTable, k: nat, width: nat)
    requires table.Valid() && k < |table.rows|
    requires table.rows[k].id < Pow10(width) && 0 < width <= IntMaxStrDigits && table.rows[k].id <= Int4Max
    ensures GetBookEndpoint(table, Padded(table.rows[k].id, width))
         == Response(200, JsonBody(ToDict(table.rows[k])))
  {
    var row := table.rows[k];
    ValueOfPadded(row.id, width);
    GetBookByIdFindsTheRow(table.rows, row.id, k);
  }

  /** Zero padding beyond `int()`'s digit limit makes any id a server error. */
  lemma OverlongIdIsServerError(table: BookTable, id: nat, width: nat)
    requires id < Pow10(width) && width > IntMaxStrDigits
    ensures GetBookEndpoint(table, Padded(id, width)) == Response(500, ServerErrorPage)
  {
  }

  // -------------------------------------------- GET /v1/books/{id}/download

  predicate HasFile(b: BookRow) {
    b.filePath.Some? && b.filePath.value != ""
  }

  /** `download_book`'s checks, in order: no row (404), denied (403), no file (404), else the file. */
  function DownloadBookResponse(book: Option<BookRow>): (r: Response)
    ensures r.status == 403 <==> book.Some? && book.value.isDenied
    ensures r.status == 403 ==> r.body == SingleKeyBody("error", "Book is denied for download")
    ensures book.None? ==> r == Response(404, SingleKeyBody("error", "Book not found"))
    ensures book.Some? && !book.value.isDenied && !HasFile(book.value) ==>
      r == Response(404, SingleKeyBody("error", "Book file not found"))
    ensures r.body.FileBody? <==> book.Some? && !book.value.isDenied && HasFile(book.value)
    ensures r.body.FileBody? ==> r.status == 200 && r.body.path == book.value.filePath.value
  {
    if book.None? then Response(404, SingleKeyBody("error", "Book not found"))
    else if book.value.isDenied then Response(403, SingleKeyBody("error", "Book is denied for download"))
    else if !HasFile(book.value) then Response(404, SingleKeyBody("error", "Book file not found"))
    else Response(200, FileBody(book.value.filePath.value))
  }

  /**
   * `download_book` handler: an id the database refuses as an int4 is a 500;
   * otherwise the checks apply to the one row holding the id, or to its
   * absence.
   */
  function DownloadBookEndpoint(table: BookTable, id: int): (r: Response)
    requires UniqueIds(table.rows)
    reads table
    ensures r.status == 500 <==> !FitsInt4(id)
    ensures r.status == 500 ==> r.body == ServerErrorPage
    ensures FitsInt4(id) && (forall k :: 0 <= k < |table.rows| ==> table.rows[k].id != id) ==>
      r == Response(404, SingleKeyBody("error", "Book not found"))
    ensures forall k :: 0 <= k < |table.rows| && table.rows[k].id == id && FitsInt4(id) ==>
      r == DownloadBookResponse(Some(table.rows[k]))
  {
    if !FitsInt4(id) then Response(500, ServerErrorPage)
    else
      FindByIdUnique(table.rows, id);
      DownloadBookResponse(GetBookById(table, id).value)
  }

  /**
   * After a denial update that targets a row, downloading that row is
   * forbidden: `table` holds the denial of `before`.
   */
  lemma DeniedRowIsForbidden(table: BookTable, before: seq<BookRow>, d: DeniedBooks, k: nat)
    requires UniqueIds(before) && k < |before| && IsTargeted(before[k], d) && FitsInt4(before[k].id)
    requires table.rows == DenyAll(before, d)
    ensures UniqueIds(table.rows) && DownloadBookEndpoint(table, before[k].id).status == 403
  {
    DenyAllKeepsKeys(before, d);
    DenyAllAt(before, d, k);
    assert table.rows[k].id == before[k].id && table.rows[k].isDenied;
  }

  // ------------------------------------------------- POST /v1/books/deny

  /** The first part of the multipart upload: its field name and its decoded workbook. */
  datatype Part = Part(name: Option<string>, content: Workbook)

  /**
   * `upload_denied_books` handler: the first part must be the `file` field,
   * its content must parse, and only then is the denial update applied.
   * Without any part, reading its name raises; an update the driver
   * refuses raises too.
   */
  method UploadDeniedBooksEndpoint(table: BookTable, first: Option<Part>) returns (resp: Response)
    requires table.Valid()
    modifies table`rows
    ensures table.Valid()
    ensures first.None? ==> resp == Response(500, ServerErrorPage) && table.rows == old(table.rows)
    ensures first.Some? && first.value.name != Some("file") ==>
      resp == Response(400, SingleKeyBody("error", "Expected a file upload")) && table.rows == old(table.rows)
    ensures first.Some? && first.value.name == Some("file") && ParseDeniedBooks(first.value.content).Failure? ==>
      resp == Response(400, SingleKeyBody("error", "Failed to parse the denied books file")) && table.rows == old(table.rows)
    ensures first.Some? && first.value.name == Some("file") && ParseDeniedBooks(first.value.content).Success? ==>
      var denied := ParseDeniedBooks(first.value.content).value;
      if UpdateRefused(denied) then
        resp == Response(500, ServerErrorPage) && table.rows == old(table.rows)
      else
        resp == Response(200, SingleKeyBody("message", "Denied books updated"))
        && table.rows == DenyAll(old(table.rows), denied)
  {
    if first.None? {
      return Response(500, ServerErrorPage);
    }
    if first.value.name != Some("file") {
      return Response(400, SingleKeyBody("error", "Expected a file upload"));
    }
    var denied := ParseDeniedBooks(first.value.content);
    if denied.Failure? {
      return Response(400, SingleKeyBody("error", "Failed to parse the denied books file"));
    }
    var error := UpdateDeniedBooks(table, denied.value);
    if error.Some? {
      return Response(500, ServerErrorPage);
    }
    resp := Response(200, SingleKeyBody("message", "Denied books updated"));
  }

  /**
   * A client uploads a list that targets a stored book, then asks for that
   * book's file: the upload succeeds and the download is forbidden.
   */
  method UploadThenDownload(table: BookTable, part: Part, k: nat) returns (upload: Response, download: Response)
    requires table.Valid() && part.name == Some("file") && ParseDeniedBooks(part.content).Success?
    requires !UpdateRefused(ParseDeniedBooks(part.content).value)
    requires k < |table.rows| && IsTargeted(table.rows[k], ParseDeniedBooks(part.content).value)
    requires FitsInt4(table.rows[k].id)
    modifies table`rows
    ensures table.Valid() && upload == Response(200, SingleKeyBody("message", "Denied books updated"))
    ensures download.status == 403 && download.body == SingleKeyBody("error", "Book is denied for download")
  {
    ghost var before := table.rows;
    var id := table.rows[k].id;
    upload := UploadDeniedBooksEndpoint(table, Some(part));
    DeniedRowIsForbidden(table, before, ParseDeniedBooks(part.content).value, k);
    download := DownloadBookEndpoint(table, id);
  }
}
