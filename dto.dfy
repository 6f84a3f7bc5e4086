/**
 * Request DTOs (literaflow/core/dto.py): the book-creation DTO with its
 * defaults and required-field validator, the listing filters, and
 * `create_dto_safely`, which turns a validation failure into a list of
 * error entries instead of an exception.
 *
 * Decoding each field from its raw value (string, date and URL parsing) is
 * the validation library's work and is taken as given: every field arrives
 * as a `Field<T>`.
 */
module Dto {
  import opened Wrappers
  import opened Json
  import opened Dates

  /** One entry of a validation error (`exc.errors()`): type, location, message and the offending input. */
  datatype ErrorDetails = ErrorDetails(kind: string, loc: seq<string>, msg: string, input: Json)

  /** `PydanticErrorDict`: only the location, the message and the type. */
  datatype ErrorDict = ErrorDict(loc: seq<string>, msg: string, kind: string)

  /** What constructing a DTO does: it yields the DTO, or raises a validation error carrying its entries. */
  datatype Validation<T> = Validated(value: T) | Rejected(errors: seq<ErrorDetails>)

  /** A raw field after decoding: absent from the input, decoded, or rejected by its decoder. */
  datatype Field<T> = Missing | Decoded(value: T) | Undecodable(error: ErrorDetails)

  /** A parsed `HttpUrl`: its full text and its path component. */
  datatype Url = Url(text: string, path: string)

  /** `dto.Book`, the validated creation request. */
  datatype Book = Book(
    name: string,
    author: string,
    datePublished: Date,
    genre: string,
    isDenied: bool,
    url: Option<Url>)

  /** The decoded fields of a creation request, in declaration order. */
  datatype BookFields = BookFields(
    name: Field<string>,
    author: Field<string>,
    datePublished: Field<Date>,
    genre: Field<string>,
    isDenied: Field<bool>,
    url: Field<Option<Url>>)

  /** `dto.BookFilters`: every field optional. */
  datatype BookFilters = BookFilters(
    name: Option<string>,
    author: Option<string>,
    datePublished: Option<Date>,
    genre: Option<string>)

  datatype FilterFields = FilterFields(
    name: Field<string>,
    author: Field<string>,
    datePublished: Field<Date>,
    genre: Field<string>)

  /** `create_dto_safely`: exactly one of (dto, None) and (None, errors), errors keeping loc, msg and type only. */
  function CreateDtoSafely<T>(v: Validation<T>): (r: (Option<T>, Option<seq<ErrorDict>>))
    ensures r.0.Some? != r.1.Some?
    ensures r.0.Some? <==> v.Validated?
    ensures v.Validated? ==> r.0.value == v.value
    ensures v.Rejected? ==> |r.1.value| == |v.errors|
    ensures v.Rejected? ==> forall i :: 0 <= i < |v.errors| ==>
      && r.1.value[i].loc == v.errors[i].loc
      && r.1.value[i].msg == v.errors[i].msg
      && r.1.value[i].kind == v.errors[i].kind
  {
    match v
    case Validated(value) => (Some(value), None)
    case Rejected(errors) =>
      (None, Some(seq(|errors|, i requires 0 <= i < |errors| => ErrorDict(errors[i].loc, errors[i].msg, errors[i].kind))))
  }

  /** The errors one field contributes; an absent required field is reported as missing. */
  function FieldErrors<T>(field: string, f: Field<T>, required: bool, input: Json): (errs: seq<ErrorDetails>)
    ensures |errs| <= 1
    ensures errs == [] <==> (f.Decoded? || (f.Missing? && !required))
  {
    match f
    case Missing => if required then [ErrorDetails("missing", [field], "Field required", input)] else []
    case Decoded(_) => []
    case Undecodable(e) => [e]
  }

  function ValueOr<T>(f: Field<T>, default: T): (v: T) {
    if f.Decoded? then f.value else default
  }

  /** `validate_required_fields`: name and author must be non-empty (a date is always truthy). */
  predicate HasRequiredFields(b: Book) {
    !(b.name == "" || b.author == "")
  }

  const RequiredFieldsMessage := "Value error, Name, author and date_published are required"

  /**
   * `Book(**body)`: field errors in declaration order; if there are none, the
   * defaults (genre "", is_denied false, url None) fill absent optional fields
   * and the after-validator runs.
   */
  function BookModel(input: Json, f: BookFields): (r: Validation<Book>)
    ensures r.Rejected? ==> |r.errors| > 0
    ensures r.Validated? <==>
      && f.name.Decoded? && f.author.Decoded? && f.datePublished.Decoded?
      && !f.genre.Undecodable? && !f.isDenied.Undecodable? && !f.url.Undecodable?
      && f.name.value != "" && f.author.value != ""
    ensures r.Validated? ==>
      && r.value.name == f.name.value
      && r.value.author == f.author.value
      && r.value.datePublished == f.datePublished.value
      && r.value.genre == (if f.genre.Missing? then "" else f.genre.value)
      && r.value.isDenied == (f.isDenied.Decoded? && f.isDenied.value)
      && r.value.url == (if f.url.Missing? then None else f.url.value)
  {
    var errors :=
      FieldErrors("name", f.name, true, input)
      + FieldErrors("author", f.author, true, input)
      + FieldErrors("date_published", f.datePublished, true, input)
      + FieldErrors("genre", f.genre, false, input)
      + FieldErrors("is_denied", f.isDenied, false, input)
      + FieldErrors("url", f.url, false, input);
    if errors != [] then Rejected(errors)
    else
      var b := Book(f.name.value, f.author.value, f.datePublished.value,
                    ValueOr(f.genre, ""), ValueOr(f.isDenied, false), ValueOr(f.url, None));
      if HasRequiredFields(b) then Validated(b)
      else Rejected([ErrorDetails("value_error", [], RequiredFieldsMessage, input)])
  }

  /** `BookFilters(**query)`: absent fields become None; only undecodable values are errors. */
  function FiltersModel(f: FilterFields): (r: Validation<BookFilters>)
    ensures r.Rejected? ==> |r.errors| > 0
    ensures r.Validated? <==>
      !f.name.Undecodable? && !f.author.Undecodable? && !f.datePublished.Undecodable? && !f.genre.Undecodable?
    ensures r.Validated? ==>
      && r.value.name == (if f.name.Decoded? then Some(f.name.value) else None)
      && r.value.author == (if f.author.Decoded? then Some(f.author.value) else None)
      && r.value.datePublished == (if f.datePublished.Decoded? then Some(f.datePublished.value) else None)
      && r.value.genre == (if f.genre.Decoded? then Some(f.genre.value) else None)
  {
    var errors :=
      FieldErrors("name", f.name, false, JNull)
      + FieldErrors("author", f.author, false, JNull)
      + FieldErrors("date_published", f.datePublished, false, JNull)
      + FieldErrors("genre", f.genre, false, JNull);
    if errors != [] then Rejected(errors)
    else Validated(BookFilters(AsOption(f.name), AsOption(f.author), AsOption(f.datePublished), AsOption(f.genre)))
  }

  function AsOption<T>(f: Field<T>): (o: Option<T>) {
    if f.Decoded? then Some(f.value) else None
  }

  /** `filters_exist`: not every field is None. An empty string counts as set. */
  function FiltersExist(f: BookFilters): (r: bool)
    ensures r <==> (f.name.Some? || f.author.Some? || f.datePublished.Some? || f.genre.Some?)
  {
    !(f.name.None? && f.author.None? && f.datePublished.None? && f.genre.None?)
  }

  /**
   * The decoded fields belong to a request whose keys are `keys`: a field is
   * Missing exactly when its key is absent (a JSON null is present).
   */
  predicate BookFieldsFor(keys: set<string>, f: BookFields) {
    && (f.name.Missing? <==> "name" !in keys)
    && (f.author.Missing? <==> "author" !in keys)
    && (f.datePublished.Missing? <==> "date_published" !in keys)
    && (f.genre.Missing? <==> "genre" !in keys)
    && (f.isDenied.Missing? <==> "is_denied" !in keys)
    && (f.url.Missing? <==> "url" !in keys)
  }

  /** The same for the query parameters of a listing. */
  predicate FilterFieldsFor(params: set<string>, q: FilterFields) {
    && (q.name.Missing? <==> "name" !in params)
    && (q.author.Missing? <==> "author" !in params)
    && (q.datePublished.Missing? <==> "date_published" !in params)
    && (q.genre.Missing? <==> "genre" !in params)
  }

  /** For accepted query parameters, filters exist exactly when one of the four parameters was given. */
  lemma FiltersExistIffParameterGiven(params: set<string>, q: FilterFields)
    requires FilterFieldsFor(params, q) && FiltersModel(q).Validated?
    ensures FiltersExist(FiltersModel(q).value)
        <==> ("name" in params || "author" in params || "date_published" in params || "genre" in params)
  {
  }

  /** A body without name, author or date_published is rejected with a "missing" entry for each absent key. */
  lemma AbsentRequiredKeysAreReported(input: map<string, Json>, f: BookFields)
    requires BookFieldsFor(input.Keys, f)
    requires "name" !in input || "author" !in input || "date_published" !in input
    ensures BookModel(JObject(input), f).Rejected?
    ensures forall key :: key in ["name", "author", "date_published"] && key !in input ==>
      ErrorDetails("missing", [key], "Field required", JObject(input)) in BookModel(JObject(input), f).errors
  {
  }
}
