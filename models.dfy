/**
 * The `books` table (literaflow/models/book.py): the record, its column
 * defaults, the unique (name, author, date_published) constraint, the JSON
 * shape `to_dict` gives it, and the table itself as an object whose rows the
 * services insert and update in place.
 */
module Models {
  import opened Wrappers
  import opened Json
  import opened Dates

  /**
   * One row. name, author and date_published are NOT NULL, so they are plain
   * values; file_path is nullable. created_at / updated_at are not modelled.
   */
  datatype BookRow = BookRow(
    id: int,
    name: string,
    author: string,
    datePublished: Date,
    genre: string,
    isDenied: bool,
    filePath: Option<string>)

  /**
   * Building a row the way the ORM does from the values an insert supplies:
   * an omitted genre takes its column default "", an omitted is_denied its
   * server default false, an omitted file_path stays NULL.
   */
  function NewRow(id: int, name: string, author: string, datePublished: Date,
                  genre: Option<string>, isDenied: Option<bool>, filePath: Option<string>): (r: BookRow)
    ensures r.id == id && r.name == name && r.author == author && r.datePublished == datePublished
    ensures genre.None? ==> r.genre == ""
    ensures isDenied.None? ==> !r.isDenied
    ensures r.filePath == filePath
    ensures genre.Some? ==> r.genre == genre.value
    ensures isDenied.Some? ==> r.isDenied == isDenied.value
  {
    BookRow(id, name, author, datePublished, genre.GetOr(""), isDenied.GetOr(false), filePath)
  }

  /** Two rows collide under the table's unique constraint. */
  predicate SameTriple(a: BookRow, b: BookRow) {
    a.name == b.name && a.author == b.author && a.datePublished == b.datePublished
  }

  predicate UniqueIds(rows: seq<BookRow>) {
    forall i, j :: 0 <= i < j < |rows| ==> rows[i].id != rows[j].id
  }

  predicate UniqueTriples(rows: seq<BookRow>) {
    forall i, j :: 0 <= i < j < |rows| ==> !SameTriple(rows[i], rows[j])
  }

  /** Whether some row already holds the triple of `b`. */
  predicate HasTripleOf(rows: seq<BookRow>, b: BookRow) {
    exists i :: 0 <= i < |rows| && SameTriple(rows[i], b)
  }

  // ------------------------------------------- what PostgreSQL refuses

  /** The range of the `id` column, a PostgreSQL `integer` (int4). */
  const Int4Min := -0x8000_0000
  const Int4Max := 0x7fff_ffff

  predicate FitsInt4(id: int) {
    Int4Min <= id <= Int4Max
  }

  /** PostgreSQL `text` cannot hold the character U+0000. */
  predicate HoldsNul(s: string) {
    '\0' in s
  }

  /** Whether some text column of the row holds U+0000. */
  predicate RowHoldsNul(b: BookRow) {
    HoldsNul(b.name) || HoldsNul(b.author) || HoldsNul(b.genre) || (b.filePath.Some? && HoldsNul(b.filePath.value))
  }

  /** The most arguments the driver (asyncpg) binds to one statement. */
  const MaxQueryArguments := 32767

  /**
   * The errors the database driver raises for a statement it cannot bind:
   * an integer outside int4, text holding U+0000, or more arguments than
   * `MaxQueryArguments`. All are raised before the statement runs, so no
   * sequence value is drawn and nothing changes.
   */
  datatype DatabaseError = IdOutOfInt4Range | NulInText | TooManyArguments

  const DictKeys: set<string> := {"id", "name", "author", "date_published", "genre", "is_denied", "file_path"}

  function OptionalString(s: Option<string>): (j: Json) {
    if s.Some? then JStr(s.value) else JNull
  }

  /** `to_dict`: exactly the seven public columns, the date as an ISO calendar date. */
  function ToDict(b: BookRow): (j: Json)
    ensures j.JObject? && j.fields.Keys == DictKeys
    ensures j.fields["date_published"] == JStr(IsoFormat(b.datePublished))
    ensures j.fields["file_path"] == (if b.filePath.Some? then JStr(b.filePath.value) else JNull)
  {
    JObject(map[
      "id" := JInt(b.id),
      "name" := JStr(b.name),
      "author" := JStr(b.author),
      "date_published" := JStr(IsoFormat(b.datePublished)),
      "genre" := JStr(b.genre),
      "is_denied" := JBool(b.isDenied),
      "file_path" := OptionalString(b.filePath)])
  }

  /** Reads a book object back; None unless it has the fields `to_dict` writes, with the right types. */
  function FromDict(j: Json): (r: Option<BookRow>)
  {
    if !j.JObject? || j.fields.Keys != DictKeys then None
    else
      var m := j.fields;
      if !(m["id"].JInt? && m["name"].JStr? && m["author"].JStr? && m["date_published"].JStr?
           && m["genre"].JStr? && m["is_denied"].JBool? && (m["file_path"].JStr? || m["file_path"].JNull?))
      then None
      else
        var d := ParseIso(m["date_published"].s);
        if d.None? then None
        else
          Some(BookRow(m["id"].i, m["name"].s, m["author"].s, d.value, m["genre"].s, m["is_denied"].b,
                       if m["file_path"].JStr? then Some(m["file_path"].s) else None))
  }

  /** `to_dict` loses nothing of a row: reading its output back gives the row. */
  lemma FromToDict(b: BookRow)
    ensures FromDict(ToDict(b)) == Some(b)
  {
    ParseIsoFormat(b.datePublished);
  }

  /**
   * The table. `nextId` is the next value of the id sequence. The invariant
   * is the primary key, the unique triple, that every id was drawn from the
   * sequence, and that no stored text holds U+0000.
   */
  class BookTable {
    var rows: seq<BookRow>
    var nextId: int

    ghost predicate Valid()
      reads this
    {
      && 1 <= nextId
      && UniqueIds(rows)
      && UniqueTriples(rows)
      && (forall i :: 0 <= i < |rows| ==> 1 <= rows[i].id < nextId)
      && (forall i :: 0 <= i < |rows| ==> !RowHoldsNul(rows[i]))
    }

    /** An empty table; PostgreSQL's serial sequences start at 1. */
    constructor ()
      ensures Valid() && rows == [] && nextId == 1
    {
      rows := [];
      nextId := 1;
    }
  }
}
