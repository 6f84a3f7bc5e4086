/**
 * Denial enforcement (literaflow/services/denied_list.py): one bulk UPDATE
 * that sets is_denied on every row whose name is among the denied names or
 * whose author is among the denied authors.
 */
module DeniedList {
  import opened Wrappers
  import opened Models
  import opened DeniedBooksParser

  /** The UPDATE's where-clause: name IN names OR author IN authors. */
  predicate IsTargeted(row: BookRow, d: DeniedBooks) {
    row.name in d.names || row.author in d.authors
  }

  /** One row after the update: targeted rows get is_denied = true, the rest are untouched. */
  function Deny(row: BookRow, d: DeniedBooks): (r: BookRow) {
    if IsTargeted(row, d) then row.(isDenied := true) else row
  }

  /** The table after the update, row by row. */
  function DenyAll(rows: seq<BookRow>, d: DeniedBooks): (r: seq<BookRow>)
    ensures |r| == |rows|
  {
    if rows == [] then [] else [Deny(rows[0], d)] + DenyAll(rows[1..], d)
  }

  lemma {:induction false} DenyAllAppend(rows: seq<BookRow>, row: BookRow, d: DeniedBooks)
    ensures DenyAll(rows + [row], d) == DenyAll(rows, d) + [Deny(row, d)]
  {
    if rows != [] {
      assert (rows + [row])[1..] == rows[1..] + [row];
      DenyAllAppend(rows[1..], row, d);
    }
  }

  /**
   * What the update does to the row at each position: targeted rows become
   * denied, other rows keep their flag, no flag is cleared, and every other
   * column is unchanged; no row is added or removed.
   */
  lemma {:induction false} DenyAllAt(rows: seq<BookRow>, d: DeniedBooks, i: nat)
    requires i < |rows|
    ensures |DenyAll(rows, d)| == |rows|
    ensures var r := DenyAll(rows, d)[i];
      && (IsTargeted(rows[i], d) ==> r.isDenied)
      && (!IsTargeted(rows[i], d) ==> r.isDenied == rows[i].isDenied)
      && (rows[i].isDenied ==> r.isDenied)
      && r == rows[i].(isDenied := r.isDenied)
  {
    if i > 0 {
      DenyAllAt(rows[1..], d, i - 1);
    } else if |rows| > 1 {
      DenyAllAt(rows[1..], d, 0);
    }
  }

  /** Applying the same lists a second time changes nothing. */
  lemma {:induction false} DenyAllIdempotent(rows: seq<BookRow>, d: DeniedBooks)
    ensures DenyAll(DenyAll(rows, d), d) == DenyAll(rows, d)
  {
    if rows != [] {
      DenyAllIdempotent(rows[1..], d);
    }
  }

  /** Empty name and author lists leave the table as it was. */
  lemma {:induction false} DenyNothing(rows: seq<BookRow>)
    ensures DenyAll(rows, DeniedBooks([], [])) == rows
  {
    if rows != [] {
      DenyNothing(rows[1..]);
      assert rows == [rows[0]] + rows[1..];
    }
  }

  /**
   * Since only the flag changes, each row keeps every other column, so the
   * table's keys, unique constraint and U+0000-free text still hold.
   */
  lemma DenyAllKeepsKeys(rows: seq<BookRow>, d: DeniedBooks)
    ensures |DenyAll(rows, d)| == |rows|
    ensures forall i :: 0 <= i < |rows| ==>
      && DenyAll(rows, d)[i] == rows[i].(isDenied := DenyAll(rows, d)[i].isDenied)
      && DenyAll(rows, d)[i].id == rows[i].id && SameTriple(DenyAll(rows, d)[i], rows[i])
      && RowHoldsNul(DenyAll(rows, d)[i]) == RowHoldsNul(rows[i])
  {
    forall i | 0 <= i < |rows|
      ensures && DenyAll(rows, d)[i] == rows[i].(isDenied := DenyAll(rows, d)[i].isDenied)
              && DenyAll(rows, d)[i].id == rows[i].id && SameTriple(DenyAll(rows, d)[i], rows[i])
              && RowHoldsNul(DenyAll(rows, d)[i]) == RowHoldsNul(rows[i])
    {
      DenyAllAt(rows, d, i);
    }
  }

  /** Whether a name or an author bound into the IN lists holds U+0000. */
  predicate ListsHoldNul(d: DeniedBooks) {
    (exists i :: 0 <= i < |d.names| && HoldsNul(d.names[i]))
    || (exists i :: 0 <= i < |d.authors| && HoldsNul(d.authors[i]))
  }

  /**
   * The statement binds one argument per value of each IN list, plus the
   * `is_denied` value it sets.
   */
  function ArgumentCount(d: DeniedBooks): nat {
    |d.names| + |d.authors| + 1
  }

  /** Whether the driver refuses the statement: too many arguments, or a value holding U+0000. */
  predicate UpdateRefused(d: DeniedBooks) {
    ArgumentCount(d) > MaxQueryArguments || ListsHoldNul(d)
  }

  /**
   * `update_denied_books`: the single UPDATE statement, as a pass over the
   * rows whose result replaces the table's rows at once (the statement is
   * atomic); nothing but the rows changes. A statement the driver refuses
   * raises and changes nothing; the argument count is checked before any
   * value is sent.
   */
  method UpdateDeniedBooks(table: BookTable, d: DeniedBooks) returns (error: Option<DatabaseError>)
    requires table.Valid()
    modifies table`rows
    ensures table.Valid()
    ensures error.Some? <==> UpdateRefused(d)
    ensures error.Some? ==> table.rows == old(table.rows)
    ensures error.Some? ==> error.value == if ArgumentCount(d) > MaxQueryArguments then TooManyArguments else NulInText
    ensures error.None? ==> table.rows == DenyAll(old(table.rows), d)
  {
    if ArgumentCount(d) > MaxQueryArguments {
      return Some(TooManyArguments);
    }
    if ListsHoldNul(d) {
      return Some(NulInText);
    }
    var before := table.rows;
    var updated: seq<BookRow> := [];
    var i := 0;
    while i < |before|
      invariant 0 <= i <= |before|
      invariant updated == DenyAll(before[..i], d)
    {
      DenyAllAppend(before[..i], before[i], d);
      assert before[..i + 1] == before[..i] + [before[i]];
      updated := updated + [Deny(before[i], d)];
      i := i + 1;
    }
    assert before[..i] == before;
    DenyAllKeepsKeys(before, d);
    table.rows := updated;
    error := None;
  }
}
