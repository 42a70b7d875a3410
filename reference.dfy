/** The join table linking entities to the documents they were found in. Its
    rows are removed outright, never soft-deleted: in bulk by document, and by
    the cascades that follow the removal of an entity or of a document. */
module References {

  /** One row of the reference table. */
  datatype Reference = Reference(id: int, documentId: int, entityId: string, weight: int)

  /** The rows that survive removing every row `doomed` holds of, in order. */
  function Drop(rows: seq<Reference>, doomed: Reference -> bool): (r: seq<Reference>)
    ensures |r| <= |rows|
    ensures forall x :: x in r ==> x in rows && !doomed(x)
  {
    if rows == [] then []
    else if doomed(rows[0]) then Drop(rows[1..], doomed)
    else [rows[0]] + Drop(rows[1..], doomed)
  }

  /** How many rows `doomed` holds of. */
  function CountWhere(rows: seq<Reference>, doomed: Reference -> bool): nat
  {
    if rows == [] then 0
    else (if doomed(rows[0]) then 1 else 0) + CountWhere(rows[1..], doomed)
  }

  /** Every row that is not doomed survives as often as it occurred, unchanged. */
  lemma {:induction false} DropKeepsOthers(rows: seq<Reference>, doomed: Reference -> bool)
    ensures forall x :: !doomed(x) ==> multiset(Drop(rows, doomed))[x] == multiset(rows)[x]
    ensures forall x :: x in rows && !doomed(x) ==> x in Drop(rows, doomed)
  {
    if rows != [] {
      DropKeepsOthers(rows[1..], doomed);
      assert rows == [rows[0]] + rows[1..];
    }
  }

  /** Exactly the doomed rows go: the table shrinks by their number. */
  lemma {:induction false} DropCount(rows: seq<Reference>, doomed: Reference -> bool)
    ensures |Drop(rows, doomed)| == |rows| - CountWhere(rows, doomed)
  {
    if rows != [] {
      DropCount(rows[1..], doomed);
    }
  }

  /** Dropping from a table that holds no doomed row changes nothing. */
  lemma {:induction false} DropNothingDoomed(rows: seq<Reference>, doomed: Reference -> bool)
    requires forall x :: x in rows ==> !doomed(x)
    ensures Drop(rows, doomed) == rows
  {
    if rows != [] {
      assert rows[0] in rows;
      DropNothingDoomed(rows[1..], doomed);
      assert rows == [rows[0]] + rows[1..];
    }
  }

  /** The rows of document `d`. */
  function OfDocument(d: int): Reference -> bool
  {
    (x: Reference) => x.documentId == d
  }

  /** The rows of entity `e`. */
  function OfEntity(e: string): Reference -> bool
  {
    (x: Reference) => x.entityId == e
  }

  /** Removing the rows of one document leaves none of them, keeps every other
      row unchanged and as often as before, shrinks the table by their number,
      and a second removal removes nothing. */
  lemma DeleteDocumentExact(rows: seq<Reference>, d: int)
    ensures forall x :: x in Drop(rows, OfDocument(d)) ==> x.documentId != d
    ensures forall x: Reference :: x.documentId != d ==> multiset(Drop(rows, OfDocument(d)))[x] == multiset(rows)[x]
    ensures |Drop(rows, OfDocument(d))| == |rows| - CountWhere(rows, OfDocument(d))
    ensures Drop(Drop(rows, OfDocument(d)), OfDocument(d)) == Drop(rows, OfDocument(d))
  {
    DropKeepsOthers(rows, OfDocument(d));
    DropCount(rows, OfDocument(d));
    DropNothingDoomed(Drop(rows, OfDocument(d)), OfDocument(d));
  }

  /** Removing the rows of one entity leaves none of them and keeps every
      other row unchanged and as often as before. */
  lemma RemoveEntityExact(rows: seq<Reference>, e: string)
    ensures forall x :: x in Drop(rows, OfEntity(e)) ==> x.entityId != e
    ensures forall x: Reference :: x.entityId != e ==> multiset(Drop(rows, OfEntity(e)))[x] == multiset(rows)[x]
    ensures |Drop(rows, OfEntity(e))| == |rows| - CountWhere(rows, OfEntity(e))
  {
    DropKeepsOthers(rows, OfEntity(e));
    DropCount(rows, OfEntity(e));
  }

  /** The reference table, with the removals of the `Reference` model class. */
  class ReferenceTable {
    var rows: seq<Reference>

    constructor ()
      ensures rows == []
    {
      rows := [];
    }

    /** `Reference.delete_document`: removes every row of document `d`. */
    method DeleteDocument(d: int)
      modifies this
      ensures rows == Drop(old(rows), OfDocument(d))
      ensures forall x :: x in rows ==> x.documentId != d
      ensures forall x: Reference :: x.documentId != d ==> multiset(rows)[x] == multiset(old(rows))[x]
      ensures |rows| == |old(rows)| - CountWhere(old(rows), OfDocument(d))
    {
      DeleteDocumentExact(rows, d);
      rows := Drop(rows, OfDocument(d));
    }

    /** The delete-orphan cascade from a removed entity: its references go
        with it. */
    method RemoveEntity(e: string)
      modifies this
      ensures rows == Drop(old(rows), OfEntity(e))
      ensures forall x :: x in rows ==> x.entityId != e
      ensures forall x: Reference :: x.entityId != e ==> multiset(rows)[x] == multiset(old(rows))[x]
    {
      RemoveEntityExact(rows, e);
      rows := Drop(rows, OfEntity(e));
    }

    /** The delete-orphan cascade from a removed document: it removes the same
        rows as `DeleteDocument`. */
    method RemoveDocument(d: int)
      modifies this
      ensures rows == Drop(old(rows), OfDocument(d))
      ensures forall x :: x in rows ==> x.documentId != d
    {
      DeleteDocument(d);
    }
  }
}
