/**
 * The in-memory book store (storage/repository/BookRepository.java): a map from id to
 * book plus a counter from which new ids are minted.
 */
module BookRepositories {
  import opened Wrappers
  import opened Entities
  import opened Collections

  /** The store's state as a value: the map and the counter. */
  datatype BookTable = BookTable(books: map<int, BookEntity>, idGenerator: nat) {
    /** Every key was minted by the counter, and the book stored under a key carries that key as its id. */
    ghost predicate Valid() {
      forall k :: k in books ==> 1 <= k <= idGenerator && books[k].id == Some(k)
    }
  }

  /**
   * `save`: the table afterwards and the book returned. A book without an id gets the next
   * counter value, which no stored book has; a book with an id overwrites the stored one
   * (`Map.replace`), and when that id is not stored nothing changes at all.
   */
  function SaveBook(t: BookTable, bookEntity: BookEntity): (r: (BookTable, BookEntity))
    ensures t.Valid() ==> r.0.Valid()
    ensures bookEntity.id.None? ==>
      && r.0.idGenerator == t.idGenerator + 1
      && r.1 == bookEntity.(id := Some(r.0.idGenerator))
      && r.0.books == t.books[r.0.idGenerator := r.1]
    ensures bookEntity.id.None? && t.Valid() ==>
      forall k :: k in t.books ==> k < r.0.idGenerator
    ensures bookEntity.id.Some? ==> r.1 == bookEntity && r.0.idGenerator == t.idGenerator
    ensures bookEntity.id.Some? && bookEntity.id.value in t.books ==>
      r.0.books == t.books[bookEntity.id.value := bookEntity]
    ensures bookEntity.id.Some? && bookEntity.id.value !in t.books ==> r.0 == t
  {
    match bookEntity.id
    case None =>
      var id := t.idGenerator + 1;
      var saved := bookEntity.(id := Some(id));
      (BookTable(t.books[id := saved], id), saved)
    case Some(id) =>
      var books := if id in t.books then t.books[id := bookEntity] else t.books;
      (BookTable(books, t.idGenerator), bookEntity)
  }

  /** `deleteById`: only that key goes, and an absent key is no change. */
  function DeleteBook(t: BookTable, id: int): (r: BookTable)
    ensures t.Valid() ==> r.Valid()
    ensures r.idGenerator == t.idGenerator
    ensures id !in r.books
    ensures forall k :: k in t.books && k != id ==> k in r.books && r.books[k] == t.books[k]
    ensures r.books.Keys <= t.books.Keys
    ensures id !in t.books ==> r == t
  {
    BookTable(t.books - {id}, t.idGenerator)
  }

  /** Deleting twice is the same as deleting once. */
  lemma DeleteBookIdempotent(t: BookTable, id: int)
    ensures DeleteBook(DeleteBook(t, id), id) == DeleteBook(t, id)
  {
  }

  /** Saving a stored book back unchanged leaves the table as it was. */
  lemma SaveStoredBookIsNoOp(t: BookTable, id: int)
    requires t.Valid() && id in t.books
    ensures SaveBook(t, t.books[id]) == (t, t.books[id])
  {
    assert t.books[id := t.books[id]] == t.books;
  }

  /** `findAll`'s result: each stored book exactly once, in no particular order. */
  ghost predicate IsSnapshot(all: seq<BookEntity>, books: map<int, BookEntity>) {
    && |all| == |books|
    && (forall i :: 0 <= i < |all| ==> all[i].id.Some? && all[i].id.value in books && books[all[i].id.value] == all[i])
    && (forall k :: k in books ==> books[k] in all)
    && (forall i, j :: 0 <= i < j < |all| ==> all[i].id != all[j].id)
  }

  class BookRepository {
    var idGenerator: nat
    var books: map<int, BookEntity>

    function Table(): BookTable
      reads this
    {
      BookTable(books, idGenerator)
    }

    ghost predicate Valid()
      reads this
    {
      Table().Valid()
    }

    constructor ()
      ensures Valid() && books == map[] && idGenerator == 0
    {
      idGenerator := 0;
      books := map[];
    }

    method Save(bookEntity: BookEntity) returns (saved: BookEntity)
      requires Valid()
      modifies this
      ensures Valid()
      ensures (Table(), saved) == SaveBook(old(Table()), bookEntity)
    {
      var bookId := bookEntity.id;
      if bookId.None? {
        idGenerator := idGenerator + 1;
        saved := bookEntity.(id := Some(idGenerator));
        books := books[idGenerator := saved];
      } else {
        if bookId.value in books {
          books := books[bookId.value := bookEntity];
        }
        saved := bookEntity;
      }
    }

    /** A null id finds nothing: no book is stored under a null key. */
    method FindById(id: Option<int>) returns (found: Option<BookEntity>)
      requires Valid()
      ensures found.Some? <==> id.Some? && id.value in books
      ensures found.Some? ==> found.value == books[id.value] && found.value.id == id
    {
      match id
      case None => return None;
      case Some(k) =>
        if k in books {
          return Some(books[k]);
        }
        return None;
    }

    method FindAll() returns (all: seq<BookEntity>)
      requires Valid()
      ensures IsSnapshot(all, books)
    {
      all := [];
      var remaining := books.Keys;
      while remaining != {}
        invariant remaining <= books.Keys
        invariant |all| + |remaining| == |books|
        invariant forall i :: 0 <= i < |all| ==>
          all[i].id.Some? && all[i].id.value in books.Keys - remaining && books[all[i].id.value] == all[i]
        invariant forall k :: k in books.Keys - remaining ==> books[k] in all
        invariant forall i, j :: 0 <= i < j < |all| ==> all[i].id != all[j].id
        decreases remaining
      {
        NonEmptyHasElement(remaining);
        var k :| k in remaining;
        all := all + [books[k]];
        remaining := remaining - {k};
      }
    }

    /** A null id removes nothing. */
    method DeleteById(id: Option<int>)
      requires Valid()
      modifies this
      ensures Valid()
      ensures id.Some? ==> Table() == DeleteBook(old(Table()), id.value)
      ensures id.None? ==> Table() == old(Table())
    {
      if id.Some? {
        books := books - {id.value};
      }
    }

    /** `delete` removes by the entity's id; a null id removes nothing. */
    method Delete(bookEntity: BookEntity)
      requires Valid()
      modifies this
      ensures Valid()
      ensures bookEntity.id.Some? ==> Table() == DeleteBook(old(Table()), bookEntity.id.value)
      ensures bookEntity.id.None? ==> Table() == old(Table())
    {
      if bookEntity.id.Some? {
        books := books - {bookEntity.id.value};
      }
    }

    /** A null id is never stored. */
    method ExistsById(id: Option<int>) returns (present: bool)
      ensures present <==> id.Some? && id.value in books
    {
      return id.Some? && id.value in books;
    }
  }
}
