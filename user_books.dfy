/**
 * The user-to-books relation as the facade (facade/UserDataFacade.java) computes it with
 * stream pipelines: which requests are processed, which books a run of creations stores and
 * under which ids, and which stored books a user owns.
 */
module UserBooks {
  import opened Wrappers
  import opened Entities
  import opened Mappers
  import opened Collections
  import opened UserRepositories
  import opened BookRepositories
  import opened BookServices

  /** Referential integrity: every stored book has an owner, and that owner is a stored user. */
  ghost predicate BooksReferenceUsers(books: map<int, BookEntity>, users: map<int, UserEntity>) {
    forall k :: k in books ==> books[k].userId.Some? && books[k].userId.value in users
  }

  /** `filter(Objects::nonNull)`: the requests that are not null, in request order. */
  function NonNull(requests: seq<Option<BookRequest>>): (r: seq<BookRequest>)
    ensures |r| <= |requests|
  {
    if requests == [] then []
    else
      var rest := NonNull(requests[..|requests| - 1]);
      match requests[|requests| - 1]
      case None => rest
      case Some(b) => rest + [b]
  }

  /** Exactly the non-null requests survive the filter. */
  lemma {:induction false} NonNullMembers(requests: seq<Option<BookRequest>>)
    ensures forall b :: b in NonNull(requests) <==> Some(b) in requests
    decreases |requests|
  {
    if requests != [] {
      var n := |requests| - 1;
      NonNullMembers(requests[..n]);
      assert requests == requests[..n] + [requests[n]];
    }
  }

  /** Filtering commutes with concatenation, so the non-null requests keep their relative order. */
  lemma {:induction false} NonNullAppend(a: seq<Option<BookRequest>>, b: seq<Option<BookRequest>>)
    ensures NonNull(a + b) == NonNull(a) + NonNull(b)
    decreases |b|
  {
    if b == [] {
      assert a + b == a;
    } else {
      var last := |b| - 1;
      assert (a + b)[..|a + b| - 1] == a + b[..last];
      NonNullAppend(a, b[..last]);
    }
  }

  /** The book stored for `request` when it is created for owner `userId` and receives id `id`. */
  function NewBook(request: BookRequest, userId: Option<int>, id: int): (book: BookEntity)
    ensures book.id == Some(id) && book.userId == userId
  {
    BookDtoToBookEntity(BookRequestToBookDto(request).(userId := userId)).(id := Some(id))
  }

  /**
   * The books that creating `requests` in order, for owner `userId`, adds to a store whose
   * counter stands at `base`: the i-th request (from 0) is stored under `base + i + 1`.
   */
  function CreatedBooks(requests: seq<BookRequest>, userId: Option<int>, base: int): map<int, BookEntity>
  {
    if requests == [] then map[]
    else
      var n := |requests|;
      CreatedBooks(requests[..n - 1], userId, base)[base + n := NewBook(requests[n - 1], userId, base + n)]
  }

  /** The run stores one book per request, the i-th (from 0) under `base + i + 1`, and nothing else. */
  lemma {:induction false} CreatedBooksContents(requests: seq<BookRequest>, userId: Option<int>, base: int)
    ensures forall k :: k in CreatedBooks(requests, userId, base) <==> base < k <= base + |requests|
    ensures forall k :: k in CreatedBooks(requests, userId, base) ==>
      CreatedBooks(requests, userId, base)[k] == NewBook(requests[k - base - 1], userId, k)
    decreases |requests|
  {
    if requests != [] {
      var n := |requests|;
      CreatedBooksContents(requests[..n - 1], userId, base);
    }
  }

  /** The ids `n` successive inserts receive from a counter at `base`: base+1, ..., base+n. */
  function NewIds(base: int, n: nat): (ids: seq<int>)
    ensures |ids| == n
  {
    if n == 0 then [] else NewIds(base, n - 1) + [base + n]
  }

  /** One more insert hands out the next counter value. */
  lemma NewIdsSnoc(base: int, n: nat)
    ensures NewIds(base, n + 1) == NewIds(base, n) + [base + n + 1]
  {
  }

  /** The i-th id handed out (from 0) is `base + i + 1`. */
  lemma {:induction false} NewIdsValues(base: int, n: nat)
    ensures forall i :: 0 <= i < n ==> NewIds(base, n)[i] == base + i + 1
  {
    if n > 0 {
      NewIdsValues(base, n - 1);
    }
  }

  /**
   * Ids handed out in succession are strictly increasing and are exactly the keys of the
   * books created with them.
   */
  lemma NewIdsIncreasing(base: int, n: nat)
    ensures forall i, j :: 0 <= i < j < n ==> NewIds(base, n)[i] < NewIds(base, n)[j]
    ensures forall x :: x in NewIds(base, n) <==> base < x <= base + n
  {
    var ids := NewIds(base, n);
    NewIdsValues(base, n);
    forall x | base < x <= base + n
      ensures x in ids
    {
      assert ids[x - base - 1] == x;
    }
  }

  /** The ids of the stored books owned by user `userId`. */
  function OwnedBy(books: map<int, BookEntity>, userId: int): (owned: set<int>)
    ensures forall k :: k in owned <==> k in books && books[k].userId == Some(userId)
  {
    set k | k in books && books[k].userId == Some(userId)
  }

  /** The store with every book of `userId` removed and every other book kept as it was. */
  function WithoutBooksOf(books: map<int, BookEntity>, userId: int): (r: map<int, BookEntity>)
    ensures OwnedBy(r, userId) == {}
    ensures forall k :: k in r ==> k in books && r[k] == books[k]
    ensures forall k :: k in books && books[k].userId != Some(userId) ==> k in r
  {
    books - OwnedBy(books, userId)
  }

  /**
   * The pipeline `filter(book -> book.getUserId().equals(userId)).map(BookDto::getId)`.
   * Comparing needs every book to have an owner (a null one throws); every book handed in
   * comes from the store, so each has an id.
   */
  function OwnedBookIds(books: seq<BookDto>, userId: int): (ids: seq<int>)
    requires forall i :: 0 <= i < |books| ==> books[i].id.Some? && books[i].userId.Some?
    ensures |ids| <= |books|
    ensures forall id :: id in ids <==>
      exists i :: 0 <= i < |books| && books[i].id == Some(id) && books[i].userId == Some(userId)
  {
    if books == [] then []
    else
      var n := |books| - 1;
      var rest := OwnedBookIds(books[..n], userId);
      if books[n].userId.value == userId then rest + [books[n].id.value] else rest
  }

  /** Filtering books with distinct ids yields distinct ids. */
  lemma {:induction false} OwnedBookIdsDistinct(books: seq<BookDto>, userId: int)
    requires forall i :: 0 <= i < |books| ==> books[i].id.Some? && books[i].userId.Some?
    requires forall i, j :: 0 <= i < j < |books| ==> books[i].id != books[j].id
    ensures forall i, j :: 0 <= i < j < |OwnedBookIds(books, userId)| ==>
      OwnedBookIds(books, userId)[i] != OwnedBookIds(books, userId)[j]
    decreases |books|
  {
    if books != [] {
      var n := |books| - 1;
      OwnedBookIdsDistinct(books[..n], userId);
    }
  }

  /** Filtering a snapshot of the store yields exactly the ids of the user's books, each once. */
  lemma OwnedBookIdsOfSnapshot(dtos: seq<BookDto>, books: map<int, BookEntity>, userId: int)
    requires IsDtoSnapshot(dtos, books)
    requires forall k :: k in books ==> books[k].id == Some(k) && books[k].userId.Some?
    ensures forall i :: 0 <= i < |dtos| ==> dtos[i].id.Some? && dtos[i].userId.Some?
    ensures Elems(OwnedBookIds(dtos, userId)) == OwnedBy(books, userId)
    ensures forall i, j :: 0 <= i < j < |OwnedBookIds(dtos, userId)| ==>
      OwnedBookIds(dtos, userId)[i] != OwnedBookIds(dtos, userId)[j]
  {
    forall i | 0 <= i < |dtos|
      ensures dtos[i].id.Some? && dtos[i].userId.Some?
    {
      var k := dtos[i].id.value;
      assert k in books && dtos[i] == BookEntityToBookDto(books[k]);
      assert books[k].userId.Some?;
    }
    OwnedBookIdsDistinct(dtos, userId);
    var ids := OwnedBookIds(dtos, userId);
    forall k | k in OwnedBy(books, userId)
      ensures k in ids
    {
      var i :| 0 <= i < |dtos| && dtos[i] == BookEntityToBookDto(books[k]);
      assert dtos[i].id == Some(k) && dtos[i].userId == Some(userId);
    }
  }

  /**
   * After creating `requests` for `userId` on top of a store in which the user owns nothing,
   * the user owns exactly the new ids.
   */
  lemma OwnedAfterCreating(books: map<int, BookEntity>, userId: int, requests: seq<BookRequest>, base: int)
    requires OwnedBy(books, userId) == {}
    ensures OwnedBy(books + CreatedBooks(requests, Some(userId), base), userId) == Elems(NewIds(base, |requests|))
  {
    NewIdsIncreasing(base, |requests|);
    CreatedBooksContents(requests, Some(userId), base);
    var after := books + CreatedBooks(requests, Some(userId), base);
    forall k | k in OwnedBy(after, userId)
      ensures k in NewIds(base, |requests|)
    {
    }
  }

  /** A user that is not stored owns no book of a store that keeps referential integrity. */
  lemma NoBooksOfAbsentUser(books: map<int, BookEntity>, users: map<int, UserEntity>, userId: int)
    requires BooksReferenceUsers(books, users)
    requires userId !in users
    ensures OwnedBy(books, userId) == {}
  {
    forall k | k in books
      ensures k !in OwnedBy(books, userId)
    {
      assert books[k].userId.value in users;
    }
  }

  /** Storing more users keeps every book's owner stored. */
  lemma ReferencesKeptByMoreUsers(books: map<int, BookEntity>, users: map<int, UserEntity>,
                                  moreUsers: map<int, UserEntity>)
    requires BooksReferenceUsers(books, users)
    requires users.Keys <= moreUsers.Keys
    ensures BooksReferenceUsers(books, moreUsers)
  {
  }

  /** Removing a user's books keeps every remaining book's owner stored. */
  lemma ReferencesKeptByRemoving(books: map<int, BookEntity>, users: map<int, UserEntity>, userId: int)
    requires BooksReferenceUsers(books, users)
    ensures BooksReferenceUsers(WithoutBooksOf(books, userId), users)
  {
  }

  /** Creating books for a stored user keeps referential integrity. */
  lemma ReferencesKeptByCreating(books: map<int, BookEntity>, users: map<int, UserEntity>, userId: int,
                                 requests: seq<BookRequest>, base: int)
    requires BooksReferenceUsers(books, users)
    requires userId in users
    ensures BooksReferenceUsers(books + CreatedBooks(requests, Some(userId), base), users)
  {
    CreatedBooksContents(requests, Some(userId), base);
  }

  /**
   * Replacing a user's books by new ones minted above every stored key leaves every book of
   * every other user exactly as it was, and adds no book of another user.
   */
  lemma OthersKeptByReplacing(books: map<int, BookEntity>, userId: int, requests: seq<BookRequest>, base: int)
    requires forall k :: k in books ==> k <= base
    ensures var after := WithoutBooksOf(books, userId) + CreatedBooks(requests, Some(userId), base);
      && (forall k :: k in books && books[k].userId != Some(userId) ==> k in after && after[k] == books[k])
      && (forall k :: k in after && after[k].userId != Some(userId) ==> k in books && after[k] == books[k])
  {
    CreatedBooksContents(requests, Some(userId), base);
  }

  /** One more creation adds exactly the next book of the run, under the next id. */
  lemma CreatedBooksStep(before: map<int, BookEntity>, requests: seq<BookRequest>, request: BookRequest,
                         userId: Option<int>, base: int, books: map<int, BookEntity>, id: int)
    requires books == before + CreatedBooks(requests, userId, base)
    requires id == base + |requests| + 1
    ensures books[id := NewBook(request, userId, id)] == before + CreatedBooks(requests + [request], userId, base)
  {
    CreatedBooksSnoc(requests, request, userId, base);
    UnionUpdate(before, CreatedBooks(requests, userId, base), id, NewBook(request, userId, id));
  }

  /** Saving a requested book stores it under the next counter value. */
  lemma SaveRequestedBook(t: BookTable, request: BookRequest, userId: Option<int>)
    ensures var id := t.idGenerator + 1;
      SaveBook(t, BookDtoToBookEntity(BookRequestToBookDto(request).(userId := userId)))
        == (BookTable(t.books[id := NewBook(request, userId, id)], id), NewBook(request, userId, id))
  {
  }

  lemma CreatedBooksSnoc(requests: seq<BookRequest>, request: BookRequest, userId: Option<int>, base: int)
    ensures var id := base + |requests| + 1;
      CreatedBooks(requests + [request], userId, base) == CreatedBooks(requests, userId, base)[id := NewBook(request, userId, id)]
  {
    assert (requests + [request])[..|requests|] == requests;
  }

  lemma UnionUpdate(a: map<int, BookEntity>, b: map<int, BookEntity>, k: int, v: BookEntity)
    ensures (a + b)[k := v] == a + b[k := v]
  {
  }

  /** One more deletion: removing the next id is removing one more element of the id list. */
  lemma RemovedStep(before: map<int, BookEntity>, ids: seq<int>, i: int)
    requires 0 <= i < |ids|
    ensures (before - Elems(ids[..i])) - {ids[i]} == before - Elems(ids[..i + 1])
  {
    assert Elems(ids[..i + 1]) == Elems(ids[..i]) + {ids[i]};
  }
}
