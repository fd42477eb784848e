/**
 * facade/UserDataFacade.java: the operations that touch users and books together. It keeps
 * referential integrity (every stored book's owner is a stored user) as part of its invariant.
 */
module Facade {
  import opened Wrappers
  import opened Entities
  import opened Mappers
  import opened Collections
  import opened UserRepositories
  import opened BookRepositories
  import opened UserServices
  import opened BookServices
  import opened UserBooks

  class UserDataFacade {
    const userService: UserServiceImpl
    const bookService: BookServiceImpl

    constructor (userService: UserServiceImpl, bookService: BookServiceImpl)
      ensures this.userService == userService && this.bookService == bookService
    {
      this.userService := userService;
      this.bookService := bookService;
    }

    /** The user repository behind the user service. */
    function Users(): UserRepository {
      userService.storage.userRepository
    }

    /** The book repository behind the book service. */
    function Books(): BookRepository {
      bookService.storage.bookRepository
    }

    ghost predicate Valid()
      reads Users(), Books()
    {
      userService.Valid() && bookService.Valid() && BooksReferenceUsers(Books().books, Users().users)
    }

    /**
     * Creates the user, then one book per non-null request in request order, each owned by
     * the new user; the new user owns exactly the returned book ids.
     */
    method CreateUserWithBooks(userBookRequest: UserBookRequest) returns (response: UserBookResponse)
      requires Valid()
      modifies Users(), Books()
      ensures Valid()
      ensures response.userId == Users().idGenerator == old(Users().idGenerator) + 1
      ensures response.userId !in old(Users().users)
      ensures Users().users == old(Users().users)[response.userId :=
        UserDtoToUserEntity(UserRequestToUserDto(userBookRequest.userRequest)).(id := Some(response.userId))]
      ensures var requests := NonNull(userBookRequest.bookRequests);
        var base := old(Books().idGenerator);
        && response.booksIdList == NewIds(base, |requests|)
        && Books().idGenerator == base + |requests|
        && Books().books == old(Books().books) + CreatedBooks(requests, Some(response.userId), base)
      ensures Elems(response.booksIdList) == OwnedBy(Books().books, response.userId)
    {
      var userDto := UserRequestToUserDto(userBookRequest.userRequest);
      var createdUser := userService.CreateUser(userDto);
      var bookIdList := CollectBookIdsFromBookRequests(createdUser, userBookRequest.bookRequests);
      response := UserBookResponse(createdUser.id.value, bookIdList);
      var requests := NonNull(userBookRequest.bookRequests);
      NoBooksOfAbsentUser(old(Books().books), old(Users().users), response.userId);
      OwnedAfterCreating(old(Books().books), response.userId, requests, old(Books().idGenerator));
      ReferencesKeptByMoreUsers(old(Books().books), old(Users().users), Users().users);
      ReferencesKeptByCreating(old(Books().books), Users().users, response.userId, requests, old(Books().idGenerator));
    }

    /**
     * Fails with NotFound, changing nothing, when the user is not stored. Otherwise the user's
     * books are replaced wholesale by the requested ones; the user record itself is written
     * back unchanged, and every other user's books are kept as they were.
     */
    method UpdateUserWithBooks(userBookRequest: UserBookUpdateRequest) returns (r: Result<UserBookResponse, Error>)
      requires Valid()
      modifies Users(), Books()
      ensures Valid()
      ensures Users().Table() == old(Users().Table())
      ensures r.Failure? <==> userBookRequest.userRequest.id.None? || userBookRequest.userRequest.id.value !in Users().users
      ensures r.Failure? ==>
        r.error == NotFound(User, userBookRequest.userRequest.id) && Books().Table() == old(Books().Table())
      ensures r.Success? ==>
        var userId := userBookRequest.userRequest.id.value;
        var requests := NonNull(userBookRequest.bookRequests);
        var base := old(Books().idGenerator);
        && r.value.userId == userId
        && r.value.booksIdList == NewIds(base, |requests|)
        && Books().idGenerator == base + |requests|
        && Books().books == WithoutBooksOf(old(Books().books), userId) + CreatedBooks(requests, Some(userId), base)
        && Elems(r.value.booksIdList) == OwnedBy(Books().books, userId)
        && (forall k :: k in old(Books().books) && old(Books().books)[k].userId != Some(userId) ==>
              k in Books().books && Books().books[k] == old(Books().books)[k])
        && (forall k :: k in Books().books && Books().books[k].userId != Some(userId) ==>
              k in old(Books().books) && Books().books[k] == old(Books().books)[k])
    {
      var userDto := UserUpdateRequestToUserDto(userBookRequest.userRequest);
      var updatedUser := userService.UpdateUser(userDto);
      if updatedUser.Failure? {
        return Failure(updatedUser.error);
      }
      var userId := userDto.id.value;
      DeleteAllBooksByUserId(userId);
      var bookIdList := CollectBookIdsFromBookRequests(updatedUser.value, userBookRequest.bookRequests);
      var requests := NonNull(userBookRequest.bookRequests);
      OwnedAfterCreating(WithoutBooksOf(old(Books().books), userId), userId, requests, old(Books().idGenerator));
      ReferencesKeptByRemoving(old(Books().books), Users().users, userId);
      ReferencesKeptByCreating(WithoutBooksOf(old(Books().books), userId), Users().users, userId, requests,
        old(Books().idGenerator));
      OthersKeptByReplacing(old(Books().books), userId, requests, old(Books().idGenerator));
      return Success(UserBookResponse(updatedUser.value.id.value, bookIdList));
    }

    /**
     * Removes exactly the books owned by `userId`: the ids are those of a snapshot of all books,
     * filtered by owner, and each is then handed to `deleteBookById`.
     */
    method DeleteAllBooksByUserId(userId: int)
      requires Valid()
      modifies Books()
      ensures Valid()
      ensures Books().Table() == BookTable(WithoutBooksOf(old(Books().books), userId), old(Books().idGenerator))
    {
      var allBooks := bookService.GetAllBooks();
      OwnedBookIdsOfSnapshot(allBooks, Books().books, userId);
      var ids := OwnedBookIds(allBooks, userId);
      DeleteBooksById(ids);
    }

    /** The `forEach(deleteBookById)` stage: removes every listed id, in order, and nothing else. */
    method DeleteBooksById(ids: seq<int>)
      requires Valid()
      modifies Books()
      ensures Valid()
      ensures Books().Table() == BookTable(old(Books().books) - Elems(ids), old(Books().idGenerator))
    {
      ghost var before := Books().books;
      assert Elems(ids[..0]) == {};
      var i := 0;
      while i < |ids|
        invariant 0 <= i <= |ids|
        invariant Valid()
        invariant Books().Table() == BookTable(before - Elems(ids[..i]), old(Books().idGenerator))
      {
        bookService.DeleteBookById(Some(ids[i]));
        RemovedStep(before, ids, i);
        i := i + 1;
      }
      assert ids[..|ids|] == ids;
    }

    /**
     * Creates one book per non-null request, in order, owned by `updatedUser`, and returns
     * their ids: successive counter values.
     */
    method CollectBookIdsFromBookRequests(updatedUser: UserDto, bookRequests: seq<Option<BookRequest>>)
      returns (bookIdList: seq<int>)
      requires bookService.Valid()
      modifies Books()
      ensures bookService.Valid()
      ensures var requests := NonNull(bookRequests);
        var base := old(Books().idGenerator);
        && bookIdList == NewIds(base, |requests|)
        && Books().idGenerator == base + |requests|
        && Books().books == old(Books().books) + CreatedBooks(requests, updatedUser.id, base)
    {
      var requests := NonNull(bookRequests);
      ghost var before := Books().books;
      ghost var base := Books().idGenerator;
      bookIdList := [];
      var i := 0;
      while i < |requests|
        invariant 0 <= i <= |requests|
        invariant bookService.Valid()
        invariant Books().idGenerator == base + i
        invariant Books().books == before + CreatedBooks(requests[..i], updatedUser.id, base)
        invariant bookIdList == NewIds(base, i)
      {
        var id := CreateOwnedBook(updatedUser, requests, i, before, base);
        NewIdsSnoc(base, i);
        bookIdList := bookIdList + [id];
        i := i + 1;
      }
      assert requests[..i] == requests;
    }

    /**
     * One element of that pipeline: map `requests[i]` to a DTO owned by `updatedUser`, create
     * it, and take its id. On top of the run so far, this adds the next book of the run under
     * the next counter value.
     */
    method CreateOwnedBook(updatedUser: UserDto, requests: seq<BookRequest>, i: int,
                           ghost before: map<int, BookEntity>, ghost base: nat)
      returns (id: int)
      requires 0 <= i < |requests|
      requires bookService.Valid()
      requires Books().idGenerator == base + i
      requires Books().books == before + CreatedBooks(requests[..i], updatedUser.id, base)
      modifies Books()
      ensures bookService.Valid()
      ensures id == Books().idGenerator == base + i + 1
      ensures Books().books == before + CreatedBooks(requests[..i + 1], updatedUser.id, base)
    {
      var bookDto := BookRequestToBookDto(requests[i]).(userId := updatedUser.id);
      ghost var books := Books().books;
      SaveRequestedBook(Books().Table(), requests[i], updatedUser.id);
      var createdBook := bookService.CreateBook(bookDto);
      id := createdBook.id.value;
      CreatedBooksStep(before, requests[..i], requests[i], updatedUser.id, base, books, id);
      assert requests[..i + 1] == requests[..i] + [requests[i]];
    }

    /**
     * Fails with NotFound when the id is null or no user is stored under it; otherwise the ids
     * of all of the user's books, each once.
     */
    method GetUserWithBooks(userId: Option<int>) returns (r: Result<UserBookResponse, Error>)
      requires Valid()
      ensures r.Failure? <==> userId.None? || userId.value !in Users().users
      ensures r.Failure? ==> r.error == NotFound(User, userId)
      ensures r.Success? ==>
        && r.value.userId == userId.value
        && Elems(r.value.booksIdList) == OwnedBy(Books().books, userId.value)
        && (forall i, j :: 0 <= i < j < |r.value.booksIdList| ==> r.value.booksIdList[i] != r.value.booksIdList[j])
    {
      var foundUser := userService.GetUserById(userId);
      if foundUser.Failure? {
        return Failure(foundUser.error);
      }
      var allBooks := bookService.GetAllBooks();
      OwnedBookIdsOfSnapshot(allBooks, Books().books, userId.value);
      var booksIdList := OwnedBookIds(allBooks, userId.value);
      return Success(UserBookResponse(foundUser.value.id.value, booksIdList));
    }

    /**
     * Fails with NotFound, deleting nothing, when the id is null or no user is stored under
     * it. Otherwise removes the user's books and then the user; every other user and book is kept.
     */
    method DeleteUserWithBooks(userId: Option<int>) returns (r: Outcome<Error>)
      requires Valid()
      modifies Users(), Books()
      ensures Valid()
      ensures r.Fail? <==> userId.None? || userId.value !in old(Users().users)
      ensures r.Fail? ==>
        && r.error == NotFound(User, userId)
        && Users().Table() == old(Users().Table())
        && Books().Table() == old(Books().Table())
      ensures r.Pass? ==>
        && Users().Table() == DeleteUser(old(Users().Table()), userId.value)
        && Books().Table() == BookTable(WithoutBooksOf(old(Books().books), userId.value), old(Books().idGenerator))
    {
      var foundUser := userService.GetUserById(userId);
      if foundUser.Failure? {
        return Fail(foundUser.error);
      }
      DeleteAllBooksByUserId(userId.value);
      userService.DeleteUserById(userId);
      return Pass;
    }
  }
}
