/**
 * Whole-application runs on a freshly wired store (two empty repositories behind one
 * storage, both services and the facade), with the exact answers the operations give.
 */
module Scenarios {
  import opened Wrappers
  import opened Entities
  import opened Collections
  import opened UserRepositories
  import opened BookRepositories
  import opened Storages
  import opened UserServices
  import opened BookServices
  import opened UserBooks
  import opened Facade

  /** The application as wired at start-up: both repositories empty, both counters at zero. */
  method NewApplication() returns (facade: UserDataFacade)
    ensures fresh(facade) && fresh(facade.userService) && fresh(facade.bookService)
    ensures fresh(facade.Users()) && fresh(facade.Books())
    ensures facade.Valid()
    ensures facade.Users().Table() == UserTable(map[], 0)
    ensures facade.Books().Table() == BookTable(map[], 0)
  {
    var userRepository := new UserRepository();
    var bookRepository := new BookRepository();
    var storage := new Storage(userRepository, bookRepository);
    var userService := new UserServiceImpl(storage);
    var bookService := new BookServiceImpl(storage);
    facade := new UserDataFacade(userService, bookService);
  }

  /**
   * The first user, created with two books and a null request between them, gets id 1 and
   * the books ids 1 and 2; looking the user up afterwards lists exactly those two books.
   */
  method CreateThenGet() returns (created: UserBookResponse, found: Result<UserBookResponse, Error>)
    ensures created == UserBookResponse(1, [1, 2])
    ensures found.Success? && found.value.userId == 1 && Elems(found.value.booksIdList) == {1, 2}
  {
    var facade := NewApplication();
    var first := BookRequest("War and Peace", "Tolstoy", 1225);
    var second := BookRequest("The Idiot", "Dostoevsky", 656);
    var requests: seq<Option<BookRequest>> := [Some(first), None, Some(second)];
    assert NonNull(requests) == [first, second] by {
      var none: Option<BookRequest> := None;
      assert requests[..2] == [Some(first), none];
      assert [Some(first), none][..1] == [Some(first)];
      assert [Some(first)][..0] == [];
      assert NonNull([Some(first)]) == [first];
      assert NonNull([Some(first), none]) == [first];
    }
    assert NewIds(0, 2) == [1, 2];
    created := facade.CreateUserWithBooks(UserBookRequest(UserRequest("Kirill", "reader", 50), requests));
    found := facade.GetUserWithBooks(Some(1));
  }

  /** Updating a user that was never stored fails with NotFound for that id. */
  method UpdateUnknownUser() returns (r: Result<UserBookResponse, Error>)
    ensures r == Failure(NotFound(User, Some(7)))
  {
    var facade := NewApplication();
    r := facade.UpdateUserWithBooks(
      UserBookUpdateRequest(UserUpdateRequest(Some(7), "Nobody", "reader", 30), []));
  }

  /** A fresh application after creating user 1 with the single book `request`, which gets id 1. */
  method ApplicationWithOneBook(request: BookRequest) returns (facade: UserDataFacade)
    ensures fresh(facade.Users()) && fresh(facade.Books())
    ensures facade.Valid()
    ensures facade.Users().users.Keys == {1}
    ensures facade.Books().Table() == BookTable(map[1 := NewBook(request, Some(1), 1)], 1)
  {
    facade := NewApplication();
    var requests: seq<Option<BookRequest>> := [Some(request)];
    assert requests[..0] == [] && [request][..0] == [];
    assert NonNull(requests) == [request];
    var created := facade.CreateUserWithBooks(UserBookRequest(UserRequest("Kirill", "reader", 50), requests));
  }

  /**
   * Updating replaces the user's books: the one book created with the user is gone and the
   * new one is stored under the next id, 2.
   */
  method UpdateReplacesBooks() returns (r: Result<UserBookResponse, Error>, stored: set<int>)
    ensures r == Success(UserBookResponse(1, [2]))
    ensures stored == {2}
  {
    var first := BookRequest("Anna Karenina", "Tolstoy", 864);
    var second := BookRequest("Demons", "Dostoevsky", 768);
    var facade := ApplicationWithOneBook(first);
    var requests: seq<Option<BookRequest>> := [Some(second)];
    assert requests[..0] == [] && [second][..0] == [];
    assert NonNull(requests) == [second];
    assert NewIds(1, 1) == [2];
    ghost var books := facade.Books().books;
    r := facade.UpdateUserWithBooks(UserBookUpdateRequest(UserUpdateRequest(Some(1), "Kirill", "writer", 51), requests));
    assert WithoutBooksOf(books, 1) == map[];
    assert facade.Books().books == map[2 := NewBook(second, Some(1), 2)];
    stored := facade.Books().books.Keys;
  }

  /** Deleting the user removes the user and every book of the user. */
  method DeleteUserAndBooks() returns (r: Outcome<Error>, users: set<int>, books: set<int>)
    ensures r == Pass && users == {} && books == {}
  {
    var facade := ApplicationWithOneBook(BookRequest("Fathers and Sons", "Turgenev", 226));
    r := facade.DeleteUserWithBooks(Some(1));
    users := facade.Users().users.Keys;
    books := facade.Books().books.Keys;
  }

  /** Asking a fresh store for a book fails with NotFound for that id. */
  method GetUnknownBook() returns (r: Result<BookDto, Error>)
    ensures r == Failure(NotFound(Book, Some(999)))
  {
    var facade := NewApplication();
    r := facade.bookService.GetBookById(Some(999));
  }

  /** Looking up the books of a null user id fails with NotFound for the null id. */
  method GetNullUser() returns (r: Result<UserBookResponse, Error>)
    ensures r == Failure(NotFound(User, None))
  {
    var facade := NewApplication();
    r := facade.GetUserWithBooks(None);
  }
}
