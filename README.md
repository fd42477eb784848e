# User and book store, modelled in Dafny

This project models the core of a small Spring back end. The back end keeps users and their
books in memory and serves them through a facade:

- **Repositories.** `UserRepository` and `BookRepository` each hold a map from id to entity
  and a counter. `save` gives an entity without an id the next counter value. It replaces an
  entity that has an id, but only when that id is already stored. `findById`, `findAll`,
  `deleteById`, `delete` and `existsById` read or remove entries.
- **Services.** `UserServiceImpl` and `BookServiceImpl` map DTOs to entities and call the
  repository. A lookup of a missing id throws `NotFoundException`; the model returns a
  `Failure(NotFound(kind, id))` value instead. Deleting a missing id changes nothing.
- **Facade.** `UserDataFacade` creates a user together with books, replaces a user's books,
  lists a user's book ids, and deletes a user with their books. Each book request that is
  not null becomes one book owned by the user, and the ids come back in request order.
- **Mappers.** The MapStruct mappers copy fields one for one.

The Dafny modules follow that structure:

- `Wrappers` holds `Option`, `Result` and `Outcome`.
- `Entities` holds the records and the `NotFound` error.
- `Mappers` holds the mappers.
- `UserRepositories` and `BookRepositories` hold the repository classes. Each class is proved
  against pure transition functions: `SaveUser`/`DeleteUser` and `SaveBook`/`DeleteBook`.
- `Storages` holds the holder of both repositories.
- `UserServices` and `BookServices` hold the services.
- `UserBooks` holds pure functions that specify the facade's stream pipelines. It also holds
  the referential-integrity invariant: every stored book belongs to a stored user.
- `Facade` holds the facade.
- `Scenarios` holds whole-application runs with exact answers.

**Updates store nothing new.** `updateUser` and `updateBook` do not store the DTO's new
field values. They look the entity up by the DTO's id and save the *found* entity back
(service/impl/UserServiceImpl.java:36-37, service/impl/BookServiceImpl.java:38-39), so the
stored data never changes. `UpdateUser` and `UpdateBook` promise an unchanged table, and
`SaveStoredUserIsNoOp` and `SaveStoredBookIsNoOp` prove why. `updateUserWithBooks` therefore
replaces only the user's books.

**Null ids.** Every id the source takes is a nullable `Long`, and the model takes
`Option<int>` wherever a caller can pass one. The injected map is taken to have no null
key (see "## Left out"), so a lookup by a null id fails with NotFound, and a delete by a null
id changes nothing.

## Model

| member | source | states |
|---|---|---|
| UserRepositories.SaveUser | src/main/java/com/edu/ulab/app/storage/repository/UserRepository.java:21-30 | An entity without an id gets counter+1, which is greater than every stored key, and is stored under it. An entity with a stored id replaces that entry. An entity with an unstored id changes nothing. The table invariant is kept. |
| UserRepositories.DeleteUser | src/main/java/com/edu/ulab/app/storage/repository/UserRepository.java:46-48 | Only that key is removed. Every other entry and the counter are kept. An absent key changes nothing. |
| UserRepositories.DeleteUserIdempotent | src/main/java/com/edu/ulab/app/storage/repository/UserRepository.java:46-48 | Removing twice is the same as removing once. |
| UserRepositories.SaveStoredUserIsNoOp | src/main/java/com/edu/ulab/app/storage/repository/UserRepository.java:21-30 | Saving a stored user back unchanged leaves the table and the returned entity as they were. |
| UserRepositories.UserRepository.constructor | src/main/java/com/edu/ulab/app/storage/repository/UserRepository.java:16-18 | The store starts empty with the counter at 0. |
| UserRepositories.UserRepository.Save | src/main/java/com/edu/ulab/app/storage/repository/UserRepository.java:21-30 | The new state and the result are those of SaveUser, and the invariant is kept. |
| UserRepositories.UserRepository.FindById | src/main/java/com/edu/ulab/app/storage/repository/UserRepository.java:33-38 | Finds a user exactly when the id is not null and is stored, and that user carries the id. A null id finds nothing. |
| UserRepositories.UserRepository.FindAll | src/main/java/com/edu/ulab/app/storage/repository/UserRepository.java:41-43 | Lists every stored user exactly once, in some order. |
| UserRepositories.UserRepository.DeleteById | src/main/java/com/edu/ulab/app/storage/repository/UserRepository.java:46-48 | The new state is DeleteUser of the old one. A null id changes nothing. |
| UserRepositories.UserRepository.Delete | src/main/java/com/edu/ulab/app/storage/repository/UserRepository.java:51-53 | Removes by the entity's id. A null id removes nothing. |
| UserRepositories.UserRepository.ExistsById | src/main/java/com/edu/ulab/app/storage/repository/UserRepository.java:55-57 | True exactly when the id is not null and is stored. |
| BookRepositories.SaveBook | src/main/java/com/edu/ulab/app/storage/repository/BookRepository.java:21-30 | Same as SaveUser, for books. |
| BookRepositories.DeleteBook | src/main/java/com/edu/ulab/app/storage/repository/BookRepository.java:46-48 | Only that key is removed. Every other entry and the counter are kept. An absent key changes nothing. |
| BookRepositories.DeleteBookIdempotent | src/main/java/com/edu/ulab/app/storage/repository/BookRepository.java:46-48 | Removing twice is the same as removing once. |
| BookRepositories.SaveStoredBookIsNoOp | src/main/java/com/edu/ulab/app/storage/repository/BookRepository.java:21-30 | Saving a stored book back unchanged leaves the table and the returned entity as they were. |
| BookRepositories.BookRepository.constructor | src/main/java/com/edu/ulab/app/storage/repository/BookRepository.java:16-18 | The store starts empty with the counter at 0. |
| BookRepositories.BookRepository.Save | src/main/java/com/edu/ulab/app/storage/repository/BookRepository.java:21-30 | The new state and the result are those of SaveBook, and the invariant is kept. |
| BookRepositories.BookRepository.FindById | src/main/java/com/edu/ulab/app/storage/repository/BookRepository.java:33-38 | Finds a book exactly when the id is not null and is stored, and that book carries the id. A null id finds nothing. |
| BookRepositories.BookRepository.FindAll | src/main/java/com/edu/ulab/app/storage/repository/BookRepository.java:41-43 | Lists every stored book exactly once, in some order. |
| BookRepositories.BookRepository.DeleteById | src/main/java/com/edu/ulab/app/storage/repository/BookRepository.java:46-48 | The new state is DeleteBook of the old one. A null id changes nothing. |
| BookRepositories.BookRepository.Delete | src/main/java/com/edu/ulab/app/storage/repository/BookRepository.java:51-53 | Removes by the entity's id. A null id removes nothing. |
| BookRepositories.BookRepository.ExistsById | src/main/java/com/edu/ulab/app/storage/repository/BookRepository.java:55-57 | True exactly when the id is not null and is stored. |
| Storages.Storage.constructor | src/main/java/com/edu/ulab/app/storage/Storage.java:21-22 | Holds the two given repositories. |
| Mappers.UserRequestToUserDto | src/main/java/com/edu/ulab/app/mapper/UserMapper.java:11 | A create request maps to a DTO with a null id. |
| Mappers.UserUpdateRequestToUserDto | src/main/java/com/edu/ulab/app/mapper/UserMapper.java:15 | An update request keeps its id. |
| Mappers.UserEntityToUserDto | src/main/java/com/edu/ulab/app/mapper/UserMapper.java:21 | The DTO carries the entity's id. |
| Mappers.UserEntityRoundTrip | src/main/java/com/edu/ulab/app/mapper/UserMapper.java:19-21 | Mapping an entity to a DTO and back gives the same entity. |
| Mappers.UserDtoToUserEntity | src/main/java/com/edu/ulab/app/mapper/UserMapper.java:19-21 | Entity to DTO undoes DTO to entity, and the id is kept. |
| Mappers.BookRequestToBookDto | src/main/java/com/edu/ulab/app/facade/UserDataFacade.java:88 | A book request maps to a DTO with a null id and a null owner. |
| Mappers.BookEntityToBookDto | src/main/java/com/edu/ulab/app/service/impl/BookServiceImpl.java:31 | The DTO carries the entity's id and owner. |
| Mappers.BookEntityRoundTrip | src/main/java/com/edu/ulab/app/service/impl/BookServiceImpl.java:29-31 | Mapping a book entity to a DTO and back gives the same entity. |
| Mappers.BookDtoToBookEntity | src/main/java/com/edu/ulab/app/service/impl/BookServiceImpl.java:29-31 | Entity to DTO undoes DTO to entity, and the id and owner are kept. |
| UserServices.UserServiceImpl.constructor | src/main/java/com/edu/ulab/app/service/impl/UserServiceImpl.java:16-21 | Holds the given storage. |
| UserServices.UserServiceImpl.CreateUser | src/main/java/com/edu/ulab/app/service/impl/UserServiceImpl.java:24-30 | Follows SaveUser on the mapped entity. A new user gets a fresh id, is stored under it, and comes back as a DTO with that id. |
| UserServices.UserServiceImpl.UpdateUser | src/main/java/com/edu/ulab/app/service/impl/UserServiceImpl.java:33-39 | Fails with NotFound for the DTO's id exactly when that id is null or not stored. Otherwise it returns the stored user. Either way the table is unchanged. |
| UserServices.UserServiceImpl.GetUserById | src/main/java/com/edu/ulab/app/service/impl/UserServiceImpl.java:42-47 | Fails with NotFound for the id exactly when the id is null or not stored. Otherwise it returns that user's DTO. |
| UserServices.UserServiceImpl.DeleteUserById | src/main/java/com/edu/ulab/app/service/impl/UserServiceImpl.java:50-56 | The new table is DeleteUser of the old one, so a missing id changes nothing. A null id changes nothing either. |
| UserServices.UserServiceImpl.FindUserById | src/main/java/com/edu/ulab/app/service/impl/UserServiceImpl.java:58-62 | Succeeds exactly when the id is not null and is stored, and returns that entity. Otherwise it fails with NotFound for the id. |
| BookServices.BookServiceImpl.constructor | src/main/java/com/edu/ulab/app/service/impl/BookServiceImpl.java:18-23 | Holds the given storage. |
| BookServices.DtosOfSnapshot | src/main/java/com/edu/ulab/app/service/impl/BookServiceImpl.java:52-59 | Mapping a snapshot of the entities gives each stored book's DTO exactly once. |
| BookServices.BookServiceImpl.CreateBook | src/main/java/com/edu/ulab/app/service/impl/BookServiceImpl.java:26-32 | Follows SaveBook on the mapped entity. A new book gets a fresh id and keeps its owner. |
| BookServices.BookServiceImpl.UpdateBook | src/main/java/com/edu/ulab/app/service/impl/BookServiceImpl.java:35-41 | Fails with NotFound for the DTO's id exactly when that id is null or not stored. Otherwise it returns the stored book. Either way the table is unchanged. |
| BookServices.BookServiceImpl.GetBookById | src/main/java/com/edu/ulab/app/service/impl/BookServiceImpl.java:44-49 | Fails with NotFound for the id exactly when the id is null or not stored. Otherwise it returns that book's DTO. |
| BookServices.BookServiceImpl.GetAllBooks | src/main/java/com/edu/ulab/app/service/impl/BookServiceImpl.java:52-59 | Returns each stored book's DTO exactly once. |
| BookServices.BookServiceImpl.DeleteBookById | src/main/java/com/edu/ulab/app/service/impl/BookServiceImpl.java:62-68 | The new table is DeleteBook of the old one, so a missing id changes nothing. A null id changes nothing either. |
| BookServices.BookServiceImpl.FindBookById | src/main/java/com/edu/ulab/app/service/impl/BookServiceImpl.java:70-74 | Succeeds exactly when the id is not null and is stored. Otherwise it fails with NotFound for the id. |
| UserBooks.NonNull | src/main/java/com/edu/ulab/app/facade/UserDataFacade.java:87 | The filter never lengthens the list. NonNullMembers and NonNullAppend give its contents and order. |
| UserBooks.NonNullMembers | src/main/java/com/edu/ulab/app/facade/UserDataFacade.java:87 | Filtering out nulls keeps exactly the requests that were present. |
| UserBooks.NonNullAppend | src/main/java/com/edu/ulab/app/facade/UserDataFacade.java:87 | Filtering out nulls distributes over concatenation. |
| UserBooks.NewBook | src/main/java/com/edu/ulab/app/facade/UserDataFacade.java:88-91 | The book created from a request has the given id and owner. |
| UserBooks.CreatedBooksContents | src/main/java/com/edu/ulab/app/facade/UserDataFacade.java:85-95 | The books created by one run sit under exactly the next n counter values. The k-th request becomes the book under base+k, with the given owner. |
| UserBooks.NewIds | src/main/java/com/edu/ulab/app/facade/UserDataFacade.java:93-94 | The returned id list has one entry per created book. |
| UserBooks.NewIdsValues | src/main/java/com/edu/ulab/app/facade/UserDataFacade.java:93-94 | The i-th returned id is base+i+1. |
| UserBooks.NewIdsIncreasing | src/main/java/com/edu/ulab/app/facade/UserDataFacade.java:93-94 | The returned ids are strictly increasing and are exactly base+1 through base+n. |
| UserBooks.OwnedBookIds | src/main/java/com/edu/ulab/app/facade/UserDataFacade.java:103-107 | An id is in the filtered list exactly when some listed book with that id belongs to the user. |
| UserBooks.OwnedBookIdsDistinct | src/main/java/com/edu/ulab/app/facade/UserDataFacade.java:103-107 | Filtering a list with distinct ids gives distinct ids. |
| UserBooks.OwnedBookIdsOfSnapshot | src/main/java/com/edu/ulab/app/facade/UserDataFacade.java:77-83 | Filtering a snapshot of all books by owner gives each of the user's stored books exactly once. |
| UserBooks.OwnedAfterCreating | src/main/java/com/edu/ulab/app/facade/UserDataFacade.java:37-53 | When the user owned nothing before, they own exactly the newly created ids afterwards. |
| UserBooks.NoBooksOfAbsentUser | src/main/java/com/edu/ulab/app/facade/UserDataFacade.java:42-46 | Under referential integrity, a user that is not stored owns no book. A freshly created user therefore starts with none. |
| UserBooks.ReferencesKeptByMoreUsers | src/main/java/com/edu/ulab/app/facade/UserDataFacade.java:42 | Adding users keeps referential integrity. |
| UserBooks.ReferencesKeptByRemoving | src/main/java/com/edu/ulab/app/facade/UserDataFacade.java:77-83 | Removing one user's books keeps referential integrity. |
| UserBooks.ReferencesKeptByCreating | src/main/java/com/edu/ulab/app/facade/UserDataFacade.java:85-95 | Creating books owned by a stored user keeps referential integrity. |
| UserBooks.OthersKeptByReplacing | src/main/java/com/edu/ulab/app/facade/UserDataFacade.java:63-68 | Replacing one user's books leaves every other user's books exactly as they were, in both directions. |
| UserBooks.CreatedBooksStep | src/main/java/com/edu/ulab/app/facade/UserDataFacade.java:91 | Storing the next book under the next id extends the run's result by one request. |
| UserBooks.SaveRequestedBook | src/main/java/com/edu/ulab/app/service/impl/BookServiceImpl.java:29-31 | Saving a mapped request stores NewBook under counter+1 and returns it. |
| Facade.UserDataFacade.constructor | src/main/java/com/edu/ulab/app/facade/UserDataFacade.java:27-35 | Holds the two given services. |
| Facade.UserDataFacade.CreateUserWithBooks | src/main/java/com/edu/ulab/app/facade/UserDataFacade.java:37-53 | The user is stored under a fresh id. One book per non-null request is created under the next counter values, owned by that user. The response lists those ids in order, and they are exactly the user's books. Integrity is kept. |
| Facade.UserDataFacade.UpdateUserWithBooks | src/main/java/com/edu/ulab/app/facade/UserDataFacade.java:55-75 | Fails with NotFound, changing nothing, exactly when the user id is null or not stored. Otherwise the user's books are replaced by the requested ones, and the response ids are exactly the user's books. Every other user's books and the user record are unchanged. |
| Facade.UserDataFacade.DeleteAllBooksByUserId | src/main/java/com/edu/ulab/app/facade/UserDataFacade.java:77-83 | Removes exactly the user's books and keeps the counter. |
| Facade.UserDataFacade.DeleteBooksById | src/main/java/com/edu/ulab/app/facade/UserDataFacade.java:82 | Deleting each listed id in turn removes exactly the listed ids. |
| Facade.UserDataFacade.CollectBookIdsFromBookRequests | src/main/java/com/edu/ulab/app/facade/UserDataFacade.java:85-95 | Creates one book per non-null request, in order, owned by the given user. Returns the successive counter values as their ids. |
| Facade.UserDataFacade.CreateOwnedBook | src/main/java/com/edu/ulab/app/facade/UserDataFacade.java:88-93 | One pipeline element: adds the next request's book under the next counter value and returns that id. |
| Facade.UserDataFacade.GetUserWithBooks | src/main/java/com/edu/ulab/app/facade/UserDataFacade.java:97-114 | Fails with NotFound for the id exactly when the id is null or no user is stored under it. Otherwise it lists each of the user's books exactly once. |
| Facade.UserDataFacade.DeleteUserWithBooks | src/main/java/com/edu/ulab/app/facade/UserDataFacade.java:116-120 | Fails with NotFound, changing nothing, exactly when the id is null or no user is stored under it. Otherwise it removes the user and exactly their books. |
| Scenarios.NewApplication | src/main/java/com/edu/ulab/app/storage/Storage.java:21-22 | A freshly wired application has two empty stores with counters at 0, and satisfies the invariant. |
| Scenarios.CreateThenGet | src/main/java/com/edu/ulab/app/facade/UserDataFacade.java:37-53 | The first user, created with requests [book, null, book], gets id 1 and books [1, 2]. A later lookup lists exactly those books. |
| Scenarios.UpdateUnknownUser | src/main/java/com/edu/ulab/app/facade/UserDataFacade.java:55-75 | Updating a user id that was never stored fails with NotFound for that id. |
| Scenarios.ApplicationWithOneBook | src/main/java/com/edu/ulab/app/facade/UserDataFacade.java:37-53 | After creating user 1 with one book, the book store holds exactly that book under id 1. |
| Scenarios.UpdateReplacesBooks | src/main/java/com/edu/ulab/app/facade/UserDataFacade.java:55-75 | An update with one new book removes the old book and stores the new one under id 2. |
| Scenarios.DeleteUserAndBooks | src/main/java/com/edu/ulab/app/facade/UserDataFacade.java:116-120 | Deleting the only user leaves both stores empty. |
| Scenarios.GetUnknownBook | src/main/java/com/edu/ulab/app/service/impl/BookServiceImpl.java:44-49 | Asking an empty store for a book fails with NotFound for that id. |
| Scenarios.GetNullUser | src/main/java/com/edu/ulab/app/facade/UserDataFacade.java:97-101 | Asking for the books of a null user id fails with NotFound for the null id. |

## Left out

- The id counter is an unbounded `nat`. The source's `long` would wrap around after 2^63 saves; that is not modelled.
- Concurrency is not modelled. The model runs one call at a time on the injected `Map`s.
- The class of the injected map is not shown. The model assumes a HashMap-like map: it has no null key, `containsKey(null)` is false and `remove(null)` does nothing. A map that throws on a null key (a `ConcurrentHashMap` or `TreeMap`, say) would make the null-id paths of `FindById`, `ExistsById`, `DeleteById`, `GetUserById`, `GetBookById` and `GetUserWithBooks` throw `NullPointerException` instead.
- Logging (`log.info`) has no effect on state and is left out.
- The JDBC-template service variants (`UserServiceImplTemplate`, `BookServiceImplTemplate`) are left out, because they talk to a database.
- The web layer is left out, along with the exception handler that turns `NotFoundException` into an HTTP response.
- `NotFoundException` is modelled as a `Failure`/`Fail` value returned to the caller. The exception's message text is not modelled.
- Null request objects, null book-request lists and null entities passed to `save` are not modelled: the inputs are values. Null ids and null elements of the book-request list are modelled.
- UserBooks.OwnedBookIds: requires every listed book to have an id and an owner. In the source, a stored book with a null owner would make `book.getUserId().equals(...)` throw. The facade's invariant rules such a book out, because every stored book's owner is a stored user.
- The iteration order of the injected `Map`'s `values()` in `findAll` is not modelled. The result is any order with each entry exactly once.
- Streams are lazy in the source. The model filters out the null requests first and then creates the books in a loop. Mapping and filtering are pure, so the effects and their order are the same.
- The source has no transactions. The model does not roll back either: `updateUserWithBooks` deletes the books before it creates the new ones, just as the source does.
- mapper/BookMapper.java is not part of this model. The book mappers are modelled as field-for-field copies, matching `UserMapper`'s MapStruct declarations.
- Entities are values in the model. The source's `save` sets the id on the entity it is given and returns that same object. `createUser` and `createBook` read the returned object only to build a DTO, so the model returns the saved value instead. Aliasing between stored entities and returned ones is not modelled.
- The repository constructors start from an empty map that no one else holds. The source does not create the map: it receives it through the generated constructor (storage/repository/UserRepository.java:13,18 and storage/repository/BookRepository.java:13,18). A map that is already filled, or shared with other code, is not modelled.
