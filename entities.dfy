/**
 * The records of the application: stored entities, transfer objects, web requests
 * and responses, and the one failure the services raise.
 *
 * Identifiers are Java `Long` references, so they may be null: `Option<int>`.
 * Integer fields (`int age`, `long pageCount`) are only copied, never computed with,
 * so they are unbounded `int` here.
 */
module Entities {
  import opened Wrappers

  /** entity/UserEntity.java */
  datatype UserEntity = UserEntity(id: Option<int>, fullName: string, title: string, age: int)

  /** entity/BookEntity.java; `userId` refers to the owning user. */
  datatype BookEntity = BookEntity(id: Option<int>, userId: Option<int>, title: string, author: string, pageCount: int)

  /** dto/UserDto.java */
  datatype UserDto = UserDto(id: Option<int>, fullName: string, title: string, age: int)

  /** dto/BookDto.java */
  datatype BookDto = BookDto(id: Option<int>, userId: Option<int>, title: string, author: string, pageCount: int)

  /** A request to create a user: it carries no id. */
  datatype UserRequest = UserRequest(fullName: string, title: string, age: int)

  /** A request to update a user: it names the user by a (nullable) id. */
  datatype UserUpdateRequest = UserUpdateRequest(id: Option<int>, fullName: string, title: string, age: int)

  /** A request to create a book: it carries neither an id nor an owner. */
  datatype BookRequest = BookRequest(title: string, author: string, pageCount: int)

  /** A user together with its books; individual book requests may be null. */
  datatype UserBookRequest = UserBookRequest(userRequest: UserRequest, bookRequests: seq<Option<BookRequest>>)

  /** web/request/UserBookUpdateRequest.java */
  datatype UserBookUpdateRequest = UserBookUpdateRequest(userRequest: UserUpdateRequest, bookRequests: seq<Option<BookRequest>>)

  /** The facade's answer: the user's id and the ids of its books. */
  datatype UserBookResponse = UserBookResponse(userId: int, booksIdList: seq<int>)

  /** Which entity a lookup was for; it selects the "User with id N not found" or "Book with id N not found" message. */
  datatype EntityKind = User | Book

  /** NotFoundException, carrying the id that did not resolve (null included). */
  datatype Error = NotFound(kind: EntityKind, id: Option<int>)
}
