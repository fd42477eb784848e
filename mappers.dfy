/**
 * The MapStruct mappers (mapper/UserMapper.java and its book counterpart): field-for-field
 * copies with no logic. A field the source shape lacks comes out null.
 */
module Mappers {
  import opened Wrappers
  import opened Entities

  function UserRequestToUserDto(r: UserRequest): (d: UserDto)
    ensures d.id.None?
  {
    UserDto(None, r.fullName, r.title, r.age)
  }

  function UserUpdateRequestToUserDto(r: UserUpdateRequest): (d: UserDto)
    ensures d.id == r.id
  {
    UserDto(r.id, r.fullName, r.title, r.age)
  }

  function UserEntityToUserDto(e: UserEntity): (d: UserDto)
    ensures d.id == e.id
  {
    UserDto(e.id, e.fullName, e.title, e.age)
  }

  /** The two user mappings are mutually inverse: nothing is lost on the way to storage and back. */
  function UserDtoToUserEntity(d: UserDto): (e: UserEntity)
    ensures UserEntityToUserDto(e) == d
    ensures e.id == d.id
  {
    UserEntity(d.id, d.fullName, d.title, d.age)
  }

  /** The other direction: an entity mapped to a DTO and back is unchanged. */
  lemma UserEntityRoundTrip(e: UserEntity)
    ensures UserDtoToUserEntity(UserEntityToUserDto(e)) == e
  {
  }

  function BookRequestToBookDto(r: BookRequest): (d: BookDto)
    ensures d.id.None? && d.userId.None?
  {
    BookDto(None, None, r.title, r.author, r.pageCount)
  }

  function BookEntityToBookDto(e: BookEntity): (d: BookDto)
    ensures d.id == e.id && d.userId == e.userId
  {
    BookDto(e.id, e.userId, e.title, e.author, e.pageCount)
  }

  /** The two book mappings are mutually inverse. */
  function BookDtoToBookEntity(d: BookDto): (e: BookEntity)
    ensures BookEntityToBookDto(e) == d
    ensures e.id == d.id && e.userId == d.userId
  {
    BookEntity(d.id, d.userId, d.title, d.author, d.pageCount)
  }

  /** The other direction: a book entity mapped to a DTO and back is unchanged. */
  lemma BookEntityRoundTrip(e: BookEntity)
    ensures BookDtoToBookEntity(BookEntityToBookDto(e)) == e
  {
  }
}
