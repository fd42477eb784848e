/**
 * service/impl/UserServiceImpl.java: user operations over the user repository, raising
 * NotFound where a user must exist. Its frame is the user repository alone.
 */
module UserServices {
  import opened Wrappers
  import opened Entities
  import opened Mappers
  import opened UserRepositories
  import opened Storages

  class UserServiceImpl {
    const storage: Storage

    constructor (storage: Storage)
      ensures this.storage == storage
    {
      this.storage := storage;
    }

    ghost predicate Valid()
      reads storage.userRepository
    {
      storage.userRepository.Valid()
    }

    /** Saves the mapped user; a user without an id receives a fresh one and is then stored. */
    method CreateUser(userDto: UserDto) returns (created: UserDto)
      requires Valid()
      modifies storage.userRepository
      ensures Valid()
      ensures var (t, saved) := SaveUser(old(storage.userRepository.Table()), UserDtoToUserEntity(userDto));
        storage.userRepository.Table() == t && created == UserEntityToUserDto(saved)
      ensures userDto.id.None? ==>
        && created.id == Some(storage.userRepository.idGenerator)
        && created.id.value !in old(storage.userRepository.users)
        && storage.userRepository.users[created.id.value] == UserDtoToUserEntity(created)
    {
      var userRepository := storage.userRepository;
      var userEntity := UserDtoToUserEntity(userDto);
      var savedUser := userRepository.Save(userEntity);
      created := UserEntityToUserDto(savedUser);
    }

    /**
     * Looks the user up (NotFound when absent) and saves the FOUND user back, so the DTO's
     * field values are not written and stored state never changes.
     */
    method UpdateUser(userDto: UserDto) returns (r: Result<UserDto, Error>)
      requires Valid()
      modifies storage.userRepository
      ensures Valid()
      ensures storage.userRepository.Table() == old(storage.userRepository.Table())
      ensures r.Failure? <==> userDto.id.None? || userDto.id.value !in storage.userRepository.users
      ensures r.Failure? ==> r.error == NotFound(User, userDto.id)
      ensures r.Success? ==>
        r.value == UserEntityToUserDto(storage.userRepository.users[userDto.id.value]) && r.value.id == userDto.id
    {
      var userRepository := storage.userRepository;
      var foundUser := FindUserById(userDto.id);
      if foundUser.Failure? {
        return Failure(foundUser.error);
      }
      SaveStoredUserIsNoOp(userRepository.Table(), userDto.id.value);
      var updatedUser := userRepository.Save(foundUser.value);
      return Success(UserEntityToUserDto(updatedUser));
    }

    /** NotFound when no user is stored under the id, and always for a null id. */
    method GetUserById(id: Option<int>) returns (r: Result<UserDto, Error>)
      requires Valid()
      ensures r.Failure? <==> id.None? || id.value !in storage.userRepository.users
      ensures r.Failure? ==> r.error == NotFound(User, id)
      ensures r.Success? ==> r.value == UserEntityToUserDto(storage.userRepository.users[id.value]) && r.value.id == id
    {
      var foundUser := FindUserById(id);
      if foundUser.Failure? {
        return Failure(foundUser.error);
      }
      return Success(UserEntityToUserDto(foundUser.value));
    }

    /** Removes the user when it exists; an absent or null id is no error and no change. */
    method DeleteUserById(id: Option<int>)
      requires Valid()
      modifies storage.userRepository
      ensures Valid()
      ensures id.Some? ==> storage.userRepository.Table() == DeleteUser(old(storage.userRepository.Table()), id.value)
      ensures id.None? ==> storage.userRepository.Table() == old(storage.userRepository.Table())
    {
      var userRepository := storage.userRepository;
      var present := userRepository.ExistsById(id);
      if present {
        userRepository.DeleteById(id);
      }
    }

    /** `findById(...).orElseThrow(NotFound)`; a null id finds nothing, as no user is stored under null. */
    method FindUserById(id: Option<int>) returns (r: Result<UserEntity, Error>)
      requires Valid()
      ensures r.Success? <==> id.Some? && id.value in storage.userRepository.users
      ensures r.Success? ==> r.value == storage.userRepository.users[id.value] && r.value.id == id
      ensures r.Failure? ==> r.error == NotFound(User, id)
    {
      var found := storage.userRepository.FindById(id);
      match found
      case Some(user) => return Success(user);
      case None => return Failure(NotFound(User, id));
    }
  }
}
