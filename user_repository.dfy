/**
 * The in-memory user store (storage/repository/UserRepository.java): a map from id to
 * user plus a counter from which new ids are minted.
 */
module UserRepositories {
  import opened Wrappers
  import opened Entities
  import opened Collections

  /** The store's state as a value: the map and the counter. */
  datatype UserTable = UserTable(users: map<int, UserEntity>, idGenerator: nat) {
    /** Every key was minted by the counter, and the user stored under a key carries that key as its id. */
    ghost predicate Valid() {
      forall k :: k in users ==> 1 <= k <= idGenerator && users[k].id == Some(k)
    }
  }

  /**
   * `save`: the table afterwards and the user returned. A user without an id gets the next
   * counter value, which no stored user has; a user with an id overwrites the stored one
   * (`Map.replace`), and when that id is not stored nothing changes at all.
   */
  function SaveUser(t: UserTable, userEntity: UserEntity): (r: (UserTable, UserEntity))
    ensures t.Valid() ==> r.0.Valid()
    ensures userEntity.id.None? ==>
      && r.0.idGenerator == t.idGenerator + 1
      && r.1 == userEntity.(id := Some(r.0.idGenerator))
      && r.0.users == t.users[r.0.idGenerator := r.1]
    ensures userEntity.id.None? && t.Valid() ==>
      forall k :: k in t.users ==> k < r.0.idGenerator
    ensures userEntity.id.Some? ==> r.1 == userEntity && r.0.idGenerator == t.idGenerator
    ensures userEntity.id.Some? && userEntity.id.value in t.users ==>
      r.0.users == t.users[userEntity.id.value := userEntity]
    ensures userEntity.id.Some? && userEntity.id.value !in t.users ==> r.0 == t
  {
    match userEntity.id
    case None =>
      var id := t.idGenerator + 1;
      var saved := userEntity.(id := Some(id));
      (UserTable(t.users[id := saved], id), saved)
    case Some(id) =>
      var users := if id in t.users then t.users[id := userEntity] else t.users;
      (UserTable(users, t.idGenerator), userEntity)
  }

  /** `deleteById`: only that key goes, and an absent key is no change. */
  function DeleteUser(t: UserTable, id: int): (r: UserTable)
    ensures t.Valid() ==> r.Valid()
    ensures r.idGenerator == t.idGenerator
    ensures id !in r.users
    ensures forall k :: k in t.users && k != id ==> k in r.users && r.users[k] == t.users[k]
    ensures r.users.Keys <= t.users.Keys
    ensures id !in t.users ==> r == t
  {
    UserTable(t.users - {id}, t.idGenerator)
  }

  /** Deleting twice is the same as deleting once. */
  lemma DeleteUserIdempotent(t: UserTable, id: int)
    ensures DeleteUser(DeleteUser(t, id), id) == DeleteUser(t, id)
  {
  }

  /** Saving a stored user back unchanged leaves the table as it was. */
  lemma SaveStoredUserIsNoOp(t: UserTable, id: int)
    requires t.Valid() && id in t.users
    ensures SaveUser(t, t.users[id]) == (t, t.users[id])
  {
    assert t.users[id := t.users[id]] == t.users;
  }

  /** `findAll`'s result: each stored user exactly once, in no particular order. */
  ghost predicate IsSnapshot(all: seq<UserEntity>, users: map<int, UserEntity>) {
    && |all| == |users|
    && (forall i :: 0 <= i < |all| ==> all[i].id.Some? && all[i].id.value in users && users[all[i].id.value] == all[i])
    && (forall k :: k in users ==> users[k] in all)
    && (forall i, j :: 0 <= i < j < |all| ==> all[i].id != all[j].id)
  }

  class UserRepository {
    var idGenerator: nat
    var users: map<int, UserEntity>

    function Table(): UserTable
      reads this
    {
      UserTable(users, idGenerator)
    }

    ghost predicate Valid()
      reads this
    {
      Table().Valid()
    }

    constructor ()
      ensures Valid() && users == map[] && idGenerator == 0
    {
      idGenerator := 0;
      users := map[];
    }

    method Save(userEntity: UserEntity) returns (saved: UserEntity)
      requires Valid()
      modifies this
      ensures Valid()
      ensures (Table(), saved) == SaveUser(old(Table()), userEntity)
    {
      var userId := userEntity.id;
      if userId.None? {
        idGenerator := idGenerator + 1;
        saved := userEntity.(id := Some(idGenerator));
        users := users[idGenerator := saved];
      } else {
        if userId.value in users {
          users := users[userId.value := userEntity];
        }
        saved := userEntity;
      }
    }

    /** A null id finds nothing: no user is stored under a null key. */
    method FindById(id: Option<int>) returns (found: Option<UserEntity>)
      requires Valid()
      ensures found.Some? <==> id.Some? && id.value in users
      ensures found.Some? ==> found.value == users[id.value] && found.value.id == id
    {
      match id
      case None => return None;
      case Some(k) =>
        if k in users {
          return Some(users[k]);
        }
        return None;
    }

    method FindAll() returns (all: seq<UserEntity>)
      requires Valid()
      ensures IsSnapshot(all, users)
    {
      all := [];
      var remaining := users.Keys;
      while remaining != {}
        invariant remaining <= users.Keys
        invariant |all| + |remaining| == |users|
        invariant forall i :: 0 <= i < |all| ==>
          all[i].id.Some? && all[i].id.value in users.Keys - remaining && users[all[i].id.value] == all[i]
        invariant forall k :: k in users.Keys - remaining ==> users[k] in all
        invariant forall i, j :: 0 <= i < j < |all| ==> all[i].id != all[j].id
        decreases remaining
      {
        NonEmptyHasElement(remaining);
        var k :| k in remaining;
        all := all + [users[k]];
        remaining := remaining - {k};
      }
    }

    /** A null id removes nothing. */
    method DeleteById(id: Option<int>)
      requires Valid()
      modifies this
      ensures Valid()
      ensures id.Some? ==> Table() == DeleteUser(old(Table()), id.value)
      ensures id.None? ==> Table() == old(Table())
    {
      if id.Some? {
        users := users - {id.value};
      }
    }

    /** `delete` removes by the entity's id; a null id removes nothing. */
    method Delete(userEntity: UserEntity)
      requires Valid()
      modifies this
      ensures Valid()
      ensures userEntity.id.Some? ==> Table() == DeleteUser(old(Table()), userEntity.id.value)
      ensures userEntity.id.None? ==> Table() == old(Table())
    {
      if userEntity.id.Some? {
        users := users - {userEntity.id.value};
      }
    }

    /** A null id is never stored. */
    method ExistsById(id: Option<int>) returns (present: bool)
      ensures present <==> id.Some? && id.value in users
    {
      return id.Some? && id.value in users;
    }
  }
}
