/** The user service (service/UserService.java): creation rules on top of the
    user store, and the friendship relation kept as a friend-id set in every
    user record, written on both sides. */
module UserServices {
  import opened Outcomes
  import opened Dates
  import opened Users
  import opened Collections
  import opened UserStorage

  /** Friendship is mutual and only links stored users. */
  ghost predicate Symmetric(users: map<int, User>)
  {
    forall a, b | a in users && b in users[a].friends :: b in users && a in users[b].friends
  }

  /** The outcome of `addFriend(id, otherId)`: its result and the map
      afterwards. Both ids must be keys. Each side is read back with the
      store's `getItem`, which refuses negative ids: when `otherId` is
      negative the first write has already happened. */
  function AddFriendSpec(users: map<int, User>, id: int, otherId: int): (out: (Result<()>, map<int, User>))
    ensures out.0.Ok? <==> id in users && otherId in users && id >= 0 && otherId >= 0
    ensures out.0.Err? ==> out.0.error == NotFound
    ensures id !in users || otherId !in users || id < 0 ==> out.1 == users
    ensures out.1.Keys == users.Keys
    ensures forall k | k in users && k != id && k != otherId :: out.1[k] == users[k]
    ensures out.0.Ok? ==> otherId in out.1[id].friends && id in out.1[otherId].friends
    ensures out.0.Ok? ==>
      && out.1[id].(friends := users[id].friends) == users[id]
      && out.1[id].friends - {otherId} == users[id].friends - {otherId}
      && out.1[otherId].(friends := users[otherId].friends) == users[otherId]
      && out.1[otherId].friends - {id} == users[otherId].friends - {id}
    ensures id in users && otherId in users && id >= 0 && otherId < 0 ==>
      out.1 == users[id := users[id].(friends := users[id].friends + {otherId})]
    ensures KeyedById(users) ==> KeyedById(out.1)
  {
    if id !in users || otherId !in users || id < 0 then (Err(NotFound), users)
    else
      var user := users[id];
      var afterFirst := users[id := user.(friends := user.friends + {otherId})];
      if otherId < 0 then (Err(NotFound), afterFirst)
      else
        var friend := afterFirst[otherId];
        (Ok(()), afterFirst[otherId := friend.(friends := friend.friends + {id})])
  }

  /** The outcome of `deleteFriend(id, otherId)`: its result and the map
      afterwards. Both ids must be keys and `otherId` must be in the friend
      set of `id`; as for adding, a negative `otherId` stops the operation
      after the first write. */
  function DeleteFriendSpec(users: map<int, User>, id: int, otherId: int): (out: (Result<()>, map<int, User>))
    ensures out.0.Ok? <==>
      id in users && otherId in users && id >= 0 && otherId >= 0 && otherId in users[id].friends
    ensures out.0.Err? ==> out.0.error == NotFound
    ensures id !in users || otherId !in users || id < 0 || otherId !in users[id].friends ==> out.1 == users
    ensures out.1.Keys == users.Keys
    ensures forall k | k in users && k != id && k != otherId :: out.1[k] == users[k]
    ensures out.0.Ok? ==> otherId !in out.1[id].friends && id !in out.1[otherId].friends
    ensures out.0.Ok? ==>
      && out.1[id].(friends := users[id].friends) == users[id]
      && out.1[id].friends + {otherId} == users[id].friends + {otherId}
      && out.1[otherId].(friends := users[otherId].friends) == users[otherId]
      && out.1[otherId].friends + {id} == users[otherId].friends + {id}
    ensures id in users && otherId in users && id >= 0 && otherId < 0 && otherId in users[id].friends ==>
      out.1 == users[id := users[id].(friends := users[id].friends - {otherId})]
    ensures KeyedById(users) ==> KeyedById(out.1)
  {
    if id !in users || otherId !in users || id < 0 then (Err(NotFound), users)
    else if otherId !in users[id].friends then (Err(NotFound), users)
    else
      var user := users[id];
      var afterFirst := users[id := user.(friends := user.friends - {otherId})];
      if otherId < 0 then (Err(NotFound), afterFirst)
      else
        var friend := afterFirst[otherId];
        (Ok(()), afterFirst[otherId := friend.(friends := friend.friends - {id})])
  }

  /** Adding a friendship that already exists changes nothing. */
  lemma AddFriendIdempotent(users: map<int, User>, id: int, otherId: int)
    ensures var once := AddFriendSpec(users, id, otherId);
      AddFriendSpec(once.1, id, otherId) == once
  {
    var once := AddFriendSpec(users, id, otherId);
    if id in users && otherId in users && id >= 0 {
      var twice := AddFriendSpec(once.1, id, otherId);
      assert twice.1 == once.1 by {
        forall k | k in once.1
          ensures twice.1[k] == once.1[k]
        {
          if k == id || k == otherId {
            assert twice.1[k].friends == once.1[k].friends;
          }
        }
      }
    }
  }

  /** A successful `addFriend` keeps friendship mutual. */
  lemma AddFriendKeepsSymmetric(users: map<int, User>, id: int, otherId: int)
    requires Symmetric(users)
    requires AddFriendSpec(users, id, otherId).0.Ok?
    ensures Symmetric(AddFriendSpec(users, id, otherId).1)
  {
    var after := AddFriendSpec(users, id, otherId).1;
    forall a, b | a in after && b in after[a].friends
      ensures b in after && a in after[b].friends
    {
      assert after[a].friends == users[a].friends + (if a == id then {otherId} else {}) + (if a == otherId then {id} else {});
      assert after[b].friends == users[b].friends + (if b == id then {otherId} else {}) + (if b == otherId then {id} else {});
    }
  }

  /** A successful `deleteFriend` keeps friendship mutual. */
  lemma DeleteFriendKeepsSymmetric(users: map<int, User>, id: int, otherId: int)
    requires Symmetric(users)
    requires DeleteFriendSpec(users, id, otherId).0.Ok?
    ensures Symmetric(DeleteFriendSpec(users, id, otherId).1)
  {
    var after := DeleteFriendSpec(users, id, otherId).1;
    forall a, b | a in after && b in after[a].friends
      ensures b in after && a in after[b].friends
    {
      assert after[a].friends == users[a].friends - (if a == id then {otherId} else {}) - (if a == otherId then {id} else {});
      assert after[b].friends == users[b].friends - (if b == id then {otherId} else {}) - (if b == otherId then {id} else {});
    }
  }

  /** Deleting a friendship just added between two users who were not
      friends restores both friend sets. */
  lemma DeleteAfterAddRestores(users: map<int, User>, id: int, otherId: int)
    requires AddFriendSpec(users, id, otherId).0.Ok?
    requires otherId !in users[id].friends && id !in users[otherId].friends
    ensures DeleteFriendSpec(AddFriendSpec(users, id, otherId).1, id, otherId) == (Ok(()), users)
  {
    var added := AddFriendSpec(users, id, otherId).1;
    var back := DeleteFriendSpec(added, id, otherId);
    assert back.1 == users by {
      forall k | k in users
        ensures back.1[k] == users[k]
      {
        if k == id || k == otherId {
          assert back.1[k].friends == users[k].friends;
        }
      }
    }
  }

  /** The two writes are not atomic: with a negative (client-chosen) key as
      the second id, the first user gains the friend, the call fails, and
      the relation is left one-sided. */
  lemma NegativeFriendLeavesOneSided(users: map<int, User>, id: int, otherId: int)
    requires id in users && otherId in users && id >= 0 && otherId < 0
    requires id !in users[otherId].friends
    ensures var (r, after) := AddFriendSpec(users, id, otherId);
      && r == Err(NotFound)
      && otherId in after[id].friends
      && id !in after[otherId].friends
      && !Symmetric(after)
  {
  }

  /** Some id of the set is negative, so the store's `getItem` refuses it. */
  predicate HasNegative(ids: set<int>)
  {
    exists f | f in ids :: f < 0
  }

  /** `list` resolves the ids of `ids`, in the order `order` visits them,
      to what the store holds under each (`None` for an id not stored). */
  ghost predicate Resolves(users: map<int, User>, ids: set<int>, order: seq<int>, list: seq<Option<User>>)
  {
    && Enumerates(order, ids)
    && |list| == |order| == |ids|
    && forall i | 0 <= i < |list| :: list[i] == Lookup(users, order[i])
  }

  class UserService {
    const storage: InMemoryUserStorage

    constructor(storage: InMemoryUserStorage)
      ensures this.storage == storage
    {
      this.storage := storage;
    }

    method AddFriend(id: int, otherId: int) returns (r: Result<()>)
      requires storage.Valid()
      modifies storage
      ensures storage.Valid()
      ensures (r, storage.users) == AddFriendSpec(old(storage.users), id, otherId)
    {
      if id !in storage.users {
        return Err(NotFound);
      }
      if otherId !in storage.users {
        return Err(NotFound);
      }
      var item := storage.GetItem(id);
      if item.Err? {
        return Err(item.error);
      }
      var user := item.value.value;
      user := user.(friends := user.friends + {otherId});
      var _ := storage.Update(user);
      var friendItem := storage.GetItem(otherId);
      if friendItem.Err? {
        return Err(friendItem.error);
      }
      var friend := friendItem.value.value;
      friend := friend.(friends := friend.friends + {id});
      var _ := storage.Update(friend);
      return Ok(());
    }

    method DeleteFriend(id: int, otherId: int) returns (r: Result<()>)
      requires storage.Valid()
      modifies storage
      ensures storage.Valid()
      ensures (r, storage.users) == DeleteFriendSpec(old(storage.users), id, otherId)
    {
      if id !in storage.users {
        return Err(NotFound);
      }
      if otherId !in storage.users {
        return Err(NotFound);
      }
      var item := storage.GetItem(id);
      if item.Err? {
        return Err(item.error);
      }
      var user := item.value.value;
      if otherId !in user.friends {
        return Err(NotFound);
      }
      user := user.(friends := user.friends - {otherId});
      var _ := storage.Update(user);
      var friendItem := storage.GetItem(otherId);
      if friendItem.Err? {
        return Err(friendItem.error);
      }
      var friend := friendItem.value.value;
      friend := friend.(friends := friend.friends - {user.id.value});
      var _ := storage.Update(friend);
      return Ok(());
    }

    /** Looks every id of `ids` up in the store, in the set's iteration
        order; a negative id aborts with NotFound. */
    method ResolveAll(ids: set<int>) returns (r: Result<seq<Option<User>>>, ghost order: seq<int>)
      ensures r.Err? <==> HasNegative(ids)
      ensures r.Err? ==> r.error == NotFound
      ensures r.Ok? ==> Resolves(storage.users, ids, order, r.value)
    {
      var list: seq<Option<User>> := [];
      order := [];
      var rest := ids;
      while rest != {}
        invariant rest <= ids
        invariant Distinct(order)
        invariant forall x :: x in order <==> x in ids && x !in rest
        invariant forall x | x in order :: x >= 0
        invariant |list| == |order|
        invariant forall i | 0 <= i < |list| :: list[i] == Lookup(storage.users, order[i])
        decreases |rest|
      {
        NonEmptyHasMember(rest);
        var f :| f in rest;
        var item := storage.GetItem(f);
        if item.Err? {
          return Err(item.error), order;
        }
        assert f !in order;
        list, order := list + [item.value], order + [f];
        rest := rest - {f};
      }
      assert forall x :: x in order <==> x in ids;
      EnumerationLength(order, ids);
      r := Ok(list);
    }

    method GetAllFriends(id: int) returns (r: Result<seq<Option<User>>>, ghost order: seq<int>)
      requires storage.Valid()
      ensures r.Err? <==> id !in storage.users || id < 0 || HasNegative(storage.users[id].friends)
      ensures r.Err? ==> r.error == NotFound
      ensures r.Ok? ==> Resolves(storage.users, storage.users[id].friends, order, r.value)
    {
      order := [];
      if id !in storage.users {
        return Err(NotFound), order;
      }
      var item := storage.GetItem(id);
      if item.Err? {
        return Err(item.error), order;
      }
      var user := item.value.value;
      r, order := ResolveAll(user.friends);
    }

    method GetGeneralFriends(id: int, friendId: int) returns (r: Result<seq<Option<User>>>, ghost order: seq<int>)
      requires storage.Valid()
      ensures r.Err? <==>
        || id !in storage.users || friendId !in storage.users || id < 0 || friendId < 0
        || HasNegative(storage.users[id].friends * storage.users[friendId].friends)
      ensures r.Err? ==> r.error == NotFound
      ensures r.Ok? ==>
        Resolves(storage.users, storage.users[id].friends * storage.users[friendId].friends, order, r.value)
    {
      order := [];
      if id !in storage.users {
        return Err(NotFound), order;
      }
      if friendId !in storage.users {
        return Err(NotFound), order;
      }
      var item := storage.GetItem(id);
      if item.Err? {
        return Err(item.error), order;
      }
      var friendItem := storage.GetItem(friendId);
      if friendItem.Err? {
        return Err(friendItem.error), order;
      }
      var common := item.value.value.friends * friendItem.value.value.friends;
      r, order := ResolveAll(common);
    }

    method GetAll() returns (r: seq<User>)
      requires storage.Valid()
      ensures ListsValues(r, storage.users)
    {
      r := storage.GetAll();
    }

    method Create(user: User, today: Date) returns (r: Result<User>)
      requires storage.Valid()
      modifies storage
      ensures storage.Valid()
      ensures (r, storage.users) == CreateSpec(old(storage.users), user, today)
    {
      if IsAfter(user.birthday, today) {
        return Err(Validation);
      }
      var named := user;
      if named.name.None? || named.name.value == "" {
        named := named.(name := Some(named.login));
      }
      WithDefaultNameIdempotent(user);
      r := storage.Create(named, today);
    }

    method Update(user: User) returns (r: Result<User>)
      requires storage.Valid()
      modifies storage
      ensures storage.Valid()
      ensures user.id.Some? && user.id.value in old(storage.users) ==>
        r == Ok(user) && storage.users == old(storage.users)[user.id.value := user]
      ensures !(user.id.Some? && user.id.value in old(storage.users)) ==>
        r == Err(NotFound) && storage.users == old(storage.users)
    {
      if user.id.None? || user.id.value !in storage.users {
        return Err(NotFound);
      }
      r := storage.Update(user);
    }

    method GetItem(id: int) returns (r: Result<Option<User>>)
      ensures id < 0 ==> r == Err(NotFound)
      ensures id >= 0 ==> r == Ok(Lookup(storage.users, id))
    {
      if id < 0 {
        return Err(NotFound);
      }
      r := storage.GetItem(id);
    }
  }
}
