/** The in-memory user store (storage/InMemoryUserStorage.java): a map from
    id to user record, with the creation rules re-checked on insertion. */
module UserStorage {
  import opened Outcomes
  import opened Dates
  import opened Users
  import opened Collections
  import opened IdAllocation

  /** Every record is stored under its own id. */
  ghost predicate KeyedById(users: map<int, User>)
  {
    forall k | k in users :: users[k].id == Some(k)
  }

  /** The outcome of `create`: its result and the map afterwards. A birthday
      after `today` is refused; otherwise the name rule applies, a missing id
      is allocated, and the record is put under its id, replacing whatever
      was there. */
  ghost function CreateSpec(users: map<int, User>, user: User, today: Date): (out: (Result<User>, map<int, User>))
    ensures out.0.Err? <==> IsAfter(user.birthday, today)
    ensures out.0.Err? ==> out.0.error == Validation && out.1 == users
    ensures out.0.Ok? ==>
      var stored := out.0.value;
      && stored.id.Some?
      && stored == WithDefaultName(user).(id := stored.id)
      && (user.id.Some? ==> stored.id == user.id)
      && (user.id.None? ==> stored.id.value !in users && stored.id.value == AllocatedId(users.Keys))
      && out.1 == users[stored.id.value := stored]
    ensures KeyedById(users) ==> KeyedById(out.1)
  {
    if IsAfter(user.birthday, today) then (Err(Validation), users)
    else
      var id := if user.id.Some? then user.id.value else AllocatedId(users.Keys);
      var stored := WithDefaultName(user).(id := Some(id));
      (Ok(stored), users[id := stored])
  }

  /** A user created without an id in an empty store gets id 1. */
  lemma CreateInEmptyStoreGetsOne(user: User, today: Date)
    requires user.id.None? && !IsAfter(user.birthday, today)
    ensures CreateSpec(map[], user, today).0.Ok?
    ensures CreateSpec(map[], user, today).0.value.id == Some(1)
  {
  }

  /** After a successful create, looking the id up yields the stored record,
      and no other key changed. */
  lemma CreateThenLookup(users: map<int, User>, user: User, today: Date, k: int)
    requires CreateSpec(users, user, today).0.Ok?
    ensures var (r, after) := CreateSpec(users, user, today);
      && Lookup(after, r.value.id.value) == Some(r.value)
      && (k != r.value.id.value ==> Lookup(after, k) == Lookup(users, k))
  {
  }

  class InMemoryUserStorage {
    var users: map<int, User>

    ghost predicate Valid()
      reads this
    {
      KeyedById(users)
    }

    constructor()
      ensures Valid() && users == map[]
    {
      users := map[];
    }

    /** Every stored user exactly once, in the map's iteration order. */
    method GetAll() returns (r: seq<User>)
      requires Valid()
      ensures ListsValues(r, users)
    {
      ghost var order;
      r, order := ListValues(users);
    }

    method Create(user: User, today: Date) returns (r: Result<User>)
      requires Valid()
      modifies this
      ensures Valid()
      ensures (r, users) == CreateSpec(old(users), user, today)
    {
      if IsAfter(user.birthday, today) {
        return Err(Validation);
      }
      var u := user;
      if u.name.None? || u.name.value == "" {
        u := u.(name := Some(u.login));
      }
      if u.id.None? && |users| == 0 {
        u := u.(id := Some(1));
      }
      if u.id.None? {
        var id := AllocateId(users.Keys);
        u := u.(id := Some(id));
      }
      users := users[u.id.value := u];
      r := Ok(users[u.id.value]);
    }

    /** Replaces the record stored under the record's own id; an absent id
        is refused. */
    method Update(user: User) returns (r: Result<User>)
      requires Valid()
      modifies this
      ensures Valid()
      ensures user.id.Some? && user.id.value in old(users) ==>
        r == Ok(user) && users == old(users)[user.id.value := user]
      ensures !(user.id.Some? && user.id.value in old(users)) ==>
        r == Err(NotFound) && users == old(users)
    {
      if user.id.Some? && user.id.value in users {
        users := users[user.id.value := user];
        return Ok(users[user.id.value]);
      }
      return Err(NotFound);
    }

    /** A negative id is refused; otherwise the lookup, absent giving `None`. */
    method GetItem(id: int) returns (r: Result<Option<User>>)
      ensures id < 0 ==> r == Err(NotFound)
      ensures id >= 0 ==> r == Ok(Lookup(users, id))
    {
      if id < 0 {
        return Err(NotFound);
      }
      return Ok(Lookup(users, id));
    }

    method DeleteHelper()
      modifies this
      ensures Valid() && users == map[]
    {
      users := map[];
    }
  }
}
