/** The film service (service/FilmService.java): likes, kept as a set of
    user ids in every film record, and the popularity ranking. */
module FilmServices {
  import opened Outcomes
  import opened Films
  import opened Collections
  import opened FilmStorage
  import opened UserStorage
  import opened Ranking

  /** The outcome of `addLike(filmId, userId)` against the film map and the
      set of stored user ids: its result and the film map afterwards. An
      unknown id is refused by the service (EntityNotFound); a negative film
      key is refused by the store's `getItem` (NotFound). */
  function AddLikeSpec(films: map<int, Film>, userIds: set<int>, filmId: int, userId: int): (out: (Result<()>, map<int, Film>))
    ensures out.0.Ok? <==> filmId in films && userId in userIds && filmId >= 0
    ensures out.0.Err? ==> out.1 == films
    ensures out.0.Err? ==>
      out.0.error == if filmId in films && userId in userIds then NotFound else EntityNotFound
    ensures out.1.Keys == films.Keys
    ensures forall k | k in films && k != filmId :: out.1[k] == films[k]
    ensures out.0.Ok? ==>
      var (before, after) := (films[filmId], out.1[filmId]);
      && userId in after.likedBy
      && after.likedBy - {userId} == before.likedBy - {userId}
      && after.(likedBy := before.likedBy) == before
      && Likes(before) <= Likes(after) <= Likes(before) + 1
    ensures FilmStorage.KeyedById(films) ==> FilmStorage.KeyedById(out.1)
  {
    if filmId !in films || userId !in userIds then (Err(EntityNotFound), films)
    else if filmId < 0 then (Err(NotFound), films)
    else
      var film := films[filmId];
      assert userId in film.likedBy ==> film.likedBy + {userId} == film.likedBy;
      (Ok(()), films[filmId := film.(likedBy := film.likedBy + {userId})])
  }

  /** The outcome of `removeLike(filmId, userId)`: unknown ids give
      EntityNotFound, a negative film key NotFound, a film nobody likes
      Failure; otherwise `userId` is taken out of the film's likes, whether
      or not it was there. */
  function RemoveLikeSpec(films: map<int, Film>, userIds: set<int>, filmId: int, userId: int): (out: (Result<()>, map<int, Film>))
    ensures out.0.Ok? <==>
      filmId in films && userId in userIds && filmId >= 0 && films[filmId].likedBy != {}
    ensures out.0.Err? ==> out.1 == films
    ensures out.0.Err? ==>
      out.0.error ==
        if filmId !in films || userId !in userIds then EntityNotFound
        else if filmId < 0 then NotFound
        else Failure
    ensures out.1.Keys == films.Keys
    ensures forall k | k in films && k != filmId :: out.1[k] == films[k]
    ensures out.0.Ok? ==>
      var (before, after) := (films[filmId], out.1[filmId]);
      && userId !in after.likedBy
      && after.likedBy + {userId} == before.likedBy + {userId}
      && after.(likedBy := before.likedBy) == before
      && Likes(before) - 1 <= Likes(after) <= Likes(before)
    ensures FilmStorage.KeyedById(films) ==> FilmStorage.KeyedById(out.1)
  {
    if filmId !in films || userId !in userIds then (Err(EntityNotFound), films)
    else if filmId < 0 then (Err(NotFound), films)
    else if films[filmId].likedBy == {} then (Err(Failure), films)
    else
      var film := films[filmId];
      (Ok(()), films[filmId := film.(likedBy := film.likedBy - {userId})])
  }

  /** Liking a film twice counts once. */
  lemma AddLikeIdempotent(films: map<int, Film>, userIds: set<int>, filmId: int, userId: int)
    ensures var once := AddLikeSpec(films, userIds, filmId, userId);
      AddLikeSpec(once.1, userIds, filmId, userId) == once
  {
    var once := AddLikeSpec(films, userIds, filmId, userId);
    if once.0.Ok? {
      var twice := AddLikeSpec(once.1, userIds, filmId, userId);
      assert twice.1[filmId] == once.1[filmId];
      assert twice.1 == once.1;
    }
  }

  /** Taking back a like just given restores the film. */
  lemma RemoveAfterAddRestores(films: map<int, Film>, userIds: set<int>, filmId: int, userId: int)
    requires AddLikeSpec(films, userIds, filmId, userId).0.Ok?
    requires userId !in films[filmId].likedBy
    ensures RemoveLikeSpec(AddLikeSpec(films, userIds, filmId, userId).1, userIds, filmId, userId) == (Ok(()), films)
  {
    var added := AddLikeSpec(films, userIds, filmId, userId).1;
    var back := RemoveLikeSpec(added, userIds, filmId, userId).1;
    assert back[filmId].likedBy == films[filmId].likedBy;
    assert back == films;
  }

  /** Removing the like of a user who did not like the film succeeds and
      changes nothing, as long as someone likes the film. */
  lemma RemoveByNonLikerChangesNothing(films: map<int, Film>, userIds: set<int>, filmId: int, userId: int)
    requires RemoveLikeSpec(films, userIds, filmId, userId).0.Ok?
    requires userId !in films[filmId].likedBy
    ensures RemoveLikeSpec(films, userIds, filmId, userId).1 == films
  {
    var after := RemoveLikeSpec(films, userIds, filmId, userId).1;
    assert after[filmId].likedBy == films[filmId].likedBy;
  }

  /** Once the last like is gone, removing it again fails with Failure
      rather than succeeding as a no-op. */
  lemma RemoveLastLikeTwiceFails(films: map<int, Film>, userIds: set<int>, filmId: int, userId: int)
    requires RemoveLikeSpec(films, userIds, filmId, userId).0.Ok?
    requires films[filmId].likedBy == {userId}
    ensures var after := RemoveLikeSpec(films, userIds, filmId, userId).1;
      RemoveLikeSpec(after, userIds, filmId, userId) == (Err(Failure), after)
  {
    var after := RemoveLikeSpec(films, userIds, filmId, userId).1;
    assert after[filmId].likedBy == {};
  }

  class FilmService {
    const storage: InMemoryFilmStorage
    const userStorage: InMemoryUserStorage

    constructor(storage: InMemoryFilmStorage, userStorage: InMemoryUserStorage)
      ensures this.storage == storage && this.userStorage == userStorage
    {
      this.storage := storage;
      this.userStorage := userStorage;
    }

    method AddLike(filmId: int, userId: int) returns (r: Result<()>)
      requires storage.Valid()
      modifies storage
      ensures storage.Valid()
      ensures (r, storage.films) == AddLikeSpec(old(storage.films), userStorage.users.Keys, filmId, userId)
    {
      if filmId !in storage.films {
        return Err(EntityNotFound);
      }
      if userId !in userStorage.users {
        return Err(EntityNotFound);
      }
      var item := storage.GetItem(filmId);
      if item.Err? {
        return Err(item.error);
      }
      var film := item.value.value;
      film := film.(likedBy := film.likedBy + {userId});
      var _ := storage.Update(film);
      return Ok(());
    }

    method RemoveLike(filmId: int, userId: int) returns (r: Result<()>)
      requires storage.Valid()
      modifies storage
      ensures storage.Valid()
      ensures (r, storage.films) == RemoveLikeSpec(old(storage.films), userStorage.users.Keys, filmId, userId)
    {
      if filmId !in storage.films {
        return Err(EntityNotFound);
      }
      if userId !in userStorage.users {
        return Err(EntityNotFound);
      }
      var item := storage.GetItem(filmId);
      if item.Err? {
        return Err(item.error);
      }
      var film := item.value.value;
      if film.likedBy == {} {
        return Err(Failure);
      }
      film := film.(likedBy := film.likedBy - {userId});
      var _ := storage.Update(film);
      return Ok(());
    }

    /** The `count` most liked films (ten when `count` is absent or not
        positive); `listed` is the order in which the store handed the
        films out, which decides the order among equally liked films. */
    method FilmsByRating(count: Option<int>) returns (r: seq<Film>, ghost listed: seq<Film>)
      requires storage.Valid()
      ensures ListsValues(listed, storage.films)
      ensures r == Rating(listed, count)
      ensures |r| == Min(Limit(count), |storage.films|)
      ensures Descending(r)
      ensures Distinct(r)
      ensures forall x | x in r :: x in storage.films.Values
      ensures forall f, x | f in storage.films.Values && f !in r && x in r :: Likes(f) <= Likes(x)
    {
      var all := storage.GetAll();
      listed := all;
      var ranked := Reverse(SortByLikes(all));
      r := ranked[..Min(Limit(count), |ranked|)];
      RatingIsTopK(all, count);
      DistinctSubMultiset(r, all);
      forall x | x in r
        ensures x in storage.films.Values
      {
        assert x in multiset(r);
        assert x in multiset(all);
      }
      forall f, x | f in storage.films.Values && f !in r && x in r
        ensures Likes(f) <= Likes(x)
      {
        assert f in multiset(all) && f !in multiset(r);
        assert f in multiset(all) - multiset(r);
      }
    }

    method GetAll() returns (r: seq<Film>)
      requires storage.Valid()
      ensures ListsValues(r, storage.films)
    {
      r := storage.GetAll();
    }

    method Create(film: Film) returns (r: Result<Film>)
      requires storage.Valid()
      modifies storage
      ensures storage.Valid()
      ensures (r, storage.films) == FilmStorage.CreateSpec(old(storage.films), film)
    {
      if Dates.IsBefore(film.releaseDate, EarliestRelease) {
        return Err(Validation);
      }
      r := storage.Create(film);
    }

    method Update(film: Film) returns (r: Result<Film>)
      requires storage.Valid()
      modifies storage
      ensures storage.Valid()
      ensures film.id.Some? && film.id.value in old(storage.films) ==>
        r == Ok(film) && storage.films == old(storage.films)[film.id.value := film]
      ensures !(film.id.Some? && film.id.value in old(storage.films)) ==>
        r == Err(EntityNotFound) && storage.films == old(storage.films)
    {
      if film.id.None? || film.id.value !in storage.films {
        return Err(EntityNotFound);
      }
      r := storage.Update(film);
    }

    method GetItem(id: int) returns (r: Result<Option<Film>>)
      ensures id < 0 ==> r == Err(EntityNotFound)
      ensures id >= 0 ==> r == Ok(Lookup(storage.films, id))
    {
      if id < 0 {
        return Err(EntityNotFound);
      }
      r := storage.GetItem(id);
    }

    method DeleteHelper()
      modifies storage
      ensures storage.Valid() && storage.films == map[]
    {
      storage.DeleteHelper();
    }
  }
}
