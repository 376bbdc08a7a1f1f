/** The in-memory film store (storage/InMemoryFilmStorage.java): a map from
    id to film record, with the release-date and duration rules re-checked on
    insertion. */
module FilmStorage {
  import opened Outcomes
  import opened Dates
  import opened Films
  import opened Collections
  import opened IdAllocation

  /** 28 December 1895, the earliest accepted release date. */
  const EarliestRelease := Date(1895, 12, 28)

  /** Every record is stored under its own id. */
  ghost predicate KeyedById(films: map<int, Film>)
  {
    forall k | k in films :: films[k].id == Some(k)
  }

  /** The outcome of `create`: its result and the map afterwards. A release
      before 28 December 1895 or a duration that is not positive is refused;
      otherwise a missing id is allocated and the record is put under its id,
      replacing whatever was there. */
  ghost function CreateSpec(films: map<int, Film>, film: Film): (out: (Result<Film>, map<int, Film>))
    ensures out.0.Err? <==> IsBefore(film.releaseDate, EarliestRelease) || film.duration <= 0
    ensures out.0.Err? ==> out.0.error == Validation && out.1 == films
    ensures out.0.Ok? ==>
      var stored := out.0.value;
      && stored.id.Some?
      && stored == film.(id := stored.id)
      && (film.id.Some? ==> stored.id == film.id)
      && (film.id.None? ==> stored.id.value !in films && stored.id.value == AllocatedId(films.Keys))
      && out.1 == films[stored.id.value := stored]
    ensures KeyedById(films) ==> KeyedById(out.1)
  {
    if IsBefore(film.releaseDate, EarliestRelease) then (Err(Validation), films)
    else if film.duration <= 0 then (Err(Validation), films)
    else
      var id := if film.id.Some? then film.id.value else AllocatedId(films.Keys);
      var stored := film.(id := Some(id));
      (Ok(stored), films[id := stored])
  }

  /** A film created without an id in an empty store gets id 1. */
  lemma CreateInEmptyStoreGetsOne(film: Film)
    requires film.id.None? && !IsBefore(film.releaseDate, EarliestRelease) && film.duration > 0
    ensures CreateSpec(map[], film).0.Ok?
    ensures CreateSpec(map[], film).0.value.id == Some(1)
  {
  }

  /** A film with a supplied id replaces the one stored there, and looking
      that id up afterwards yields the new film; no other key changes. */
  lemma CreateWithIdOverwrites(films: map<int, Film>, film: Film, k: int)
    requires film.id.Some? && CreateSpec(films, film).0.Ok?
    ensures var after := CreateSpec(films, film).1;
      && Lookup(after, film.id.value) == Some(film)
      && after.Keys == films.Keys + {film.id.value}
      && (k != film.id.value ==> Lookup(after, k) == Lookup(films, k))
  {
  }

  /** For a film that passes its field annotations the duration rule always
      holds, so the store refuses it exactly when it was released before
      28 December 1895. */
  lemma ValidFilmCreate(films: map<int, Film>, film: Film, today: Date)
    requires ValidFilm(film, today)
    ensures CreateSpec(films, film).0.Err? <==> IsBefore(film.releaseDate, EarliestRelease)
  {
  }

  class InMemoryFilmStorage {
    var films: map<int, Film>

    ghost predicate Valid()
      reads this
    {
      KeyedById(films)
    }

    constructor()
      ensures Valid() && films == map[]
    {
      films := map[];
    }

    /** Every stored film exactly once, in the map's iteration order. */
    method GetAll() returns (r: seq<Film>)
      requires Valid()
      ensures ListsValues(r, films)
    {
      ghost var order;
      r, order := ListValues(films);
    }

    method Create(film: Film) returns (r: Result<Film>)
      requires Valid()
      modifies this
      ensures Valid()
      ensures (r, films) == CreateSpec(old(films), film)
    {
      if IsBefore(film.releaseDate, EarliestRelease) {
        return Err(Validation);
      }
      if film.duration <= 0 {
        return Err(Validation);
      }
      var f := film;
      if f.id.None? && |films| == 0 {
        f := f.(id := Some(1));
      }
      if f.id.None? {
        var id := AllocateId(films.Keys);
        f := f.(id := Some(id));
      }
      films := films[f.id.value := f];
      r := Ok(films[f.id.value]);
    }

    /** Replaces the record stored under the record's own id; an absent id
        is refused. */
    method Update(film: Film) returns (r: Result<Film>)
      requires Valid()
      modifies this
      ensures Valid()
      ensures film.id.Some? && film.id.value in old(films) ==>
        r == Ok(film) && films == old(films)[film.id.value := film]
      ensures !(film.id.Some? && film.id.value in old(films)) ==>
        r == Err(NotFound) && films == old(films)
    {
      if film.id.Some? && film.id.value in films {
        films := films[film.id.value := film];
        return Ok(films[film.id.value]);
      }
      return Err(NotFound);
    }

    /** A negative id is refused; otherwise the lookup, absent giving `None`. */
    method GetItem(id: int) returns (r: Result<Option<Film>>)
      ensures id < 0 ==> r == Err(NotFound)
      ensures id >= 0 ==> r == Ok(Lookup(films, id))
    {
      if id < 0 {
        return Err(NotFound);
      }
      return Ok(Lookup(films, id));
    }

    method DeleteHelper()
      modifies this
      ensures Valid() && films == map[]
    {
      films := map[];
    }
  }
}
