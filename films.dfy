/** The film record (model/Film.java) and its field constraints. */
module Films {
  import opened Outcomes
  import opened Dates
  import opened Constraints

  /** A film. `id` may be absent (Java `null`); `likedBy` is the set of ids
      of the users who liked it (`whoLikedIDs`). */
  datatype Film = Film(
    id: Option<int>,
    name: string,
    description: string,
    releaseDate: Date,
    duration: int,
    likedBy: set<int>)

  /** `@Size(max = 200)` on the description. */
  const MaxDescriptionLength: nat := 200

  /** The constructor; the like set starts out empty. */
  function NewFilm(id: Option<int>, name: string, description: string, releaseDate: Date, duration: int): (f: Film)
    ensures f.id == id && f.name == name && f.description == description
    ensures f.releaseDate == releaseDate && f.duration == duration
    ensures f.likedBy == {}
  {
    Film(id, name, description, releaseDate, duration, {})
  }

  /** The annotations on the fields: `@NotBlank` name, `@NotBlank` description
      of at most 200 characters, `@NotNull @PastOrPresent` release date
      (checked against `today`), `@NotNull @Min(1)` duration. A valid film has
      a non-empty name, a description of 1 to 200 characters, a release on or
      before `today` and a positive duration. */
  predicate ValidFilm(f: Film, today: Date)
    ensures ValidFilm(f, today) ==> |f.name| >= 1
    ensures ValidFilm(f, today) ==> 1 <= |f.description| <= MaxDescriptionLength
    ensures ValidFilm(f, today) ==> f.releaseDate == today || IsBefore(f.releaseDate, today)
    ensures ValidFilm(f, today) ==> f.duration > 0
  {
    && !IsBlank(f.name)
    && !IsBlank(f.description) && |f.description| <= MaxDescriptionLength
    && !IsAfter(f.releaseDate, today)
    && f.duration >= 1
  }
}
