# Filmorate core in Dafny

Filmorate is a small film-rating service. Users register and befriend one
another; films are registered and liked by users; a popularity ranking lists
the most liked films. This project models its core:
- the two records, the user and the film, with their field constraints;
- the two in-memory stores, each a map from id to record that allocates ids
  for records arriving without one;
- the two services, which check the business rules and maintain the two
  relations on top of the stores. Friendship is kept as a friend-id set in
  each user record. Likes are kept as a liker-id set in each film record.

Records are Dafny datatypes. The stores are classes whose `map` field the
methods reassign. The services are classes holding their stores.
`create`, `addFriend`, `deleteFriend`, `addLike` and `removeLike` are each
proved equal to a specification function that yields the result together
with the store's new map. `update` and `deleteHelper` state the new map
directly. The properties the system promises are proved as lemmas about
those functions:
- allocated ids are fresh and fill gaps;
- a successful `addFriend` or `deleteFriend` keeps friendship mutual; a
  failed `addFriend` whose second id is a negative key leaves it one-sided
  (`UserServices.NegativeFriendLeavesOneSided`), and `update` and `create`
  store whatever friend set they are given;
- adding a like or a friend is idempotent, and removing one just added
  restores the store;
- a second `deleteFriend` fails with NotFound; a second `removeLike` fails
  with Failure only when no like is left, and is otherwise a successful
  no-op (`FilmServices.RemoveLastLikeTwiceFails`,
  `FilmServices.RemoveByNonLikerChangesNothing`);
- the ranking is a stable sort, reversed and cut to the requested length.

Errors are values. `Validation`, `NotFound`, `EntityNotFound` and `Failure`
stand for the four exception classes the core throws. The stores and the user
service throw `NotFoundException`. The film service's own checks throw
`EntityNotFoundException`. The two are kept apart: a like on a negative film
key fails inside the store, so it gets `NotFound`. The current date is a parameter `today`. Dates
compare by year, then month, then day.

Points of the code's behaviour that are easy to get wrong:
- **Id allocation** (src/main/java/ru/yandex/practicum/filmorate/storage/InMemoryUserStorage.java:39-58). Ids are not "largest
  key + 1". The code starts at the least key (or 0 when the least key is
  above 1) and takes the first integer above that start which is not a key,
  so gaps are reused: keys {1, 3} yield 2 (`IdAllocation.FillsGap`). With
  positive keys this is the smallest positive integer that is not a key
  (`IdAllocation.SmallestMissingPositive`). A negative key moves the search start
  below zero, so the allocated id can be 0 or negative (keys {-5, 3} yield
  -4, `IdAllocation.NegativeKeyYieldsNonPositiveId`), though it can also
  stay positive (keys {-1, 0} yield 1,
  `IdAllocation.NegativeKeyCanYieldPositiveId`).
- **Default name** (src/main/java/ru/yandex/practicum/filmorate/service/UserService.java:103-106). The login replaces
  only an absent or empty name (`isEmpty`). A name of spaces is kept
  (`Users.BlankNameKept`).
- **Lookup** (src/main/java/ru/yandex/practicum/filmorate/storage/InMemoryUserStorage.java:77-90). `getItem` returns `null` for
  an absent id, modelled as `Ok(None)`. Only a negative id fails.
- **Ties in the ranking** (src/main/java/ru/yandex/practicum/filmorate/service/FilmService.java:75-76). The code sorts
  stably and then reverses the list, so equally liked films come out in
  reverse iteration order (`Ranking.RatingTieOrder`).

## Model

| member | source | states |
|---|---|---|
| Users.NewUser | src/main/java/ru/yandex/practicum/filmorate/model/User.java:25-31 | the constructor stores the five given fields; the friend set starts empty |
| Users.ValidUser | src/main/java/ru/yandex/practicum/filmorate/model/User.java:13-23 | the field annotations of the user; a user passing them has an id, an e-mail holding `@` of at least six characters, and a non-empty login with a visible character and no space |
| Users.NameUnconstrained | src/main/java/ru/yandex/practicum/filmorate/model/User.java:21 | changing the name never changes validity |
| Users.WithDefaultName | src/main/java/ru/yandex/practicum/filmorate/storage/InMemoryUserStorage.java:35-38 | an absent or empty name becomes the login; a non-empty name and every other field are kept |
| Users.WithDefaultNameIdempotent | src/main/java/ru/yandex/practicum/filmorate/service/UserService.java:103-107 | applying the name rule in the service and again in the store equals applying it once |
| Users.BlankNameKept | src/main/java/ru/yandex/practicum/filmorate/service/UserService.java:103 | a name of one space is not replaced by the login |
| Constraints.MatchesEmailPattern | src/main/java/ru/yandex/practicum/filmorate/model/User.java:16 | the `@Email` regular expression; any string matching it holds `@` and is at least six characters long |
| Constraints.IsBlank | src/main/java/ru/yandex/practicum/filmorate/model/User.java:15 | what `@NotBlank` refuses: the empty string is blank, and a blank string holds no letter or digit |
| Constraints.HasNoRegexSpace | src/main/java/ru/yandex/practicum/filmorate/model/User.java:19 | the login's `@Pattern` `^\\S*$`: a match holds no space, tab or newline |
| Constraints.SampleAddressMatches | src/main/java/ru/yandex/practicum/filmorate/model/User.java:16 | "vasya@mail.ru" matches the e-mail pattern |
| Constraints.AddressWithoutAtFails | src/main/java/ru/yandex/practicum/filmorate/model/User.java:16 | a string without `@` does not match the e-mail pattern |
| Films.NewFilm | src/main/java/ru/yandex/practicum/filmorate/model/Film.java:27-34 | the constructor stores the five given fields; the like set starts empty |
| Films.ValidFilm | src/main/java/ru/yandex/practicum/filmorate/model/Film.java:14-24 | the field annotations of the film; a film passing them has a non-empty name, a description of 1 to 200 characters, a release on or before today and a positive duration |
| Dates.IsBefore | src/main/java/ru/yandex/practicum/filmorate/service/FilmService.java:92 | `LocalDate.isBefore`: a strictly earlier date, never the same day; an earlier year is always before |
| Dates.IsAfter | src/main/java/ru/yandex/practicum/filmorate/storage/InMemoryUserStorage.java:31 | `LocalDate.isAfter`: strictly later; a date not after another is the same day or before it |
| Collections.Lookup | src/main/java/ru/yandex/practicum/filmorate/storage/InMemoryUserStorage.java:84-89 | the lookup yields the stored record exactly when the id is a key, and none otherwise |
| Collections.ListValues | src/main/java/ru/yandex/practicum/filmorate/storage/InMemoryUserStorage.java:19-26 | walking the keys yields each stored value once, listed in walk order |
| IdAllocation.LeastKey | src/main/java/ru/yandex/practicum/filmorate/storage/InMemoryUserStorage.java:47 | the minimum of a non-empty key set is its least element |
| IdAllocation.AllocatedId | src/main/java/ru/yandex/practicum/filmorate/storage/InMemoryUserStorage.java:39-58 | the allocated id is not a key; it is 1 for an empty store; otherwise it is the first non-key above the search start |
| IdAllocation.FreeAmongCount | src/main/java/ru/yandex/practicum/filmorate/storage/InMemoryUserStorage.java:51-57 | the search, bounded by one step per key, always finds a free id |
| IdAllocation.AllocateId | src/main/java/ru/yandex/practicum/filmorate/storage/InMemoryUserStorage.java:42-58 | the loop returns the first non-key above the least key, or above 0 when the least key exceeds 1 |
| IdAllocation.SmallestMissingPositive | src/main/java/ru/yandex/practicum/filmorate/storage/InMemoryUserStorage.java:39-58 | with positive keys the allocated id is the smallest positive integer that is not a key |
| IdAllocation.FillsGap | src/main/java/ru/yandex/practicum/filmorate/storage/InMemoryFilmStorage.java:38-57 | keys {1, 3} allocate 2: gaps are reused |
| IdAllocation.NegativeKeyYieldsNonPositiveId | src/main/java/ru/yandex/practicum/filmorate/storage/InMemoryUserStorage.java:47-58 | keys {-5, 3} allocate -4 |
| IdAllocation.NegativeKeyCanYieldPositiveId | src/main/java/ru/yandex/practicum/filmorate/storage/InMemoryUserStorage.java:47-58 | keys {-1, 0} allocate 1: a negative key does not force a non-positive id |
| UserStorage.CreateSpec | src/main/java/ru/yandex/practicum/filmorate/storage/InMemoryUserStorage.java:28-63 | create fails with Validation iff the birthday is after today, leaving the map unchanged; otherwise it stores the name-defaulted record under the supplied id or under a fresh allocated id, and every record stays keyed by its own id |
| UserStorage.CreateInEmptyStoreGetsOne | src/main/java/ru/yandex/practicum/filmorate/storage/InMemoryUserStorage.java:39-41 | a user without an id created in an empty store gets id 1 |
| UserStorage.CreateThenLookup | src/main/java/ru/yandex/practicum/filmorate/storage/InMemoryUserStorage.java:60-62 | after create, looking up the new id yields the stored record and every other key is unchanged |
| UserStorage.InMemoryUserStorage.constructor | src/main/java/ru/yandex/practicum/filmorate/storage/InMemoryUserStorage.java:16 | the store starts empty |
| UserStorage.InMemoryUserStorage.GetAll | src/main/java/ru/yandex/practicum/filmorate/storage/InMemoryUserStorage.java:19-26 | returns every stored user exactly once |
| UserStorage.InMemoryUserStorage.Create | src/main/java/ru/yandex/practicum/filmorate/storage/InMemoryUserStorage.java:28-63 | result and new map are those of `CreateSpec`; records stay keyed by id |
| UserStorage.InMemoryUserStorage.Update | src/main/java/ru/yandex/practicum/filmorate/storage/InMemoryUserStorage.java:65-75 | a record whose id is a key replaces the stored one and is returned; otherwise NotFound and no change |
| UserStorage.InMemoryUserStorage.GetItem | src/main/java/ru/yandex/practicum/filmorate/storage/InMemoryUserStorage.java:77-90 | a negative id fails with NotFound; otherwise the lookup, none for an absent key |
| UserStorage.InMemoryUserStorage.DeleteHelper | src/main/java/ru/yandex/practicum/filmorate/storage/InMemoryUserStorage.java:97-99 | the store is emptied |
| FilmStorage.CreateSpec | src/main/java/ru/yandex/practicum/filmorate/storage/InMemoryFilmStorage.java:27-62 | create fails with Validation iff the release precedes 28 December 1895 or the duration is not positive, leaving the map unchanged; otherwise it stores the record under the supplied id or a fresh allocated id |
| FilmStorage.CreateInEmptyStoreGetsOne | src/main/java/ru/yandex/practicum/filmorate/storage/InMemoryFilmStorage.java:38-40 | a film without an id created in an empty store gets id 1 |
| FilmStorage.CreateWithIdOverwrites | src/main/java/ru/yandex/practicum/filmorate/storage/InMemoryFilmStorage.java:59-61 | a supplied id overwrites whatever was stored there; the lookup yields the new film; other keys are unchanged |
| FilmStorage.ValidFilmCreate | src/main/java/ru/yandex/practicum/filmorate/storage/InMemoryFilmStorage.java:30-37 | for a film passing its annotations, create fails exactly when the release precedes 28 December 1895 |
| FilmStorage.InMemoryFilmStorage.constructor | src/main/java/ru/yandex/practicum/filmorate/storage/InMemoryFilmStorage.java:15 | the store starts empty |
| FilmStorage.InMemoryFilmStorage.GetAll | src/main/java/ru/yandex/practicum/filmorate/storage/InMemoryFilmStorage.java:18-25 | returns every stored film exactly once |
| FilmStorage.InMemoryFilmStorage.Create | src/main/java/ru/yandex/practicum/filmorate/storage/InMemoryFilmStorage.java:27-62 | result and new map are those of `CreateSpec`; records stay keyed by id |
| FilmStorage.InMemoryFilmStorage.Update | src/main/java/ru/yandex/practicum/filmorate/storage/InMemoryFilmStorage.java:64-74 | a record whose id is a key replaces the stored one and is returned; otherwise NotFound and no change |
| FilmStorage.InMemoryFilmStorage.GetItem | src/main/java/ru/yandex/practicum/filmorate/storage/InMemoryFilmStorage.java:76-89 | a negative id fails with NotFound; otherwise the lookup, none for an absent key |
| FilmStorage.InMemoryFilmStorage.DeleteHelper | src/main/java/ru/yandex/practicum/filmorate/storage/InMemoryFilmStorage.java:96-98 | the store is emptied |
| UserServices.AddFriendSpec | src/main/java/ru/yandex/practicum/filmorate/service/UserService.java:25-47 | succeeds iff both ids are keys and non-negative, then each is in the other's friend set; an unknown or negative first id fails with no change; only the two users change |
| UserServices.DeleteFriendSpec | src/main/java/ru/yandex/practicum/filmorate/service/UserService.java:49-74 | succeeds iff both ids are non-negative keys and the second is a friend of the first, then neither is in the other's set; only the two users change |
| UserServices.AddFriendIdempotent | src/main/java/ru/yandex/practicum/filmorate/service/UserService.java:36-45 | adding the same friendship twice equals adding it once, on every path |
| UserServices.AddFriendKeepsSymmetric | src/main/java/ru/yandex/practicum/filmorate/service/UserService.java:36-45 | a successful add keeps friendship mutual |
| UserServices.DeleteFriendKeepsSymmetric | src/main/java/ru/yandex/practicum/filmorate/service/UserService.java:59-72 | a successful delete keeps friendship mutual |
| UserServices.DeleteAfterAddRestores | src/main/java/ru/yandex/practicum/filmorate/service/UserService.java:25-74 | deleting a friendship just added between non-friends restores the map |
| UserServices.NegativeFriendLeavesOneSided | src/main/java/ru/yandex/practicum/filmorate/service/UserService.java:36-45 | with a negative second key, the first write persists, the call fails with NotFound, and the relation is left one-sided |
| UserServices.UserService.constructor | src/main/java/ru/yandex/practicum/filmorate/service/UserService.java:20-23 | the service holds the given store |
| UserServices.UserService.AddFriend | src/main/java/ru/yandex/practicum/filmorate/service/UserService.java:25-47 | result and new map are those of `AddFriendSpec` |
| UserServices.UserService.DeleteFriend | src/main/java/ru/yandex/practicum/filmorate/service/UserService.java:49-74 | result and new map are those of `DeleteFriendSpec` |
| UserServices.UserService.ResolveAll | src/main/java/ru/yandex/practicum/filmorate/service/UserService.java:84-87 | fails with NotFound iff some id is negative; otherwise lists one lookup per id of the set, each id once |
| UserServices.UserService.GetAllFriends | src/main/java/ru/yandex/practicum/filmorate/service/UserService.java:76-91 | fails with NotFound iff the user is unknown or negative or has a negative friend id; otherwise one lookup per friend id |
| UserServices.UserService.GetGeneralFriends | src/main/java/ru/yandex/practicum/filmorate/service/UserService.java:128-148 | fails with NotFound iff either user is unknown or negative or a common friend id is negative; otherwise one lookup per id in both friend sets, a set symmetric in the two arguments |
| UserServices.UserService.GetAll | src/main/java/ru/yandex/practicum/filmorate/service/UserService.java:93-95 | returns every stored user exactly once |
| UserServices.UserService.Create | src/main/java/ru/yandex/practicum/filmorate/service/UserService.java:97-108 | result and new map are those of the store's `CreateSpec`: the service's checks change nothing |
| UserServices.UserService.Update | src/main/java/ru/yandex/practicum/filmorate/service/UserService.java:110-117 | a record whose id is a key replaces the stored one; otherwise NotFound and no change |
| UserServices.UserService.GetItem | src/main/java/ru/yandex/practicum/filmorate/service/UserService.java:119-126 | a negative id fails with NotFound; otherwise the lookup |
| Ranking.Insert | src/main/java/ru/yandex/practicum/filmorate/service/FilmService.java:75 | inserting into an ascending sequence keeps it ascending and adds exactly the one film |
| Ranking.SortByLikes | src/main/java/ru/yandex/practicum/filmorate/service/FilmService.java:75 | the sort is ascending by like count and a permutation of its input |
| Ranking.Reverse | src/main/java/ru/yandex/practicum/filmorate/service/FilmService.java:76 | the result has the input's length and holds its elements back to front |
| Ranking.SortIsStable | src/main/java/ru/yandex/practicum/filmorate/service/FilmService.java:75 | films with equal likes keep their input order |
| Ranking.StableOrderIsUnique | src/main/java/ru/yandex/practicum/filmorate/service/FilmService.java:75 | two ascending sequences with the same groups of equally liked films are equal |
| Ranking.SortIsTheStableSort | src/main/java/ru/yandex/practicum/filmorate/service/FilmService.java:75 | any ascending sequence keeping each group in input order equals `SortByLikes` |
| Ranking.FilterReverse | src/main/java/ru/yandex/practicum/filmorate/service/FilmService.java:76 | reversing reverses each group of equally liked films |
| Ranking.Limit | src/main/java/ru/yandex/practicum/filmorate/service/FilmService.java:78-82 | the number listed is `count` when positive and 10 when absent or not positive |
| Ranking.Rating | src/main/java/ru/yandex/practicum/filmorate/service/FilmService.java:75-83 | the ranking of a listing holds min(limit, n) films, in descending order of likes, each taken from the listing |
| Ranking.RatingIsTopK | src/main/java/ru/yandex/practicum/filmorate/service/FilmService.java:68-84 | the ranking has min(limit, n) films in descending order of likes, all from the input, and no omitted film has more likes than a listed one |
| Ranking.RatingTieOrder | src/main/java/ru/yandex/practicum/filmorate/service/FilmService.java:75-76 | equally liked films are listed in reverse input order |
| FilmServices.AddLikeSpec | src/main/java/ru/yandex/practicum/filmorate/service/FilmService.java:28-44 | succeeds iff the film and user are keys and the film id is non-negative; then the user is among the likers, the count grows by at most one, and nothing else changes; an unknown id gives EntityNotFound and a negative film key NotFound, both without change |
| FilmServices.RemoveLikeSpec | src/main/java/ru/yandex/practicum/filmorate/service/FilmService.java:46-66 | unknown ids give EntityNotFound, a negative film key NotFound and an unliked film Failure, all without change; otherwise the user is no longer a liker, the count drops by at most one, and nothing else changes |
| FilmServices.AddLikeIdempotent | src/main/java/ru/yandex/practicum/filmorate/service/FilmService.java:38-42 | liking twice equals liking once |
| FilmServices.RemoveAfterAddRestores | src/main/java/ru/yandex/practicum/filmorate/service/FilmService.java:28-66 | removing a like just given restores the map |
| FilmServices.RemoveByNonLikerChangesNothing | src/main/java/ru/yandex/practicum/filmorate/service/FilmService.java:56-64 | removing a non-liker's like from a liked film succeeds and changes nothing |
| FilmServices.RemoveLastLikeTwiceFails | src/main/java/ru/yandex/practicum/filmorate/service/FilmService.java:56-61 | after the only like is removed, removing it again fails with Failure |
| FilmServices.FilmService.constructor | src/main/java/ru/yandex/practicum/filmorate/service/FilmService.java:21-26 | the service holds the given stores |
| FilmServices.FilmService.AddLike | src/main/java/ru/yandex/practicum/filmorate/service/FilmService.java:28-44 | result and new map are those of `AddLikeSpec` |
| FilmServices.FilmService.RemoveLike | src/main/java/ru/yandex/practicum/filmorate/service/FilmService.java:46-66 | result and new map are those of `RemoveLikeSpec` |
| FilmServices.FilmService.FilmsByRating | src/main/java/ru/yandex/practicum/filmorate/service/FilmService.java:68-84 | the ranking of the store's listing: min(limit, n) distinct stored films, most liked first, no omitted film more liked than a listed one |
| FilmServices.FilmService.GetAll | src/main/java/ru/yandex/practicum/filmorate/service/FilmService.java:86-88 | returns every stored film exactly once |
| FilmServices.FilmService.Create | src/main/java/ru/yandex/practicum/filmorate/service/FilmService.java:90-97 | result and new map are those of the store's `CreateSpec` |
| FilmServices.FilmService.Update | src/main/java/ru/yandex/practicum/filmorate/service/FilmService.java:99-106 | a record whose id is a key replaces the stored one; otherwise EntityNotFound and no change |
| FilmServices.FilmService.GetItem | src/main/java/ru/yandex/practicum/filmorate/service/FilmService.java:108-115 | a negative id fails with EntityNotFound; otherwise the lookup |
| FilmServices.FilmService.DeleteHelper | src/main/java/ru/yandex/practicum/filmorate/service/FilmService.java:117-119 | the film store is emptied |

## Left out

- The HTTP controllers, the error handler (which maps exceptions to status codes) and logging are not part of this model.
- The clock is a parameter `today` rather than a call to `LocalDate.now()`.
- Calendar validity of dates is not modelled; dates are triples compared lexicographically.
- The `@Email` annotation is modelled only through its regular expression. The validator library's own address checks are not modelled.
- The annotation checks run outside the core, so the model states them as predicates and never enforces them.
- Java ids are 32-bit; the model's are unbounded. `minID + 1` overflowing at `Integer.MAX_VALUE` is not modelled.
- A `null` id passed to `getItem` (a `NullPointerException`) is not modelled; ids are plain integers.
- The `NullPointerException`s that `create` throws on a null birthday (src/main/java/ru/yandex/practicum/filmorate/storage/InMemoryUserStorage.java:31), a null release date (src/main/java/ru/yandex/practicum/filmorate/storage/InMemoryFilmStorage.java:30) or a null duration (src/main/java/ru/yandex/practicum/filmorate/storage/InMemoryFilmStorage.java:34) are not modelled: dates and durations are never null in the model, and the `@NotNull` annotations on these fields (src/main/java/ru/yandex/practicum/filmorate/model/User.java:22, src/main/java/ru/yandex/practicum/filmorate/model/Film.java:19, 22), checked by `@Valid`, refuse such records before they reach the core.
- The `null` checks on the list from `getAll`, and the `NullPointerException` catch in `getItem`, are dead branches and are left out.
- `User.java` declares no friend-id set, although `UserService.java` reads and writes one. The model gives the user record a friend set that starts empty, like the film's like set.
- `UserService.deleteHelper` calls a method the `UserStorage` interface does not declare, so it is left out.
- Records are values. Java stores the caller's object itself, so later changes by the caller would show in the store; this aliasing is not modelled.
- Concurrent access to the stores is not modelled. Every operation runs to completion alone.
- Strings are sequences of Dafny characters, not UTF-16 code units.
- The iteration order of `HashMap` and `HashSet` is left open. Listings are related to a ghost sequence that lists each key or value exactly once, in some order.
- The library calls `Collections.sort` and `Collections.reverse` are specified by what they compute (the stable ascending sort and the reversal), not by the library's merge-sort steps.
- UserServices.UserService.GetAllFriends: the lookups come back in an unspecified order, tied to a ghost order; the order of a `HashSet` of integers is not modelled.
