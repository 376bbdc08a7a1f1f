/** The popularity ranking behind `getFilmsByRating`: a stable ascending
    sort by number of likes, then a reversal, then a prefix. */
module Ranking {
  import opened Outcomes
  import opened Films

  /** A film's popularity: the number of users who liked it. */
  function Likes(f: Film): (n: nat)
  {
    |f.likedBy|
  }

  predicate Ascending(s: seq<Film>)
  {
    forall i, j | 0 <= i < j < |s| :: Likes(s[i]) <= Likes(s[j])
  }

  predicate Descending(s: seq<Film>)
  {
    forall i, j | 0 <= i < j < |s| :: Likes(s[i]) >= Likes(s[j])
  }

  /** The films of `s` with exactly `v` likes, in their order in `s`. */
  function Filter(s: seq<Film>, v: nat): (r: seq<Film>)
  {
    if s == [] then []
    else (if Likes(s[0]) == v then [s[0]] else []) + Filter(s[1..], v)
  }

  /** Places `f` into ascending `s` after every film with at most as many
      likes, so that equal films keep their arrival order. */
  function Insert(f: Film, s: seq<Film>): (r: seq<Film>)
    requires Ascending(s)
    ensures |r| == |s| + 1
    ensures Ascending(r)
    ensures multiset(r) == multiset(s) + multiset{f}
  {
    if s == [] then [f]
    else if Likes(f) < Likes(s[0]) then
      AscendingCons(f, s);
      [f] + s
    else
      assert s == [s[0]] + s[1..];
      var rest := Insert(f, s[1..]);
      HeadBeforeInsert(f, s, rest);
      [s[0]] + rest
  }

  /** The first film of `s` may precede the insertion of `f` into the rest. */
  lemma HeadBeforeInsert(f: Film, s: seq<Film>, rest: seq<Film>)
    requires s != [] && Ascending(s) && Likes(s[0]) <= Likes(f)
    requires Ascending(rest) && multiset(rest) == multiset(s[1..]) + multiset{f}
    ensures Ascending([s[0]] + rest)
  {
    forall x | x in rest
      ensures Likes(s[0]) <= Likes(x)
    {
      assert x in multiset(rest);
      if x != f {
        assert x in multiset(s[1..]);
        var k :| 0 <= k < |s[1..]| && s[1..][k] == x;
        assert s[k + 1] == x;
      }
    }
    AscendingCons(s[0], rest);
  }

  lemma AscendingCons(h: Film, t: seq<Film>)
    requires Ascending(t)
    requires forall x | x in t :: Likes(h) <= Likes(x)
    ensures Ascending([h] + t)
  {
    forall i, j | 0 <= i < j < |[h] + t|
      ensures Likes(([h] + t)[i]) <= Likes(([h] + t)[j])
    {
      if i > 0 {
        assert ([h] + t)[i] == t[i - 1];
      }
      assert ([h] + t)[j] == t[j - 1];
    }
  }

  /** Stable ascending sort by likes (what `Collections.sort` with a
      like-count comparator computes). */
  function SortByLikes(s: seq<Film>): (r: seq<Film>)
    ensures |r| == |s|
    ensures Ascending(r)
    ensures multiset(r) == multiset(s)
  {
    if s == [] then []
    else
      assert s == s[..|s| - 1] + [s[|s| - 1]];
      Insert(s[|s| - 1], SortByLikes(s[..|s| - 1]))
  }

  /** `Collections.reverse`. */
  function Reverse(s: seq<Film>): (r: seq<Film>)
    ensures |r| == |s|
    ensures forall i | 0 <= i < |s| :: r[i] == s[|s| - 1 - i]
  {
    if s == [] then [] else Reverse(s[1..]) + [s[0]]
  }

  /** `Math.min`. */
  function Min(a: int, b: int): (m: int)
  {
    if a <= b then a else b
  }

  /** The number of films listed: `count` when it is positive, ten when it
      is absent or not positive. */
  function Limit(count: Option<int>): (n: nat)
    ensures n >= 1
    ensures count.Some? && count.value > 0 ==> n == count.value
    ensures count.None? || count.value <= 0 ==> n == 10
  {
    if count.None? || count.value <= 0 then 10 else count.value
  }

  /** The ranking returned for the films `all` (in the store's iteration
      order) and the requested `count`. */
  function Rating(all: seq<Film>, count: Option<int>): (r: seq<Film>)
    ensures |r| == Min(Limit(count), |all|)
    ensures Descending(r)
    ensures forall x | x in r :: x in all
  {
    var ranked := Reverse(SortByLikes(all));
    var k := Min(Limit(count), |all|);
    ReverseDescending(SortByLikes(all));
    RankedFromInput(all);
    DescendingPrefix(ranked, k);
    ranked[..k]
  }

  /** Every ranked film comes from the input. */
  lemma RankedFromInput(all: seq<Film>)
    ensures forall x | x in Reverse(SortByLikes(all)) :: x in all
  {
    ReverseMultiset(SortByLikes(all));
    forall x | x in Reverse(SortByLikes(all))
      ensures x in all
    {
      assert x in multiset(Reverse(SortByLikes(all)));
    }
  }

  lemma DescendingPrefix(d: seq<Film>, k: nat)
    requires Descending(d) && k <= |d|
    ensures Descending(d[..k])
    ensures forall x | x in d[..k] :: x in d
  {
  }

  lemma {:induction false} FilterConcat(a: seq<Film>, b: seq<Film>, v: nat)
    ensures Filter(a + b, v) == Filter(a, v) + Filter(b, v)
  {
    if a != [] {
      assert (a + b)[0] == a[0];
      assert (a + b)[1..] == a[1..] + b;
      FilterConcat(a[1..], b, v);
    } else {
      assert a + b == b;
    }
  }

  lemma {:induction false} FilterMembers(s: seq<Film>, v: nat)
    ensures forall f | f in Filter(s, v) :: f in s && Likes(f) == v
    ensures (exists f | f in s :: Likes(f) == v) ==> Filter(s, v) != []
  {
    if s != [] {
      FilterMembers(s[1..], v);
      assert forall f | f in s[1..] :: f in s;
      if exists f | f in s :: Likes(f) == v {
        var f :| f in s && Likes(f) == v;
        if Likes(s[0]) != v {
          assert f in s[1..];
        }
      }
    }
  }

  lemma FilterAbsent(s: seq<Film>, v: nat)
    requires forall f | f in s :: Likes(f) != v
    ensures Filter(s, v) == []
  {
    FilterMembers(s, v);
  }

  /** Inserting `f` appends it to the films with its own like count and
      leaves the other like counts untouched. */
  lemma {:induction false} FilterInsert(f: Film, s: seq<Film>, v: nat)
    requires Ascending(s)
    ensures Filter(Insert(f, s), v) == Filter(s, v) + (if Likes(f) == v then [f] else [])
  {
    if s == [] {
    } else if Likes(f) < Likes(s[0]) {
      assert ([f] + s)[1..] == s;
      if Likes(f) == v {
        FilterAbsent(s, v);
      }
    } else {
      var rest := Insert(f, s[1..]);
      assert ([s[0]] + rest)[1..] == rest;
      FilterInsert(f, s[1..], v);
    }
  }

  /** Stability: among films with the same number of likes the sort keeps
      the input order. */
  lemma {:induction false} SortIsStable(s: seq<Film>, v: nat)
    ensures Filter(SortByLikes(s), v) == Filter(s, v)
  {
    if s != [] {
      var init, last := s[..|s| - 1], s[|s| - 1];
      assert s == init + [last];
      SortIsStable(init, v);
      FilterInsert(last, SortByLikes(init), v);
      FilterConcat(init, [last], v);
    }
  }

  /** Two ascending sequences with the same groups start with the same film. */
  lemma SameGroupsSameHead(t: seq<Film>, u: seq<Film>)
    requires Ascending(t) && Ascending(u) && t != [] && u != []
    requires forall v: nat :: Filter(t, v) == Filter(u, v)
    ensures t[0] == u[0]
  {
    var lt, lu := Likes(t[0]), Likes(u[0]);
    FilterMembers(t, lu);
    FilterMembers(u, lt);
    assert Filter(t, lt)[0] in Filter(u, lt);
    assert Filter(u, lu)[0] in Filter(t, lu);
    assert Filter(t, lt) == [t[0]] + Filter(t[1..], lt);
    assert Filter(u, lt) == [u[0]] + Filter(u[1..], lt);
  }

  /** Dropping an equal first film keeps the groups equal. */
  lemma SameGroupsOfTails(t: seq<Film>, u: seq<Film>, v: nat)
    requires t != [] && u != [] && t[0] == u[0]
    requires Filter(t, v) == Filter(u, v)
    ensures Filter(t[1..], v) == Filter(u[1..], v)
  {
    var head := if Likes(t[0]) == v then [t[0]] else [];
    assert Filter(t, v) == head + Filter(t[1..], v);
    assert Filter(u, v) == head + Filter(u[1..], v);
    assert Filter(t[1..], v) == Filter(t, v)[|head|..];
    assert Filter(u[1..], v) == Filter(u, v)[|head|..];
  }

  /** The stable sort is the only ascending order that keeps every group of
      equally liked films in input order: two ascending sequences with the
      same groups are equal. */
  lemma {:induction false} StableOrderIsUnique(t: seq<Film>, u: seq<Film>)
    requires Ascending(t) && Ascending(u)
    requires forall v: nat :: Filter(t, v) == Filter(u, v)
    ensures t == u
  {
    if t == [] {
      if u != [] {
        FilterMembers(u, Likes(u[0]));
      }
    } else if u == [] {
      FilterMembers(t, Likes(t[0]));
    } else {
      SameGroupsSameHead(t, u);
      forall v: nat
        ensures Filter(t[1..], v) == Filter(u[1..], v)
      {
        SameGroupsOfTails(t, u, v);
      }
      StableOrderIsUnique(t[1..], u[1..]);
      assert t == [t[0]] + t[1..] && u == [u[0]] + u[1..];
    }
  }

  /** Hence `SortByLikes` is the stable ascending sort: any ascending
      sequence with the groups of `s` is `SortByLikes(s)`. */
  lemma SortIsTheStableSort(s: seq<Film>, t: seq<Film>)
    requires Ascending(t)
    requires forall v: nat :: Filter(t, v) == Filter(s, v)
    ensures t == SortByLikes(s)
  {
    forall v: nat
      ensures Filter(t, v) == Filter(SortByLikes(s), v)
    {
      SortIsStable(s, v);
    }
    StableOrderIsUnique(t, SortByLikes(s));
  }

  lemma {:induction false} ReverseMultiset(s: seq<Film>)
    ensures multiset(Reverse(s)) == multiset(s)
  {
    if s != [] {
      ReverseMultiset(s[1..]);
      assert s == [s[0]] + s[1..];
    }
  }

  /** Reversing turns each group of equally liked films around. */
  lemma {:induction false} FilterReverse(s: seq<Film>, v: nat)
    ensures Filter(Reverse(s), v) == Reverse(Filter(s, v))
  {
    if s != [] {
      FilterReverse(s[1..], v);
      FilterConcat(Reverse(s[1..]), [s[0]], v);
      var head := if Likes(s[0]) == v then [s[0]] else [];
      if head != [] {
        assert (head + Filter(s[1..], v))[1..] == Filter(s[1..], v);
      } else {
        assert head + Filter(s[1..], v) == Filter(s[1..], v);
      }
    }
  }

  lemma ReverseDescending(s: seq<Film>)
    requires Ascending(s)
    ensures Descending(Reverse(s))
  {
  }

  /** Every film after position `k` of a descending sequence has at most as
      many likes as every film before it. */
  lemma PrefixDominates(d: seq<Film>, k: nat)
    requires Descending(d) && k <= |d|
    ensures forall f, x | f in multiset(d) - multiset(d[..k]) && x in d[..k] :: Likes(f) <= Likes(x)
  {
    PrefixSplit(d, k);
    forall f, x | f in multiset(d) - multiset(d[..k]) && x in d[..k]
      ensures Likes(f) <= Likes(x)
    {
      assert f in multiset(d[k..]);
      var j :| k <= j < |d| && d[j] == f;
      var i :| 0 <= i < k && d[i] == x;
    }
  }

  lemma PrefixSplit(d: seq<Film>, k: nat)
    requires k <= |d|
    ensures multiset(d) == multiset(d[..k]) + multiset(d[k..])
  {
    assert d == d[..k] + d[k..];
  }

  /** The ranking lists `min(limit, |all|)` films, most liked first, taken
      from `all`, and every film it leaves out has at most as many likes as
      every film it lists. */
  lemma RatingIsTopK(all: seq<Film>, count: Option<int>)
    ensures var r := Rating(all, count);
      && |r| == Min(Limit(count), |all|)
      && Descending(r)
      && multiset(r) <= multiset(all)
      && forall f, x | f in multiset(all) - multiset(r) && x in r :: Likes(f) <= Likes(x)
  {
    var d := Reverse(SortByLikes(all));
    var k := Min(Limit(count), |all|);
    var r := d[..k];
    assert r == Rating(all, count);
    ReverseMultiset(SortByLikes(all));
    assert multiset(d) == multiset(all);
    ReverseDescending(SortByLikes(all));
    assert Descending(r);
    PrefixSplit(d, k);
    assert multiset(r) <= multiset(all);
    PrefixDominates(d, k);
  }

  /** Films with equal likes come out in the reverse of the store's
      iteration order: the listed films with `v` likes are a prefix of
      that reversed group. */
  lemma RatingTieOrder(all: seq<Film>, count: Option<int>, v: nat)
    ensures var tied, group := Filter(Rating(all, count), v), Reverse(Filter(all, v));
      |tied| <= |group| && tied == group[..|tied|]
  {
    var d := Reverse(SortByLikes(all));
    var k := Min(Limit(count), |all|);
    assert d == d[..k] + d[k..];
    FilterConcat(d[..k], d[k..], v);
    FilterReverse(SortByLikes(all), v);
    SortIsStable(all, v);
  }
}
