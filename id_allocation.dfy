/** The id allocator that both in-memory stores run when a record arrives
    without an id. It does not allocate "largest key + 1": it starts from the
    least key (or from 0 when the least key exceeds 1) and takes the first
    integer above that start which is not yet a key, filling gaps. */
module IdAllocation {
  import opened Collections

  /** The least key of a non-empty key set (`Collections.min`). */
  ghost function Least(keys: set<int>): (m: int)
    requires keys != {}
    ensures m in keys
    ensures forall k :: k in keys ==> m <= k
    decreases |keys|
  {
    NonEmptyHasMember(keys);
    var x :| x in keys;
    var others := keys - {x};
    assert forall k :: k in keys ==> k == x || k in others;
    if others == {} then x
    else
      var rest := Least(others);
      if x <= rest then x else rest
  }

  /** Where the search for a free id starts: the least key, or 0 when the
      least key is greater than 1. */
  ghost function SearchStart(keys: set<int>): (start: int)
    requires keys != {}
  {
    var least := Least(keys);
    if least > 1 then 0 else least
  }

  /** `id` is the first integer above `start` that is not a key. */
  ghost predicate FirstFreeAbove(keys: set<int>, start: int, id: int)
  {
    start < id && id !in keys && forall v :: start < v < id ==> v in keys
  }

  /** Among `start + 1 .. start + bound` there is an integer that is not a key. */
  ghost predicate FreeWithin(keys: set<int>, start: int, bound: nat)
  {
    exists v :: start < v <= start + bound && v !in keys
  }

  /** The first free integer above `start`, searching at most `bound`
      candidates, one at a time, as the allocator's loop does. */
  ghost function FirstFree(keys: set<int>, start: int, bound: nat): (id: int)
    requires FreeWithin(keys, start, bound)
    ensures FirstFreeAbove(keys, start, id)
    ensures id <= start + bound
    decreases bound
  {
    if start + 1 !in keys then start + 1
    else
      var w :| start < w <= start + bound && w !in keys;
      assert start + 1 < w;
      FirstFree(keys, start + 1, bound - 1)
  }

  /** The id a store allocates for a record that comes without one. */
  ghost function AllocatedId(keys: set<int>): (id: int)
    ensures id !in keys
    ensures keys == {} ==> id == 1
    ensures keys != {} ==> FirstFreeAbove(keys, SearchStart(keys), id)
  {
    if keys == {} then 1
    else
      FreeAmongCount(keys);
      FirstFree(keys, SearchStart(keys), |keys|)
  }

  /** The first free integer above a start is unique. */
  lemma FirstFreeUnique(keys: set<int>, start: int, a: int, b: int)
    requires FirstFreeAbove(keys, start, a) && FirstFreeAbove(keys, start, b)
    ensures a == b
  {
  }

  /** The `n` consecutive integers `start .. start + n - 1`. */
  function Interval(start: int, n: nat): (r: set<int>)
    ensures forall v :: v in r <==> start <= v < start + n
    ensures |r| == n
    decreases n
  {
    if n == 0 then {}
    else
      var shorter := Interval(start, n - 1);
      assert start + n - 1 !in shorter;
      shorter + {start + n - 1}
  }

  /** A subset is no larger than its superset. */
  lemma {:induction false} SubsetSize(a: set<int>, b: set<int>)
    requires a <= b
    ensures |a| <= |b|
  {
    if a != {} {
      NonEmptyHasMember(a);
      var x :| x in a;
      SubsetSize(a - {x}, b - {x});
    }
  }

  /** With `n` keys, one of the `n` integers above the search start is free:
      the allocator's loop, which runs at most once per key, always finds an
      id before it runs out of iterations. */
  lemma FreeAmongCount(keys: set<int>)
    requires keys != {}
    ensures FreeWithin(keys, SearchStart(keys), |keys|)
  {
    var n := |keys|;
    var least := Least(keys);
    if least > 1 {
      assert 1 !in keys;
      assert 0 < 1 <= 0 + n;
    } else {
      var range := Interval(least, n + 1);
      assert !(range <= keys) by {
        if range <= keys {
          SubsetSize(range, keys);
        }
      }
      var v :| v in range && v !in keys;
      assert least < v <= least + n;
    }
  }

  /** The least element of a non-empty key set, found by visiting every key. */
  method LeastKey(keys: set<int>) returns (m: int)
    requires keys != {}
    ensures m == Least(keys)
  {
    var rest := keys;
    NonEmptyHasMember(rest);
    m :| m in rest;
    rest := rest - {m};
    while rest != {}
      invariant rest <= keys
      invariant m in keys
      invariant forall k :: k in keys && k !in rest ==> m <= k
      decreases |rest|
    {
      NonEmptyHasMember(rest);
      var k :| k in rest;
      if k < m {
        m := k;
      }
      rest := rest - {k};
    }
    assert Least(keys) in keys;
  }

  /** Allocates an id for a record stored into a non-empty map: `minID`
      starts at the least key (or 0 when that exceeds 1) and climbs, once
      per key, until `minID + 1` is not a key. */
  method AllocateId(keys: set<int>) returns (id: int)
    requires keys != {}
    ensures id == AllocatedId(keys)
    ensures FirstFreeAbove(keys, SearchStart(keys), id)
  {
    var minId := LeastKey(keys);
    if minId > 1 {
      minId := 0;
    }
    ghost var start := minId;
    var n := |keys|;
    var i := 0;
    while i < n
      invariant 0 <= i <= n
      invariant minId == start + i
      invariant forall v :: start < v <= minId ==> v in keys
    {
      if minId + 1 !in keys {
        id := minId + 1;
        FirstFreeUnique(keys, start, id, AllocatedId(keys));
        return;
      }
      minId := minId + 1;
      i := i + 1;
    }
    FreeAmongCount(keys);
    assert false;
  }

  /** When every key is positive, the allocator yields the smallest positive
      integer that is not a key. */
  lemma SmallestMissingPositive(keys: set<int>)
    requires forall k :: k in keys ==> k > 0
    ensures AllocatedId(keys) >= 1
    ensures forall v :: 1 <= v < AllocatedId(keys) ==> v in keys
  {
    if keys != {} {
      var least := Least(keys);
      if least <= 1 {
        assert least == 1;
      }
    }
  }

  /** Gaps are reused: with keys 1 and 3 the allocator yields 2, where
      "largest key + 1" would yield 4. */
  lemma FillsGap()
    ensures AllocatedId({1, 3}) == 2
  {
    var keys := {1, 3};
    assert Least(keys) == 1 by {
      assert 1 in keys && Least(keys) <= 1;
    }
    FirstFreeUnique(keys, 1, 2, AllocatedId(keys));
  }

  /** A negative key moves the search start below zero, so the allocated
      id can be 0 or negative: with keys -5 and 3 the allocator yields -4.
      The first negative key can only come from a client; later ones, such
      as this -4, can also come from the allocator itself. */
  lemma NegativeKeyYieldsNonPositiveId()
    ensures AllocatedId({-5, 3}) == -4
  {
    var keys := {-5, 3};
    assert Least(keys) == -5 by {
      assert -5 in keys && Least(keys) <= -5;
    }
    FirstFreeUnique(keys, -5, -4, AllocatedId(keys));
  }

  /** A negative key does not always give a non-positive id: with keys -1
      and 0 the search starts at -1 and the first non-key above it is 1. */
  lemma NegativeKeyCanYieldPositiveId()
    ensures AllocatedId({-1, 0}) == 1
  {
    var keys := {-1, 0};
    assert Least(keys) == -1 by {
      assert -1 in keys && Least(keys) <= -1;
    }
    FirstFreeUnique(keys, -1, 1, AllocatedId(keys));
  }
}
