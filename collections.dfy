/** Listing the contents of a `HashMap<Integer, V>` in its (unspecified)
    iteration order, as `getAll` does with `map.values()`. */
module Collections {
  import opened Outcomes

  /** No element occurs twice in `xs`. */
  predicate Distinct<T(==)>(xs: seq<T>)
  {
    forall i, j :: 0 <= i < j < |xs| ==> xs[i] != xs[j]
  }

  /** `xs` lists every element of `s` exactly once, in some order. */
  predicate Enumerates<T(==)>(xs: seq<T>, s: set<T>)
  {
    Distinct(xs) && (forall x | x in xs :: x in s) && (forall x | x in s :: x in xs)
  }

  /** `vs` lists every value of `m` exactly once, in some order. */
  predicate ListsValues<K, V(==)>(vs: seq<V>, m: map<K, V>)
  {
    Distinct(vs) && |vs| == |m|
    && (forall v | v in vs :: v in m.Values) && (forall v | v in m.Values :: v in vs)
  }

  /** A lookup that yields `None` where Java's `Map.get` yields `null`. */
  function Lookup<V>(m: map<int, V>, k: int): (r: Option<V>)
    ensures r.Some? <==> k in m
    ensures r.Some? ==> r.value == m[k]
  {
    if k in m then Some(m[k]) else None
  }

  /** A non-empty set has a member to pick. */
  lemma NonEmptyHasMember(s: set<int>)
    requires s != {}
    ensures exists x :: x in s
  {
    if forall x :: x !in s {
      assert false;
    }
  }

  /** A repetition-free listing of a set is as long as the set is large. */
  lemma {:induction false} EnumerationLength<T>(xs: seq<T>, s: set<T>)
    requires Enumerates(xs, s)
    ensures |xs| == |s|
  {
    if xs != [] {
      var x := xs[0];
      var tail := xs[1..];
      assert Enumerates(tail, s - {x}) by {
        forall y ensures y in tail <==> y in s - {x} {
          if y in tail {
            var j :| 0 <= j < |tail| && tail[j] == y;
            assert xs[j + 1] == y;
          }
          if y in s - {x} {
            assert y in xs;
            var j :| 0 <= j < |xs| && xs[j] == y;
            assert j != 0;
            assert tail[j - 1] == y;
          }
        }
      }
      EnumerationLength(tail, s - {x});
    } else {
      assert forall y :: y !in s;
      assert s == {};
    }
  }

  /** In a repetition-free sequence every element occurs at most once. */
  lemma {:induction false} DistinctAtMostOnce<T>(s: seq<T>, x: T)
    requires Distinct(s)
    ensures multiset(s)[x] <= 1
  {
    if s != [] {
      assert s == [s[0]] + s[1..];
      DistinctAtMostOnce(s[1..], x);
      if s[0] == x {
        assert x !in s[1..];
      }
    }
  }

  /** Two equal entries make an element occur at least twice. */
  lemma RepeatedTwice<T>(r: seq<T>, i: nat, j: nat)
    requires i < j < |r| && r[i] == r[j]
    ensures multiset(r)[r[i]] >= 2
  {
    assert r == r[..j] + r[j..];
    assert r[i] in r[..j] && r[j] in r[j..];
  }

  /** Taking elements of a repetition-free sequence, each at most as often as
      it occurs there, gives a repetition-free sequence. */
  lemma DistinctSubMultiset<T>(r: seq<T>, s: seq<T>)
    requires Distinct(s) && multiset(r) <= multiset(s)
    ensures Distinct(r)
  {
    forall i, j | 0 <= i < j < |r|
      ensures r[i] != r[j]
    {
      if r[i] == r[j] {
        RepeatedTwice(r, i, j);
        DistinctAtMostOnce(s, r[i]);
      }
    }
  }

  /** Different keys hold different values. */
  ghost predicate Injective<V>(m: map<int, V>)
  {
    forall a, b | a in m && b in m && a != b :: m[a] != m[b]
  }

  /** Walks the map's key set in an unspecified order and collects the value
      stored under each key; `order` is the order of the walk. */
  method ListValues<V(==)>(m: map<int, V>) returns (vs: seq<V>, ghost order: seq<int>)
    ensures Enumerates(order, m.Keys)
    ensures |vs| == |order| == |m|
    ensures forall i :: 0 <= i < |vs| ==> order[i] in m && vs[i] == m[order[i]]
    ensures Injective(m) ==> ListsValues(vs, m)
  {
    vs, order := [], [];
    var rest := m.Keys;
    while rest != {}
      invariant rest <= m.Keys
      invariant Distinct(order)
      invariant forall x :: x in order <==> x in m.Keys && x !in rest
      invariant |vs| == |order|
      invariant forall i :: 0 <= i < |vs| ==> order[i] in m && vs[i] == m[order[i]]
      decreases |rest|
    {
      NonEmptyHasMember(rest);
      var k :| k in rest;
      assert k !in order;
      vs, order := vs + [m[k]], order + [k];
      rest := rest - {k};
    }
    assert forall k :: k in order <==> k in m.Keys;
    EnumerationLength(order, m.Keys);
    forall v | v in m.Values
      ensures v in vs
    {
      var k :| k in m && m[k] == v;
      assert k in order;
      var i :| 0 <= i < |order| && order[i] == k;
      assert vs[i] == v;
    }
    forall v | v in vs
      ensures v in m.Values
    {
      var i :| 0 <= i < |vs| && vs[i] == v;
      assert order[i] in m;
    }
  }
}
