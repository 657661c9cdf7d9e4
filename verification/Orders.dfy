/** Strict total orders and sorting by a key. */
module Orders {
  ghost predicate StrictTotal<K(!new)>(lt: (K, K) -> bool) {
    && (forall a :: !lt(a, a))
    && (forall a, b, c :: lt(a, b) && lt(b, c) ==> lt(a, c))
    && (forall a, b :: a != b ==> lt(a, b) || lt(b, a))
  }

  ghost predicate Sorted<T, K>(key: T -> K, lt: (K, K) -> bool, s: seq<T>) {
    forall i, j :: 0 <= i < j < |s| ==> lt(key(s[i]), key(s[j]))
  }

  ghost predicate Ascending<K>(lt: (K, K) -> bool, s: seq<K>) {
    forall i, j :: 0 <= i < j < |s| ==> lt(s[i], s[j])
  }

  /** No two rows share a key. */
  ghost predicate Distinct<T, K>(key: T -> K, s: seq<T>) {
    forall i, j :: 0 <= i < j < |s| ==> key(s[i]) != key(s[j])
  }

  function Insert<T, K>(key: T -> K, lt: (K, K) -> bool, x: T, s: seq<T>): (r: seq<T>)
    ensures multiset(r) == multiset(s) + multiset{x}
  {
    if s == [] || !lt(key(s[0]), key(x)) then [x] + s
    else
      assert s == [s[0]] + s[1..];
      [s[0]] + Insert(key, lt, x, s[1..])
  }

  /** The stable sort of s by key: Go's sort.SliceStable. */
  function SortBy<T, K>(key: T -> K, lt: (K, K) -> bool, s: seq<T>): (r: seq<T>)
    ensures multiset(r) == multiset(s)
  {
    if s == [] then []
    else
      assert s == [s[0]] + s[1..];
      Insert(key, lt, s[0], SortBy(key, lt, s[1..]))
  }

  lemma {:induction false} SameElements<T(!new)>(s: seq<T>, t: seq<T>)
    requires multiset(s) == multiset(t)
    ensures |s| == |t|
    ensures forall x :: x in s <==> x in t
  {
    assert |multiset(s)| == |multiset(t)|;
    forall x
      ensures x in s <==> x in t
    {
      assert x in s <==> x in multiset(s);
      assert x in t <==> x in multiset(t);
    }
  }

  lemma {:induction false} InsertSorted<T(!new), K(!new)>(key: T -> K, lt: (K, K) -> bool, x: T, s: seq<T>)
    requires StrictTotal(lt) && Sorted(key, lt, s)
    requires forall y :: y in s ==> key(y) != key(x)
    ensures Sorted(key, lt, Insert(key, lt, x, s))
  {
    if s != [] && lt(key(s[0]), key(x)) {
      var r := Insert(key, lt, x, s[1..]);
      InsertSorted(key, lt, x, s[1..]);
      forall y | y in r
        ensures lt(key(s[0]), key(y))
      {
        assert y in multiset(r);
        assert y == x || y in multiset(s[1..]);
      }
    }
  }

  lemma {:induction false} SortBySorted<T(!new), K(!new)>(key: T -> K, lt: (K, K) -> bool, s: seq<T>)
    requires StrictTotal(lt) && Distinct(key, s)
    ensures Sorted(key, lt, SortBy(key, lt, s))
  {
    if s != [] {
      var r := SortBy(key, lt, s[1..]);
      SortBySorted(key, lt, s[1..]);
      SameElements(r, s[1..]);
      forall y | y in r
        ensures key(y) != key(s[0])
      {
        assert y in s[1..];
        var i :| 0 <= i < |s[1..]| && s[1..][i] == y;
        assert s[i + 1] == y;
      }
      InsertSorted(key, lt, s[0], r);
    }
  }

  lemma {:induction false} Has<T>(s: seq<T>, i: nat)
    ensures i < |s| ==> s[i] in s
  {
  }

  lemma {:induction false} SliceHas<T>(s: seq<T>, lo: nat, hi: nat, j: nat)
    ensures lo <= j < hi <= |s| ==> s[j] in s[lo..hi]
  {
    if lo <= j < hi <= |s| {
      assert s[lo..hi][j - lo] == s[j];
    }
  }

  /** A strictly sorted list is determined by its elements. */
  lemma {:induction false} SortedUnique<T(!new), K(!new)>(key: T -> K, lt: (K, K) -> bool, s: seq<T>, t: seq<T>)
    requires StrictTotal(lt) && Sorted(key, lt, s) && Sorted(key, lt, t)
    requires forall x :: x in s <==> x in t
    ensures s == t
  {
    if s == [] {
      Has(t, 0);
    } else {
      assert s[0] in t && t != [] && t[0] in s;
      assert s[0] == t[0];
      forall x
        ensures x in s[1..] <==> x in t[1..]
      {
        assert x in s[1..] ==> x in s && x != s[0];
        assert x in t[1..] ==> x in t && x != t[0];
      }
      SortedUnique(key, lt, s[1..], t[1..]);
      assert s == [s[0]] + s[1..] && t == [t[0]] + t[1..];
    }
  }

  /** Sorting forgets the order the rows arrived in. */
  lemma {:induction false} SortByPermutation<T(!new), K(!new)>(key: T -> K, lt: (K, K) -> bool, s: seq<T>, t: seq<T>)
    requires StrictTotal(lt) && Distinct(key, s) && Distinct(key, t)
    requires forall x :: x in s <==> x in t
    ensures SortBy(key, lt, s) == SortBy(key, lt, t)
  {
    SortBySorted(key, lt, s);
    SortBySorted(key, lt, t);
    SameElements(SortBy(key, lt, s), s);
    SameElements(SortBy(key, lt, t), t);
    SortedUnique(key, lt, SortBy(key, lt, s), SortBy(key, lt, t));
  }
}
