/** Following next_cursor from page to page while the visible rows change between requests. */
module Walks {
  import opened Common
  import opened Orders
  import opened Keyset

  /** One list request: what was visible when it ran, the limit it asked for, and the page it got. */
  datatype Request<K> = Request(visible: set<K>, limit: nat, page: Page<K>)

  /**
    Each request is answered with a page for the cursor left by the one before it.
    Nothing relates the visible sets of different requests: between two of them any
    rows may be created, deleted, visited, cleaned up or expire.
   */
  ghost predicate Follows<K(!new)>(lt: (K, K) -> bool, cursor: Option<K>, walk: seq<Request<K>>)
    decreases |walk|
  {
    walk != [] ==>
      var page := walk[0].page;
      && IsPage(lt, walk[0].visible, cursor, walk[0].limit, page)
      && (|walk| > 1 ==> page.more && page.items != [] && Follows(lt, Some(page.items[|page.items| - 1]), walk[1..]))
  }

  lemma {:induction false} FollowsOn<K(!new)>(lt: (K, K) -> bool, cursor: Option<K>, walk: seq<Request<K>>)
    requires walk != [] && IsPage(lt, walk[0].visible, cursor, walk[0].limit, walk[0].page)
    requires |walk| > 1 ==>
      var items := walk[0].page.items;
      walk[0].page.more && items != [] && Follows(lt, Some(items[|items| - 1]), walk[1..])
    ensures Follows(lt, cursor, walk)
  {
    hide IsPage;
  }

  function Collected<K>(walk: seq<Request<K>>): seq<K> {
    if walk == [] then [] else walk[0].page.items + Collected(walk[1..])
  }

  /** The last page says that nothing follows. */
  predicate Complete<K>(walk: seq<Request<K>>) {
    walk != [] && !walk[|walk| - 1].page.more
  }

  lemma {:induction false} AscendingConcat<K(!new)>(lt: (K, K) -> bool, s: seq<K>, t: seq<K>)
    requires StrictTotal(lt) && Ascending(lt, s) && Ascending(lt, t) && s != []
    requires forall k :: k in t ==> lt(s[|s| - 1], k)
    ensures Ascending(lt, s + t)
  {
    var r := s + t;
    forall i, j | 0 <= i < j < |r|
      ensures lt(r[i], r[j])
    {
      if i < |s| <= j {
        assert r[j] in t;
        assert i < |s| - 1 ==> lt(s[i], s[|s| - 1]);
      }
    }
  }

  /** Keys strictly advance across the whole walk, so no key is returned twice. */
  lemma {:induction false} WalkAdvances<K(!new)>(lt: (K, K) -> bool, cursor: Option<K>, walk: seq<Request<K>>)
    requires StrictTotal(lt) && Follows(lt, cursor, walk)
    ensures Ascending(lt, Collected(walk))
    ensures forall k :: k in Collected(walk) ==> After(lt, cursor, k)
    decreases |walk|
  {
    if |walk| == 1 {
      assert Collected(walk[1..]) == [];
      assert Collected(walk) == walk[0].page.items;
    } else if |walk| > 1 {
      var items, rest := walk[0].page.items, Collected(walk[1..]);
      var last := items[|items| - 1];
      Has(items, |items| - 1);
      WalkAdvances(lt, Some(last), walk[1..]);
      AscendingConcat(lt, items, rest);
    }
  }

  /** A key visible to every request of a complete walk is returned. */
  lemma {:induction false} WalkMissesNothing<K(!new)>(
    lt: (K, K) -> bool, cursor: Option<K>, walk: seq<Request<K>>, k: K)
    requires StrictTotal(lt) && Follows(lt, cursor, walk) && Complete(walk)
    requires After(lt, cursor, k) && forall r :: r in walk ==> k in r.visible
    ensures k in Collected(walk)
    decreases |walk|
  {
    Has(walk, 0);
    if |walk| > 1 && k !in walk[0].page.items {
      var items := walk[0].page.items;
      Has(items, |items| - 1);
      WalkMissesNothing(lt, Some(items[|items| - 1]), walk[1..], k);
    }
  }

  lemma {:induction false} OnceInAscending<K(!new)>(lt: (K, K) -> bool, s: seq<K>, k: K)
    requires StrictTotal(lt) && Ascending(lt, s) && k in s
    ensures multiset(s)[k] == 1
  {
    assert s == [s[0]] + s[1..];
    if k == s[0] {
      assert k !in s[1..];
      assert k !in multiset(s[1..]);
    } else {
      OnceInAscending(lt, s[1..], k);
    }
  }

  /** The walk theorem: whatever happens between the pages, a key visible throughout is returned exactly once. */
  lemma {:induction false} WalkUnderWrites<K(!new)>(lt: (K, K) -> bool, walk: seq<Request<K>>, k: K)
    requires StrictTotal(lt) && Follows(lt, None, walk) && Complete(walk)
    requires forall r :: r in walk ==> k in r.visible
    ensures multiset(Collected(walk))[k] == 1
  {
    WalkAdvances(lt, None, walk);
    WalkMissesNothing(lt, None, walk, k);
    OnceInAscending(lt, Collected(walk), k);
  }

  lemma {:induction false} CollectedWasVisible<K(!new)>(
    lt: (K, K) -> bool, cursor: Option<K>, walk: seq<Request<K>>, k: K)
    requires Follows(lt, cursor, walk) && k in Collected(walk)
    ensures exists r :: r in walk && k in r.page.items && k in r.visible
    decreases |walk|
  {
    Has(walk, 0);
    if k !in walk[0].page.items {
      assert |walk| > 1;
      var items := walk[0].page.items;
      CollectedWasVisible(lt, Some(items[|items| - 1]), walk[1..], k);
      var r :| r in walk[1..] && k in r.page.items && k in r.visible;
      assert r in walk;
    }
  }

  /** On unchanged rows the pages concatenate to the whole sorted list. */
  lemma {:induction false} StaticWalk<K(!new)>(lt: (K, K) -> bool, walk: seq<Request<K>>, all: seq<K>)
    requires StrictTotal(lt) && Follows(lt, None, walk) && Complete(walk) && Ascending(lt, all)
    requires forall r, k :: r in walk ==> (k in r.visible <==> k in all)
    ensures Collected(walk) == all
  {
    WalkAdvances(lt, None, walk);
    forall k
      ensures k in Collected(walk) <==> k in all
    {
      if k in all { WalkMissesNothing(lt, None, walk, k); }
      if k in Collected(walk) { CollectedWasVisible(lt, None, walk, k); }
    }
    var id := (k: K) => k;
    assert Sorted(id, lt, Collected(walk)) && Sorted(id, lt, all);
    SortedUnique(id, lt, Collected(walk), all);
  }

  /** ... in exactly max(1, ceil(n / limit)) pages. */
  lemma {:induction false} StaticWalkLength<K(!new)>(
    lt: (K, K) -> bool, cursor: Option<K>, walk: seq<Request<K>>, limit: nat)
    requires StrictTotal(lt) && Follows(lt, cursor, walk) && Complete(walk) && limit > 0
    requires forall r :: r in walk ==> r.limit == limit
    requires forall r, q :: r in walk && q in walk ==> r.visible == q.visible
    ensures |Collected(walk)| == 0 ==> |walk| == 1
    ensures |Collected(walk)| > 0 ==> (|walk| - 1) * limit < |Collected(walk)| <= |walk| * limit
    decreases |walk|
  {
    var items, rest := walk[0].page.items, Collected(walk[1..]);
    Has(walk, 0);
    assert Collected(walk) == items + rest;
    if |walk| > 1 {
      var cut := Some(items[|items| - 1]);
      StaticWalkLength(lt, cut, walk[1..], limit);
      assert rest != [] by {
        var k :| k in walk[0].visible && After(lt, cursor, k) && k !in items;
        Has(items, |items| - 1);
        assert forall r :: r in walk[1..] ==> r in walk;
        WalkMissesNothing(lt, cut, walk[1..], k);
      }
      assert |walk| * limit == (|walk| - 1) * limit + limit;
      assert (|walk| - 1) * limit == (|walk| - 2) * limit + limit;
    }
  }

  // ----- On unchanged rows the walk ends -----

  /** The pages that n rows take: max(1, ceil(n / limit)). */
  function Pages(n: nat, limit: nat): nat
    requires limit > 0
  {
    if n == 0 then 1 else (n + limit - 1) / limit
  }

  lemma {:induction false} Scaled(x: int, y: int, limit: nat)
    requires x <= y
    ensures x * limit <= y * limit
  {
    assert (y - x) * limit >= 0;
    assert y * limit == x * limit + (y - x) * limit;
  }

  lemma {:induction false} PagesExact(n: nat, limit: nat, w: nat)
    requires limit > 0 && n > 0
    ensures w == Pages(n, limit) <==> w > 0 && (w - 1) * limit < n <= w * limit
    ensures w * limit < n ==> w < Pages(n, limit)
  {
    var p, r := Pages(n, limit), (n + limit - 1) % limit;
    assert n + limit - 1 == p * limit + r;
    assert (p - 1) * limit == p * limit - limit;
    if w < p {
      Scaled(w, p - 1, limit);
    } else if w > p {
      Scaled(p, w - 1, limit);
    }
  }

  /** Distinct members of a set are no more than the set has; a list that has them all is no shorter. */
  lemma {:induction false} AscendingFits<K(!new)>(lt: (K, K) -> bool, s: seq<K>, members: set<K>)
    requires StrictTotal(lt) && Ascending(lt, s) && forall k :: k in s ==> k in members
    ensures |s| <= |members|
  {
    if s != [] {
      assert s[0] in s && forall k :: k in s[1..] ==> k in s && k != s[0];
      AscendingFits(lt, s[1..], members - {s[0]});
    }
  }

  lemma {:induction false} Covers<K(!new)>(s: seq<K>, members: set<K>)
    requires forall k :: k in members ==> k in s
    ensures |members| <= |s|
  {
    if s == [] {
      assert members == {};
    } else {
      assert s == [s[0]] + s[1..];
      Covers(s[1..], members - {s[0]});
      assert members <= (members - {s[0]}) + {s[0]};
    }
  }

  /** A walk that is not over yet has collected full pages only. */
  lemma {:induction false} UnfinishedIsFull<K(!new)>(lt: (K, K) -> bool, cursor: Option<K>, walk: seq<Request<K>>, limit: nat)
    requires Follows(lt, cursor, walk) && walk != [] && !Complete(walk)
    requires forall r :: r in walk ==> r.limit == limit
    ensures |Collected(walk)| == |walk| * limit
    decreases |walk|
  {
    Has(walk, 0);
    assert |walk[0].page.items| == limit;
    if |walk| > 1 {
      var items := walk[0].page.items;
      UnfinishedIsFull(lt, Some(items[|items| - 1]), walk[1..], limit);
      assert |walk| * limit == limit + (|walk| - 1) * limit;
    }
  }

  lemma {:induction false} NotBefore<K(!new)>(lt: (K, K) -> bool, items: seq<K>, k: K)
    requires StrictTotal(lt) && Ascending(lt, items) && items != [] && lt(items[|items| - 1], k)
    ensures k !in items
  {
  }

  /** ... and left a key behind. */
  lemma {:induction false} UnfinishedLeaves<K(!new)>(
    lt: (K, K) -> bool, cursor: Option<K>, walk: seq<Request<K>>, members: set<K>) returns (left: K)
    requires StrictTotal(lt) && Follows(lt, cursor, walk) && walk != [] && !Complete(walk)
    requires forall r :: r in walk ==> r.visible == members
    ensures left in members && After(lt, cursor, left) && left !in Collected(walk)
    decreases |walk|
  {
    var items := walk[0].page.items;
    Has(walk, 0);
    if |walk| == 1 {
      left :| left in members && After(lt, cursor, left) && left !in items;
      assert Collected(walk[1..]) == [];
    } else {
      Has(items, |items| - 1);
      assert After(lt, cursor, items[|items| - 1]) && Ascending(lt, items);
      left := UnfinishedLeaves(lt, Some(items[|items| - 1]), walk[1..], members);
      hide Follows, IsPage;
      NotBefore(lt, items, left);
    }
  }

  lemma {:induction false} CompleteCount<K(!new)>(lt: (K, K) -> bool, walk: seq<Request<K>>, members: set<K>)
    requires StrictTotal(lt) && Follows(lt, None, walk) && Complete(walk)
    requires forall r :: r in walk ==> r.visible == members
    ensures |Collected(walk)| == |members|
  {
    WalkAdvances(lt, None, walk);
    forall k | k in Collected(walk) ensures k in members { CollectedWasVisible(lt, None, walk, k); }
    forall k | k in members ensures k in Collected(walk) { WalkMissesNothing(lt, None, walk, k); }
    hide *;
    AscendingFits(lt, Collected(walk), members);
    Covers(Collected(walk), members);
  }

  lemma {:induction false} UnfinishedCount<K(!new)>(lt: (K, K) -> bool, walk: seq<Request<K>>, members: set<K>)
    requires StrictTotal(lt) && Follows(lt, None, walk) && walk != [] && !Complete(walk)
    requires forall r :: r in walk ==> r.visible == members
    ensures |Collected(walk)| < |members|
  {
    WalkAdvances(lt, None, walk);
    forall k | k in Collected(walk) ensures k in members { CollectedWasVisible(lt, None, walk, k); }
    var left := UnfinishedLeaves(lt, None, walk, members);
    hide *;
    AscendingFits(lt, Collected(walk), members - {left});
  }

  /** Following cursors over unchanged rows ends, after exactly max(1, ceil(n / limit)) pages and no sooner. */
  lemma {:induction false} StaticWalkEnds<K(!new)>(lt: (K, K) -> bool, walk: seq<Request<K>>, members: set<K>, limit: nat)
    requires StrictTotal(lt) && Follows(lt, None, walk) && walk != [] && limit > 0
    requires forall r :: r in walk ==> r.visible == members && r.limit == limit
    ensures |walk| <= Pages(|members|, limit)
    ensures Complete(walk) <==> |walk| == Pages(|members|, limit)
  {
    hide Follows, Collected, Complete, StrictTotal;
    var n := |members|;
    if Complete(walk) {
      CompleteCount(lt, walk, members);
      StaticWalkLength(lt, None, walk, limit);
    } else {
      UnfinishedIsFull(lt, None, walk, limit);
      UnfinishedCount(lt, walk, members);
    }
    if n > 0 {
      hide Pages;
      PagesExact(n, limit, |walk|);
    } else {
      assert |Collected(walk)| == 0;
    }
  }
}
