/** Ranging over a Go map: every entry once, in an order the program does not choose. */
module Traversals {
  import opened Orders

  /** rows lists the values of m in some order, each once: one traversal of the map. */
  ghost predicate Enumerates<T>(rows: seq<T>, order: seq<string>, m: map<string, T>) {
    && |rows| == |order|
    && (forall i, j :: 0 <= i < j < |order| ==> order[i] != order[j])
    && (forall c :: c in order <==> c in m)
    && (forall i :: 0 <= i < |order| ==> rows[i] == m[order[i]])
  }

  lemma {:induction false} DistinctLength(order: seq<string>, codes: set<string>)
    requires forall i, j :: 0 <= i < j < |order| ==> order[i] != order[j]
    requires forall c :: c in order <==> c in codes
    ensures |order| == |codes|
  {
    if order == [] {
      assert codes == {};
    } else {
      Has(order, 0);
      DistinctLength(order[1..], codes - {order[0]});
    }
  }

  lemma {:induction false} EnumerationLength<T>(rows: seq<T>, order: seq<string>, m: map<string, T>)
    requires Enumerates(rows, order, m)
    ensures |rows| == |m|
  {
    DistinctLength(order, m.Keys);
  }

  lemma {:induction false} EnumerateOneMore<T>(rows: seq<T>, order: seq<string>, m: map<string, T>, code: string, u: T)
    requires Enumerates(rows, order, m) && code !in m
    ensures Enumerates(rows + [u], order + [code], m[code := u])
  {
    forall i | 0 <= i < |order|
      ensures order[i] != code
    {
      assert order[i] in order;
    }
    forall c
      ensures c in order + [code] <==> c in m[code := u]
    {
      assert c in order + [code] <==> c in order || c == code;
    }
  }

  /** The part of m that a traversal has met when todo is still ahead of it. */
  ghost function Seen<T>(m: map<string, T>, todo: set<string>): map<string, T> {
    map c | c in m && c !in todo :: m[c]
  }

  lemma {:induction false} Passed<T>(m: map<string, T>, todo: set<string>)
    ensures todo == {} ==> Seen(m, todo) == m
    ensures m.Keys <= todo ==> Seen(m, todo) == map[]
  {
  }

  lemma {:induction false} PassOne<T>(m: map<string, T>, todo: set<string>, code: string)
    requires code in todo
    ensures code !in Seen(m, todo)
    ensures Seen(m, todo - {code}) == if code in m then Seen(m, todo)[code := m[code]] else Seen(m, todo)
  {
  }

  /** One of the orders in which a map may be met. */
  ghost function Traversal<T>(m: map<string, T>): (order: seq<string>)
    ensures forall i, j :: 0 <= i < j < |order| ==> order[i] != order[j]
    ensures forall c :: c in order <==> c in m
    decreases |m|
  {
    if m == map[] then []
    else
      var c :| c in m;
      var rest := m - {c};
      assert |m.Keys| == |m| && |rest.Keys| == |rest| && m.Keys == rest.Keys + {c};
      [c] + Traversal(rest)
  }

  ghost function TraversalRows<T>(m: map<string, T>): (rows: seq<T>)
    ensures Enumerates(rows, Traversal(m), m)
  {
    var order := Traversal(m);
    seq(|order|, i requires 0 <= i < |order| => m[order[i]])
  }
}
