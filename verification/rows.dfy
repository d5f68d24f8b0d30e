/** A table as the database stores it: a sequence of rows in primary-key
    (SQLite rowid) order. The helpers are generic in how a row gives its id. */
module Rows {
  import opened Wrappers

  /** Ids strictly increase along the table, so they are unique and the
      stored order is the order `query.all()` and lazy relationships return. */
  predicate IdsIncreasing<T>(s: seq<T>, idOf: T -> int) {
    forall i, j | 0 <= i < j < |s| :: idOf(s[i]) < idOf(s[j])
  }

  /** `Model.query.get(id)`: the row with that primary key, if any. */
  function FindById<T>(s: seq<T>, idOf: T -> int, id: int): (r: Option<T>)
    ensures r.Some? ==> r.value in s && idOf(r.value) == id
    ensures r.None? ==> forall x | x in s :: idOf(x) != id
  {
    if s == [] then None
    else if idOf(s[0]) == id then Some(s[0])
    else FindById(s[1..], idOf, id)
  }

  /** With unique ids, `get` returns exactly the row that carries the id. */
  lemma FindByIdUnique<T>(s: seq<T>, idOf: T -> int, x: T)
    requires IdsIncreasing(s, idOf) && x in s
    ensures FindById(s, idOf, idOf(x)) == Some(x)
  {
  }

  /** The rows of `s` that satisfy `keep`, in table order. */
  function Filter<T>(s: seq<T>, keep: T -> bool): (r: seq<T>)
    ensures |r| <= |s|
    ensures forall x | x in r :: x in s && keep(x)
    ensures forall x | x in s && keep(x) :: x in r
  {
    if s == [] then []
    else (if keep(s[0]) then [s[0]] else []) + Filter(s[1..], keep)
  }

  /** Filtering keeps table order: the kept rows of a concatenation are the
      kept rows of the first part followed by those of the second. */
  lemma {:induction false} FilterAppend<T>(a: seq<T>, b: seq<T>, keep: T -> bool)
    ensures Filter(a + b, keep) == Filter(a, keep) + Filter(b, keep)
    decreases |a|
  {
    if a != [] {
      assert (a + b)[0] == a[0] && (a + b)[1..] == a[1..] + b;
      FilterAppend(a[1..], b, keep);
      assert Filter(a + b, keep) == (if keep(a[0]) then [a[0]] else []) + Filter(a[1..] + b, keep);
    } else {
      assert a + b == b;
    }
  }

  /** A row whose id is below every id of an ordered table can go in front of it. */
  lemma ConsKeepsIncreasing<T>(a: T, r: seq<T>, idOf: T -> int)
    requires IdsIncreasing(r, idOf)
    requires forall x | x in r :: idOf(a) < idOf(x)
    ensures IdsIncreasing([a] + r, idOf)
  {
  }

  /** The tail of an ordered table is ordered, and the head is below all of it. */
  lemma TailOfIncreasing<T>(s: seq<T>, idOf: T -> int)
    requires IdsIncreasing(s, idOf) && s != []
    ensures IdsIncreasing(s[1..], idOf)
    ensures forall x | x in s[1..] :: idOf(s[0]) < idOf(x)
  {
  }

  lemma FilterOfThree<T>(a: T, b: T, c: T, keep: T -> bool)
    ensures Filter([a, b, c], keep) ==
      (if keep(a) then [a] else []) + (if keep(b) then [b] else []) + (if keep(c) then [c] else [])
  {
    assert [a, b, c][1..] == [b, c];
    assert [b, c][1..] == [c];
    assert [c][1..] == [];
    assert Filter([c], keep) == (if keep(c) then [c] else []);
    assert Filter([b, c], keep) == (if keep(b) then [b] else []) + Filter([c], keep);
    assert Filter([a, b, c], keep) == (if keep(a) then [a] else []) + Filter([b, c], keep);
  }

  /** Deleting rows keeps the table in primary-key order. */
  lemma {:induction false} FilterKeepsIncreasing<T>(s: seq<T>, idOf: T -> int, keep: T -> bool)
    requires IdsIncreasing(s, idOf)
    ensures IdsIncreasing(Filter(s, keep), idOf)
  {
    if s != [] {
      TailOfIncreasing(s, idOf);
      FilterKeepsIncreasing(s[1..], idOf, keep);
      var tail := Filter(s[1..], keep);
      if keep(s[0]) {
        ConsKeepsIncreasing(s[0], tail, idOf);
      } else {
        assert Filter(s, keep) == tail;
      }
    }
  }

  /** SQLite's default rowid for a new row: one more than the largest id in
      the table, or 1 in an empty table. */
  function NextId<T>(s: seq<T>, idOf: T -> int): (n: int)
    requires IdsIncreasing(s, idOf)
    ensures forall x | x in s :: idOf(x) < n
    ensures s == [] ==> n == 1
  {
    if s == [] then 1 else idOf(s[|s| - 1]) + 1
  }

  /** Appending a row whose id exceeds every stored id keeps the order. */
  lemma AppendKeepsIncreasing<T>(s: seq<T>, idOf: T -> int, x: T)
    requires IdsIncreasing(s, idOf)
    requires forall y | y in s :: idOf(y) < idOf(x)
    ensures IdsIncreasing(s + [x], idOf)
  {
  }
}
