/** LINQ's `Where` over a list, and the listing of a keyed table in ascending
    key order, which stands in for the order the database returns rows in. */
module Collections {

  /** `Where(f)`: the elements satisfying `f`, in their original order. */
  function Filter<T>(xs: seq<T>, f: T -> bool): (r: seq<T>)
    ensures |r| <= |xs|
    ensures forall i :: 0 <= i < |r| ==> r[i] in xs && f(r[i])
    ensures forall i :: 0 <= i < |xs| && f(xs[i]) ==> xs[i] in r
  {
    if |xs| == 0 then []
    else if f(xs[0]) then [xs[0]] + Filter(xs[1..], f)
    else Filter(xs[1..], f)
  }

  /** Filtering twice is filtering once by both conditions. */
  lemma {:induction false} FilterFilter<T>(xs: seq<T>, f: T -> bool, g: T -> bool)
    ensures Filter(Filter(xs, f), g) == Filter(xs, x => f(x) && g(x))
  {
    if |xs| > 0 {
      FilterFilter(xs[1..], f, g);
      if f(xs[0]) {
        assert Filter(xs, f) == [xs[0]] + Filter(xs[1..], f);
        assert Filter(xs, f)[1..] == Filter(xs[1..], f);
      }
    }
  }

  /** Filtering keeps the count of every element that passes and drops the rest. */
  lemma {:induction false} FilterMultiset<T>(xs: seq<T>, f: T -> bool, x: T)
    ensures multiset(Filter(xs, f))[x] == if f(x) then multiset(xs)[x] else 0
  {
    if |xs| > 0 {
      FilterMultiset(xs[1..], f, x);
      assert xs == [xs[0]] + xs[1..];
    }
  }

  lemma NonEmptyHasElement(s: set<int>)
    requires s != {}
    ensures exists x :: x in s
  {
    if forall x :: x !in s {
      assert false;
    }
  }

  lemma {:induction false} MinExists(s: set<int>)
    requires s != {}
    ensures exists m :: m in s && forall y :: y in s ==> m <= y
    decreases |s|
  {
    NonEmptyHasElement(s);
    var x :| x in s;
    var rest := s - {x};
    assert |rest| == |s| - 1;
    var m := x;
    if rest != {} {
      MinExists(rest);
      m :| m in rest && forall y :: y in rest ==> m <= y;
    }
    LeastOfTwo(s, x, m);
    var least := if x < m then x else m;
    assert least in s;
  }

  lemma LeastOfTwo(s: set<int>, x: int, m: int)
    requires x in s && m in s
    requires forall y :: y in s - {x} ==> m <= y
    ensures var least := if x < m then x else m;
      least in s && forall y :: y in s ==> least <= y
  {
    forall y | y in s
      ensures (if x < m then x else m) <= y
    {
      if y != x {
        assert y in s - {x};
      }
    }
  }

  function MinOf(s: set<int>): (m: int)
    requires s != {}
    ensures m in s && forall y :: y in s ==> m <= y
  {
    MinExists(s);
    var m :| m in s && forall y :: y in s ==> m <= y;
    m
  }

  predicate Increasing(xs: seq<int>) {
    forall i, j :: 0 <= i < j < |xs| ==> xs[i] < xs[j]
  }

  /** The keys of a table, smallest first. */
  function SortedKeys(s: set<int>): (r: seq<int>)
    ensures Increasing(r)
    ensures |r| == |s|
    ensures forall k :: k in r <==> k in s
    decreases |s|
  {
    if s == {} then []
    else
      var m := MinOf(s);
      [m] + SortedKeys(s - {m})
  }

  /** The rows of a keyed table in ascending key order. */
  function Rows<T>(table: map<int, T>): (r: seq<T>)
    ensures |r| == |table|
    ensures forall i :: 0 <= i < |r| ==> r[i] == table[SortedKeys(table.Keys)[i]]
  {
    var ks := SortedKeys(table.Keys);
    assert |ks| == |table|;
    RowsAt(table, ks)
  }

  /** The rows of the table under the keys `ks`, in the order of `ks`. */
  function RowsAt<T>(table: map<int, T>, ks: seq<int>): (r: seq<T>)
    requires forall i :: 0 <= i < |ks| ==> ks[i] in table
    ensures |r| == |ks|
    ensures forall i :: 0 <= i < |r| ==> r[i] == table[ks[i]]
  {
    seq(|ks|, i requires 0 <= i < |ks| => table[ks[i]])
  }

  /** Every row of the table is listed, and nothing else is. */
  lemma RowsMembers<T>(table: map<int, T>, x: T)
    ensures x in Rows(table) <==> exists k :: k in table && table[k] == x
  {
    var ks := SortedKeys(table.Keys);
    var r := Rows(table);
    if k :| k in table && table[k] == x {
      var i :| 0 <= i < |ks| && ks[i] == k;
      assert r[i] == x;
    }
  }

  /** `f(y0) + f(y0 + 1) + ... + f(y1)`: lists gathered over a range of integers. */
  function Concat<T>(f: int -> seq<T>, y0: int, y1: int): seq<T>
    decreases y1 - y0
  {
    if y1 < y0 then [] else Concat(f, y0, y1 - 1) + f(y1)
  }

  /** An element is gathered exactly when one of the lists holds it. */
  lemma {:induction false} ConcatMembers<T>(f: int -> seq<T>, y0: int, y1: int, x: T)
    ensures x in Concat(f, y0, y1) <==> exists y :: y0 <= y <= y1 && x in f(y)
    decreases y1 - y0
  {
    if y1 >= y0 {
      ConcatMembers(f, y0, y1 - 1, x);
    }
  }

  /** The `for` loop that appends `f(y)` for each `y` from `y0` to `y1`. */
  method Gather<T>(f: int -> seq<T>, y0: int, y1: int) returns (r: seq<T>)
    ensures r == Concat(f, y0, y1)
    ensures forall x :: x in r <==> exists y :: y0 <= y <= y1 && x in f(y)
  {
    r := [];
    if y1 < y0 {
      return;
    }
    var y := y0;
    while y <= y1
      invariant y0 <= y <= y1 + 1
      invariant r == Concat(f, y0, y - 1)
      decreases y1 - y
    {
      r := r + f(y);
      y := y + 1;
    }
    forall x
      ensures x in r <==> exists y :: y0 <= y <= y1 && x in f(y)
    {
      ConcatMembers(f, y0, y1, x);
    }
  }
}
