/** Sets, and lists of their members: the order in which a program happens to walk one. */
module Sets {
  function SetOf<T(==)>(q: seq<T>): set<T> {
    set x | x in q
  }

  // The members of a set, each once.
  ghost predicate Lists<T(!new)>(q: seq<T>, s: set<T>) {
    && (forall x :: x in q <==> x in s)
    && forall i, j :: 0 <= i < j < |q| ==> q[i] != q[j]
  }

  // list(s), or a loop over s, in an order the program does not choose.
  method Listed<T(==,!new)>(s: set<T>) returns (q: seq<T>)
    ensures Lists(q, s) && |q| == |s|
  {
    q := [];
    var rest := s;
    while rest != {}
      invariant rest <= s && Lists(q, s - rest) && |q| + |rest| == |s|
    {
      var x :| x in rest;
      q, rest := q + [x], rest - {x};
    }
    assert s - rest == s;
  }

  lemma {:induction false} DistinctCard<T>(q: seq<T>)
    requires forall i, j :: 0 <= i < j < |q| ==> q[i] != q[j]
    ensures |SetOf(q)| == |q|
  {
    if q != [] {
      DistinctCard(q[..|q| - 1]);
      assert SetOf(q) == SetOf(q[..|q| - 1]) + {q[|q| - 1]};
    }
  }

  lemma ListsCard<T(!new)>(q: seq<T>, s: set<T>)
    requires Lists(q, s)
    ensures |q| == |s|
  {
    DistinctCard(q);
    assert SetOf(q) == s;
  }

  lemma ListsOneMore<T(!new)>(q: seq<T>, s: set<T>, x: T)
    requires Lists(q, s) && x !in s
    ensures Lists(q + [x], s + {x})
  {
  }

  lemma ListsAllButLast<T(!new)>(q: seq<T>, s: set<T>)
    requires Lists(q, s) && q != []
    ensures Lists(q[..|q| - 1], s - {q[|q| - 1]})
  {
    assert q == q[..|q| - 1] + [q[|q| - 1]];
  }

  lemma ListsConcat<T(!new)>(p: seq<T>, a: set<T>, q: seq<T>, b: set<T>)
    requires Lists(p, a) && Lists(q, b) && a !! b
    ensures Lists(p + q, a + b)
  {
    forall i, j | 0 <= i < j < |p + q| ensures (p + q)[i] != (p + q)[j] {
      if i < |p| <= j {
        assert (p + q)[i] in p && (p + q)[j] in q;
      }
    }
  }

  lemma SomeList<T(!new)>(s: set<T>) returns (order: seq<T>)
    ensures Lists(order, s)
  {
    if s == {} {
      order := [];
    } else {
      var x :| x in s;
      order := SomeList(s - {x});
      order := order + [x];
    }
  }
}
