/** A sort by a total preorder, for the places that call a library sort. */
module Sorting {
  ghost predicate TotalPreorder<T(!new)>(le: (T, T) -> bool) {
    && (forall x, y :: le(x, y) || le(y, x))
    && (forall x, y, z :: le(x, y) && le(y, z) ==> le(x, z))
  }

  ghost predicate SortedBy<T>(s: seq<T>, le: (T, T) -> bool) {
    forall i, j :: 0 <= i < j < |s| ==> le(s[i], s[j])
  }

  ghost predicate Distinct<T>(s: seq<T>) {
    forall i, j :: 0 <= i < j < |s| ==> s[i] != s[j]
  }

  function Insert<T>(x: T, s: seq<T>, le: (T, T) -> bool): seq<T> {
    if s == [] || le(x, s[0]) then [x] + s else [s[0]] + Insert(x, s[1..], le)
  }

  function Sort<T>(s: seq<T>, le: (T, T) -> bool): seq<T> {
    if s == [] then [] else Insert(s[0], Sort(s[1..], le), le)
  }

  lemma {:induction false} InsertKeeps<T(!new)>(x: T, s: seq<T>, le: (T, T) -> bool)
    requires TotalPreorder(le) && SortedBy(s, le)
    ensures SortedBy(Insert(x, s, le), le)
    ensures multiset(Insert(x, s, le)) == multiset{x} + multiset(s)
  {
    if s != [] {
      assert s == [s[0]] + s[1..];
      if !le(x, s[0]) {
        InsertKeeps(x, s[1..], le);
        var rest := Insert(x, s[1..], le);
        forall j | 0 <= j < |rest| ensures le(s[0], rest[j]) {
          assert rest[j] in multiset(rest);
          if rest[j] != x {
            assert rest[j] in s[1..];
          }
        }
      }
    }
  }

  lemma {:induction false} SortSorts<T(!new)>(s: seq<T>, le: (T, T) -> bool)
    requires TotalPreorder(le)
    ensures SortedBy(Sort(s, le), le) && multiset(Sort(s, le)) == multiset(s)
    ensures |Sort(s, le)| == |s|
  {
    if s != [] {
      assert s == [s[0]] + s[1..];
      SortSorts(s[1..], le);
      InsertKeeps(s[0], Sort(s[1..], le), le);
    }
    assert |multiset(Sort(s, le))| == |multiset(s)|;
  }

  lemma MultisetMembers<T>(a: seq<T>, b: seq<T>)
    requires multiset(a) == multiset(b)
    ensures forall x :: x in a <==> x in b
  {
    forall x ensures x in a <==> x in b {
      assert x in multiset(a) <==> x in multiset(b);
    }
  }

  // A rearrangement of distinct elements has distinct elements.
  lemma {:induction false} DistinctCounts<T>(s: seq<T>)
    requires Distinct(s)
    ensures forall x :: multiset(s)[x] <= 1
  {
    if s != [] {
      DistinctCounts(s[1..]);
      assert s == [s[0]] + s[1..];
      assert s[0] !in s[1..];
    }
  }

  lemma RearrangedDistinct<T>(a: seq<T>, b: seq<T>)
    requires multiset(a) == multiset(b)
    requires Distinct(a)
    ensures Distinct(b)
  {
    DistinctCounts(a);
    forall i, j | 0 <= i < j < |b| ensures b[i] != b[j] {
      if b[i] == b[j] {
        CountsTwice(b, i, j);
      }
    }
  }

  lemma CountsTwice<T>(s: seq<T>, i: nat, j: nat)
    requires i < j < |s| && s[i] == s[j]
    ensures multiset(s)[s[i]] >= 2
  {
    assert s == s[..j] + s[j..] && s[i] in s[..j] && s[j] in s[j..];
    assert multiset(s)[s[i]] == multiset(s[..j])[s[i]] + multiset(s[j..])[s[i]];
  }
}
