// scripts/parity/parity_aggregate.py: flattening the overlapping label classes, in a
// dict of parents that find rewrites while it searches; it keeps no ranks.
module UnionFind {
  import opened ForestTheory
  import opened LabelClasses
  import opened Sets

  class KindSets {
    var parent: map<Kind, Kind>
    ghost var rank: map<Kind, nat>
    ghost var bound: nat

    ghost function State(): Forest
      reads this
    {
      Forest(parent, rank, bound)
    }

    ghost predicate Valid()
      reads this
    {
      0 < bound && Acyclic(State())
    }

    ghost function Representatives(): map<Kind, Kind>
      requires Valid()
      reads this
    {
      Roots(State())
    }

    constructor ()
      ensures Valid() && Representatives() == map[]
    {
      parent, rank, bound := map[], map[], 1;
    }

    // find: adds an unseen kind as its own root, then halves the path to the root.
    method Find(start: Kind) returns (root: Kind)
      requires Valid()
      modifies this
      ensures Valid()
      ensures Representatives() == Added(old(Representatives()), start)
      ensures parent.Keys == old(parent).Keys + {start}
      ensures start in Representatives() && root == Representatives()[start]
      ensures root in parent && parent[root] == root
    {
      var x := start;
      if x !in parent {
        ghost var before := State();
        parent, rank := parent[x := x], rank[x := 0];
        PlantingAddsRoot(before, x);
      }
      ghost var roots := Representatives();
      while parent[x] != x
        invariant Valid()
        invariant parent.Keys == old(parent).Keys + {start}
        invariant Representatives() == roots
        invariant x in parent && roots[x] == roots[start]
        decreases bound - rank[x]
      {
        HalvingKeepsRoots(State(), x);
        assert LinkClimbs(State(), x) && LinkClimbs(State(), parent[x]);
        parent := parent[x := parent[parent[x]]];
        x := parent[x];
      }
      root := x;
    }

    // union: the first tree's root hangs under the second's.
    method Union(a: Kind, b: Kind)
      requires Valid()
      requires a in parent && b in parent
      modifies this
      ensures Valid()
      ensures parent.Keys == old(parent).Keys
      ensures Representatives() == Merged(old(Representatives()), a, b)
    {
      var ra := Find(a);
      var rb := Find(b);
      if ra != rb {
        HangingMovesRoots(State(), ra, rb);
        rank, bound := Hang(State(), ra, rb).rank, bound + 1;
        parent := parent[ra := rb];
      }
    }
  }

  // Every pair of kinds with one representative is linked by the classes.
  ghost predicate Sound(roots: map<Kind, Kind>, classes: seq<set<Kind>>) {
    && roots.Keys <= Members(classes) && roots.Values <= roots.Keys
    && forall x, y {:trigger Linked(classes, x, y)} ::
         x in roots && y in roots && roots[x] == roots[y] ==> Linked(classes, x, y)
  }

  // The members of every class in `classes` have one representative.
  ghost predicate Complete(roots: map<Kind, Kind>, classes: seq<set<Kind>>) {
    && Members(classes) <= roots.Keys
    && forall x, y {:trigger Share(classes, x, y)} :: Share(classes, x, y) ==>
         x in roots && y in roots && roots[x] == roots[y]
  }

  lemma MergingStaysSound(roots: map<Kind, Kind>, classes: seq<set<Kind>>, a: Kind, b: Kind)
    requires Sound(roots, classes) && a in roots && b in roots && Share(classes, a, b)
    ensures Sound(Merged(roots, a, b), classes)
  {
    var merged := Merged(roots, a, b);
    LinkedByClass(classes, a, b);
    LinkedSymmetric(classes, a, b);
    forall x, y | x in merged && y in merged && merged[x] == merged[y]
      ensures Linked(classes, x, y)
    {
      if roots[x] != roots[y] {
        var fromA := roots[x] == roots[a];
        var p, q := if fromA then a else b, if fromA then b else a;
        assert Linked(classes, x, p) && Linked(classes, q, y);
        LinkedTransitive(classes, x, p, q);
        LinkedTransitive(classes, x, q, y);
      }
    }
  }

  lemma AddingStaysSound(roots: map<Kind, Kind>, classes: seq<set<Kind>>, k: Kind)
    requires Sound(roots, classes) && k in Members(classes)
    ensures Sound(Added(roots, k), classes)
  {
    LinkedSelf(classes, k);
  }

  // Representatives that are sound and complete are equal exactly for linked kinds.
  lemma RootsDecideLinked(roots: map<Kind, Kind>, classes: seq<set<Kind>>, x: Kind, y: Kind)
    requires Sound(roots, classes) && Complete(roots, classes) && x in roots
    ensures y in roots && roots[x] == roots[y] <==> Linked(classes, x, y)
  {
    if Linked(classes, x, y) {
      var p :| IsChain(classes, p) && p[0] == x && p[|p| - 1] == y;
      ChainHasOneRoot(roots, classes, p);
    }
  }

  lemma {:induction false} ChainHasOneRoot(
      roots: map<Kind, Kind>, classes: seq<set<Kind>>, chain: seq<Kind>)
    requires Complete(roots, classes) && IsChain(classes, chain) && chain[0] in roots
    ensures chain[|chain| - 1] in roots && roots[chain[|chain| - 1]] == roots[chain[0]]
  {
    if |chain| > 1 {
      ChainHasOneRoot(roots, classes, chain[..|chain| - 1]);
      assert Share(classes, chain[|chain| - 2], chain[|chain| - 2 + 1]);
    }
  }

  // _build_equiv_map: each kind maps to every kind the classes link it to.
  method BuildEquivMap(classes: seq<set<Kind>>) returns (equiv: map<Kind, set<Kind>>)
    ensures equiv.Keys == Members(classes)
    ensures forall x, y :: x in equiv ==> (y in equiv[x] <==> Linked(classes, x, y))
  {
    var sets := new KindSets();
    for i := 0 to |classes|
      invariant sets.Valid() && fresh(sets)
      invariant Sound(sets.Representatives(), classes)
      invariant Complete(sets.Representatives(), classes[..i])
    {
      var members := Listed(classes[i]);
      MergeClass(sets, classes, i, members);
    }
    assert classes[..|classes|] == classes;
    equiv := CollectComponents(sets, classes);
  }

  lemma MergingStaysComplete(roots: map<Kind, Kind>, classes: seq<set<Kind>>, a: Kind, b: Kind)
    requires Complete(roots, classes) && a in roots && b in roots
    ensures Complete(Merged(roots, a, b), classes)
  {
  }

  lemma AddingStaysComplete(roots: map<Kind, Kind>, classes: seq<set<Kind>>, k: Kind)
    requires Complete(roots, classes)
    ensures Complete(Added(roots, k), classes)
  {
  }

  lemma CompleteGrows(roots: map<Kind, Kind>, classes: seq<set<Kind>>, i: nat)
    requires i < |classes| && Complete(roots, classes[..i])
    requires forall k :: k in classes[i] ==> k in roots
    requires forall x, y :: x in classes[i] && y in classes[i] ==> roots[x] == roots[y]
    ensures Complete(roots, classes[..i + 1])
  {
    forall x, y | Share(classes[..i + 1], x, y)
      ensures x in roots && y in roots && roots[x] == roots[y]
    {
      if !Share(classes[..i], x, y) {
        assert x in classes[i] && y in classes[i];
      }
    }
    forall x | x in Members(classes[..i + 1]) ensures x in roots {
      assert Share(classes[..i + 1], x, x);
    }
  }

  // The first j members have one representative.
  ghost predicate Gathered(roots: map<Kind, Kind>, members: seq<Kind>, j: nat) {
    && (forall k :: k in members ==> k in roots)
    && forall k :: 0 <= k < j && k < |members| ==> roots[members[k]] == roots[members[0]]
  }

  lemma MergingGathers(roots: map<Kind, Kind>, members: seq<Kind>, j: nat)
    requires j < |members| && Gathered(roots, members, j)
    ensures members[0] in roots && members[j] in roots
    ensures Gathered(Merged(roots, members[0], members[j]), members, j + 1)
  {
    assert members[0] in members && members[j] in members;
    forall k | 0 <= k < j + 1 ensures Merged(roots, members[0], members[j])[members[k]] == roots[members[j]] {
      assert members[k] in members;
    }
  }

  // The body of the loop over the classes, for members listed in any order.
  method MergeClass(sets: KindSets, ghost classes: seq<set<Kind>>, ghost i: nat, members: seq<Kind>)
    requires sets.Valid() && i < |classes|
    requires forall k :: k in members <==> k in classes[i]
    requires Sound(sets.Representatives(), classes)
    requires Complete(sets.Representatives(), classes[..i])
    modifies sets
    ensures sets.Valid()
    ensures Sound(sets.Representatives(), classes)
    ensures Complete(sets.Representatives(), classes[..i + 1])
  {
    AddMembers(sets, classes, i, members);
    ghost var roots := sets.Representatives();
    var j := 1;
    while j < |members|
      invariant 1 <= j
      invariant sets.Valid() && sets.Representatives() == roots
      invariant Sound(roots, classes) && Complete(roots, classes[..i])
      invariant Gathered(roots, members, j)
    {
      assert members[0] in members && members[j] in members;
      MergingGathers(roots, members, j);
      MergingStaysSound(roots, classes, members[0], members[j]);
      MergingStaysComplete(roots, classes[..i], members[0], members[j]);
      sets.Union(members[0], members[j]);
      roots := Merged(roots, members[0], members[j]);
      j := j + 1;
    }
    assert Gathered(roots, members, |members|);
    forall x | x in classes[i] ensures x in roots && roots[x] == roots[members[0]] {
      assert x in members;
    }
    CompleteGrows(roots, classes, i);
  }

  method AddMembers(sets: KindSets, ghost classes: seq<set<Kind>>, ghost i: nat, members: seq<Kind>)
    requires sets.Valid() && i < |classes|
    requires forall k :: k in members <==> k in classes[i]
    requires Sound(sets.Representatives(), classes)
    requires Complete(sets.Representatives(), classes[..i])
    modifies sets
    ensures sets.Valid()
    ensures Sound(sets.Representatives(), classes)
    ensures Complete(sets.Representatives(), classes[..i])
    ensures forall k :: k in members ==> k in sets.Representatives()
  {
    ghost var roots := sets.Representatives();
    for j := 0 to |members|
      invariant sets.Valid() && sets.Representatives() == roots
      invariant Sound(roots, classes) && Complete(roots, classes[..i])
      invariant forall k :: 0 <= k < j ==> members[k] in roots
    {
      assert members[j] in classes[i];
      AddingStaysSound(roots, classes, members[j]);
      AddingStaysComplete(roots, classes[..i], members[j]);
      var _ := sets.Find(members[j]);
      roots := Added(roots, members[j]);
    }
  }

  // The two comprehensions at the end: bucket the kinds by root, then read each
  // kind's bucket. find halves paths meanwhile, which moves no root.
  method CollectComponents(sets: KindSets, ghost classes: seq<set<Kind>>) returns (equiv: map<Kind, set<Kind>>)
    requires sets.Valid()
    requires Sound(sets.Representatives(), classes) && Complete(sets.Representatives(), classes)
    modifies sets
    ensures equiv.Keys == Members(classes)
    ensures forall x, y :: x in equiv ==> (y in equiv[x] <==> Linked(classes, x, y))
  {
    ghost var roots := sets.Representatives();
    var keys := Listed(sets.parent.Keys);
    var buckets := BucketByRoot(sets, keys, roots);
    equiv := ReadBuckets(sets, keys, buckets, roots);
    forall x, y | x in equiv ensures y in equiv[x] <==> Linked(classes, x, y) {
      RootsDecideLinked(roots, classes, x, y);
    }
  }

  method ReadBuckets(sets: KindSets, keys: seq<Kind>, buckets: map<Kind, set<Kind>>, ghost roots: map<Kind, Kind>)
      returns (equiv: map<Kind, set<Kind>>)
    requires sets.Valid() && sets.Representatives() == roots
    requires forall k :: k in keys <==> k in roots
    requires forall k :: k in roots ==> roots[k] in buckets && buckets[roots[k]] == Component(roots, roots[k])
    modifies sets
    ensures equiv == map x | x in roots :: Component(roots, roots[x])
  {
    equiv := map[];
    for j := 0 to |keys|
      invariant sets.Valid() && sets.Representatives() == roots
      invariant forall x :: x in equiv <==> x in keys[..j]
      invariant forall x :: x in equiv ==> x in roots && equiv[x] == Component(roots, roots[x])
    {
      var k := keys[j];
      assert k in keys && keys[..j + 1] == keys[..j] + [k];
      var r := sets.Find(k);
      equiv := equiv[k := buckets[r]];
    }
    assert keys[..|keys|] == keys;
  }

  ghost function Component(roots: map<Kind, Kind>, root: Kind): set<Kind> {
    set y | y in roots && roots[y] == root
  }

  method BucketByRoot(sets: KindSets, keys: seq<Kind>, ghost roots: map<Kind, Kind>)
      returns (buckets: map<Kind, set<Kind>>)
    requires sets.Valid() && sets.Representatives() == roots
    requires forall k :: k in keys <==> k in roots
    modifies sets
    ensures sets.Valid() && sets.Representatives() == roots
    ensures forall k :: k in roots ==> roots[k] in buckets && buckets[roots[k]] == Component(roots, roots[k])
  {
    buckets := map[];
    for j := 0 to |keys|
      invariant sets.Valid() && sets.Representatives() == roots
      invariant forall k :: k in keys[..j] ==> roots[k] in buckets
      invariant forall r, y :: r in buckets && y in buckets[r] ==> y in keys[..j] && roots[y] == r
      invariant forall y :: y in keys[..j] ==> y in buckets[roots[y]]
    {
      var k := keys[j];
      assert k in keys && keys[..j + 1] == keys[..j] + [k];
      var r := sets.Find(k);
      buckets := buckets[r := (if r in buckets then buckets[r] else {}) + {k}];
    }
    assert keys[..|keys|] == keys;
  }
}
