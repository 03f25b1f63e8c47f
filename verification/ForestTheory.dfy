/** Forests of parent links, as values. */
module ForestTheory {
  import opened LabelClasses

  // `rank` and `bound` witness that the links of `parent` are acyclic. The program
  // stores no rank; the proof carries one.
  datatype Forest = Forest(parent: map<Kind, Kind>, rank: map<Kind, nat>, bound: nat)

  ghost predicate Acyclic(f: Forest) {
    && f.parent.Keys == f.rank.Keys
    && forall x {:trigger LinkClimbs(f, x)} :: x in f.parent ==> LinkClimbs(f, x)
  }

  ghost predicate LinkClimbs(f: Forest, x: Kind)
    requires f.parent.Keys == f.rank.Keys && x in f.parent
  {
    && f.parent[x] in f.parent
    && f.rank[x] < f.bound
    && (f.parent[x] != x ==> f.rank[x] < f.rank[f.parent[x]])
  }

  ghost function Root(f: Forest, x: Kind): (r: Kind)
    requires Acyclic(f) && x in f.parent
    ensures r in f.parent && f.parent[r] == r
    ensures f.rank[x] <= f.rank[r]
    decreases f.bound - f.rank[x]
  {
    assert LinkClimbs(f, x);
    if f.parent[x] == x then x else Root(f, f.parent[x])
  }

  // What a union-find means: the representative of every element.
  ghost function Roots(f: Forest): map<Kind, Kind>
    requires Acyclic(f)
  {
    map x | x in f.parent :: Root(f, x)
  }

  ghost function Plant(f: Forest, x: Kind): Forest {
    f.(parent := f.parent[x := x], rank := f.rank[x := 0])
  }

  lemma PlantingStaysAcyclic(f: Forest, x: Kind)
    requires Acyclic(f) && x !in f.parent && 0 < f.bound
    ensures Acyclic(Plant(f, x))
  {
    forall y | y in Plant(f, x).parent ensures LinkClimbs(Plant(f, x), y) {
      if y != x {
        assert LinkClimbs(f, y);
      }
    }
  }

  lemma {:induction false} PlantingKeepsRoot(f: Forest, x: Kind, y: Kind)
    requires Acyclic(f) && x !in f.parent && y in f.parent
    requires Acyclic(Plant(f, x))
    ensures Root(Plant(f, x), y) == Root(f, y)
    decreases f.bound - f.rank[y]
  {
    assert LinkClimbs(f, y);
    if f.parent[y] != y {
      PlantingKeepsRoot(f, x, f.parent[y]);
    }
  }

  lemma PlantingAddsRoot(f: Forest, x: Kind)
    requires Acyclic(f) && x !in f.parent && 0 < f.bound
    ensures Acyclic(Plant(f, x)) && Roots(Plant(f, x)) == Roots(f)[x := x]
  {
    PlantingStaysAcyclic(f, x);
    forall y | y in f.parent ensures Root(Plant(f, x), y) == Root(f, y) {
      PlantingKeepsRoot(f, x, y);
    }
  }

  ghost function Added(roots: map<Kind, Kind>, x: Kind): map<Kind, Kind> {
    if x in roots then roots else roots[x := x]
  }

  ghost function Halve(f: Forest, x: Kind): Forest
    requires Acyclic(f) && x in f.parent
  {
    assert LinkClimbs(f, x);
    f.(parent := f.parent[x := f.parent[f.parent[x]]])
  }

  lemma HalvingStaysAcyclic(f: Forest, x: Kind)
    requires Acyclic(f) && x in f.parent
    ensures Acyclic(Halve(f, x))
  {
    forall y | y in f.parent ensures LinkClimbs(Halve(f, x), y) {
      assert LinkClimbs(f, y) && LinkClimbs(f, f.parent[y]);
    }
  }

  // One halving step shortcuts a link and moves no element to another tree.
  lemma {:induction false} HalvingKeepsRoot(f: Forest, x: Kind, y: Kind)
    requires Acyclic(f) && x in f.parent && y in f.parent
    requires Acyclic(Halve(f, x))
    ensures Root(Halve(f, x), y) == Root(f, y)
    decreases f.bound - f.rank[y]
  {
    assert LinkClimbs(f, y) && LinkClimbs(f, f.parent[y]);
    if f.parent[y] != y {
      HalvingKeepsRoot(f, x, f.parent[y]);
      if y == x && f.parent[f.parent[x]] != f.parent[x] {
        HalvingKeepsRoot(f, x, f.parent[f.parent[x]]);
      }
    }
  }

  lemma HalvingKeepsRoots(f: Forest, x: Kind)
    requires Acyclic(f) && x in f.parent
    ensures Acyclic(Halve(f, x)) && Roots(Halve(f, x)) == Roots(f)
  {
    HalvingStaysAcyclic(f, x);
    forall y | y in f.parent ensures Root(Halve(f, x), y) == Root(f, y) {
      HalvingKeepsRoot(f, x, y);
    }
  }

  ghost function Hang(f: Forest, a: Kind, b: Kind): Forest
    requires Acyclic(f) && a in f.parent && b in f.parent
  {
    var lifted := if f.rank[b] > f.rank[a] then f.rank[b] else f.rank[a] + 1;
    Forest(f.parent[a := b], f.rank[b := lifted], f.bound + 1)
  }

  lemma HangingStaysAcyclic(f: Forest, a: Kind, b: Kind)
    requires Acyclic(f)
    requires a in f.parent && b in f.parent && a != b && f.parent[a] == a && f.parent[b] == b
    ensures Acyclic(Hang(f, a, b))
  {
    assert LinkClimbs(f, a) && LinkClimbs(f, b);
    forall y | y in f.parent ensures LinkClimbs(Hang(f, a, b), y) {
      assert LinkClimbs(f, y);
    }
  }

  // Hanging one root under another merges exactly those two trees.
  lemma {:induction false} HangingMovesRoot(f: Forest, a: Kind, b: Kind, y: Kind)
    requires Acyclic(f) && y in f.parent
    requires a in f.parent && b in f.parent && a != b && f.parent[a] == a && f.parent[b] == b
    requires Acyclic(Hang(f, a, b))
    ensures Root(Hang(f, a, b), y) == if Root(f, y) == a then b else Root(f, y)
    decreases f.bound - f.rank[y]
  {
    assert LinkClimbs(f, y);
    if f.parent[y] != y {
      HangingMovesRoot(f, a, b, f.parent[y]);
    }
  }

  ghost function Merged(roots: map<Kind, Kind>, a: Kind, b: Kind): map<Kind, Kind>
    requires a in roots && b in roots
  {
    map y | y in roots :: if roots[y] == roots[a] then roots[b] else roots[y]
  }

  lemma HangingMovesRoots(f: Forest, a: Kind, b: Kind)
    requires Acyclic(f)
    requires a in f.parent && b in f.parent && a != b && f.parent[a] == a && f.parent[b] == b
    ensures Acyclic(Hang(f, a, b)) && Roots(Hang(f, a, b)) == Merged(Roots(f), a, b)
  {
    HangingStaysAcyclic(f, a, b);
    forall y | y in f.parent
      ensures Root(Hang(f, a, b), y) == if Root(f, y) == a then b else Root(f, y)
    {
      HangingMovesRoot(f, a, b, y);
    }
  }
}
