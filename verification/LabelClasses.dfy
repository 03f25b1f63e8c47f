/** What overlapping classes mean: kinds linked by a chain of shared classes. */
module LabelClasses {
  type Kind = string

  ghost function Members(classes: seq<set<Kind>>): set<Kind> {
    set i, k | 0 <= i < |classes| && k in classes[i] :: k
  }

  ghost predicate Share(classes: seq<set<Kind>>, x: Kind, y: Kind) {
    exists i :: 0 <= i < |classes| && x in classes[i] && y in classes[i]
  }

  ghost predicate IsChain(classes: seq<set<Kind>>, chain: seq<Kind>) {
    && |chain| > 0
    && forall i :: 0 <= i < |chain| - 1 ==> Share(classes, chain[i], chain[i + 1])
  }

  // Some chain of kinds, each sharing a class with the next, leads from x to y.
  ghost predicate Linked(classes: seq<set<Kind>>, x: Kind, y: Kind) {
    && x in Members(classes)
    && exists chain :: IsChain(classes, chain) && chain[0] == x && chain[|chain| - 1] == y
  }

  lemma LinkedSelf(classes: seq<set<Kind>>, x: Kind)
    requires x in Members(classes)
    ensures Linked(classes, x, x)
  {
    assert IsChain(classes, [x]);
  }

  lemma LinkedByClass(classes: seq<set<Kind>>, x: Kind, y: Kind)
    requires Share(classes, x, y)
    ensures Linked(classes, x, y)
  {
    var chain := [x, y];
    assert IsChain(classes, chain) && chain[|chain| - 1] == y;
  }

  lemma LinkedTransitive(classes: seq<set<Kind>>, x: Kind, y: Kind, z: Kind)
    requires Linked(classes, x, y) && Linked(classes, y, z)
    ensures Linked(classes, x, z)
  {
    var p :| IsChain(classes, p) && p[0] == x && p[|p| - 1] == y;
    var q :| IsChain(classes, q) && q[0] == y && q[|q| - 1] == z;
    var chain := p + q[1..];
    forall i | 0 <= i < |chain| - 1 ensures Share(classes, chain[i], chain[i + 1]) {
      if i >= |p| - 1 {
        assert chain[i] == q[i - (|p| - 1)] && chain[i + 1] == q[i + 1 - (|p| - 1)];
      }
    }
    assert IsChain(classes, chain) && chain[|chain| - 1] == z;
  }

  lemma ChainStaysInMembers(classes: seq<set<Kind>>, chain: seq<Kind>)
    requires IsChain(classes, chain) && chain[0] in Members(classes)
    ensures chain[|chain| - 1] in Members(classes)
  {
    if |chain| > 1 {
      assert Share(classes, chain[|chain| - 2], chain[|chain| - 2 + 1]);
    }
  }

  lemma LinkedSymmetric(classes: seq<set<Kind>>, x: Kind, y: Kind)
    requires Linked(classes, x, y)
    ensures Linked(classes, y, x)
  {
    var p :| IsChain(classes, p) && p[0] == x && p[|p| - 1] == y;
    ChainStaysInMembers(classes, p);
    var chain := seq(|p|, i requires 0 <= i < |p| => p[|p| - 1 - i]);
    forall i | 0 <= i < |chain| - 1 ensures Share(classes, chain[i], chain[i + 1]) {
      var j := |p| - 2 - i;
      assert Share(classes, p[j], p[j + 1]);
    }
    assert IsChain(classes, chain) && chain[|chain| - 1] == x;
  }

  ghost predicate IsEquivalence(related: (Kind, Kind) -> bool, on: set<Kind>) {
    && (forall x :: x in on ==> related(x, x))
    && (forall x, y :: x in on && y in on && related(x, y) ==> related(y, x))
    && (forall x, y, z :: x in on && y in on && z in on && related(x, y) && related(y, z) ==> related(x, z))
  }

  ghost predicate Contains(related: (Kind, Kind) -> bool, classes: seq<set<Kind>>) {
    forall x, y :: Share(classes, x, y) ==> related(x, y)
  }

  // Linked is an equivalence that contains every class ...
  lemma LinkedIsEquivalence(classes: seq<set<Kind>>)
    ensures IsEquivalence((x, y) => Linked(classes, x, y), Members(classes))
    ensures Contains((x, y) => Linked(classes, x, y), classes)
  {
    forall x | x in Members(classes) ensures Linked(classes, x, x) {
      LinkedSelf(classes, x);
    }
    forall x, y | Linked(classes, x, y) ensures Linked(classes, y, x) {
      LinkedSymmetric(classes, x, y);
    }
    forall x, y, z | Linked(classes, x, y) && Linked(classes, y, z) ensures Linked(classes, x, z) {
      LinkedTransitive(classes, x, y, z);
    }
    forall x, y | Share(classes, x, y) ensures Linked(classes, x, y) {
      LinkedByClass(classes, x, y);
    }
  }

  // ... and the least one.
  lemma LinkedIsLeast(classes: seq<set<Kind>>, related: (Kind, Kind) -> bool, x: Kind, y: Kind)
    requires IsEquivalence(related, Members(classes)) && Contains(related, classes)
    requires Linked(classes, x, y)
    ensures related(x, y)
  {
    var p :| IsChain(classes, p) && p[0] == x && p[|p| - 1] == y;
    ChainRelated(classes, related, p);
  }

  lemma {:induction false} ChainRelated(
      classes: seq<set<Kind>>, related: (Kind, Kind) -> bool, chain: seq<Kind>)
    requires IsEquivalence(related, Members(classes)) && Contains(related, classes)
    requires IsChain(classes, chain) && chain[0] in Members(classes)
    ensures related(chain[0], chain[|chain| - 1])
  {
    if |chain| > 1 {
      var init := chain[..|chain| - 1];
      ChainRelated(classes, related, init);
      ChainStaysInMembers(classes, init);
      ChainStaysInMembers(classes, chain);
      assert Share(classes, chain[|chain| - 2], chain[|chain| - 2 + 1]);
    }
  }
}
