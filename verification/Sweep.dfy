// crates/ecp-analyzer/src/calls.rs: enclosing_targets, one sweep over the sorted
// containers instead of one scan per entry.
module Sweep {
  import opened Options
  import opened Positions
  import Sorting

  datatype Container = Container(start: Pos, end: Pos, width: Width, nodeIdx: nat)

  predicate Covers(c: Container, p: Pos) {
    Le(c.start, p) && Le(p, c.end)
  }

  ghost predicate SortedByStart(containers: seq<Container>) {
    forall i, j :: 0 <= i < j < |containers| ==> Le(containers[i].start, containers[j].start)
  }

  // The order of the heap's keys, (width, sorted index).
  predicate Before(containers: seq<Container>, i: nat, j: nat)
    requires i < |containers| && j < |containers|
  {
    && WidthLe(containers[i].width, containers[j].width)
    && (containers[i].width == containers[j].width ==> i <= j)
  }

  // The narrowest container around p, the earliest in sorted order among equals.
  ghost predicate IsNarrowest(containers: seq<Container>, p: Pos, i: nat) {
    && i < |containers| && Covers(containers[i], p)
    && forall j :: 0 <= j < |containers| && Covers(containers[j], p) ==> Before(containers, i, j)
  }

  // What one entry should get.
  ghost predicate IsTarget(containers: seq<Container>, p: Pos, target: Option<nat>) {
    match target
    case None => forall i :: 0 <= i < |containers| ==> !Covers(containers[i], p)
    case Some(node) => exists i: nat :: IsNarrowest(containers, p, i) && containers[i].nodeIdx == node
  }

  // At most one container is narrowest, so an entry has one target.
  lemma TargetIsUnique(containers: seq<Container>, p: Pos, a: Option<nat>, b: Option<nat>)
    requires IsTarget(containers, p, a) && IsTarget(containers, p, b)
    ensures a == b
  {
    if a.Some? && b.Some? {
      var i: nat :| IsNarrowest(containers, p, i) && containers[i].nodeIdx == a.value;
      var j: nat :| IsNarrowest(containers, p, j) && containers[j].nodeIdx == b.value;
      assert Before(containers, i, j) && Before(containers, j, i);
    }
  }

  lemma BeforeIsOrder(containers: seq<Container>, i: nat, j: nat)
    requires i < |containers| && j < |containers|
    ensures Before(containers, i, j) || Before(containers, j, i)
    ensures Before(containers, i, j) ==>
              forall k: nat :: k < |containers| && Before(containers, j, k) ==> Before(containers, i, k)
  {
  }

  // BinaryHeap::peek: of the pushed containers not yet popped, the first in key order.
  method Peek(containers: seq<Container>, active: set<nat>) returns (top: nat)
    requires active != {} && forall c :: c in active ==> c < |containers|
    ensures top in active && forall c :: c in active ==> Before(containers, top, c)
  {
    top :| top in active;
    var rest := active - {top};
    while rest != {}
      invariant rest <= active && top in active
      invariant forall c :: c in active - rest ==> Before(containers, top, c)
    {
      var c :| c in rest;
      rest := rest - {c};
      if Before(containers, c, top) {
        BeforeIsOrder(containers, c, top);
        top := c;
      } else {
        BeforeIsOrder(containers, top, c);
      }
    }
  }

  function PosAt(pending: seq<Pos>, i: int): Pos {
    if 0 <= i < |pending| then pending[i] else Pos(0, 0)
  }

  function ByPos(pending: seq<Pos>): (int, int) -> bool {
    (a, b) => Le(PosAt(pending, a), PosAt(pending, b))
  }

  // order.sort_unstable_by_key(pos_of): some order of the indices by position.
  function PosOrder(pending: seq<Pos>): seq<int> {
    Sorting.Sort(seq(|pending|, i => i), ByPos(pending))
  }

  lemma PosOrderIsPermutation(pending: seq<Pos>)
    ensures
      var order := PosOrder(pending);
      && |order| == |pending|
      && (forall k :: 0 <= k < |order| ==> 0 <= order[k] < |pending|)
      && (forall k, l :: 0 <= k < l < |order| ==>
            order[k] != order[l] && Le(PosAt(pending, order[k]), PosAt(pending, order[l])))
      && (forall i :: 0 <= i < |pending| ==> i in order)
  {
    var indices := seq(|pending|, i => i);
    var order := PosOrder(pending);
    Sorting.SortSorts(indices, ByPos(pending));
    Sorting.MultisetMembers(order, indices);
    Sorting.RearrangedDistinct(indices, order);
    forall k | 0 <= k < |order| ensures 0 <= order[k] < |pending| {
      assert order[k] in indices;
    }
    forall i | 0 <= i < |pending| ensures i in order {
      assert indices[i] in indices;
    }
  }

  // What the sweep knows between two entries: `next` containers were pushed, the ones
  // no longer active ended before `at`.
  ghost predicate Swept(containers: seq<Container>, next: nat, active: set<nat>, at: Pos) {
    && next <= |containers|
    && (forall c :: c in active ==> c < next)
    && (forall c :: 0 <= c < next && c !in active ==> !Le(at, containers[c].end))
  }

  lemma SweptLater(containers: seq<Container>, next: nat, active: set<nat>, at: Pos, later: Pos)
    requires Swept(containers, next, active, at) && Le(at, later)
    ensures Swept(containers, next, active, later)
  {
  }

  // One entry of the sweep: push what starts at or before p, pop what ended before p.
  method Advance(containers: seq<Container>, next: nat, active: set<nat>, p: Pos)
      returns (next': nat, active': set<nat>, target: Option<nat>)
    requires SortedByStart(containers) && Swept(containers, next, active, p)
    requires forall c :: 0 <= c < next ==> Le(containers[c].start, p)
    ensures Swept(containers, next', active', p)
    ensures forall c :: 0 <= c < next' ==> Le(containers[c].start, p)
    ensures IsTarget(containers, p, target)
  {
    next', active', target := next, active, None;
    while next' < |containers| && Le(containers[next'].start, p)
      invariant next <= next' && Swept(containers, next', active', p)
      invariant forall c :: 0 <= c < next' ==> Le(containers[c].start, p)
    {
      active', next' := active' + {next'}, next' + 1;
    }
    assert forall c :: next' <= c < |containers| ==> !Le(containers[c].start, p) by {
      forall c | next' <= c < |containers| ensures !Le(containers[c].start, p) {
        assert c == next' || Le(containers[next'].start, containers[c].start);
      }
    }
    while active' != {}
      invariant Swept(containers, next', active', p)
      decreases active'
    {
      var top := Peek(containers, active');
      if Le(p, containers[top].end) {
        target := Some(containers[top].nodeIdx);
        forall c | 0 <= c < |containers| && Covers(containers[c], p) ensures c in active' {}
        assert IsNarrowest(containers, p, top);
        break;
      }
      active' := active' - {top};
    }
  }

  // enclosing_targets: for every entry, in any order of the list, the narrowest
  // container around it, although ended containers leave the heap late.
  method EnclosingTargets(containers: seq<Container>, pending: seq<Pos>) returns (targets: seq<Option<nat>>)
    requires SortedByStart(containers)
    ensures |targets| == |pending|
    ensures forall i :: 0 <= i < |pending| ==> IsTarget(containers, pending[i], targets[i])
  {
    targets := seq(|pending|, _ => None);
    if containers == [] {
      return;
    }
    var order := PosOrder(pending);
    PosOrderIsPermutation(pending);
    var next, active := 0, {};
    for k := 0 to |order|
      invariant |targets| == |pending|
      invariant k < |order| ==> Swept(containers, next, active, pending[order[k]])
      invariant k < |order| ==> forall c :: 0 <= c < next ==> Le(containers[c].start, pending[order[k]])
      invariant forall j :: 0 <= j < k ==> IsTarget(containers, pending[order[j]], targets[order[j]])
    {
      var idx := order[k];
      var target;
      next, active, target := Advance(containers, next, active, pending[idx]);
      targets := targets[idx := target];
      if k + 1 < |order| {
        SweptLater(containers, next, active, pending[idx], pending[order[k + 1]]);
      }
    }
    forall i | 0 <= i < |pending| ensures IsTarget(containers, pending[i], targets[i]) {
      assert i in order;
    }
  }
}
