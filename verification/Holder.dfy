// crates/ecp-analyzer/src/calls.rs: the owner of code at a position. `holder` scans every
// node for one entry; where spans nest, a sweep finds the same node of a tier.
module Holder {
  import opened Options
  import opened Positions
  import opened Sweep
  import opened Nodes

  // One declarator of a statement that declares several values.
  datatype Declarator = Declarator(range: Span, name: Option<string>, statement: Span)

  // best[tier] after the first n nodes: smallest width, first met among equals.
  function Smallest(nodes: seq<RawNode>, tier: nat, p: Pos, n: nat): (r: Option<nat>)
    requires n <= |nodes|
    ensures r.Some? ==> r.value < n
  {
    if n == 0 then None
    else
      var best := Smallest(nodes, tier, p, n - 1);
      if !InTier(nodes, n - 1, tier) || !Holds(nodes[n - 1].span, p) then best
      else if best.None? || WidthLess(nodes, n - 1, best.value) then Some(n - 1)
      else best
  }

  predicate WidthLess(nodes: seq<RawNode>, i: nat, j: nat)
    requires i < |nodes| && j < |nodes|
  {
    !WidthLe(SpanWidth(nodes[j].span), SpanWidth(nodes[i].span))
  }

  ghost predicate IsSmallest(nodes: seq<RawNode>, tier: nat, p: Pos, n: nat, i: nat) {
    && i < n <= |nodes| && InTier(nodes, i, tier) && Holds(nodes[i].span, p)
    && forall j: nat :: j < n && InTier(nodes, j, tier) && Holds(nodes[j].span, p) ==>
         && !WidthLess(nodes, j, i)
         && (SpanWidth(nodes[i].span) == SpanWidth(nodes[j].span) ==> i <= j)
  }

  lemma {:induction false} SmallestIsSmallest(nodes: seq<RawNode>, tier: nat, p: Pos, n: nat)
    requires n <= |nodes|
    ensures
      match Smallest(nodes, tier, p, n)
      case None => forall j: nat :: j < n && InTier(nodes, j, tier) ==> !Holds(nodes[j].span, p)
      case Some(i) => IsSmallest(nodes, tier, p, n, i)
  {
    if n > 0 {
      SmallestIsSmallest(nodes, tier, p, n - 1);
    }
  }

  // The value declarations that end with the head's statement and hold p, in node order.
  function ValuesEnding(nodes: seq<RawNode>, end: Pos, p: Pos, n: nat): seq<nat>
    requires n <= |nodes|
  {
    if n == 0 then []
    else
      ValuesEnding(nodes, end, p, n - 1) +
      if InTier(nodes, n - 1, 1) && nodes[n - 1].span.end == end && Holds(nodes[n - 1].span, p) then [n - 1] else []
  }

  function MinStart(nodes: seq<RawNode>, run: seq<nat>, end: Pos): Pos
    requires forall k :: 0 <= k < |run| ==> run[k] < |nodes|
  {
    if run == [] then end
    else
      var rest := MinStart(nodes, run[1..], end);
      var start := nodes[run[0]].span.start;
      if |run| == 1 || Le(start, rest) then start else rest
  }

  function FindNamed(nodes: seq<RawNode>, run: seq<nat>, name: string): Option<nat>
    requires forall k :: 0 <= k < |run| ==> run[k] < |nodes|
  {
    if run == [] then None
    else if nodes[run[0]].name == name then Some(run[0])
    else FindNamed(nodes, run[1..], name)
  }

  // The first place in the run of a member with the name, or the length of the run.
  function NameIndex(nodes: seq<RawNode>, run: seq<nat>, name: string): (k: nat)
    requires forall k :: 0 <= k < |run| ==> run[k] < |nodes|
    ensures k <= |run| && (k < |run| ==> nodes[run[k]].name == name)
    ensures forall l :: 0 <= l < k ==> nodes[run[l]].name != name
  {
    if run == [] || nodes[run[0]].name == name then 0 else 1 + NameIndex(nodes, run[1..], name)
  }

  lemma {:induction false} FindsFirst(nodes: seq<RawNode>, run: seq<nat>, name: string)
    requires forall k :: 0 <= k < |run| ==> run[k] < |nodes|
    ensures
      var k := NameIndex(nodes, run, name);
      FindNamed(nodes, run, name) == if k < |run| then Some(run[k]) else None
  {
    if run != [] && nodes[run[0]].name != name {
      FindsFirst(nodes, run[1..], name);
    }
  }

  // pick_declared from declarator k on; `sibling` is sibling_declares_only.
  function PickFrom(
      nodes: seq<RawNode>, run: seq<nat>, range: Span, declarators: seq<Declarator>, p: Pos, k: nat, sibling: bool)
      : Option<nat>
    requires forall k :: 0 <= k < |run| ==> run[k] < |nodes|
    requires k <= |declarators|
    decreases |declarators| - k
  {
    if k == |declarators| then
      if |run| == 1 && !sibling then Some(run[0]) else None
    else
      var d := declarators[k];
      if !(Le(range.start, d.range.start) && Le(d.range.end, range.end) && Holds(d.statement, p)) || d.name.None? then
        PickFrom(nodes, run, range, declarators, p, k + 1, sibling)
      else if Holds(d.range, p) then
        var named := FindNamed(nodes, run, d.name.value);
        if named.Some? then named else PickFrom(nodes, run, range, declarators, p, k + 1, sibling)
      else
        PickFrom(nodes, run, range, declarators, p, k + 1,
                 sibling || (|run| == 1 && nodes[run[0]].name == d.name.value))
  }

  // A declarator of the run's statement, around p, that names its value.
  ghost predicate Eligible(d: Declarator, range: Span, p: Pos) {
    && Le(range.start, d.range.start) && Le(d.range.end, range.end) && Holds(d.statement, p) && d.name.Some?
  }

  // It declares code at p a value of the run.
  ghost predicate Claims(nodes: seq<RawNode>, run: seq<nat>, d: Declarator, range: Span, p: Pos)
    requires forall k :: 0 <= k < |run| ==> run[k] < |nodes|
  {
    Eligible(d, range, p) && Holds(d.range, p) && NameIndex(nodes, run, d.name.value) < |run|
  }

  // It declares the only value of the run, elsewhere.
  ghost predicate TakesOnly(nodes: seq<RawNode>, run: seq<nat>, d: Declarator, range: Span, p: Pos)
    requires forall k :: 0 <= k < |run| ==> run[k] < |nodes|
  {
    && Eligible(d, range, p) && !Holds(d.range, p)
    && |run| == 1 && nodes[run[0]].name == d.name.value
  }

  // The first declarator from k on that claims p, or the number of declarators.
  ghost function FirstClaim(nodes: seq<RawNode>, run: seq<nat>, range: Span, ds: seq<Declarator>, p: Pos, k: nat)
      : (j: nat)
    requires forall k :: 0 <= k < |run| ==> run[k] < |nodes|
    requires k <= |ds|
    ensures k <= j <= |ds| && (j < |ds| ==> Claims(nodes, run, ds[j], range, p))
    ensures forall i :: k <= i < j ==> !Claims(nodes, run, ds[i], range, p)
    decreases |ds| - k
  {
    if k == |ds| || Claims(nodes, run, ds[k], range, p) then k else FirstClaim(nodes, run, range, ds, p, k + 1)
  }

  // Some declarator from k on takes the only value of the run.
  ghost predicate Taken(nodes: seq<RawNode>, run: seq<nat>, range: Span, ds: seq<Declarator>, p: Pos, k: nat)
    requires forall k :: 0 <= k < |run| ==> run[k] < |nodes|
  {
    exists j :: k <= j < |ds| && TakesOnly(nodes, run, ds[j], range, p)
  }

  lemma TakenFrom(nodes: seq<RawNode>, run: seq<nat>, range: Span, ds: seq<Declarator>, p: Pos, k: nat)
    requires forall k :: 0 <= k < |run| ==> run[k] < |nodes|
    requires k < |ds|
    ensures Taken(nodes, run, range, ds, p, k) <==>
              TakesOnly(nodes, run, ds[k], range, p) || Taken(nodes, run, range, ds, p, k + 1)
  {
  }

  // What one declarator does to the pick.
  lemma PickStep(
      nodes: seq<RawNode>, run: seq<nat>, range: Span, ds: seq<Declarator>, p: Pos, k: nat, sibling: bool)
    requires forall k :: 0 <= k < |run| ==> run[k] < |nodes|
    requires k < |ds|
    ensures
      PickFrom(nodes, run, range, ds, p, k, sibling) ==
      if Claims(nodes, run, ds[k], range, p) then Some(run[NameIndex(nodes, run, ds[k].name.value)])
      else PickFrom(nodes, run, range, ds, p, k + 1, sibling || TakesOnly(nodes, run, ds[k], range, p))
  {
    if Eligible(ds[k], range, p) {
      FindsFirst(nodes, run, ds[k].name.value);
    }
  }

  lemma {:induction false} PicksFirstClaim(
      nodes: seq<RawNode>, run: seq<nat>, range: Span, ds: seq<Declarator>, p: Pos, k: nat, sibling: bool)
    requires forall k :: 0 <= k < |run| ==> run[k] < |nodes|
    requires k <= |ds|
    ensures
      var j := FirstClaim(nodes, run, range, ds, p, k);
      PickFrom(nodes, run, range, ds, p, k, sibling) ==
      if j < |ds| then Some(run[NameIndex(nodes, run, ds[j].name.value)])
      else if |run| == 1 && !sibling && !Taken(nodes, run, range, ds, p, k) then Some(run[0])
      else None
    decreases |ds| - k
  {
    if k < |ds| {
      PickStep(nodes, run, range, ds, p, k, sibling);
      if !Claims(nodes, run, ds[k], range, p) {
        PicksFirstClaim(nodes, run, range, ds, p, k + 1, sibling || TakesOnly(nodes, run, ds[k], range, p));
        TakenFrom(nodes, run, range, ds, p, k);
      }
    }
  }

  // What the pick means: the first declarator that claims p decides, for the first value
  // of the run with its name; with none, the run's only value owns p unless a sibling of
  // the declarators around p declares it.
  lemma PickIsFirstClaim(nodes: seq<RawNode>, run: seq<nat>, range: Span, ds: seq<Declarator>, p: Pos)
    requires forall k :: 0 <= k < |run| ==> run[k] < |nodes|
    ensures forall j :: 0 <= j < |ds| && Claims(nodes, run, ds[j], range, p) &&
                        (forall i :: 0 <= i < j ==> !Claims(nodes, run, ds[i], range, p)) ==>
              PickDeclared(nodes, run, range, ds, p) == Some(run[NameIndex(nodes, run, ds[j].name.value)])
    ensures (forall j :: 0 <= j < |ds| ==> !Claims(nodes, run, ds[j], range, p)) ==>
              PickDeclared(nodes, run, range, ds, p) ==
              if |run| == 1 && (forall j :: 0 <= j < |ds| ==> !TakesOnly(nodes, run, ds[j], range, p))
              then Some(run[0]) else None
  {
    PicksFirstClaim(nodes, run, range, ds, p, 0, false);
  }

  function PickDeclared(
      nodes: seq<RawNode>, run: seq<nat>, range: Span, declarators: seq<Declarator>, p: Pos): Option<nat>
    requires forall k :: 0 <= k < |run| ==> run[k] < |nodes|
  {
    PickFrom(nodes, run, range, declarators, p, 0, false)
  }

  // pick_declared: the loop over the declarators around the position.
  method PickDeclaredLoop(nodes: seq<RawNode>, run: seq<nat>, range: Span, declarators: seq<Declarator>, p: Pos)
      returns (picked: Option<nat>)
    requires forall k :: 0 <= k < |run| ==> run[k] < |nodes|
    ensures picked == PickDeclared(nodes, run, range, declarators, p)
  {
    var siblingDeclaresOnly := false;
    for k := 0 to |declarators|
      invariant PickFrom(nodes, run, range, declarators, p, k, siblingDeclaresOnly) ==
                PickDeclared(nodes, run, range, declarators, p)
    {
      var d := declarators[k];
      if Le(range.start, d.range.start) && Le(d.range.end, range.end) && Holds(d.statement, p) && d.name.Some? {
        if Holds(d.range, p) {
          var named := FindNamed(nodes, run, d.name.value);
          if named.Some? {
            return named;
          }
        } else if |run| == 1 {
          siblingDeclaresOnly := siblingDeclaresOnly || nodes[run[0]].name == d.name.value;
        }
      }
    }
    return if |run| == 1 && !siblingDeclaresOnly then Some(run[0]) else None;
  }

  lemma {:induction false} ValuesEndingMembers(nodes: seq<RawNode>, end: Pos, p: Pos, n: nat)
    requires n <= |nodes|
    ensures
      var run := ValuesEnding(nodes, end, p, n);
      && (forall k :: 0 <= k < |run| ==> run[k] < n)
      && (forall k, l :: 0 <= k < l < |run| ==> run[k] < run[l])
      && (forall i: nat :: i in run <==>
            i < n && InTier(nodes, i, 1) && nodes[i].span.end == end && Holds(nodes[i].span, p))
  {
    if n > 0 {
      ValuesEndingMembers(nodes, end, p, n - 1);
    }
  }

  function ValueHolder(nodes: seq<RawNode>, p: Pos, head: nat, declared: Span -> seq<Declarator>): Option<nat>
    requires head < |nodes|
  {
    var end := nodes[head].span.end;
    var run := ValuesEnding(nodes, end, p, |nodes|);
    ValuesEndingMembers(nodes, end, p, |nodes|);
    var range := Span(MinStart(nodes, run, end), end);
    PickDeclared(nodes, run, range, declared(range), p)
  }

  // What holder computes.
  function HolderOf(nodes: seq<RawNode>, p: Pos, declared: Span -> seq<Declarator>): Option<nat> {
    var callable := Smallest(nodes, 0, p, |nodes|);
    if callable.Some? then callable
    else
      var head := Smallest(nodes, 1, p, |nodes|);
      var value := if head.Some? then ValueHolder(nodes, p, head.value, declared) else None;
      if value.Some? then value else Smallest(nodes, 2, p, |nodes|)
  }

  // holder, ranked by row and column: one pass over the nodes for all three tiers.
  method HolderAtPos(p: Pos, nodes: seq<RawNode>, declared: Span -> seq<Declarator>) returns (holder: Option<nat>)
    ensures holder == HolderOf(nodes, p, declared)
  {
    var best: seq<Option<nat>> := [None, None, None];
    for i := 0 to |nodes|
      invariant |best| == 3
      invariant forall t :: 0 <= t < 3 ==> best[t] == Smallest(nodes, t, p, i)
    {
      var tier := HolderTier(nodes[i].kind);
      if tier.Some? && Holds(nodes[i].span, p) {
        var t := tier.value;
        if best[t].None? || WidthLess(nodes, i, best[t].value) {
          best := best[t := Some(i)];
        }
      }
    }
    if best[0].Some? {
      return best[0];
    }
    if best[1].Some? {
      var end := nodes[best[1].value].span.end;
      var run := ValuesEnding(nodes, end, p, |nodes|);
      ValuesEndingMembers(nodes, end, p, |nodes|);
      var range := Span(MinStart(nodes, run, end), end);
      var picked := PickDeclaredLoop(nodes, run, range, declared(range), p);
      if picked.Some? {
        return picked;
      }
    }
    return best[2];
  }

  // Of two nodes of one tier around p, one is inside the other.
  ghost predicate Laminar(nodes: seq<RawNode>, tier: nat, p: Pos) {
    forall i: nat, j: nat ::
      InTier(nodes, i, tier) && InTier(nodes, j, tier) && Holds(nodes[i].span, p) && Holds(nodes[j].span, p) ==>
        Nested(nodes[i].span, nodes[j].span)
  }

  // One tier: the narrowest container of the sweep is the smallest node of the scan,
  // ties included, because nested spans of equal width are equal.
  lemma TierAgrees(nodes: seq<RawNode>, tier: nat, p: Pos, target: Option<nat>)
    requires Laminar(nodes, tier, p)
    requires IsTarget(ContainersOf(nodes, tier), p, target)
    ensures target == Smallest(nodes, tier, p, |nodes|)
  {
    var cs := ContainersOf(nodes, tier);
    ContainersOfTier(nodes, tier);
    SmallestIsSmallest(nodes, tier, p, |nodes|);
    var best := Smallest(nodes, tier, p, |nodes|);
    assert best.Some? ==> ContainerOf(nodes, best.value) in cs && Covers(ContainerOf(nodes, best.value), p);
    match target
    case None =>
    case Some(node) =>
      var i: nat :| IsNarrowest(cs, p, i) && cs[i].nodeIdx == node;
      forall j: nat | InTier(nodes, j, tier) && Holds(nodes[j].span, p)
        ensures !WidthLess(nodes, j, node)
        ensures SpanWidth(nodes[node].span) == SpanWidth(nodes[j].span) ==> node <= j
      {
        assert ContainerOf(nodes, j) in cs;
        var k :| 0 <= k < |cs| && cs[k] == ContainerOf(nodes, j);
        assert Covers(cs[k], p) && Before(cs, i, k);
        SameWidthSameSpan(nodes[node].span, nodes[j].span, p);
        assert i < k ==> KeyLe(cs[i], cs[k]);
      }
      assert IsSmallest(nodes, tier, p, |nodes|, node);
  }

  lemma SameWidthSameSpan(a: Span, b: Span, p: Pos)
    requires Nested(a, b) && Holds(a, p) && Holds(b, p)
    ensures SpanWidth(a) == SpanWidth(b) ==> a == b
  {
    if Inside(a, b) {
      NestedWidths(a, b);
    } else {
      NestedWidths(b, a);
    }
  }
}
