// crates/ecp-analyzer/src/calls.rs: holder_targets answers every pending call as
// holder does, and attach_pending_calls pushes each call on its holder.
module HolderTargets {
  import opened Options
  import opened Positions
  import opened Sweep
  import opened Nodes
  import opened ValueRuns
  import opened Holder
  import Sorting

  function Values(nodes: seq<RawNode>): seq<Container> {
    ContainersOf(nodes, 1)
  }

  // What the value tier asks of the declarations around p, beyond nesting. They share
  // the end of the smallest value around p; then they stand side by side in sorted order
  // and have begun by p ...
  ghost predicate RunsMeet(nodes: seq<RawNode>, p: Pos) {
    var head := Smallest(nodes, 1, p, |nodes|);
    head.Some? ==>
      var end := nodes[head.value].span.end;
      && Adjacent(Values(nodes), end)
      && forall v: nat :: InTier(nodes, v, 1) && nodes[v].span.end == end ==> Le(nodes[v].span.start, p)
  }

  // ... and of those of one name, the one with the lowest node index starts first.
  ghost predicate LowestStartsFirst(nodes: seq<RawNode>, p: Pos) {
    var head := Smallest(nodes, 1, p, |nodes|);
    head.Some? ==>
      forall u: nat, v: nat ::
        IsLowestOfName(nodes, nodes[head.value].span.end, u) && InTier(nodes, v, 1) &&
        nodes[v].span.end == nodes[head.value].span.end && nodes[v].name == nodes[u].name ==>
          Le(nodes[u].span.start, nodes[v].span.start)
  }

  ghost predicate IsLowestOfName(nodes: seq<RawNode>, end: Pos, u: nat) {
    && InTier(nodes, u, 1) && nodes[u].span.end == end
    && forall v: nat :: v < u && InTier(nodes, v, 1) && nodes[v].span.end == end ==> nodes[v].name != nodes[u].name
  }

  ghost predicate RunsAgree(nodes: seq<RawNode>, p: Pos) {
    RunsMeet(nodes, p) && LowestStartsFirst(nodes, p)
  }

  // The run of the sweep holds the same declarations as the run of the scan.
  ghost predicate SameMembers(a: seq<nat>, b: seq<nat>) {
    && Sorting.Distinct(a) && Sorting.Distinct(b)
    && forall i :: i in a <==> i in b
  }

  lemma SomethingInside(s: seq<nat>)
    ensures s != [] ==> exists i :: i in s
  {
    assert s != [] ==> s[0] in s;
  }

  lemma {:induction false} SameMembersSameLength(a: seq<nat>, b: seq<nat>)
    requires SameMembers(a, b)
    ensures |a| == |b|
  {
    if a == [] {
      SomethingInside(b);
    } else {
      assert a[0] in b;
      var k :| 0 <= k < |b| && b[k] == a[0];
      var rest := b[..k] + b[k + 1..];
      forall i ensures i in a[1..] <==> i in rest {
        if i in a[1..] {
          assert i in a && i in b && i != a[0];
        }
        if i in rest {
          assert i in b && i != b[k];
        }
      }
      SameMembersSameLength(a[1..], rest);
    }
  }

  ghost predicate InBounds(nodes: seq<RawNode>, run: seq<nat>) {
    forall k :: 0 <= k < |run| ==> run[k] < |nodes|
  }

  // The first of each name in the run has the lowest node index.
  ghost predicate FirstIsLowest(nodes: seq<RawNode>, run: seq<nat>)
    requires InBounds(nodes, run)
  {
    forall i :: i in run && IsLowestIn(nodes, run, i) ==> FindNamed(nodes, run, nodes[i].name) == Some(i)
  }

  ghost predicate IsLowestIn(nodes: seq<RawNode>, run: seq<nat>, i: nat)
    requires InBounds(nodes, run) && i < |nodes|
  {
    forall j :: j in run && nodes[j].name == nodes[i].name ==> i <= j
  }

  // The lowest node index of a name the run bears.
  lemma Lowest(nodes: seq<RawNode>, run: seq<nat>, j: nat) returns (low: nat)
    requires InBounds(nodes, run) && j in run
    ensures low in run && nodes[low].name == nodes[j].name && IsLowestIn(nodes, run, low)
    decreases j
  {
    if i :| i in run && nodes[i].name == nodes[j].name && i < j {
      low := Lowest(nodes, run, i);
    } else {
      low := j;
    }
  }

  lemma BearsName(nodes: seq<RawNode>, run: seq<nat>, name: string)
    requires InBounds(nodes, run)
    ensures FindNamed(nodes, run, name).Some? <==> exists i :: i in run && nodes[i].name == name
  {
    FindsFirst(nodes, run, name);
    var k := NameIndex(nodes, run, name);
    assert k < |run| ==> run[k] in run;
  }

  // Two runs of the same members, in both of which the lowest comes first, find alike.
  lemma SameNamed(nodes: seq<RawNode>, a: seq<nat>, b: seq<nat>, name: string)
    requires InBounds(nodes, a) && InBounds(nodes, b) && SameMembers(a, b)
    requires FirstIsLowest(nodes, a) && FirstIsLowest(nodes, b)
    ensures FindNamed(nodes, a, name) == FindNamed(nodes, b, name)
  {
    BearsName(nodes, a, name);
    BearsName(nodes, b, name);
    if i :| i in a && nodes[i].name == name {
      var low := Lowest(nodes, a, i);
      assert IsLowestIn(nodes, b, low);
    }
  }

  // Two runs of one length that find alike, and hold the same member when they hold one.
  ghost predicate FindAlike(nodes: seq<RawNode>, a: seq<nat>, b: seq<nat>)
    requires InBounds(nodes, a) && InBounds(nodes, b)
  {
    && |a| == |b| && (|a| == 1 ==> a[0] == b[0])
    && forall name :: FindNamed(nodes, a, name) == FindNamed(nodes, b, name)
  }

  lemma SameOnly(a: seq<nat>, b: seq<nat>)
    requires SameMembers(a, b)
    ensures |a| == |b| && (|a| == 1 ==> a[0] == b[0])
  {
    SameMembersSameLength(a, b);
    if |a| == 1 {
      assert a[0] in b;
    }
  }

  lemma {:induction false} SameRunsFindAlike(nodes: seq<RawNode>, a: seq<nat>, b: seq<nat>)
    requires InBounds(nodes, a) && InBounds(nodes, b) && SameMembers(a, b)
    requires FirstIsLowest(nodes, a) && FirstIsLowest(nodes, b)
    ensures FindAlike(nodes, a, b)
  {
    SameOnly(a, b);
    forall name ensures FindNamed(nodes, a, name) == FindNamed(nodes, b, name) {
      SameNamed(nodes, a, b, name);
    }
  }

  lemma {:induction false} SamePick(
      nodes: seq<RawNode>, a: seq<nat>, b: seq<nat>, range: Span, ds: seq<Declarator>, p: Pos, k: nat, sibling: bool)
    requires InBounds(nodes, a) && InBounds(nodes, b) && k <= |ds| && FindAlike(nodes, a, b)
    ensures PickFrom(nodes, a, range, ds, p, k, sibling) == PickFrom(nodes, b, range, ds, p, k, sibling)
    decreases |ds| - k
  {
    if k < |ds| {
      SamePick(nodes, a, b, range, ds, p, k + 1, sibling);
      var d := ds[k];
      if d.name.Some? {
        SamePick(nodes, a, b, range, ds, p, k + 1, sibling || (|a| == 1 && nodes[a[0]].name == d.name.value));
      }
    }
  }

  // The first of the values that end with the statement covers p ...
  lemma BlockHeadCovers(nodes: seq<RawNode>, p: Pos, head: nat, h: nat)
    requires RunsMeet(nodes, p) && Smallest(nodes, 1, p, |nodes|) == Some(head)
    requires AreContainers(nodes, 1, Values(nodes)) && IsSmallest(nodes, 1, p, |nodes|, head)
    requires h < |Values(nodes)| && Values(nodes)[h].end == nodes[head].span.end
    ensures Covers(Values(nodes)[h], p)
  {
    assert nodes[Values(nodes)[h].nodeIdx].span.end == nodes[head].span.end;
  }

  // ... and a narrowest run head ends with it.
  lemma NarrowestEnds(nodes: seq<RawNode>, p: Pos, head: nat, i: nat, at: nat)
    requires Laminar(nodes, 1, p) && IsSmallest(nodes, 1, p, |nodes|, head)
    requires AreContainers(nodes, 1, Values(nodes)) && IsNarrowest(ValueSpans(Values(nodes)), p, i)
    requires at < |ValueSpans(Values(nodes))| && Covers(ValueSpans(Values(nodes))[at], p)
    requires ValueSpans(Values(nodes))[at].end == nodes[head].span.end
    ensures ValueSpans(Values(nodes))[i].end == nodes[head].span.end
  {
    var values, spans := Values(nodes), ValueSpans(Values(nodes));
    var heads := Heads(values, |values|);
    assert Before(spans, i, at);
    if spans[i].end != nodes[head].span.end {
      OtherHeadIsWider(nodes, p, head, values[heads[i]].nodeIdx, values[heads[at]].nodeIdx);
    }
  }

  lemma BlockHeadIsNarrowest(nodes: seq<RawNode>, p: Pos, head: nat, h: nat, m: nat, target: Option<nat>)
    requires Laminar(nodes, 1, p) && RunsMeet(nodes, p) && Smallest(nodes, 1, p, |nodes|) == Some(head)
    requires AreContainers(nodes, 1, Values(nodes)) && SortedByStart(Values(nodes))
    requires IsSmallest(nodes, 1, p, |nodes|, head)
    requires Block(Values(nodes), nodes[head].span.end, h, m)
    requires IsTarget(ValueSpans(Values(nodes)), p, target)
    ensures target == Some(h)
  {
    BlockHeadCovers(nodes, p, head, h);
    var at := HeadSpan(Values(nodes), nodes[head].span.end, h, m, p);
    var i: nat :| IsNarrowest(ValueSpans(Values(nodes)), p, i) && ValueSpans(Values(nodes))[i].nodeIdx == target.value;
    NarrowestEnds(nodes, p, head, i, at);
    OnlySpan(Values(nodes), nodes[head].span.end, h, m, i);
  }

  lemma {:induction false} HeadSpan(values: seq<Container>, end: Pos, h: nat, m: nat, p: Pos) returns (at: nat)
    requires SortedByStart(values) && Block(values, end, h, m) && Covers(values[h], p)
    ensures at < |ValueSpans(values)| && Covers(ValueSpans(values)[at], p) && ValueSpans(values)[at].end == end
  {
    BlockIsRun(values, end, h, m);
    at :| at < |ValueSpans(values)| && Heads(values, |values|)[at] == h;
  }

  lemma {:induction false} OnlySpan(values: seq<Container>, end: Pos, h: nat, m: nat, i: nat)
    requires SortedByStart(values) && Block(values, end, h, m)
    requires i < |ValueSpans(values)| && ValueSpans(values)[i].end == end
    ensures ValueSpans(values)[i].nodeIdx == h
  {
    BlockIsRun(values, end, h, m);
    assert values[Heads(values, |values|)[i]].end == end;
  }

  // `outer` ends elsewhere than the smallest value `head`; `inner` ends with it.
  lemma OtherHeadIsWider(nodes: seq<RawNode>, p: Pos, head: nat, outer: nat, inner: nat)
    requires Laminar(nodes, 1, p) && IsSmallest(nodes, 1, p, |nodes|, head)
    requires InTier(nodes, outer, 1) && Holds(nodes[outer].span, p) && nodes[outer].span.end != nodes[head].span.end
    requires InTier(nodes, inner, 1) && Holds(nodes[inner].span, p) && nodes[inner].span.end == nodes[head].span.end
    ensures WidthLess(nodes, inner, outer)
  {
    var a, b, c := nodes[outer].span, nodes[inner].span, nodes[head].span;
    assert Nested(a, c) && Nested(a, b) && !WidthLess(nodes, outer, head);
    if Inside(a, c) {
      NestedWidths(a, c);
    } else {
      NestedWidths(b, a);
    }
  }

  lemma TargetHoldsValue(nodes: seq<RawNode>, p: Pos, target: Option<nat>)
    requires IsTarget(ValueSpans(Values(nodes)), p, target)
    ensures target.Some? ==> exists v: nat :: InTier(nodes, v, 1) && Holds(nodes[v].span, p)
  {
    var values := Values(nodes);
    ContainersOfTier(nodes, 1);
    if target.Some? {
      var spans := ValueSpans(values);
      var i: nat :| IsNarrowest(spans, p, i) && spans[i].nodeIdx == target.value;
      assert InTier(nodes, values[Heads(values, |values|)[i]].nodeIdx, 1);
    }
  }

  // The value tier: the sweep's run against the scan's.
  ghost predicate RunAgrees(nodes: seq<RawNode>, p: Pos, head: nat, first: nat)
    requires head < |nodes|
  {
    var end := nodes[head].span.end;
    var scanned := ValuesEnding(nodes, end, p, |nodes|);
    && first < |Values(nodes)| && Values(nodes)[first].end == end
    && var run := Run(Values(nodes), first);
       && InBounds(nodes, run) && InBounds(nodes, scanned) && SameMembers(run, scanned)
       && FirstIsLowest(nodes, scanned) && (LowestStartsFirst(nodes, p) <==> FirstIsLowest(nodes, run))
       && MinStart(nodes, scanned, end) == Values(nodes)[first].start
  }

  lemma ValueRunsAgree(nodes: seq<RawNode>, p: Pos, target: Option<nat>)
    requires Laminar(nodes, 1, p) && RunsMeet(nodes, p)
    requires IsTarget(ValueSpans(Values(nodes)), p, target)
    ensures
      match Smallest(nodes, 1, p, |nodes|)
      case None => target.None?
      case Some(head) => target.Some? && RunAgrees(nodes, p, head, target.value)
  {
    ContainersOfTier(nodes, 1);
    SmallestIsSmallest(nodes, 1, p, |nodes|);
    match Smallest(nodes, 1, p, |nodes|)
    case None => TargetHoldsValue(nodes, p, target);
    case Some(head) =>
      var h, m := HeadBlock(nodes, head);
      BlockHeadIsNarrowest(nodes, p, head, h, m, target);
      BlockIsRun(Values(nodes), nodes[head].span.end, h, m);
      BlockRunAgrees(nodes, p, head, h, m);
  }

  lemma HeadBlock(nodes: seq<RawNode>, head: nat) returns (h: nat, m: nat)
    requires InTier(nodes, head, 1) && AreContainers(nodes, 1, Values(nodes)) && SortedByStart(Values(nodes))
    requires Adjacent(Values(nodes), nodes[head].span.end)
    ensures Block(Values(nodes), nodes[head].span.end, h, m)
  {
    assert ContainerOf(nodes, head) in Values(nodes);
    var x :| 0 <= x < |Values(nodes)| && Values(nodes)[x] == ContainerOf(nodes, head);
    h, m := AdjacentIsBlock(Values(nodes), nodes[head].span.end, x);
  }

  lemma BlockRunAgrees(nodes: seq<RawNode>, p: Pos, head: nat, h: nat, m: nat)
    requires RunsMeet(nodes, p) && Smallest(nodes, 1, p, |nodes|) == Some(head)
    requires AreContainers(nodes, 1, Values(nodes)) && IsSmallest(nodes, 1, p, |nodes|, head)
    requires Block(Values(nodes), nodes[head].span.end, h, m) && RunEnd(Values(nodes), h, h) == m
    ensures RunAgrees(nodes, p, head, h)
  {
    BlockMembers(nodes, p, head, h, m);
    ContainerIs(nodes, h);
    MembersAgree(nodes, p, head, Run(Values(nodes), h), Values(nodes)[h]);
  }

  lemma ContainerIs(nodes: seq<RawNode>, h: nat)
    requires AreContainers(nodes, 1, Values(nodes)) && h < |Values(nodes)|
    ensures Values(nodes)[h].nodeIdx < |nodes|
    ensures Values(nodes)[h].start == nodes[Values(nodes)[h].nodeIdx].span.start
  {
  }

  lemma {:induction false} MembersAgree(nodes: seq<RawNode>, p: Pos, head: nat, run: seq<nat>, first: Container)
    requires RunsMeet(nodes, p) && Smallest(nodes, 1, p, |nodes|) == Some(head)
    requires IsSmallest(nodes, 1, p, |nodes|, head)
    requires InBounds(nodes, run) && KeyOrdered(nodes, run) && EndRun(nodes, nodes[head].span.end, run)
    requires run != [] && run[0] == first.nodeIdx && first.start == nodes[run[0]].span.start
    ensures
      var end := nodes[head].span.end;
      var scanned := ValuesEnding(nodes, end, p, |nodes|);
      && InBounds(nodes, scanned) && SameMembers(run, scanned)
      && FirstIsLowest(nodes, scanned) && (LowestStartsFirst(nodes, p) <==> FirstIsLowest(nodes, run))
      && MinStart(nodes, scanned, end) == first.start
  {
    var end := nodes[head].span.end;
    ScanMembers(nodes, p, head, run);
    BlockNames(nodes, p, head, run);
    ScanNames(nodes, end, p);
    ScanStartsAtHead(nodes, end, p, run, first);
  }

  lemma RunIsScanned(nodes: seq<RawNode>, p: Pos, head: nat, h: nat, m: nat, k: nat)
    requires RunsMeet(nodes, p) && Smallest(nodes, 1, p, |nodes|) == Some(head)
    requires AreContainers(nodes, 1, Values(nodes))
    requires Block(Values(nodes), nodes[head].span.end, h, m) && RunEnd(Values(nodes), h, h) == m
    requires k < m - h && IsSmallest(nodes, 1, p, |nodes|, head)
    ensures
      var i := Run(Values(nodes), h)[k];
      i < |nodes| && InTier(nodes, i, 1) && nodes[i].span.end == nodes[head].span.end && Holds(nodes[i].span, p)
  {
    assert Values(nodes)[h + k].end == nodes[head].span.end;
  }

  lemma {:induction false} ScannedIsRun(nodes: seq<RawNode>, values: seq<Container>, end: Pos, h: nat, m: nat, i: nat)
    requires AreContainers(nodes, 1, values) && Block(values, end, h, m) && RunEnd(values, h, h) == m
    requires InTier(nodes, i, 1) && nodes[i].span.end == end
    ensures i in Run(values, h) && Le(values[h].start, nodes[i].span.start)
  {
    assert ContainerOf(nodes, i) in values;
    var x :| 0 <= x < |values| && values[x] == ContainerOf(nodes, i);
    InRun(values, h, x);
    assert x == h || KeyLe(values[h], values[x]);
  }

  lemma InRun(values: seq<Container>, h: nat, x: nat)
    requires h < |values| && h <= x < RunEnd(values, h, h)
    ensures values[x].nodeIdx in Run(values, h)
  {
    assert Run(values, h)[x - h] == values[x].nodeIdx;
  }

  // In the run of the sweep, in sorted order, the first of a name starts first; of equal
  // starts it has the lower index.
  lemma RunIsSorted(nodes: seq<RawNode>, end: Pos, h: nat, m: nat, k: nat, l: nat)
    requires AreContainers(nodes, 1, Values(nodes)) && Block(Values(nodes), end, h, m)
    requires RunEnd(Values(nodes), h, h) == m && InBounds(nodes, Run(Values(nodes), h))
    requires k < l < |Run(Values(nodes), h)|
    ensures
      var run := Run(Values(nodes), h);
      && Le(nodes[run[k]].span.start, nodes[run[l]].span.start)
      && (nodes[run[k]].span.start == nodes[run[l]].span.start ==> run[k] < run[l])
  {
    var values := Values(nodes);
    assert KeyLe(values[h + k], values[h + l]) && values[h + k].end == values[h + l].end == end;
  }

  // A run sorted by start, and by index where starts are equal.
  ghost predicate KeyOrdered(nodes: seq<RawNode>, run: seq<nat>)
    requires InBounds(nodes, run)
  {
    forall k, l :: 0 <= k < l < |run| ==>
      && Le(nodes[run[k]].span.start, nodes[run[l]].span.start)
      && (nodes[run[k]].span.start == nodes[run[l]].span.start ==> run[k] < run[l])
  }

  lemma RunIsKeyOrdered(nodes: seq<RawNode>, end: Pos, h: nat, m: nat)
    requires AreContainers(nodes, 1, Values(nodes)) && Block(Values(nodes), end, h, m)
    requires RunEnd(Values(nodes), h, h) == m && InBounds(nodes, Run(Values(nodes), h))
    ensures KeyOrdered(nodes, Run(Values(nodes), h))
  {
    var run := Run(Values(nodes), h);
    forall k, l | 0 <= k < l < |run|
      ensures Le(nodes[run[k]].span.start, nodes[run[l]].span.start)
      ensures nodes[run[k]].span.start == nodes[run[l]].span.start ==> run[k] < run[l]
    {
      RunIsSorted(nodes, end, h, m, k, l);
    }
  }

  // Such a run finds the lowest of a name exactly if that one starts no later than the
  // others of the name.
  lemma FindsLowestIff(nodes: seq<RawNode>, run: seq<nat>, low: nat)
    requires InBounds(nodes, run) && KeyOrdered(nodes, run) && low in run && IsLowestIn(nodes, run, low)
    ensures
      FindNamed(nodes, run, nodes[low].name) == Some(low) <==>
        forall j :: j in run && nodes[j].name == nodes[low].name ==> Le(nodes[low].span.start, nodes[j].span.start)
  {
    FoundStartsFirst(nodes, run, low);
    var k := NameIndex(nodes, run, nodes[low].name);
    var l :| 0 <= l < |run| && run[l] == low;
    assert run[k] in run;
  }

  lemma FoundStartsFirst(nodes: seq<RawNode>, run: seq<nat>, low: nat)
    requires InBounds(nodes, run) && KeyOrdered(nodes, run) && low in run
    ensures
      var k := NameIndex(nodes, run, nodes[low].name);
      && k < |run| && FindNamed(nodes, run, nodes[low].name) == Some(run[k])
      && forall j :: j in run && nodes[j].name == nodes[low].name ==> Le(nodes[run[k]].span.start, nodes[j].span.start)
  {
    var k := NameIndex(nodes, run, nodes[low].name);
    FindsFirst(nodes, run, nodes[low].name);
    forall j | j in run && nodes[j].name == nodes[low].name
      ensures k < |run| && Le(nodes[run[k]].span.start, nodes[j].span.start)
    {
      var i :| 0 <= i < |run| && run[i] == j;
    }
  }

  // The run of the scan, in node order, finds the lowest.
  lemma AscendingFindsLowest(nodes: seq<RawNode>, run: seq<nat>)
    requires InBounds(nodes, run) && forall k, l :: 0 <= k < l < |run| ==> run[k] < run[l]
    ensures FirstIsLowest(nodes, run)
  {
    forall i | i in run && IsLowestIn(nodes, run, i) ensures FindNamed(nodes, run, nodes[i].name) == Some(i) {
      FindsFirst(nodes, run, nodes[i].name);
      var k, l: nat :| k == NameIndex(nodes, run, nodes[i].name) && l < |run| && run[l] == i;
      assert run[k] in run;
    }
  }

  // The condition, over the members of a run.
  ghost predicate LowestFirstIn(nodes: seq<RawNode>, run: seq<nat>)
    requires InBounds(nodes, run)
  {
    forall low, j :: low in run && IsLowestIn(nodes, run, low) && j in run && nodes[j].name == nodes[low].name ==>
      Le(nodes[low].span.start, nodes[j].span.start)
  }

  lemma FirstIsLowestIff(nodes: seq<RawNode>, run: seq<nat>)
    requires InBounds(nodes, run) && KeyOrdered(nodes, run)
    ensures FirstIsLowest(nodes, run) <==> LowestFirstIn(nodes, run)
  {
    forall low | low in run && IsLowestIn(nodes, run, low)
      ensures FindNamed(nodes, run, nodes[low].name) == Some(low) <==>
                forall j :: j in run && nodes[j].name == nodes[low].name ==>
                  Le(nodes[low].span.start, nodes[j].span.start)
    {
      FindsLowestIff(nodes, run, low);
    }
  }

  // The members of the run are the values that end there.
  ghost predicate EndRun(nodes: seq<RawNode>, end: Pos, run: seq<nat>) {
    forall i: nat :: i in run <==> InTier(nodes, i, 1) && nodes[i].span.end == end
  }

  lemma SameCondition(nodes: seq<RawNode>, p: Pos, head: nat, run: seq<nat>)
    requires Smallest(nodes, 1, p, |nodes|) == Some(head) && InBounds(nodes, run)
    requires EndRun(nodes, nodes[head].span.end, run)
    ensures LowestStartsFirst(nodes, p) <==> LowestFirstIn(nodes, run)
  {
    var end := nodes[head].span.end;
    forall u: nat ensures IsLowestOfName(nodes, end, u) <==> u in run && IsLowestIn(nodes, run, u) {
      if u in run {
        assert IsLowestIn(nodes, run, u) <==> forall v: nat :: v < u && v in run ==> nodes[v].name != nodes[u].name;
      }
    }
  }

  lemma BlockMembers(nodes: seq<RawNode>, p: Pos, head: nat, h: nat, m: nat)
    requires RunsMeet(nodes, p) && Smallest(nodes, 1, p, |nodes|) == Some(head)
    requires AreContainers(nodes, 1, Values(nodes))
    requires Block(Values(nodes), nodes[head].span.end, h, m) && RunEnd(Values(nodes), h, h) == m
    requires IsSmallest(nodes, 1, p, |nodes|, head)
    ensures
      var run, end := Run(Values(nodes), h), nodes[head].span.end;
      InBounds(nodes, run) && KeyOrdered(nodes, run) && EndRun(nodes, end, run)
  {
    var run := Run(Values(nodes), h);
    forall k: nat | k < |run|
      ensures run[k] < |nodes| && InTier(nodes, run[k], 1) && nodes[run[k]].span.end == nodes[head].span.end
    {
      RunIsScanned(nodes, p, head, h, m, k);
    }
    forall i: nat | InTier(nodes, i, 1) && nodes[i].span.end == nodes[head].span.end ensures i in run {
      ScannedIsRun(nodes, Values(nodes), nodes[head].span.end, h, m, i);
    }
    RunIsKeyOrdered(nodes, nodes[head].span.end, h, m);
  }

  // The scan's run has the same members, since all of them hold p.
  lemma ScanMembers(nodes: seq<RawNode>, p: Pos, head: nat, run: seq<nat>)
    requires RunsMeet(nodes, p) && Smallest(nodes, 1, p, |nodes|) == Some(head)
    requires IsSmallest(nodes, 1, p, |nodes|, head)
    requires InBounds(nodes, run) && KeyOrdered(nodes, run) && EndRun(nodes, nodes[head].span.end, run)
    ensures
      var scanned := ValuesEnding(nodes, nodes[head].span.end, p, |nodes|);
      InBounds(nodes, scanned) && SameMembers(run, scanned)
  {
    var end := nodes[head].span.end;
    var scanned := ValuesEnding(nodes, end, p, |nodes|);
    ValuesEndingMembers(nodes, end, p, |nodes|);
    forall i ensures i in run <==> i in scanned {
      if i in run || i in scanned {
        assert i >= 0;
      }
    }
    assert Sorting.Distinct(run) by {
      forall k, l | 0 <= k < l < |run| ensures run[k] != run[l] {
        assert nodes[run[k]].span.start == nodes[run[l]].span.start ==> run[k] < run[l];
      }
    }
  }

  // Of the two runs, the scan's finds the lowest of each name, and the sweep's does under
  // the condition.
  lemma BlockNames(nodes: seq<RawNode>, p: Pos, head: nat, run: seq<nat>)
    requires Smallest(nodes, 1, p, |nodes|) == Some(head) && InBounds(nodes, run)
    requires KeyOrdered(nodes, run) && EndRun(nodes, nodes[head].span.end, run)
    ensures LowestStartsFirst(nodes, p) <==> FirstIsLowest(nodes, run)
  {
    SameCondition(nodes, p, head, run);
    FirstIsLowestIff(nodes, run);
  }

  lemma ScanNames(nodes: seq<RawNode>, end: Pos, p: Pos)
    ensures InBounds(nodes, ValuesEnding(nodes, end, p, |nodes|))
    ensures FirstIsLowest(nodes, ValuesEnding(nodes, end, p, |nodes|))
  {
    ValuesEndingMembers(nodes, end, p, |nodes|);
    AscendingFindsLowest(nodes, ValuesEnding(nodes, end, p, |nodes|));
  }

  lemma ScanStartsAtHead(nodes: seq<RawNode>, end: Pos, p: Pos, run: seq<nat>, first: Container)
    requires InBounds(nodes, run) && run != [] && KeyOrdered(nodes, run) && run[0] == first.nodeIdx
    requires first.start == nodes[run[0]].span.start
    requires InBounds(nodes, ValuesEnding(nodes, end, p, |nodes|))
    requires SameMembers(run, ValuesEnding(nodes, end, p, |nodes|))
    ensures MinStart(nodes, ValuesEnding(nodes, end, p, |nodes|), end) == first.start
  {
    var scanned := ValuesEnding(nodes, end, p, |nodes|);
    assert run[0] in scanned;
    forall i | i in scanned ensures Le(first.start, nodes[i].span.start) {
      assert i in run;
      var k :| 0 <= k < |run| && run[k] == i;
    }
    HeadStartsFirst(nodes, scanned, end, run[0]);
  }

  lemma {:induction false} HeadStartsFirst(nodes: seq<RawNode>, run: seq<nat>, end: Pos, first: nat)
    requires InBounds(nodes, run) && first in run
    requires forall i :: i in run ==> Le(nodes[first].span.start, nodes[i].span.start)
    ensures MinStart(nodes, run, end) == nodes[first].span.start
  {
    assert run == [run[0]] + run[1..];
    if first in run[1..] {
      HeadStartsFirst(nodes, run[1..], end, first);
    } else {
      MinStartIsMember(nodes, run[1..], end);
    }
  }

  lemma {:induction false} MinStartIsMember(nodes: seq<RawNode>, run: seq<nat>, end: Pos)
    requires InBounds(nodes, run)
    ensures run != [] ==> exists i :: i in run && MinStart(nodes, run, end) == nodes[i].span.start
  {
    if run != [] {
      assert run == [run[0]] + run[1..];
      MinStartIsMember(nodes, run[1..], end);
      assert run[0] in run;
      if |run| > 1 {
        var i :| i in run[1..] && MinStart(nodes, run[1..], end) == nodes[i].span.start;
        assert i in run;
      }
    }
  }

  // The entries no earlier tier held.
  function Unheld(targets: seq<Option<nat>>, n: nat): (open: seq<nat>)
    requires n <= |targets|
    ensures forall k :: 0 <= k < |open| ==> open[k] < n && targets[open[k]].None?
    ensures forall i: nat :: i < n && targets[i].None? ==> i in open
    ensures Sorting.Distinct(open)
  {
    if n == 0 then []
    else Unheld(targets, n - 1) + if targets[n - 1].None? then [n - 1] else []
  }

  function PosOf(pending: seq<Pos>, open: seq<nat>): (at: seq<Pos>)
    requires forall k :: 0 <= k < |open| ==> open[k] < |pending|
    ensures |at| == |open| && forall k :: 0 <= k < |open| ==> at[k] == pending[open[k]]
  {
    seq(|open|, k requires 0 <= k < |open| => pending[open[k]])
  }

  // What the sweep gives entry i when no callable holds it, from its value span.
  function PickedFromRun(
      nodes: seq<RawNode>, p: Pos, first: Option<nat>, declared: Span -> seq<Declarator>): Option<nat>
    requires first.Some? ==> first.value < |Values(nodes)|
    requires first.Some? ==> InBounds(nodes, Run(Values(nodes), first.value))
  {
    match first
    case None => None
    case Some(f) =>
      var range := Span(Values(nodes)[f].start, Values(nodes)[f].end);
      PickDeclared(nodes, Run(Values(nodes), f), range, declared(range), p)
  }

  lemma PickedIsValueHolder(nodes: seq<RawNode>, p: Pos, first: Option<nat>, declared: Span -> seq<Declarator>)
    requires Laminar(nodes, 1, p) && RunsAgree(nodes, p)
    requires IsTarget(ValueSpans(Values(nodes)), p, first)
    ensures first.Some? ==> first.value < |Values(nodes)| && InBounds(nodes, Run(Values(nodes), first.value))
    ensures
      PickedFromRun(nodes, p, first, declared) ==
      match Smallest(nodes, 1, p, |nodes|)
      case None => None
      case Some(head) => ValueHolder(nodes, p, head, declared)
  {
    ValueRunsAgree(nodes, p, first);
    match Smallest(nodes, 1, p, |nodes|)
    case None =>
    case Some(head) =>
      var end := nodes[head].span.end;
      var scanned, run := ValuesEnding(nodes, end, p, |nodes|), Run(Values(nodes), first.value);
      var range := Span(Values(nodes)[first.value].start, end);
      SameRunsFindAlike(nodes, run, scanned);
      SamePick(nodes, run, scanned, range, declared(range), p, 0, false);
  }

  // A statement has no declarators or at least two: statement_declarators.
  ghost predicate NeverOne(declared: Span -> seq<Declarator>) {
    forall range :: |declared(range)| != 1
  }

  // Exactly then: where the runs meet, the sweep's pick is the scan's for every list of
  // declarators if and only if of each name the lowest node index starts first.
  lemma PicksAgreeIff(nodes: seq<RawNode>, p: Pos, first: nat, head: nat)
    requires Laminar(nodes, 1, p) && RunsMeet(nodes, p) && Smallest(nodes, 1, p, |nodes|) == Some(head)
    requires IsTarget(ValueSpans(Values(nodes)), p, Some(first))
    requires first < |Values(nodes)| && InBounds(nodes, Run(Values(nodes), first))
    ensures
      (forall declared: Span -> seq<Declarator> :: NeverOne(declared) ==>
         PickedFromRun(nodes, p, Some(first), declared) == ValueHolder(nodes, p, head, declared)) <==>
      LowestStartsFirst(nodes, p)
  {
    if LowestStartsFirst(nodes, p) {
      forall declared: Span -> seq<Declarator>
        ensures PickedFromRun(nodes, p, Some(first), declared) == ValueHolder(nodes, p, head, declared)
      {
        PickedIsValueHolder(nodes, p, Some(first), declared);
      }
    } else {
      var declared := NamesTellApart(nodes, p, first, head);
      assert PickedFromRun(nodes, p, Some(first), declared) != ValueHolder(nodes, p, head, declared);
    }
  }

  // Two declarators, one of them over the whole run and of a name whose lowest node index
  // starts later.
  lemma NamesTellApart(nodes: seq<RawNode>, p: Pos, first: nat, head: nat) returns (declared: Span -> seq<Declarator>)
    requires Laminar(nodes, 1, p) && RunsMeet(nodes, p) && Smallest(nodes, 1, p, |nodes|) == Some(head)
    requires IsTarget(ValueSpans(Values(nodes)), p, Some(first)) && !LowestStartsFirst(nodes, p)
    requires first < |Values(nodes)| && InBounds(nodes, Run(Values(nodes), first))
    ensures NeverOne(declared)
    ensures PickedFromRun(nodes, p, Some(first), declared) != ValueHolder(nodes, p, head, declared)
  {
    ValueRunsAgree(nodes, p, Some(first));
    SmallestIsSmallest(nodes, 1, p, |nodes|);
    var end := nodes[head].span.end;
    var scanned, run := ValuesEnding(nodes, end, p, |nodes|), Run(Values(nodes), first);
    var low :| low in run && IsLowestIn(nodes, run, low) && FindNamed(nodes, run, nodes[low].name) != Some(low);
    assert IsLowestIn(nodes, scanned, low);
    var name, range := nodes[low].name, Span(Values(nodes)[first].start, end);
    declared := _ => Both(range, name);
    FindsFirst(nodes, run, name);
    var k :| 0 <= k < |run| && run[k] == low;
    RangeHolds(nodes, p, head, first);
    PickOnly(nodes, run, range, name, p);
    PickOnly(nodes, scanned, range, name, p);
  }

  lemma RangeHolds(nodes: seq<RawNode>, p: Pos, head: nat, first: nat)
    requires RunsMeet(nodes, p) && Smallest(nodes, 1, p, |nodes|) == Some(head)
    requires first < |Values(nodes)| && Values(nodes)[first].end == nodes[head].span.end
    ensures Holds(Span(Values(nodes)[first].start, nodes[head].span.end), p)
  {
    ContainersOfTier(nodes, 1);
    SmallestIsSmallest(nodes, 1, p, |nodes|);
  }

  // Of a name, and of none.
  function Both(range: Span, name: string): seq<Declarator> {
    [Declarator(range, Some(name), range), Declarator(range, None, range)]
  }

  lemma PickOnly(nodes: seq<RawNode>, run: seq<nat>, range: Span, name: string, p: Pos)
    requires InBounds(nodes, run) && Holds(range, p) && FindNamed(nodes, run, name).Some?
    ensures PickDeclared(nodes, run, range, Both(range, name), p) == FindNamed(nodes, run, name)
  {
  }

  lemma RunInBounds(nodes: seq<RawNode>, p: Pos, first: Option<nat>)
    requires IsTarget(ValueSpans(Values(nodes)), p, first)
    ensures first.Some? ==> first.value < |Values(nodes)| && InBounds(nodes, Run(Values(nodes), first.value))
  {
    ContainersOfTier(nodes, 1);
  }

  // Every entry nests with the nodes around it, and its value runs tell it apart.
  ghost predicate Agreeable(nodes: seq<RawNode>, p: Pos) {
    && Laminar(nodes, 0, p) && Laminar(nodes, 1, p) && Laminar(nodes, 2, p)
    && RunsAgree(nodes, p)
  }

  // What the sweeps over callables and values give an entry: its narrowest callable c, or
  // else the value picked from the run of its narrowest value span f.
  ghost predicate ByTiers(
      nodes: seq<RawNode>, p: Pos, declared: Span -> seq<Declarator>, c: Option<nat>, f: Option<nat>, held: Option<nat>)
  {
    && IsTarget(ContainersOf(nodes, 0), p, c)
    && (c.Some? ==> held == c)
    && (c.None? ==> IsTarget(ValueSpans(Values(nodes)), p, f) && held == Picked(nodes, p, f, declared))
  }

  // PickedFromRun of the value span found for p.
  function Picked(nodes: seq<RawNode>, p: Pos, f: Option<nat>, declared: Span -> seq<Declarator>): Option<nat>
    requires IsTarget(ValueSpans(Values(nodes)), p, f)
  {
    RunInBounds(nodes, p, f);
    PickedFromRun(nodes, p, f, declared)
  }

  ghost predicate Held(nodes: seq<RawNode>, p: Pos, declared: Span -> seq<Declarator>, held: Option<nat>) {
    exists c: Option<nat>, f: Option<nat> :: ByTiers(nodes, p, declared, c, f, held)
  }

  // ... and with the type tier, for an entry neither held.
  ghost predicate Swept(nodes: seq<RawNode>, p: Pos, declared: Span -> seq<Declarator>, target: Option<nat>) {
    || (target.Some? && Held(nodes, p, declared, target))
    || (Held(nodes, p, declared, None) && IsTarget(ContainersOf(nodes, 2), p, target))
  }

  lemma CallableHolds(nodes: seq<RawNode>, p: Pos, declared: Span -> seq<Declarator>, c: Option<nat>)
    requires c.Some? && IsTarget(ContainersOf(nodes, 0), p, c)
    ensures Held(nodes, p, declared, c)
  {
    assert ByTiers(nodes, p, declared, c, None, c);
  }

  lemma ValueHolds(nodes: seq<RawNode>, p: Pos, declared: Span -> seq<Declarator>, f: Option<nat>)
    requires IsTarget(ContainersOf(nodes, 0), p, None) && IsTarget(ValueSpans(Values(nodes)), p, f)
    ensures Held(nodes, p, declared, Picked(nodes, p, f, declared))
  {
    assert ByTiers(nodes, p, declared, None, f, Picked(nodes, p, f, declared));
  }

  function At(declared: (nat, Span) -> seq<Declarator>, i: nat): Span -> seq<Declarator> {
    range => declared(i, range)
  }

  // What the value sweep finds for the entries no callable holds.
  method RunsOf(nodes: seq<RawNode>, pending: seq<Pos>) returns (runs: seq<Option<nat>>)
    ensures |runs| == |pending|
    ensures forall k :: 0 <= k < |runs| ==> IsTarget(ValueSpans(Values(nodes)), pending[k], runs[k])
  {
    ContainersOfTier(nodes, 1);
    SpansAreSorted(Values(nodes));
    var spans := BuildValueSpans(Values(nodes));
    runs := EnclosingTargets(spans, pending);
  }

  // The value tier of holder_targets, for the entries no callable holds.
  method ValueTier(
      nodes: seq<RawNode>, pending: seq<Pos>, declared: (nat, Span) -> seq<Declarator>, callables: seq<Option<nat>>)
      returns (targets: seq<Option<nat>>)
    requires |callables| == |pending|
    requires forall i :: 0 <= i < |pending| ==> IsTarget(ContainersOf(nodes, 0), pending[i], callables[i])
    ensures |targets| == |pending|
    ensures forall i :: 0 <= i < |pending| ==> Held(nodes, pending[i], At(declared, i), targets[i])
  {
    targets := callables;
    var open := Unheld(callables, |callables|);
    var runs := RunsOf(nodes, PosOf(pending, open));
    forall i: nat | i < |pending| && i !in open ensures Held(nodes, pending[i], At(declared, i), targets[i]) {
      CallableHolds(nodes, pending[i], At(declared, i), callables[i]);
    }
    for k := 0 to |open|
      invariant |targets| == |pending|
      invariant forall i: nat :: i < |pending| && i !in open[k..] ==>
                  Held(nodes, pending[i], At(declared, i), targets[i])
    {
      var i := open[k];
      assert IsTarget(ValueSpans(Values(nodes)), pending[i], runs[k]);
      ValueHolds(nodes, pending[i], At(declared, i), runs[k]);
      targets := targets[i := Picked(nodes, pending[i], runs[k], At(declared, i))];
      assert open[k..] == [i] + open[k + 1..];
    }
  }

  // The type tier, for the entries neither tier before it held.
  method TypeTier(nodes: seq<RawNode>, pending: seq<Pos>, held: seq<Option<nat>>) returns (targets: seq<Option<nat>>)
    requires |held| == |pending|
    ensures |targets| == |pending|
    ensures forall i :: 0 <= i < |pending| ==>
              if held[i].Some? then targets[i] == held[i] else IsTarget(ContainersOf(nodes, 2), pending[i], targets[i])
  {
    targets := held;
    var open := Unheld(held, |held|);
    ContainersOfTier(nodes, 2);
    var types := EnclosingTargets(ContainersOf(nodes, 2), PosOf(pending, open));
    for k := 0 to |open|
      invariant |targets| == |pending|
      invariant forall i :: 0 <= i < |pending| && held[i].Some? ==> targets[i] == held[i]
      invariant forall l :: 0 <= l < k ==> targets[open[l]] == types[l]
    {
      targets := targets[open[k] := types[k]];
    }
    forall i: nat | i < |pending| && held[i].None? ensures IsTarget(ContainersOf(nodes, 2), pending[i], targets[i]) {
      assert i in open;
      var l :| 0 <= l < |open| && open[l] == i;
      assert IsTarget(ContainersOf(nodes, 2), PosOf(pending, open)[l], types[l]);
    }
  }

  // holder_targets: one sweep per tier, over the entries no tier before it held.
  method HolderTargets(nodes: seq<RawNode>, pending: seq<Pos>, declared: (nat, Span) -> seq<Declarator>)
      returns (targets: seq<Option<nat>>)
    ensures |targets| == |pending|
    ensures forall i :: 0 <= i < |pending| ==> Swept(nodes, pending[i], At(declared, i), targets[i])
    ensures forall i :: 0 <= i < |pending| && Agreeable(nodes, pending[i]) ==>
              targets[i] == HolderOf(nodes, pending[i], At(declared, i))
  {
    ContainersOfTier(nodes, 0);
    var callables := EnclosingTargets(ContainersOf(nodes, 0), pending);
    if Unheld(callables, |callables|) == [] {
      targets := callables;
      forall i: nat | i < |pending| ensures Swept(nodes, pending[i], At(declared, i), targets[i]) {
        CallableHolds(nodes, pending[i], At(declared, i), callables[i]);
      }
    } else {
      var held := ValueTier(nodes, pending, declared, callables);
      targets := TypeTier(nodes, pending, held);
    }
    forall i: nat | i < |pending| && Agreeable(nodes, pending[i])
      ensures targets[i] == HolderOf(nodes, pending[i], At(declared, i))
    {
      SweptIsHolder(nodes, pending[i], At(declared, i), targets[i]);
    }
  }

  // An entry that nests with the nodes around it gets the holder a scan finds.
  lemma SweptIsHolder(nodes: seq<RawNode>, p: Pos, declared: Span -> seq<Declarator>, target: Option<nat>)
    requires Agreeable(nodes, p) && Swept(nodes, p, declared, target)
    ensures target == HolderOf(nodes, p, declared)
  {
    if target.Some? && Held(nodes, p, declared, target) {
      HeldIsHolder(nodes, p, declared, target);
    } else {
      HeldIsHolder(nodes, p, declared, None);
      TierAgrees(nodes, 2, p, target);
    }
  }

  lemma HeldIsHolder(nodes: seq<RawNode>, p: Pos, declared: Span -> seq<Declarator>, held: Option<nat>)
    requires Agreeable(nodes, p) && Held(nodes, p, declared, held)
    ensures HolderOf(nodes, p, declared) == if held.Some? then held else Smallest(nodes, 2, p, |nodes|)
  {
    var c: Option<nat>, f: Option<nat> :| ByTiers(nodes, p, declared, c, f, held);
    TierAgrees(nodes, 0, p, c);
    if c.None? {
      PickedIsValueHolder(nodes, p, f, declared);
    }
  }

  lemma SweptInBounds(nodes: seq<RawNode>, p: Pos, declared: Span -> seq<Declarator>, target: Option<nat>)
    requires Swept(nodes, p, declared, target)
    ensures target.Some? ==> target.value < |nodes|
  {
    ContainersOfTier(nodes, 0);
    ContainersOfTier(nodes, 2);
    if target.Some? && Held(nodes, p, declared, target) {
      var c: Option<nat>, f: Option<nat> :| ByTiers(nodes, p, declared, c, f, target);
      if c.None? {
        RunInBounds(nodes, p, f);
        var run, range := Run(Values(nodes), f.value), Span(Values(nodes)[f.value].start, Values(nodes)[f.value].end);
        PickInBounds(nodes, run, range, declared(range), p, 0, false);
      }
    }
  }

  datatype PendingCall = PendingCall(pos: Pos, name: string)

  // The names of the first n calls that `holder` gives node k, in call order.
  function CallsOn(calls: seq<PendingCall>, holder: seq<Option<nat>>, k: nat, n: nat): seq<string>
    requires n <= |calls| == |holder|
  {
    if n == 0 then []
    else CallsOn(calls, holder, k, n - 1) + if holder[n - 1] == Some(k) then [calls[n - 1].name] else []
  }

  // Node by node what the sweeps give each call; for a call that nests with the nodes
  // around it, the holder a scan finds.
  ghost predicate Answers(
      nodes: seq<RawNode>, calls: seq<PendingCall>, declared: (nat, Span) -> seq<Declarator>, targets: seq<Option<nat>>)
  {
    && |targets| == |calls|
    && forall i :: 0 <= i < |calls| ==>
         && Swept(nodes, calls[i].pos, At(declared, i), targets[i])
         && (Agreeable(nodes, calls[i].pos) ==> targets[i] == HolderOf(nodes, calls[i].pos, At(declared, i)))
  }

  // attach_pending_calls: each node gains exactly the calls it holds, in call order.
  method AttachPendingCalls(nodes: array<RawNode>, calls: seq<PendingCall>, declared: (nat, Span) -> seq<Declarator>)
      returns (ghost targets: seq<Option<nat>>)
    modifies nodes
    ensures Answers(old(nodes[..]), calls, declared, targets)
    ensures nodes[..] == WithCalls(old(nodes[..]), calls, targets, |calls|)
  {
    var pending := seq(|calls|, i requires 0 <= i < |calls| => calls[i].pos);
    var holders := HolderTargets(nodes[..], pending, declared);
    forall i | 0 <= i < |calls| ensures holders[i].Some? ==> holders[i].value < nodes.Length {
      SweptInBounds(nodes[..], pending[i], At(declared, i), holders[i]);
    }
    PushCalls(nodes, calls, holders);
    targets := holders;
  }

  // Its loop: each call with a holder is pushed on it.
  method PushCalls(nodes: array<RawNode>, calls: seq<PendingCall>, holders: seq<Option<nat>>)
    requires |holders| == |calls|
    requires forall i :: 0 <= i < |calls| && holders[i].Some? ==> holders[i].value < nodes.Length
    modifies nodes
    ensures nodes[..] == WithCalls(old(nodes[..]), calls, holders, |calls|)
  {
    NoCalls(nodes[..], calls, holders);
    for i := 0 to |calls|
      invariant nodes[..] == WithCalls(old(nodes[..]), calls, holders, i)
    {
      CallStep(old(nodes[..]), calls, holders, i);
      if holders[i].Some? {
        var k := holders[i].value;
        nodes[k] := nodes[k].(calls := nodes[k].calls + [calls[i].name]);
      }
    }
  }

  // The nodes, each with those of the first n calls that it holds.
  ghost function WithCalls(nodes: seq<RawNode>, calls: seq<PendingCall>, holder: seq<Option<nat>>, n: nat): seq<RawNode>
    requires n <= |calls| == |holder|
  {
    seq(|nodes|, k requires 0 <= k < |nodes| => nodes[k].(calls := nodes[k].calls + CallsOn(calls, holder, k, n)))
  }

  lemma NoCalls(nodes: seq<RawNode>, calls: seq<PendingCall>, holder: seq<Option<nat>>)
    requires |calls| == |holder|
    ensures WithCalls(nodes, calls, holder, 0) == nodes
  {
    forall k | 0 <= k < |nodes| ensures WithCalls(nodes, calls, holder, 0)[k] == nodes[k] {
      assert nodes[k].calls + [] == nodes[k].calls;
    }
  }

  lemma CallStep(nodes: seq<RawNode>, calls: seq<PendingCall>, holder: seq<Option<nat>>, n: nat)
    requires n < |calls| == |holder| && (holder[n].Some? ==> holder[n].value < |nodes|)
    ensures
      var now := WithCalls(nodes, calls, holder, n);
      WithCalls(nodes, calls, holder, n + 1) ==
        if holder[n].None? then now
        else
          var k := holder[n].value;
          now[k := now[k].(calls := now[k].calls + [calls[n].name])]
  {
    var now, next := WithCalls(nodes, calls, holder, n), WithCalls(nodes, calls, holder, n + 1);
    forall k | 0 <= k < |nodes| && holder[n] != Some(k) ensures next[k] == now[k] {
      assert CallsOn(calls, holder, k, n) + [] == CallsOn(calls, holder, k, n);
    }
    if holder[n].Some? {
      var k := holder[n].value;
      var made := nodes[k].calls;
      assert made + (CallsOn(calls, holder, k, n) + [calls[n].name]) ==
             (made + CallsOn(calls, holder, k, n)) + [calls[n].name];
    }
  }

  lemma {:induction false} PickInBounds(
      nodes: seq<RawNode>, run: seq<nat>, range: Span, ds: seq<Declarator>, p: Pos, k: nat, sibling: bool)
    requires InBounds(nodes, run) && k <= |ds|
    ensures
      var picked := PickFrom(nodes, run, range, ds, p, k, sibling);
      picked.Some? ==> picked.value in run
    decreases |ds| - k
  {
    if k < |ds| {
      PickInBounds(nodes, run, range, ds, p, k + 1, sibling);
      var d := ds[k];
      if d.name.Some? {
        FindsFirst(nodes, run, d.name.value);
        PickInBounds(nodes, run, range, ds, p, k + 1, sibling || (|run| == 1 && nodes[run[0]].name == d.name.value));
      }
    }
  }
}
