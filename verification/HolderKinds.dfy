// crates/ecp-analyzer/src/calls.rs: which declaration around a position holds it, by kind.
module HolderKinds {
  import opened Options
  import opened Positions
  import opened Nodes
  import opened Holder

  datatype Group = Callables | Values | Types

  predicate IsOf(group: Group, kind: NodeKind) {
    match group
    case Callables => kind.Function? || kind.Method? || kind.Constructor?
    case Values => kind.Const? || kind.Variable? || kind.Property?
    case Types => kind.Class? || kind.Struct? || kind.Interface? || kind.Trait? || kind.Enum?
  }

  function TierOf(group: Group): nat {
    match group case Callables => 0 case Values => 1 case Types => 2
  }

  lemma TierIsGroup(kind: NodeKind, group: Group)
    ensures HolderTier(kind) == Some(TierOf(group)) <==> IsOf(group, kind)
    ensures (forall g: Group :: !IsOf(g, kind)) ==> HolderTier(kind) == None
  {
    if forall g: Group :: !IsOf(g, kind) {
      assert !IsOf(Callables, kind) && !IsOf(Values, kind) && !IsOf(Types, kind);
    }
  }

  // Node i is of the group and around p.
  ghost predicate Around(nodes: seq<RawNode>, group: Group, p: Pos, i: nat) {
    i < |nodes| && IsOf(group, nodes[i].kind) && Holds(nodes[i].span, p)
  }

  ghost predicate NoneAround(nodes: seq<RawNode>, group: Group, p: Pos) {
    forall i: nat :: !Around(nodes, group, p, i)
  }

  // The narrowest of the group around p, and of equal ones the first.
  ghost predicate IsNearest(nodes: seq<RawNode>, group: Group, p: Pos, i: nat) {
    && Around(nodes, group, p, i)
    && forall j: nat :: Around(nodes, group, p, j) ==>
         && WidthLe(SpanWidth(nodes[i].span), SpanWidth(nodes[j].span))
         && (SpanWidth(nodes[i].span) == SpanWidth(nodes[j].span) ==> i <= j)
  }

  lemma SmallestIsNearest(nodes: seq<RawNode>, group: Group, p: Pos)
    ensures
      match Smallest(nodes, TierOf(group), p, |nodes|)
      case None => NoneAround(nodes, group, p)
      case Some(i) => IsNearest(nodes, group, p, i)
  {
    SmallestIsSmallest(nodes, TierOf(group), p, |nodes|);
    forall j: nat | j < |nodes| ensures InTier(nodes, j, TierOf(group)) <==> IsOf(group, nodes[j].kind) {
      TierIsGroup(nodes[j].kind, group);
    }
  }

  // The nearest function holds the position whatever else is around it; with no function,
  // a value that holds it may come before the nearest type. A module holds nothing.
  lemma HolderByKind(nodes: seq<RawNode>, p: Pos, declared: Span -> seq<Declarator>)
    ensures
      match HolderOf(nodes, p, declared)
      case None => NoneAround(nodes, Callables, p) && NoneAround(nodes, Types, p)
      case Some(i) =>
        || IsNearest(nodes, Callables, p, i)
        || (NoneAround(nodes, Callables, p) && (Around(nodes, Values, p, i) || IsNearest(nodes, Types, p, i)))
  {
    SmallestIsNearest(nodes, Callables, p);
    SmallestIsNearest(nodes, Values, p);
    SmallestIsNearest(nodes, Types, p);
    var head := Smallest(nodes, 1, p, |nodes|);
    if head.Some? {
      ValueIsAround(nodes, p, head.value, declared);
    }
  }

  lemma ValueIsAround(nodes: seq<RawNode>, p: Pos, head: nat, declared: Span -> seq<Declarator>)
    requires head < |nodes|
    ensures
      match ValueHolder(nodes, p, head, declared)
      case None => true
      case Some(i) => Around(nodes, Values, p, i) && nodes[i].span.end == nodes[head].span.end
  {
    var end := nodes[head].span.end;
    var run := ValuesEnding(nodes, end, p, |nodes|);
    ValuesEndingMembers(nodes, end, p, |nodes|);
    var range := Span(MinStart(nodes, run, end), end);
    var ds := declared(range);
    PickIsInRun(nodes, run, range, ds, p, 0, false);
    var picked := ValueHolder(nodes, p, head, declared);
    if picked.Some? {
      assert picked.value in run;
      TierIsGroup(nodes[picked.value].kind, Values);
    }
  }

  lemma {:induction false} PickIsInRun(
      nodes: seq<RawNode>, run: seq<nat>, range: Span, ds: seq<Declarator>, p: Pos, k: nat, sibling: bool)
    requires (forall k :: 0 <= k < |run| ==> run[k] < |nodes|) && k <= |ds|
    ensures PickFrom(nodes, run, range, ds, p, k, sibling).Some? ==>
              PickFrom(nodes, run, range, ds, p, k, sibling).value in run
    decreases |ds| - k
  {
    if k < |ds| {
      var d := ds[k];
      PickIsInRun(nodes, run, range, ds, p, k + 1, sibling);
      if d.name.Some? {
        FindsFirst(nodes, run, d.name.value);
        PickIsInRun(nodes, run, range, ds, p, k + 1, sibling || (|run| == 1 && nodes[run[0]].name == d.name.value));
      }
    }
  }

  // With no function around, a value that is alone to end where the nearest value ends, and
  // that no declarators divide, holds the position: a type around it does not.
  lemma LoneValueHolds(nodes: seq<RawNode>, p: Pos, declared: Span -> seq<Declarator>, v: nat)
    requires NoneAround(nodes, Callables, p) && IsNearest(nodes, Values, p, v)
    requires forall j: nat :: Around(nodes, Values, p, j) && nodes[j].span.end == nodes[v].span.end ==> j == v
    requires declared(nodes[v].span) == []
    ensures HolderOf(nodes, p, declared) == Some(v)
  {
    SmallestIsNearest(nodes, Callables, p);
    SmallestIsNearest(nodes, Values, p);
    var head := Smallest(nodes, 1, p, |nodes|);
    assert head == Some(v);
    var end := nodes[v].span.end;
    var run := ValuesEnding(nodes, end, p, |nodes|);
    ValuesEndingMembers(nodes, end, p, |nodes|);
    forall i: nat ensures i in run <==> i == v {
      if i < |nodes| {
        TierIsGroup(nodes[i].kind, Values);
      }
    }
    assert run == [v] by {
      assert v in run;
      var last := |run| - 1;
      assert run[0] in run && run[last] in run;
    }
    assert MinStart(nodes, run, end) == nodes[v].span.start;
    PickIsFirstClaim(nodes, run, nodes[v].span, [], p);
  }
}
