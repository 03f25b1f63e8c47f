/** The declarations a parser hands to calls.rs, as far as attribution reads them. */
module Nodes {
  import opened Options
  import opened Positions
  import opened Sweep
  import Sorting

  datatype NodeKind =
    | Function | Method | Constructor
    | Const | Variable | Property
    | Class | Struct | Interface | Trait | Enum
    | OtherKind

  datatype RawNode = RawNode(name: string, kind: NodeKind, span: Span, calls: seq<string>, fieldReads: seq<NameRef>)

  datatype NameRefKind = ValueRef | ConstantRef | FunctionRef

  // One entry of field_reads that names a constant, variable or function.
  datatype NameRef = NameRef(kind: NameRefKind, name: string)

  // holder_tier: functions before value declarations before types; a module holds nothing.
  function HolderTier(kind: NodeKind): Option<nat> {
    match kind
    case Function | Method | Constructor => Some(0)
    case Const | Variable | Property => Some(1)
    case Class | Struct | Interface | Trait | Enum => Some(2)
    case OtherKind => None
  }

  predicate InTier(nodes: seq<RawNode>, i: nat, tier: nat) {
    i < |nodes| && HolderTier(nodes[i].kind) == Some(tier)
  }

  function ContainerOf(nodes: seq<RawNode>, i: nat): Container
    requires i < |nodes|
  {
    Container(nodes[i].span.start, nodes[i].span.end, SpanWidth(nodes[i].span), i)
  }

  // The sort key of containers_of: (start, width, node index).
  predicate KeyLe(a: Container, b: Container) {
    if a.start != b.start then Le(a.start, b.start)
    else if a.width != b.width then WidthLe(a.width, b.width)
    else a.nodeIdx <= b.nodeIdx
  }

  function ByKey(): (Container, Container) -> bool {
    (a, b) => KeyLe(a, b)
  }

  // The filtered containers of the first n nodes, in node order.
  function Collected(nodes: seq<RawNode>, tier: nat, n: nat): seq<Container>
    requires n <= |nodes|
  {
    if n == 0 then []
    else Collected(nodes, tier, n - 1) + if InTier(nodes, n - 1, tier) then [ContainerOf(nodes, n - 1)] else []
  }

  // containers_of.
  function ContainersOf(nodes: seq<RawNode>, tier: nat): seq<Container> {
    Sorting.Sort(Collected(nodes, tier, |nodes|), ByKey())
  }

  lemma {:induction false} CollectedMembers(nodes: seq<RawNode>, tier: nat, n: nat)
    requires n <= |nodes|
    ensures
      var cs := Collected(nodes, tier, n);
      && (forall k :: 0 <= k < |cs| ==>
            cs[k].nodeIdx < n && InTier(nodes, cs[k].nodeIdx, tier) && cs[k] == ContainerOf(nodes, cs[k].nodeIdx))
      && Sorting.Distinct(cs)
      && (forall i: nat :: i < n && InTier(nodes, i, tier) ==> ContainerOf(nodes, i) in cs)
  {
    if n > 0 {
      CollectedMembers(nodes, tier, n - 1);
    }
  }

  // Every node of the tier once, sorted by key.
  ghost predicate AreContainers(nodes: seq<RawNode>, tier: nat, cs: seq<Container>) {
    && (forall k :: 0 <= k < |cs| ==> InTier(nodes, cs[k].nodeIdx, tier) && cs[k] == ContainerOf(nodes, cs[k].nodeIdx))
    && (forall k, l :: 0 <= k < l < |cs| ==> cs[k].nodeIdx != cs[l].nodeIdx && KeyLe(cs[k], cs[l]))
    && (forall i: nat :: InTier(nodes, i, tier) ==> ContainerOf(nodes, i) in cs)
  }

  lemma ContainersOfTier(nodes: seq<RawNode>, tier: nat)
    ensures AreContainers(nodes, tier, ContainersOf(nodes, tier))
    ensures SortedByStart(ContainersOf(nodes, tier))
  {
    var collected := Collected(nodes, tier, |nodes|);
    var cs := ContainersOf(nodes, tier);
    CollectedMembers(nodes, tier, |nodes|);
    Sorting.SortSorts(collected, ByKey());
    Sorting.MultisetMembers(cs, collected);
    Sorting.RearrangedDistinct(collected, cs);
    forall k | 0 <= k < |cs|
      ensures InTier(nodes, cs[k].nodeIdx, tier) && cs[k] == ContainerOf(nodes, cs[k].nodeIdx)
    {
      assert cs[k] in collected;
    }
    forall k, l | 0 <= k < l < |cs| ensures cs[k].nodeIdx != cs[l].nodeIdx && KeyLe(cs[k], cs[l]) {
      assert ByKey()(cs[k], cs[l]);
    }
  }
}
