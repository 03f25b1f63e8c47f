// crates/ecp-analyzer/src/calls.rs: inputs that miss one of the value-tier conditions,
// on which the sweep and the scan of one entry name different holders. Two values of one
// name end together and nest, stand side by side and have begun by the position, but the
// inner one has the lower node index: the scan's run is in node order, the sweep's in the
// order of starts.
module HolderLimits {
  import opened Options
  import opened Positions
  import opened Sweep
  import opened Nodes
  import opened ValueRuns
  import opened Holder
  import opened HolderTargets
  import Sorting

  function Value(name: string, from: nat, to: nat): RawNode {
    RawNode(name, Const, Span(Pos(0, from), Pos(0, to)), [], [])
  }

  // The two containers of two values, the wider first in node order or second.
  lemma TwoValues(nodes: seq<RawNode>)
    requires |nodes| == 2 && InTier(nodes, 0, 1) && InTier(nodes, 1, 1)
    ensures
      var a, b := ContainerOf(nodes, 0), ContainerOf(nodes, 1);
      Values(nodes) == if KeyLe(a, b) then [a, b] else [b, a]
  {
    var a, b := ContainerOf(nodes, 0), ContainerOf(nodes, 1);
    assert Collected(nodes, 1, 0) == [] && Collected(nodes, 1, 1) == [a] && Collected(nodes, 1, 2) == [a, b];
    assert [a, b][1..] == [b] && [b][1..] == [];
    assert Sorting.Sort([b], ByKey()) == [b];
    assert Sorting.Sort([a, b], ByKey()) == Sorting.Insert(a, [b], ByKey());
  }

  const PAIR: seq<RawNode> := [Value("x", 4, 20), Value("x", 0, 20)]
  const AT: Pos := Pos(0, 17)
  const WHOLE: Span := Span(Pos(0, 0), Pos(0, 20))
  const FIRST: Declarator := Declarator(Span(Pos(0, 4), Pos(0, 11)), Some("x"), WHOLE)
  const SECOND: Declarator := Declarator(Span(Pos(0, 13), Pos(0, 20)), Some("x"), WHOLE)

  // The declarators of the statement `var x = a(), x = b()`, and the call of b.
  function Declared(): Span -> seq<Declarator> {
    _ => [FIRST, SECOND]
  }

  // Two values of one name and one end: the sweep names the one that starts first, the
  // scan the one with the lower index.
  lemma SameNameMatters()
    ensures Laminar(PAIR, 0, AT) && Laminar(PAIR, 1, AT) && Laminar(PAIR, 2, AT)
    ensures IsTarget(ValueSpans(Values(PAIR)), AT, Some(0))
    ensures SweepPick() == Some(1)
    ensures HolderOf(PAIR, AT, Declared()) == Some(0)
  {
    PairIsNested();
    SweepOfPair();
    ScanOfPair();
  }

  // What the value tier of the sweep gives the entry, its value span being the first.
  function SweepPick(): Option<nat> {
    PairIsSorted();
    RunEndOfPair(Values(PAIR));
    RunOfPair(Values(PAIR));
    PickedFromRun(PAIR, AT, Some(0), Declared())
  }

  lemma PairIsNested()
    ensures Laminar(PAIR, 0, AT) && Laminar(PAIR, 1, AT) && Laminar(PAIR, 2, AT)
  {
  }

  lemma SweepOfPair()
    ensures IsTarget(ValueSpans(Values(PAIR)), AT, Some(0))
    ensures SweepPick() == Some(1)
  {
    PairIsSorted();
    HeadsOfPair(Values(PAIR));
    SpansOfPair(Values(PAIR));
    RunEndOfPair(Values(PAIR));
    RunOfPair(Values(PAIR));
    PickNamed([1, 0]);
  }

  lemma PairIsSorted()
    ensures Values(PAIR) == [ContainerOf(PAIR, 1), ContainerOf(PAIR, 0)]
  {
    TwoValues(PAIR);
  }

  lemma SpansOfPair(values: seq<Container>)
    requires values == [ContainerOf(PAIR, 1), ContainerOf(PAIR, 0)] && Heads(values, 2) == [0]
    ensures IsTarget(ValueSpans(values), AT, Some(0))
  {
    assert ValueSpans(values) == [values[0].(nodeIdx := 0)];
    assert IsNarrowest(ValueSpans(values), AT, 0);
  }

  lemma RunOfPair(values: seq<Container>)
    requires values == [ContainerOf(PAIR, 1), ContainerOf(PAIR, 0)] && RunEnd(values, 0, 0) == 2
    ensures Run(values, 0) == [1, 0]
  {
  }

  lemma HeadsOfPair(values: seq<Container>)
    requires values == [ContainerOf(PAIR, 1), ContainerOf(PAIR, 0)]
    ensures Heads(values, 2) == [0]
  {
    assert Heads(values, 0) == [] && Heads(values, 1) == [0];
  }

  lemma RunEndOfPair(values: seq<Container>)
    requires values == [ContainerOf(PAIR, 1), ContainerOf(PAIR, 0)]
    ensures RunEnd(values, 0, 0) == 2
  {
    assert RunEnd(values, 0, 2) == 2 && RunEnd(values, 0, 1) == 2;
  }

  lemma PickNamed(run: seq<nat>)
    requires run == [1, 0] || run == [0, 1]
    ensures PickDeclared(PAIR, run, WHOLE, Declared()(WHOLE), AT) == Some(run[0])
  {
    assert FindNamed(PAIR, run, "x") == Some(run[0]);
    assert PickFrom(PAIR, run, WHOLE, [FIRST, SECOND], AT, 1, false) == Some(run[0]);
  }

  lemma ScanOfPair()
    ensures HolderOf(PAIR, AT, Declared()) == Some(0)
  {
    assert Smallest(PAIR, 0, AT, 0) == None && Smallest(PAIR, 0, AT, 1) == None;
    assert Smallest(PAIR, 1, AT, 0) == None && Smallest(PAIR, 1, AT, 1) == Some(0);
    var end := Pos(0, 20);
    assert ValuesEnding(PAIR, end, AT, 0) == [] && ValuesEnding(PAIR, end, AT, 1) == [0];
    assert ValuesEnding(PAIR, end, AT, 2) == [0, 1];
    assert [0, 1][1..] == [1];
    assert MinStart(PAIR, [1], end) == Pos(0, 0) && MinStart(PAIR, [0, 1], end) == Pos(0, 0);
    PickNamed([0, 1]);
  }
}
