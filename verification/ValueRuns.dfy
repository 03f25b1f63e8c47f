// crates/ecp-analyzer/src/calls.rs: ReadContainers groups the sorted value
// declarations into runs that share the end of one statement.
module ValueRuns {
  import opened Options
  import opened Positions
  import opened Sweep
  import opened Nodes

  // same_run.
  predicate SameRun(head: Container, value: Container) {
    value.end == head.end && Le(head.start, value.start)
  }

  // The heads among the first n values: the loop of with_callables.
  function Heads(values: seq<Container>, n: nat): (heads: seq<nat>)
    requires n <= |values|
    ensures n > 0 ==> |heads| > 0
    ensures forall k :: 0 <= k < |heads| ==> heads[k] < n
  {
    if n == 0 then []
    else
      var heads := Heads(values, n - 1);
      if heads == [] || !SameRun(values[heads[|heads| - 1]], values[n - 1]) then heads + [n - 1] else heads
  }

  // value_spans: one container per run, naming the head's index among the values.
  function ValueSpans(values: seq<Container>): (spans: seq<Container>) {
    var heads := Heads(values, |values|);
    seq(|heads|, k requires 0 <= k < |heads| => values[heads[k]].(nodeIdx := heads[k]))
  }

  method BuildValueSpans(values: seq<Container>) returns (spans: seq<Container>)
    ensures spans == ValueSpans(values)
  {
    spans := [];
    ghost var heads: seq<nat> := [];
    for first := 0 to |values|
      invariant heads == Heads(values, first)
      invariant |spans| == |heads|
      invariant forall k :: 0 <= k < |spans| ==> heads[k] < first && spans[k] == values[heads[k]].(nodeIdx := heads[k])
    {
      if spans == [] || !SameRun(spans[|spans| - 1], values[first]) {
        spans, heads := spans + [values[first].(nodeIdx := first)], heads + [first];
      }
    }
  }

  // The end of the run at `first`: take_while same_run.
  function RunEnd(values: seq<Container>, first: nat, i: nat): (e: nat)
    requires first < |values| && i <= |values|
    ensures i <= e <= |values|
    decreases |values| - i
  {
    if i < |values| && SameRun(values[first], values[i]) then RunEnd(values, first, i + 1) else i
  }

  // run(first), as node indices.
  function Run(values: seq<Container>, first: nat): seq<nat>
    requires first < |values|
  {
    var end := RunEnd(values, first, first);
    seq<nat>(end - first, k requires 0 <= k < end - first => values[first + k].nodeIdx)
  }

  // The values ending at `end` stand side by side at [h, m).
  ghost predicate Block(values: seq<Container>, end: Pos, h: nat, m: nat) {
    && h < m <= |values|
    && forall x :: 0 <= x < |values| ==> (values[x].end == end <==> h <= x < m)
  }

  lemma {:induction false} BlockHead(values: seq<Container>, end: Pos, h: nat, m: nat, n: nat)
    requires SortedByStart(values) && Block(values, end, h, m) && h < n <= m
    ensures Heads(values, n) == Heads(values, h) + [h]
  {
    if n == h + 1 {
      var heads := Heads(values, h);
      if heads != [] {
        assert values[heads[|heads| - 1]].end != end;
      }
    } else {
      BlockHead(values, end, h, m, n - 1);
    }
  }

  lemma {:induction false} LaterHeads(values: seq<Container>, m: nat, n: nat)
    requires m <= n <= |values|
    ensures |Heads(values, m)| <= |Heads(values, n)|
    ensures Heads(values, n)[..|Heads(values, m)|] == Heads(values, m)
    ensures forall k :: |Heads(values, m)| <= k < |Heads(values, n)| ==> m <= Heads(values, n)[k]
  {
    if m < n {
      LaterHeads(values, m, n - 1);
      var now, before := Heads(values, n), Heads(values, n - 1);
      assert now == before || now == before + [n - 1];
    }
  }

  // A block is one run: its first value heads it and no other head ends there.
  lemma BlockIsRun(values: seq<Container>, end: Pos, h: nat, m: nat)
    requires SortedByStart(values) && Block(values, end, h, m)
    ensures
      var heads := Heads(values, |values|);
      && h in heads
      && (forall k :: 0 <= k < |heads| && values[heads[k]].end == end ==> heads[k] == h)
    ensures RunEnd(values, h, h) == m
  {
    var heads := Heads(values, |values|);
    BlockHead(values, end, h, m, m);
    LaterHeads(values, m, |values|);
    assert heads[|Heads(values, h)|] == Heads(values, m)[|Heads(values, h)|] == h;
    forall k | 0 <= k < |heads| && values[heads[k]].end == end ensures heads[k] == h {
      if k < |Heads(values, h)| {
        assert heads[k] == Heads(values, m)[k] == Heads(values, h)[k];
      }
    }
    RunEndOfBlock(values, end, h, m, h);
  }

  lemma {:induction false} RunEndOfBlock(values: seq<Container>, end: Pos, h: nat, m: nat, i: nat)
    requires SortedByStart(values) && Block(values, end, h, m) && h <= i <= m
    ensures RunEnd(values, h, i) == m
    decreases m - i
  {
    if i < m {
      RunEndOfBlock(values, end, h, m, i + 1);
    }
  }

  lemma {:induction false} HeadsAscend(values: seq<Container>, n: nat)
    requires n <= |values|
    ensures forall k, l :: 0 <= k < l < |Heads(values, n)| ==> Heads(values, n)[k] < Heads(values, n)[l]
  {
    if n > 0 {
      HeadsAscend(values, n - 1);
    }
  }

  lemma SpansAreSorted(values: seq<Container>)
    requires SortedByStart(values)
    ensures SortedByStart(ValueSpans(values))
  {
    HeadsAscend(values, |values|);
  }

  // Values that end together are found together: between two of them, in sorted
  // order, stands no value that ends elsewhere.
  ghost predicate Adjacent(values: seq<Container>, end: Pos) {
    forall x, y, z :: 0 <= x < y < z < |values| && values[x].end == end && values[z].end == end ==> values[y].end == end
  }

  lemma AdjacentIsBlock(values: seq<Container>, end: Pos, x: nat) returns (h: nat, m: nat)
    requires Adjacent(values, end) && x < |values| && values[x].end == end
    ensures Block(values, end, h, m) && h <= x
  {
    h, m := x, x + 1;
    while h > 0 && values[h - 1].end == end
      invariant h <= x && forall y :: h <= y <= x ==> values[y].end == end
    {
      h := h - 1;
    }
    while m < |values| && values[m].end == end
      invariant x < m <= |values| && forall y :: h <= y < m ==> values[y].end == end
    {
      m := m + 1;
    }
  }
}
