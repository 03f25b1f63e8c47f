// crates/ecp-analyzer/src/framework_helpers.rs and sfc_common.rs: positions of an
// embedded script, first in the script, then in the file around it.
module SpanRemap {
  import opened Options
  import opened Positions

  const MAX_U32: nat := 0xFFFF_FFFF

  // safe_row, and the same for columns.
  function Clamp(n: nat): nat {
    if n <= MAX_U32 then n else MAX_U32
  }

  // saturating_add.
  function SatAdd(a: nat, b: nat): nat {
    Clamp(a + b)
  }

  function Advance(p: Pos, b: char): Pos {
    if b == '\n' then Pos(p.row + 1, 0) else Pos(p.row, p.col + 1)
  }

  // The row and column of byte i.
  ghost function At(text: string, i: nat): Pos
    requires i <= |text|
  {
    if i == 0 then Pos(0, 0) else Advance(At(text, i - 1), text[i - 1])
  }

  // byte_to_row_col: past the end, the position of the end.
  method ByteToRowCol(text: string, bytePos: nat) returns (p: Pos)
    ensures p == At(text, if bytePos <= |text| then bytePos else |text|)
  {
    p := Pos(0, 0);
    for i := 0 to |text|
      invariant i <= bytePos && p == At(text, i)
    {
      if i == bytePos {
        return;
      }
      p := Advance(p, text[i]);
    }
  }

  ghost function LineEnds(text: string): nat {
    if text == "" then 0 else LineEnds(text[..|text| - 1]) + if text[|text| - 1] == '\n' then 1 else 0
  }

  // The row counts the line ends before the byte; the column counts the bytes since the
  // last of them.
  lemma {:induction false} AtCounts(text: string, i: nat)
    requires i <= |text|
    ensures
      var p := At(text, i);
      && p.row == LineEnds(text[..i])
      && p.col <= i && (p.row == 0 ==> p.col == i)
      && (p.col < i ==> text[i - p.col - 1] == '\n')
      && forall k :: i - p.col <= k < i ==> text[k] != '\n'
  {
    if i > 0 {
      AtCounts(text, i - 1);
      assert text[..i][..i - 1] == text[..i - 1];
    }
  }

  // Later bytes have later positions.
  lemma {:induction false} AtAscends(text: string, i: nat, j: nat)
    requires i < j <= |text|
    ensures Le(At(text, i), At(text, j)) && At(text, i) != At(text, j)
    decreases j
  {
    if i < j - 1 {
      AtAscends(text, i, j - 1);
    }
  }

  function ClampPos(p: Pos): Pos {
    Pos(Clamp(p.row), Clamp(p.col))
  }

  // byte_position_to_span.
  method BytePositionToSpan(text: string, start: nat, end: nat) returns (s: Span)
    ensures
      var clip := (n: nat) => if n <= |text| then n else |text|;
      s == Span(ClampPos(At(text, clip(start))), ClampPos(At(text, clip(end))))
  {
    var from := ByteToRowCol(text, start);
    var to := ByteToRowCol(text, if end <= |text| then end else |text|);
    s := Span(ClampPos(from), ClampPos(to));
  }

  // One end of offset_span.
  function OffsetPos(p: Pos, at: Pos): Pos {
    Pos(SatAdd(p.row, at.row), if p.row == 0 then SatAdd(p.col, at.col) else p.col)
  }

  // offset_span.
  function OffsetSpan(s: Span, at: Pos): Span {
    Span(OffsetPos(s.start, at), OffsetPos(s.end, at))
  }

  lemma {:induction false} AtInFile(file: string, base: nat, end: nat, k: nat)
    requires base <= end <= |file| && k <= end - base
    ensures At(file, base + k) == Shift(At(file[base..end], k), At(file, base))
  {
    if k > 0 {
      AtInFile(file, base, end, k - 1);
    }
  }

  // A byte of the script, offset by where the script starts, is at its place in the file,
  // every number cut at 32 bits on both sides.
  lemma OffsetIsOuter(file: string, base: nat, end: nat, k: nat)
    requires base <= end <= |file| && k <= end - base
    ensures ClampPos(At(file, base + k)) == OffsetPos(ClampPos(At(file[base..end], k)), ClampPos(At(file, base)))
  {
    AtInFile(file, base, end, k);
    OffsetCuts(At(file[base..end], k), At(file, base));
  }

  // Without the cut, the offset of a position.
  function Shift(inner: Pos, start: Pos): Pos {
    Pos(start.row + inner.row, if inner.row == 0 then start.col + inner.col else inner.col)
  }

  lemma OffsetCuts(inner: Pos, start: Pos)
    ensures ClampPos(Shift(inner, start)) == OffsetPos(ClampPos(inner), ClampPos(start))
  {
  }

  // No number of the position overflows 32 bits when offset.
  ghost predicate Fits(p: Pos, at: Pos) {
    && p.row + at.row <= MAX_U32 && p.col <= MAX_U32
    && (p.row == 0 ==> p.col + at.col <= MAX_U32)
  }

  ghost predicate SpanFits(s: Span, at: Pos) {
    Fits(s.start, at) && Fits(s.end, at)
  }

  // A span holds a point, or another span, before the offset exactly if it does after.
  lemma OffsetKeepsContainment(s: Span, t: Span, p: Pos, at: Pos)
    requires SpanFits(s, at) && SpanFits(t, at) && Fits(p, at)
    ensures Holds(OffsetSpan(s, at), OffsetPos(p, at)) <==> Holds(s, p)
    ensures Inside(OffsetSpan(s, at), OffsetSpan(t, at)) <==> Inside(s, t)
    ensures OffsetSpan(s, at) == OffsetSpan(t, at) <==> s == t
  {
  }

  // span_area.
  function SpanArea(s: Span): int {
    var rows := if s.end.row >= s.start.row then s.end.row - s.start.row else 0;
    (if rows <= 0x7FFF_FFFF then rows else 0x7FFF_FFFF) * 0x2_0000_0000 + (s.end.col + 0x1_0000_0000 - s.start.col)
  }

  ghost predicate InU32(s: Span) {
    s.start.row <= 0x7FFF_FFFF && s.end.row <= 0x7FFF_FFFF && s.start.col <= MAX_U32 && s.end.col <= MAX_U32
  }

  // A span strictly inside another has the smaller area.
  lemma InsideIsSmaller(inner: Span, outer: Span)
    requires Inside(inner, outer) && inner != outer && Le(inner.start, inner.end) && InU32(inner) && InU32(outer)
    ensures SpanArea(inner) < SpanArea(outer)
  {
    var rows := (s: Span) => s.end.row - s.start.row;
    assert rows(inner) <= rows(outer);
    if rows(inner) == rows(outer) {
      assert inner.start.row == outer.start.row && inner.end.row == outer.end.row;
    } else {
      assert inner.end.col + 0x1_0000_0000 - inner.start.col < 0x2_0000_0000;
      assert outer.end.col + 0x1_0000_0000 - outer.start.col > 0;
    }
  }

  // min_by_key(span_area) over the spans that hold p: the first of the smallest.
  function Enclosing(spans: seq<Span>, p: Pos, n: nat): (best: Option<nat>)
    requires n <= |spans|
    ensures best.Some? ==> best.value < n && Holds(spans[best.value], p)
  {
    if n == 0 then None
    else
      var best := Enclosing(spans, p, n - 1);
      if !Holds(spans[n - 1], p) then best
      else if best.None? || SpanArea(spans[n - 1]) < SpanArea(spans[best.value]) then Some(n - 1)
      else best
  }

  function OffsetAll(spans: seq<Span>, at: Pos): seq<Span> {
    seq(|spans|, i requires 0 <= i < |spans| => OffsetSpan(spans[i], at))
  }

  ghost predicate NestAround(spans: seq<Span>, p: Pos) {
    forall i, j :: 0 <= i < |spans| && 0 <= j < |spans| && Holds(spans[i], p) && Holds(spans[j], p) ==>
      Nested(spans[i], spans[j])
  }

  ghost predicate AllFit(spans: seq<Span>, at: Pos) {
    forall i :: 0 <= i < |spans| ==> SpanFits(spans[i], at) && InU32(spans[i]) && InU32(OffsetSpan(spans[i], at))
  }

  lemma SameOrderOfAreas(a: Span, b: Span, p: Pos, at: Pos)
    requires Holds(a, p) && Holds(b, p) && Nested(a, b) && Fits(p, at)
    requires SpanFits(a, at) && SpanFits(b, at)
    requires InU32(a) && InU32(b) && InU32(OffsetSpan(a, at)) && InU32(OffsetSpan(b, at))
    ensures SpanArea(a) < SpanArea(b) <==> SpanArea(OffsetSpan(a, at)) < SpanArea(OffsetSpan(b, at))
  {
    var a', b' := OffsetSpan(a, at), OffsetSpan(b, at);
    OffsetKeepsContainment(a, b, p, at);
    OffsetKeepsContainment(b, a, p, at);
    if a != b {
      if Inside(a, b) {
        InsideIsSmaller(a, b);
        InsideIsSmaller(a', b');
      } else {
        InsideIsSmaller(b, a);
        InsideIsSmaller(b', a');
      }
    }
  }

  // The smallest enclosing span is the same one before and after, though the offset
  // changes the area of a span that starts in row 0.
  lemma {:induction false} SameEnclosing(spans: seq<Span>, p: Pos, at: Pos, n: nat)
    requires n <= |spans| && AllFit(spans, at) && Fits(p, at) && NestAround(spans, p)
    ensures Enclosing(OffsetAll(spans, at), OffsetPos(p, at), n) == Enclosing(spans, p, n)
  {
    if n > 0 {
      SameEnclosing(spans, p, at, n - 1);
      SameAround(spans, p, at, n - 1);
      var best := Enclosing(spans, p, n - 1);
      if Holds(spans[n - 1], p) && best.Some? {
        SameOrderAt(spans, p, at, n - 1, best.value);
      }
    }
  }

  lemma SameAround(spans: seq<Span>, p: Pos, at: Pos, i: nat)
    requires i < |spans| && AllFit(spans, at) && Fits(p, at)
    ensures Holds(OffsetAll(spans, at)[i], OffsetPos(p, at)) <==> Holds(spans[i], p)
  {
    OffsetKeepsContainment(spans[i], spans[i], p, at);
  }

  lemma SameOrderAt(spans: seq<Span>, p: Pos, at: Pos, i: nat, j: nat)
    requires i < |spans| && j < |spans| && AllFit(spans, at) && Fits(p, at) && NestAround(spans, p)
    requires Holds(spans[i], p) && Holds(spans[j], p)
    ensures SpanArea(spans[i]) < SpanArea(spans[j]) <==>
              SpanArea(OffsetAll(spans, at)[i]) < SpanArea(OffsetAll(spans, at)[j])
  {
    SameOrderOfAreas(spans[i], spans[j], p, at);
  }

  // Two spans that overlap but do not nest: their order turns around, as the offset
  // shortens the one that starts in row 0.
  lemma OverlapTurnsAround()
    ensures
      var p, at := Pos(1, 3), Pos(7, 5);
      var spans := [Span(Pos(0, 4), Pos(1, 6)), Span(Pos(1, 2), Pos(2, 1))];
      && Enclosing(spans, p, 2) == Some(1)
      && Enclosing(OffsetAll(spans, at), OffsetPos(p, at), 2) == Some(0)
  {
    var p, at := Pos(1, 3), Pos(7, 5);
    var spans := [Span(Pos(0, 4), Pos(1, 6)), Span(Pos(1, 2), Pos(2, 1))];
    assert Enclosing(spans, p, 1) == Some(0);
    assert Enclosing(OffsetAll(spans, at), OffsetPos(p, at), 1) == Some(0);
  }

  datatype ScriptKind = FunctionKind | ConstKind | VariableKind | AnyOther(tag: nat)

  // One match of the query: a named declaration with its span in the script.
  datatype Match = Match(name: string, kind: ScriptKind, span: Span, exported: bool)

  // A match already offset, or a node of the result.
  type ScriptNode = Match

  function Offset(m: Match, at: Pos): ScriptNode {
    m.(span := OffsetSpan(m.span, at))
  }

  predicate SameDecl(a: ScriptNode, b: ScriptNode) {
    a.span == b.span && a.name == b.name
  }

  // What a node becomes when the same declaration matches again.
  function Joined(node: ScriptNode, again: ScriptNode): ScriptNode {
    node.(kind := if again.kind == FunctionKind && (node.kind == ConstKind || node.kind == VariableKind)
                  then FunctionKind else node.kind,
          exported := node.exported || again.exported)
  }

  // The node of a declaration after the first n matches.
  ghost function NodeOf(matched: seq<ScriptNode>, key: ScriptNode, n: nat): Option<ScriptNode>
    requires n <= |matched|
  {
    if n == 0 then None
    else
      match NodeOf(matched, key, n - 1)
      case None => if SameDecl(matched[n - 1], key) then Some(matched[n - 1]) else None
      case Some(node) => Some(if SameDecl(matched[n - 1], key) then Joined(node, matched[n - 1]) else node)
  }

  ghost predicate OnePerDecl(nodes: seq<ScriptNode>) {
    forall i, j :: 0 <= i < j < |nodes| ==> !SameDecl(nodes[i], nodes[j])
  }

  ghost predicate Merged(nodes: seq<ScriptNode>, matched: seq<ScriptNode>, n: nat)
    requires n <= |matched|
  {
    && OnePerDecl(nodes)
    && (forall i :: 0 <= i < |nodes| ==> NodeOf(matched, nodes[i], n) == Some(nodes[i]))
    && (forall i :: 0 <= i < n ==> HasDecl(nodes, matched[i]))
  }

  ghost predicate HasDecl(nodes: seq<ScriptNode>, key: ScriptNode) {
    exists i :: 0 <= i < |nodes| && SameDecl(nodes[i], key)
  }

  lemma JoinKeeps(nodes: seq<ScriptNode>, m: ScriptNode, i: nat, key: ScriptNode)
    requires i < |nodes| && HasDecl(nodes, key)
    ensures HasDecl(nodes[i := Joined(nodes[i], m)], key)
  {
    var j :| 0 <= j < |nodes| && SameDecl(nodes[j], key);
    assert SameDecl(nodes[i := Joined(nodes[i], m)][j], key);
  }

  lemma AppendKeeps(nodes: seq<ScriptNode>, m: ScriptNode, key: ScriptNode)
    requires HasDecl(nodes, key) || SameDecl(m, key)
    ensures HasDecl(nodes + [m], key)
  {
    if HasDecl(nodes, key) {
      var j :| 0 <= j < |nodes| && SameDecl(nodes[j], key);
      assert SameDecl((nodes + [m])[j], key);
    } else {
      assert SameDecl((nodes + [m])[|nodes|], key);
    }
  }

  lemma MergeJoins(nodes: seq<ScriptNode>, matched: seq<ScriptNode>, n: nat, i: nat)
    requires n < |matched| && Merged(nodes, matched, n) && i < |nodes| && SameDecl(nodes[i], matched[n])
    ensures Merged(nodes[i := Joined(nodes[i], matched[n])], matched, n + 1)
  {
    var now := nodes[i := Joined(nodes[i], matched[n])];
    forall j | 0 <= j < |now| ensures NodeOf(matched, now[j], n + 1) == Some(now[j]) {
      SameKeySameNode(matched, now[j], nodes[j], n);
    }
    forall k | 0 <= k < n + 1 ensures HasDecl(now, matched[k]) {
      if k < n {
        JoinKeeps(nodes, matched[n], i, matched[k]);
      } else {
        assert SameDecl(now[i], matched[n]);
      }
    }
  }

  lemma MergeAppends(nodes: seq<ScriptNode>, matched: seq<ScriptNode>, n: nat)
    requires n < |matched| && Merged(nodes, matched, n)
    requires forall j :: 0 <= j < |nodes| ==> !SameDecl(nodes[j], matched[n])
    ensures Merged(nodes + [matched[n]], matched, n + 1)
  {
    var now := nodes + [matched[n]];
    NotYet(nodes, matched, n, n);
    forall j | 0 <= j < |now| ensures NodeOf(matched, now[j], n + 1) == Some(now[j]) {
      assert j < |nodes| ==> now[j] == nodes[j];
    }
    forall k | 0 <= k < n + 1 ensures HasDecl(now, matched[k]) {
      AppendKeeps(nodes, matched[n], matched[k]);
    }
  }

  // A declaration with no node has not matched.
  lemma {:induction false} NotYet(nodes: seq<ScriptNode>, matched: seq<ScriptNode>, n: nat, k: nat)
    requires k <= n < |matched| && Merged(nodes, matched, n)
    requires forall j :: 0 <= j < |nodes| ==> !SameDecl(nodes[j], matched[n])
    ensures NodeOf(matched, matched[n], k) == None
  {
    if k > 0 {
      NotYet(nodes, matched, n, k - 1);
      assert HasDecl(nodes, matched[k - 1]);
    }
  }

  lemma {:induction false} SameKeySameNode(matched: seq<ScriptNode>, a: ScriptNode, b: ScriptNode, n: nat)
    requires n <= |matched| && SameDecl(a, b)
    ensures NodeOf(matched, a, n) == NodeOf(matched, b, n)
  {
    if n > 0 {
      SameKeySameNode(matched, a, b, n - 1);
    }
  }

  // The loop of parse_embedded_script over the nodes it has.
  method MergeOne(nodes: seq<ScriptNode>, m: ScriptNode, ghost matched: seq<ScriptNode>, ghost n: nat)
      returns (now: seq<ScriptNode>)
    requires n < |matched| && matched[n] == m && Merged(nodes, matched, n)
    ensures Merged(now, matched, n + 1)
  {
    for i := 0 to |nodes|
      invariant forall j :: 0 <= j < i ==> !SameDecl(nodes[j], m)
    {
      if SameDecl(nodes[i], m) {
        MergeJoins(nodes, matched, n, i);
        return nodes[i := Joined(nodes[i], m)];
      }
    }
    MergeAppends(nodes, matched, n);
    now := nodes + [m];
  }

  // The nodes of one script: one for each declaration that matched, at its place in the
  // file.
  method MergeAll(matches: seq<Match>, at: Pos) returns (nodes: seq<ScriptNode>)
    ensures Merged(nodes, seq(|matches|, i requires 0 <= i < |matches| => Offset(matches[i], at)), |matches|)
  {
    nodes := [];
    ghost var matched := seq(|matches|, i requires 0 <= i < |matches| => Offset(matches[i], at));
    for n := 0 to |matches|
      invariant Merged(nodes, matched, n)
    {
      nodes := MergeOne(nodes, Offset(matches[n], at), matched, n);
    }
  }

  // What the node of a declaration says: exported if any match of it is, and a function
  // if the first match is one, or is a constant or variable and some match is.
  lemma {:induction false} NodeSays(matched: seq<ScriptNode>, key: ScriptNode, n: nat)
    requires n <= |matched|
    ensures
      match NodeOf(matched, key, n)
      case None => forall i :: 0 <= i < n ==> !SameDecl(matched[i], key)
      case Some(node) =>
        && SameDecl(node, key)
        && (node.exported <==> exists i :: 0 <= i < n && SameDecl(matched[i], key) && matched[i].exported)
        && exists first ::
             && 0 <= first < n && SameDecl(matched[first], key)
             && (forall i :: 0 <= i < first ==> !SameDecl(matched[i], key))
             && node.kind == KindFrom(matched, key, matched[first].kind, n)
  {
    if n > 0 {
      NodeSays(matched, key, n - 1);
      if NodeOf(matched, key, n - 1).Some? {
        var first :|
          && 0 <= first < n - 1 && SameDecl(matched[first], key)
          && (forall i :: 0 <= i < first ==> !SameDecl(matched[i], key))
          && NodeOf(matched, key, n - 1).value.kind == KindFrom(matched, key, matched[first].kind, n - 1);
        FunctionStep(matched, key, n);
        assert NodeOf(matched, key, n).value.kind == KindFrom(matched, key, matched[first].kind, n);
      } else if SameDecl(matched[n - 1], key) {
        assert NodeOf(matched, key, n).value.kind == KindFrom(matched, key, matched[n - 1].kind, n);
      }
    }
  }

  ghost predicate SomeFunction(matched: seq<ScriptNode>, key: ScriptNode, n: nat)
    requires n <= |matched|
  {
    exists i :: 0 <= i < n && SameDecl(matched[i], key) && matched[i].kind == FunctionKind
  }

  lemma FunctionStep(matched: seq<ScriptNode>, key: ScriptNode, n: nat)
    requires 0 < n <= |matched|
    ensures SomeFunction(matched, key, n) <==>
              || SomeFunction(matched, key, n - 1)
              || (SameDecl(matched[n - 1], key) && matched[n - 1].kind == FunctionKind)
  {
  }

  ghost function KindFrom(matched: seq<ScriptNode>, key: ScriptNode, first: ScriptKind, n: nat): ScriptKind
    requires n <= |matched|
  {
    if (first == ConstKind || first == VariableKind) && SomeFunction(matched, key, n) then FunctionKind else first
  }
}
