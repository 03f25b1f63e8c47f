// crates/ecp-analyzer/src/calls.rs: where name reads land, and which of them a local
// name hides (ReadContainers, NameScan::attach).
module Reads {
  import opened Options
  import opened Positions
  import opened Sweep
  import opened Nodes
  import opened ValueRuns
  import opened Holder
  import opened HolderTargets
  import opened Sets
  import Sorting

  datatype LocalScope = LocalScope(range: Span, comprehension: bool)
  datatype Binding = Binding(pos: Pos, name: string, localScope: Option<LocalScope>)
  datatype Read = Read(pos: Pos, name: string, kind: NameRefKind)
  datatype NameScan = NameScan(uses: seq<Read>, bindings: seq<Binding>, globals: seq<Binding>)

  // The narrowest of the first n containers around p, found by looking at each.
  ghost function Narrowest(cs: seq<Container>, p: Pos, n: nat): (best: Option<nat>)
    requires n <= |cs|
    ensures best.Some? ==> best.value < n
  {
    if n == 0 then None
    else
      var best := Narrowest(cs, p, n - 1);
      if Covers(cs[n - 1], p) && (best.None? || !WidthLe(cs[best.value].width, cs[n - 1].width)) then Some(n - 1)
      else best
  }

  ghost function Target(cs: seq<Container>, p: Pos): Option<nat> {
    match Narrowest(cs, p, |cs|)
    case None => None
    case Some(i) => Some(cs[i].nodeIdx)
  }

  lemma {:induction false} NarrowestIsFirst(cs: seq<Container>, p: Pos, n: nat)
    requires n <= |cs|
    ensures
      match Narrowest(cs, p, n)
      case None => forall j :: 0 <= j < n ==> !Covers(cs[j], p)
      case Some(i) => Covers(cs[i], p) && forall j :: 0 <= j < n && Covers(cs[j], p) ==> Before(cs, i, j)
  {
    if n > 0 {
      NarrowestIsFirst(cs, p, n - 1);
    }
  }

  lemma TargetIsTarget(cs: seq<Container>, p: Pos)
    ensures IsTarget(cs, p, Target(cs, p))
  {
    NarrowestIsFirst(cs, p, |cs|);
    if Narrowest(cs, p, |cs|).Some? {
      assert IsNarrowest(cs, p, Narrowest(cs, p, |cs|).value);
    }
  }

  ghost function Targets(cs: seq<Container>, pending: seq<Pos>): seq<Option<nat>> {
    seq(|pending|, i requires 0 <= i < |pending| => Target(cs, pending[i]))
  }

  method SweepTargets(cs: seq<Container>, pending: seq<Pos>) returns (targets: seq<Option<nat>>)
    requires SortedByStart(cs)
    ensures targets == Targets(cs, pending)
  {
    targets := EnclosingTargets(cs, pending);
    forall i | 0 <= i < |pending| ensures targets[i] == Target(cs, pending[i]) {
      TargetIsTarget(cs, pending[i]);
      TargetIsUnique(cs, pending[i], targets[i], Target(cs, pending[i]));
    }
  }

  ghost function FunctionAt(nodes: seq<RawNode>, p: Pos): (f: Option<nat>)
    ensures f.Some? ==> f.value < |nodes|
  {
    TargetIsTarget(ContainersOf(nodes, 0), p);
    ContainersOfTier(nodes, 0);
    Target(ContainersOf(nodes, 0), p)
  }

  // The run of value declarations around p, as the index of its first one.
  ghost function RunAt(nodes: seq<RawNode>, p: Pos): (first: Option<nat>)
    ensures first.Some? ==> first.value < |Values(nodes)| && InBounds(nodes, Run(Values(nodes), first.value))
  {
    var first := Target(ValueSpans(Values(nodes)), p);
    TargetIsTarget(ValueSpans(Values(nodes)), p);
    RunInBounds(nodes, p, first);
    first
  }

  function RunRange(values: seq<Container>, first: nat): Span
    requires first < |values|
  {
    Span(values[first].start, values[first].end)
  }

  // Declarators by start, each from its start to its end.
  ghost predicate DeclaratorsFit(ds: seq<Declarator>) {
    && (forall i, j :: 0 <= i < j < |ds| ==> Le(ds[i].range.start, ds[j].range.start))
    && (forall i :: 0 <= i < |ds| ==> Le(ds[i].range.start, ds[i].range.end))
  }

  ghost predicate Outside(range: Span, d: Declarator) {
    !(Le(range.start, d.range.start) && Le(d.range.end, range.end))
  }

  // A declarator outside the range plays no part, so only those between a and b do.
  lemma {:induction false} PickWindow(
      nodes: seq<RawNode>, run: seq<nat>, range: Span, ds: seq<Declarator>, p: Pos, a: nat, b: nat, k: nat,
      sibling: bool)
    requires InBounds(nodes, run) && a <= b <= |ds| && k <= |ds|
    requires forall i :: 0 <= i < |ds| && !(a <= i < b) ==> Outside(range, ds[i])
    ensures
      var at := if k < a then 0 else if k <= b then k - a else b - a;
      PickFrom(nodes, run, range, ds, p, k, sibling) == PickFrom(nodes, run, range, ds[a..b], p, at, sibling)
    decreases |ds| - k
  {
    if k < |ds| {
      PickWindow(nodes, run, range, ds, p, a, b, k + 1, sibling);
      var d := ds[k];
      if a <= k < b {
        assert ds[a..b][k - a] == d;
        if d.name.Some? {
          var only := |run| == 1 && nodes[run[0]].name == d.name.value;
          PickWindow(nodes, run, range, ds, p, a, b, k + 1, sibling || only);
        }
      }
    }
  }

  // pick: the declarators that start in the range, found by halving.
  method Pick(nodes: seq<RawNode>, ds: seq<Declarator>, first: nat, p: Pos) returns (picked: Option<nat>)
    requires DeclaratorsFit(ds) && first < |Values(nodes)| && InBounds(nodes, Run(Values(nodes), first))
    ensures picked == PickDeclared(nodes, Run(Values(nodes), first), RunRange(Values(nodes), first), ds, p)
  {
    var run, range := Run(Values(nodes), first), RunRange(Values(nodes), first);
    var lo, hi := 0, |ds|;
    while lo < hi
      invariant lo <= hi <= |ds|
      invariant forall i :: 0 <= i < lo ==> !Le(range.start, ds[i].range.start)
      invariant forall i :: hi <= i < |ds| ==> Le(range.start, ds[i].range.start)
    {
      var mid := (lo + hi) / 2;
      if Le(range.start, ds[mid].range.start) {
        hi := mid;
      } else {
        lo := mid + 1;
      }
    }
    var to := lo;
    while to < |ds| && Le(ds[to].range.start, range.end)
      invariant lo <= to <= |ds|
    {
      to := to + 1;
    }
    forall i | 0 <= i < |ds| && !(lo <= i < to) ensures Outside(range, ds[i]) {
      assert to < i ==> Le(ds[to].range.start, ds[i].range.start);
    }
    PickWindow(nodes, run, range, ds, p, lo, to, 0, false);
    picked := PickDeclaredLoop(nodes, run, range, ds[lo..to], p);
  }

  // Where a read at p lands: the smallest function, else the declaration of the
  // smallest run of values that holds it.
  ghost function ReadTarget(nodes: seq<RawNode>, ds: seq<Declarator>, p: Pos): Option<nat> {
    var inside := FunctionAt(nodes, p);
    if inside.Some? then inside
    else
      match RunAt(nodes, p)
      case None => None
      case Some(first) => PickDeclared(nodes, Run(Values(nodes), first), RunRange(Values(nodes), first), ds, p)
  }

  ghost function ReadTargets(nodes: seq<RawNode>, ds: seq<Declarator>, pending: seq<Pos>): seq<Option<nat>> {
    seq(|pending|, i requires 0 <= i < |pending| => ReadTarget(nodes, ds, pending[i]))
  }

  // The runs of values around the entries that no function holds.
  method RunsOfOpen(nodes: seq<RawNode>, pending: seq<Pos>, open: seq<nat>) returns (runs: seq<Option<nat>>)
    requires forall k :: 0 <= k < |open| ==> open[k] < |pending|
    ensures |runs| == |open| && forall k :: 0 <= k < |open| ==> runs[k] == RunAt(nodes, pending[open[k]])
  {
    var spans := BuildValueSpans(Values(nodes));
    ContainersOfTier(nodes, 1);
    SpansAreSorted(Values(nodes));
    runs := SweepTargets(spans, PosOf(pending, open));
  }

  // ReadContainers::targets.
  method TargetsOf(nodes: seq<RawNode>, ds: seq<Declarator>, pending: seq<Pos>) returns (targets: seq<Option<nat>>)
    requires DeclaratorsFit(ds)
    ensures targets == ReadTargets(nodes, ds, pending)
  {
    ContainersOfTier(nodes, 0);
    var callables := SweepTargets(ContainersOf(nodes, 0), pending);
    targets := callables;
    var open := Unheld(callables, |callables|);
    var runs := RunsOfOpen(nodes, pending, open);
    for k := 0 to |open|
      invariant |targets| == |pending|
      invariant forall i :: 0 <= i < |pending| ==>
                  targets[i] == if i in open[..k] then ReadTarget(nodes, ds, pending[i]) else callables[i]
    {
      var picked := None;
      if runs[k].Some? {
        picked := Pick(nodes, ds, runs[k].value, pending[open[k]]);
      }
      targets := targets[open[k] := picked];
    }
    forall i | 0 <= i < |pending| ensures targets[i] == ReadTarget(nodes, ds, pending[i]) {
      assert open[..|open|] == open;
    }
  }

  // A member of the run bears the name.
  predicate Declares(nodes: seq<RawNode>, run: seq<nat>, name: string)
    requires InBounds(nodes, run)
  {
    exists k :: 0 <= k < |run| && nodes[run[k]].name == name
  }

  // binding_scope: where a name that no function node holds hides others. The name of a
  // declaration hides nothing in it, unless a lambda inside it declares that name.
  function BindingScope(nodes: seq<RawNode>, first: Option<nat>, binding: Binding): Option<Span>
    requires first.Some? ==> first.value < |Values(nodes)| && InBounds(nodes, Run(Values(nodes), first.value))
  {
    var local := if binding.localScope.Some? then Some(binding.localScope.value.range) else None;
    match first
    case None => local
    case Some(f) =>
      var range := RunRange(Values(nodes), f);
      if Declares(nodes, Run(Values(nodes), f), binding.name) then
        if local.Some? && !(Le(local.value.start, range.start) && Le(range.end, local.value.end)) then local else None
      else if local.Some? then local
      else Some(range)
  }

  // A global statement of the function at node t places the name in the module.
  ghost predicate IsGlobal(nodes: seq<RawNode>, globals: seq<Binding>, t: nat, name: string) {
    exists g :: 0 <= g < |globals| && globals[g].name == name && FunctionAt(nodes, globals[g].pos) == Some(t)
  }

  predicate Within(inner: Span, outer: Span) {
    Le(outer.start, inner.start) && Le(inner.end, outer.end)
  }

  // The scope of a name that the function with this span holds.
  function FunctionScope(span: Span, binding: Binding): Span {
    match binding.localScope
    case Some(local) => if local.comprehension && Within(local.range, span) then local.range else span
    case None => span
  }

  // Where a binding hides its name.
  ghost function ScopeOf(nodes: seq<RawNode>, globals: seq<Binding>, binding: Binding): Option<Span> {
    match FunctionAt(nodes, binding.pos)
    case Some(t) =>
      if IsGlobal(nodes, globals, t, binding.name) then None else Some(FunctionScope(nodes[t].span, binding))
    case None => BindingScope(nodes, RunAt(nodes, binding.pos), binding)
  }

  ghost function Scopes(nodes: seq<RawNode>, scan: NameScan): seq<Option<Span>> {
    seq(|scan.bindings|, i requires 0 <= i < |scan.bindings| => ScopeOf(nodes, scan.globals, scan.bindings[i]))
  }

  // The text before the first dot, if there is one.
  function Head(name: string): Option<string> {
    if name == "" then None
    else if name[0] == '.' then Some("")
    else match Head(name[1..]) case None => None case Some(head) => Some([name[0]] + head)
  }

  // The name that a local must bear to hide the read.
  function KeyOf(read: Read, scopedQualifiers: bool): Option<string> {
    if read.kind != FunctionRef then Some(read.name)
    else if scopedQualifiers then None
    else Head(read.name)
  }

  // Some binding of the name is in scope at p.
  ghost predicate Hidden(bindings: seq<Binding>, scopes: seq<Option<Span>>, key: string, p: Pos)
    requires |scopes| == |bindings|
  {
    exists i :: 0 <= i < |bindings| && bindings[i].name == key && scopes[i].Some? && Holds(scopes[i].value, p)
  }

  ghost predicate Shadowed(nodes: seq<RawNode>, scan: NameScan, read: Read, scopedQualifiers: bool) {
    var key := KeyOf(read, scopedQualifiers);
    key.Some? && Hidden(scan.bindings, Scopes(nodes, scan), key.value, read.pos)
  }

  // The node that should name what is read, if any.
  ghost function Reader(nodes: seq<RawNode>, ds: seq<Declarator>, scan: NameScan, read: Read, scopedQualifiers: bool)
    : Option<nat>
  {
    if Shadowed(nodes, scan, read, scopedQualifiers) then None else ReadTarget(nodes, ds, read.pos)
  }

  ghost function Readers(nodes: seq<RawNode>, ds: seq<Declarator>, scan: NameScan, scopedQualifiers: bool)
    : seq<Option<nat>>
  {
    seq(|scan.uses|, i requires 0 <= i < |scan.uses| => Reader(nodes, ds, scan, scan.uses[i], scopedQualifiers))
  }

  function RefOf(read: Read): NameRef {
    NameRef(read.kind, read.name)
  }

  // What the first n reads add to node k.
  ghost function RefsOn(uses: seq<Read>, readers: seq<Option<nat>>, k: nat, n: nat): seq<NameRef>
    requires n <= |uses| == |readers|
  {
    if n == 0 then []
    else
      var before := RefsOn(uses, readers, k, n - 1);
      var ref := RefOf(uses[n - 1]);
      if readers[n - 1] == Some(k) && ref !in before then before + [ref] else before
  }

  // Exactly once, if and only if some read of it is node k's: one that is hidden takes
  // nothing away from one that is not.
  lemma {:induction false} RefsOnExact(uses: seq<Read>, readers: seq<Option<nat>>, k: nat, n: nat)
    requires n <= |uses| == |readers|
    ensures Sorting.Distinct(RefsOn(uses, readers, k, n))
    ensures forall ref :: ref in RefsOn(uses, readers, k, n) <==>
              exists i :: 0 <= i < n && readers[i] == Some(k) && RefOf(uses[i]) == ref
  {
    if n > 0 {
      RefsOnExact(uses, readers, k, n - 1);
      var before, now := RefsOn(uses, readers, k, n - 1), RefsOn(uses, readers, k, n);
      forall ref ensures ref in now <==> exists i :: 0 <= i < n && readers[i] == Some(k) && RefOf(uses[i]) == ref {
        if ref in now && ref !in before {
          assert readers[n - 1] == Some(k) && RefOf(uses[n - 1]) == ref;
        }
      }
    }
  }

  // A node gains a name exactly if some read of it lands there in no scope that binds
  // the name.
  lemma AttachedIffUnshadowed(
      nodes: seq<RawNode>, ds: seq<Declarator>, scan: NameScan, scopedQualifiers: bool, k: nat, ref: NameRef)
    ensures
      ref in RefsOn(scan.uses, Readers(nodes, ds, scan, scopedQualifiers), k, |scan.uses|) <==>
        exists i ::
          && 0 <= i < |scan.uses| && RefOf(scan.uses[i]) == ref
          && ReadTarget(nodes, ds, scan.uses[i].pos) == Some(k)
          && !Shadowed(nodes, scan, scan.uses[i], scopedQualifiers)
  {
    RefsOnExact(scan.uses, Readers(nodes, ds, scan, scopedQualifiers), k, |scan.uses|);
  }

  // The names that global statements place in the module, by function.
  method GlobalNames(nodes: seq<RawNode>, globals: seq<Binding>) returns (names: set<(nat, string)>)
    ensures forall t: nat, name: string :: (t, name) in names <==> IsGlobal(nodes, globals, t, name)
  {
    names := {};
    var pending := seq(|globals|, g requires 0 <= g < |globals| => globals[g].pos);
    ContainersOfTier(nodes, 0);
    var targets := SweepTargets(ContainersOf(nodes, 0), pending);
    for n := 0 to |globals|
      invariant forall t: nat, name: string :: (t, name) in names <==> IsGlobal(nodes, globals[..n], t, name)
    {
      assert targets[n] == FunctionAt(nodes, globals[n].pos);
      if targets[n].Some? {
        names := names + {(targets[n].value, globals[n].name)};
      }
      forall t: nat, name: string ensures (t, name) in names <==> IsGlobal(nodes, globals[..n + 1], t, name) {
        GlobalStep(nodes, globals, n, t, name);
      }
    }
    assert globals[..|globals|] == globals;
  }

  lemma GlobalStep(nodes: seq<RawNode>, globals: seq<Binding>, n: nat, t: nat, name: string)
    requires n < |globals|
    ensures IsGlobal(nodes, globals[..n + 1], t, name) <==>
              || IsGlobal(nodes, globals[..n], t, name)
              || (globals[n].name == name && FunctionAt(nodes, globals[n].pos) == Some(t))
  {
    var longer, shorter := globals[..n + 1], globals[..n];
    if IsGlobal(nodes, shorter, t, name) {
      var g :| 0 <= g < n && shorter[g].name == name && FunctionAt(nodes, shorter[g].pos) == Some(t);
      assert longer[g] == shorter[g];
    }
    assert longer[n] == globals[n];
    if IsGlobal(nodes, longer, t, name) {
      var g :| 0 <= g <= n && longer[g].name == name && FunctionAt(nodes, longer[g].pos) == Some(t);
      assert g < n ==> shorter[g] == longer[g];
    }
  }

  type Bound = map<string, seq<Span>>

  // bound.entry(name).or_default().push(scope).
  function Push(bound: Bound, name: string, scope: Span): Bound {
    bound[name := (if name in bound then bound[name] else []) + [scope]]
  }

  // `bound` lists the scopes of the bindings in `done`, by name.
  ghost predicate ListsScopes(bound: Bound, bindings: seq<Binding>, scopes: seq<Option<Span>>, done: set<nat>)
    requires |scopes| == |bindings|
  {
    forall name, scope :: name in bound && scope in bound[name] <==> HasScope(bindings, scopes, done, name, scope)
  }

  ghost predicate HasScope(bindings: seq<Binding>, scopes: seq<Option<Span>>, done: set<nat>, name: string, scope: Span)
    requires |scopes| == |bindings|
  {
    exists i :: 0 <= i < |bindings| && i in done && bindings[i].name == name && scopes[i] == Some(scope)
  }

  lemma ListsOneScope(bound: Bound, bindings: seq<Binding>, scopes: seq<Option<Span>>, done: set<nat>, i: nat)
    requires |scopes| == |bindings| && i < |bindings| && ListsScopes(bound, bindings, scopes, done)
    ensures
      var next := if scopes[i].Some? then Push(bound, bindings[i].name, scopes[i].value) else bound;
      ListsScopes(next, bindings, scopes, done + {i})
  {
    var next := if scopes[i].Some? then Push(bound, bindings[i].name, scopes[i].value) else bound;
    forall name, scope
      ensures name in next && scope in next[name] <==> HasScope(bindings, scopes, done + {i}, name, scope)
    {
      if HasScope(bindings, scopes, done + {i}, name, scope) {
        var j :| 0 <= j < |bindings| && j in done + {i} && bindings[j].name == name && scopes[j] == Some(scope);
        assert j != i ==> HasScope(bindings, scopes, done, name, scope);
      }
      if HasScope(bindings, scopes, done, name, scope) {
        var j :| 0 <= j < |bindings| && j in done && bindings[j].name == name && scopes[j] == Some(scope);
        assert j in done + {i};
      }
    }
  }

  // The first pass over the bindings: those that a function holds.
  method BindInFunctions(nodes: seq<RawNode>, scan: NameScan, callables: seq<Option<nat>>) returns (bound: Bound)
    requires |callables| == |scan.bindings|
    requires forall i :: 0 <= i < |callables| ==> callables[i] == FunctionAt(nodes, scan.bindings[i].pos)
    ensures ListsScopes(bound, scan.bindings, Scopes(nodes, scan), HeldBefore(callables, |callables|))
  {
    bound := map[];
    ghost var scopes := Scopes(nodes, scan);
    var globals := GlobalNames(nodes, scan.globals);
    for i := 0 to |callables|
      invariant ListsScopes(bound, scan.bindings, scopes, HeldBefore(callables, i))
    {
      var binding := scan.bindings[i];
      if callables[i].Some? {
        ListsOneScope(bound, scan.bindings, scopes, HeldBefore(callables, i), i);
        assert HeldBefore(callables, i + 1) == HeldBefore(callables, i) + {i};
        var t := callables[i].value;
        assert scopes[i] == if (t, binding.name) in globals then None else Some(FunctionScope(nodes[t].span, binding));
        if (t, binding.name) !in globals {
          bound := Push(bound, binding.name, FunctionScope(nodes[t].span, binding));
        }
      } else {
        assert HeldBefore(callables, i + 1) == HeldBefore(callables, i);
      }
    }
  }

  ghost function HeldBefore(callables: seq<Option<nat>>, n: nat): set<nat>
    requires n <= |callables|
  {
    set i: nat | i < n && callables[i].Some?
  }

  // Which names are hidden where, by `bound` and by the bindings.
  ghost function HiddenInBound(bound: Bound): iset<(string, Pos)> {
    iset key: string, p: Pos | HiddenBy(bound, key, p) :: (key, p)
  }

  ghost function HiddenInScopes(nodes: seq<RawNode>, scan: NameScan): iset<(string, Pos)> {
    iset key: string, p: Pos | Hidden(scan.bindings, Scopes(nodes, scan), key, p) :: (key, p)
  }

  // Both passes: `bound` lists the scope of every binding.
  method BindAll(nodes: seq<RawNode>, scan: NameScan) returns (bound: Bound)
    ensures HiddenInBound(bound) == HiddenInScopes(nodes, scan)
  {
    var pending := seq(|scan.bindings|, i requires 0 <= i < |scan.bindings| => scan.bindings[i].pos);
    ContainersOfTier(nodes, 0);
    var callables := SweepTargets(ContainersOf(nodes, 0), pending);
    bound := BindInFunctions(nodes, scan, callables);
    var open := Unheld(callables, |callables|);
    var runs := RunsOfOpen(nodes, pending, open);
    ghost var held := HeldBefore(callables, |callables|);
    bound := BindOpen(nodes, scan, bound, open, runs, held);
    ListsAllScopes(bound, scan.bindings, Scopes(nodes, scan), held + SetOf(open));
  }

  // The second pass: the scopes of the bindings no function holds.
  method BindOpen(
      nodes: seq<RawNode>, scan: NameScan, first: Bound, open: seq<nat>, runs: seq<Option<nat>>, ghost held: set<nat>)
      returns (bound: Bound)
    requires |runs| == |open| && ListsScopes(first, scan.bindings, Scopes(nodes, scan), held)
    requires forall k :: 0 <= k < |open| ==>
               && open[k] < |scan.bindings| && FunctionAt(nodes, scan.bindings[open[k]].pos).None?
               && runs[k] == RunAt(nodes, scan.bindings[open[k]].pos)
    ensures ListsScopes(bound, scan.bindings, Scopes(nodes, scan), held + SetOf(open))
  {
    bound := first;
    ghost var scopes := Scopes(nodes, scan);
    assert held + SetOf(open[..0]) == held;
    for k := 0 to |open|
      invariant ListsScopes(bound, scan.bindings, scopes, held + SetOf(open[..k]))
    {
      var binding := scan.bindings[open[k]];
      var scope := BindingScope(nodes, runs[k], binding);
      assert scopes[open[k]] == scope;
      ListsOneScope(bound, scan.bindings, scopes, held + SetOf(open[..k]), open[k]);
      assert held + SetOf(open[..k]) + {open[k]} == held + SetOf(open[..k + 1]);
      if scope.Some? {
        bound := Push(bound, binding.name, scope.value);
      }
    }
    assert open[..|open|] == open;
  }

  // Some scope that `bound` lists for the key holds p.
  predicate HiddenBy(bound: Bound, key: string, p: Pos) {
    key in bound && exists k :: 0 <= k < |bound[key]| && Holds(bound[key][k], p)
  }

  lemma ListsAllScopes(bound: Bound, bindings: seq<Binding>, scopes: seq<Option<Span>>, done: set<nat>)
    requires |scopes| == |bindings| && ListsScopes(bound, bindings, scopes, done)
    requires forall i: nat :: i < |bindings| ==> i in done
    ensures forall key, p :: HiddenBy(bound, key, p) <==> Hidden(bindings, scopes, key, p)
  {
    forall key, p ensures HiddenBy(bound, key, p) <==> Hidden(bindings, scopes, key, p) {
      if HiddenBy(bound, key, p) {
        var k :| 0 <= k < |bound[key]| && Holds(bound[key][k], p);
        assert bound[key][k] in bound[key];
        assert HasScope(bindings, scopes, done, key, bound[key][k]);
      }
      if Hidden(bindings, scopes, key, p) {
        var i :| 0 <= i < |bindings| && bindings[i].name == key && scopes[i].Some? && Holds(scopes[i].value, p);
        assert HasScope(bindings, scopes, done, key, scopes[i].value);
        var k :| 0 <= k < |bound[key]| && bound[key][k] == scopes[i].value;
      }
    }
  }

  // What the first n reads add to any node: `seen` after them.
  ghost function Gained(uses: seq<Read>, readers: seq<Option<nat>>, n: nat): set<(nat, NameRef)>
    requires n <= |uses| == |readers|
  {
    if n == 0 then {}
    else
      Gained(uses, readers, n - 1) +
      if readers[n - 1].Some? then {(readers[n - 1].value, RefOf(uses[n - 1]))} else {}
  }

  lemma {:induction false} GainedIsRefs(uses: seq<Read>, readers: seq<Option<nat>>, n: nat, k: nat, ref: NameRef)
    requires n <= |uses| == |readers|
    ensures (k, ref) in Gained(uses, readers, n) <==> ref in RefsOn(uses, readers, k, n)
  {
    if n > 0 {
      GainedIsRefs(uses, readers, n - 1, k, ref);
    }
  }

  // The nodes, each with what the first n reads add to it.
  ghost function WithRefs(nodes: seq<RawNode>, uses: seq<Read>, readers: seq<Option<nat>>, n: nat): seq<RawNode>
    requires n <= |uses| == |readers|
  {
    seq(|nodes|, k requires 0 <= k < |nodes| =>
      nodes[k].(fieldReads := nodes[k].fieldReads + RefsOn(uses, readers, k, n)))
  }

  lemma RefStep(nodes: seq<RawNode>, uses: seq<Read>, readers: seq<Option<nat>>, n: nat)
    requires n < |uses| == |readers| && (readers[n].Some? ==> readers[n].value < |nodes|)
    ensures
      var now, ref := WithRefs(nodes, uses, readers, n), RefOf(uses[n]);
      WithRefs(nodes, uses, readers, n + 1) ==
        if readers[n].Some? && (readers[n].value, ref) !in Gained(uses, readers, n) then
          var k := readers[n].value;
          now[k := now[k].(fieldReads := now[k].fieldReads + [ref])]
        else now
  {
    var now, next, ref := WithRefs(nodes, uses, readers, n), WithRefs(nodes, uses, readers, n + 1), RefOf(uses[n]);
    forall k | 0 <= k < |nodes| && readers[n] != Some(k) ensures next[k] == now[k] {
      assert RefsOn(uses, readers, k, n + 1) == RefsOn(uses, readers, k, n);
    }
    if readers[n].Some? {
      var k := readers[n].value;
      GainedIsRefs(uses, readers, n, k, ref);
      var read := nodes[k].fieldReads;
      assert read + (RefsOn(uses, readers, k, n) + [ref]) == (read + RefsOn(uses, readers, k, n)) + [ref];
    }
  }

  lemma NoRefs(nodes: seq<RawNode>, uses: seq<Read>, readers: seq<Option<nat>>)
    requires |uses| == |readers|
    ensures WithRefs(nodes, uses, readers, 0) == nodes
  {
    forall k | 0 <= k < |nodes| ensures WithRefs(nodes, uses, readers, 0)[k] == nodes[k] {
      assert nodes[k].fieldReads + [] == nodes[k].fieldReads;
    }
  }

  // NameScan::attach: each node gains, once, each name that some read of it, hidden by
  // no local name, lands there with.
  method Attach(nodes: array<RawNode>, ds: seq<Declarator>, scan: NameScan, scopedQualifiers: bool)
    requires DeclaratorsFit(ds)
    modifies nodes
    ensures
      var before := old(nodes[..]);
      nodes[..] == WithRefs(before, scan.uses, Readers(before, ds, scan, scopedQualifiers), |scan.uses|)
  {
    ghost var readers := Readers(nodes[..], ds, scan, scopedQualifiers);
    if scan.uses == [] {
      NoRefs(nodes[..], scan.uses, readers);
      return;
    }
    var bound := BindAll(nodes[..], scan);
    var pending := seq(|scan.uses|, i requires 0 <= i < |scan.uses| => scan.uses[i].pos);
    var targets := TargetsOf(nodes[..], ds, pending);
    forall n | 0 <= n < |scan.uses| ensures ReaderFits(nodes[..], scan, scopedQualifiers, bound, readers, targets, n) {
      ReaderIs(nodes[..], ds, scan, scopedQualifiers, bound, n);
    }
    AttachReads(nodes, scan, scopedQualifiers, bound, targets, readers);
  }

  // The reader of read n is its target unless the read is hidden.
  ghost predicate ReaderFits(
      nodes: seq<RawNode>, scan: NameScan, scopedQualifiers: bool, bound: Bound, readers: seq<Option<nat>>,
      targets: seq<Option<nat>>, n: nat)
  {
    && n < |scan.uses| && n < |readers| && n < |targets|
    && (targets[n].Some? ==> targets[n].value < |nodes|)
    && var key := KeyOf(scan.uses[n], scopedQualifiers);
       readers[n] == if key.Some? && HiddenBy(bound, key.value, scan.uses[n].pos) then None else targets[n]
  }

  // Its loop over the reads.
  method AttachReads(
      nodes: array<RawNode>, scan: NameScan, scopedQualifiers: bool, bound: Bound, targets: seq<Option<nat>>,
      ghost readers: seq<Option<nat>>)
    requires |readers| == |scan.uses| == |targets|
    requires forall n :: 0 <= n < |scan.uses| ==>
               ReaderFits(nodes[..], scan, scopedQualifiers, bound, readers, targets, n)
    modifies nodes
    ensures nodes[..] == WithRefs(old(nodes[..]), scan.uses, readers, |scan.uses|)
  {
    ghost var before := nodes[..];
    NoRefs(before, scan.uses, readers);
    var seen: set<(nat, NameRef)> := {};
    for n := 0 to |scan.uses|
      invariant seen == Gained(scan.uses, readers, n)
      invariant nodes[..] == WithRefs(before, scan.uses, readers, n)
    {
      var key := KeyOf(scan.uses[n], scopedQualifiers);
      var shadowed := key.Some? && HiddenBy(bound, key.value, scan.uses[n].pos);
      assert ReaderFits(before, scan, scopedQualifiers, bound, readers, targets, n);
      seen := AttachRead(nodes, before, scan.uses, readers, n, targets[n], shadowed, seen);
    }
  }

  // The body of the loop over the reads.
  method AttachRead(
      nodes: array<RawNode>, ghost before: seq<RawNode>, uses: seq<Read>, ghost readers: seq<Option<nat>>, n: nat,
      target: Option<nat>, shadowed: bool, seen: set<(nat, NameRef)>)
      returns (nowSeen: set<(nat, NameRef)>)
    requires n < |uses| == |readers| && readers[n] == if shadowed then None else target
    requires target.Some? ==> target.value < |before|
    requires seen == Gained(uses, readers, n) && nodes[..] == WithRefs(before, uses, readers, n)
    modifies nodes
    ensures nowSeen == Gained(uses, readers, n + 1) && nodes[..] == WithRefs(before, uses, readers, n + 1)
  {
    RefStep(before, uses, readers, n);
    nowSeen := seen;
    if target.Some? {
      var k, ref := target.value, RefOf(uses[n]);
      if !shadowed && (k, ref) !in seen {
        nowSeen := seen + {(k, ref)};
        nodes[k] := nodes[k].(fieldReads := nodes[k].fieldReads + [ref]);
      }
    }
  }

  lemma ReaderIs(
      nodes: seq<RawNode>, ds: seq<Declarator>, scan: NameScan, scopedQualifiers: bool, bound: Bound, n: nat)
    requires n < |scan.uses| && HiddenInBound(bound) == HiddenInScopes(nodes, scan)
    ensures
      var read, key := scan.uses[n], KeyOf(scan.uses[n], scopedQualifiers);
      var target := ReadTarget(nodes, ds, read.pos);
      && Readers(nodes, ds, scan, scopedQualifiers)[n] ==
         (if key.Some? && HiddenBy(bound, key.value, read.pos) then None else target)
      && (target.Some? ==> target.value < |nodes|)
  {
    var read, key := scan.uses[n], KeyOf(scan.uses[n], scopedQualifiers);
    ReadTargetInBounds(nodes, ds, read.pos);
    if key.Some? {
      assert (key.value, read.pos) in HiddenInBound(bound) <==> HiddenBy(bound, key.value, read.pos);
    }
  }

  lemma ReadTargetInBounds(nodes: seq<RawNode>, ds: seq<Declarator>, p: Pos)
    ensures ReadTarget(nodes, ds, p).Some? ==> ReadTarget(nodes, ds, p).value < |nodes|
  {
    if FunctionAt(nodes, p).None? && RunAt(nodes, p).Some? {
      var first := RunAt(nodes, p).value;
      PickInBounds(nodes, Run(Values(nodes), first), RunRange(Values(nodes), first), ds, p, 0, false);
    }
  }
}
