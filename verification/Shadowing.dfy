// crates/ecp-analyzer/src/calls.rs: which local name hides which read, rule by rule.
module Shadowing {
  import opened Options
  import opened Positions
  import opened Nodes
  import opened ValueRuns
  import Holder
  import opened HolderTargets
  import opened Reads

  // A global statement of the function that holds b places the name in the module.
  ghost predicate PlacedInModule(nodes: seq<RawNode>, scan: NameScan, b: Binding) {
    && FunctionAt(nodes, b.pos).Some?
    && exists g :: 0 <= g < |scan.globals| && scan.globals[g].name == b.name &&
                   FunctionAt(nodes, scan.globals[g].pos) == FunctionAt(nodes, b.pos)
  }

  // b is a variable of a comprehension inside the function that holds it.
  ghost predicate IsComprehensionVariable(nodes: seq<RawNode>, b: Binding) {
    && FunctionAt(nodes, b.pos).Some? && b.localScope.Some? && b.localScope.value.comprehension
    && var f, range := nodes[FunctionAt(nodes, b.pos).value].span, b.localScope.value.range;
       Le(f.start, range.start) && Le(range.end, f.end)
  }

  // No function holds b, and the declaration around it declares a value of its name.
  ghost predicate IsOwnName(nodes: seq<RawNode>, b: Binding) {
    && FunctionAt(nodes, b.pos).None? && RunAt(nodes, b.pos).Some?
    && exists v :: v in Run(Values(nodes), RunAt(nodes, b.pos).value) && nodes[v].name == b.name
  }

  ghost function Declaration(nodes: seq<RawNode>, b: Binding): Span
    requires RunAt(nodes, b.pos).Some?
  {
    var first := Values(nodes)[RunAt(nodes, b.pos).value];
    Span(first.start, first.end)
  }

  // A parameter or local of a function hides its name all through it ...
  ghost predicate HidesInFunction(nodes: seq<RawNode>, scan: NameScan, b: Binding, p: Pos) {
    && FunctionAt(nodes, b.pos).Some? && !PlacedInModule(nodes, scan, b) && !IsComprehensionVariable(nodes, b)
    && Holds(nodes[FunctionAt(nodes, b.pos).value].span, p)
  }

  // ... a variable of a comprehension in that comprehension ...
  ghost predicate HidesInComprehension(nodes: seq<RawNode>, scan: NameScan, b: Binding, p: Pos) {
    && IsComprehensionVariable(nodes, b) && !PlacedInModule(nodes, scan, b)
    && Holds(b.localScope.value.range, p)
  }

  // ... a name of a lambda that is no node in that lambda, though not the declaration's own
  // name when the lambda is all of the declaration ...
  ghost predicate HidesInLambda(nodes: seq<RawNode>, b: Binding, p: Pos) {
    && FunctionAt(nodes, b.pos).None? && b.localScope.Some?
    && Holds(b.localScope.value.range, p)
    && (IsOwnName(nodes, b) ==>
          var lambda, declared := b.localScope.value.range, Declaration(nodes, b);
          !Le(lambda.start, declared.start) || !Le(declared.end, lambda.end))
  }

  // ... and any other name in the declaration around it, but for the declaration's own.
  ghost predicate HidesInDeclaration(nodes: seq<RawNode>, b: Binding, p: Pos) {
    && FunctionAt(nodes, b.pos).None? && b.localScope.None? && RunAt(nodes, b.pos).Some?
    && !IsOwnName(nodes, b) && Holds(Declaration(nodes, b), p)
  }

  ghost predicate HidesAt(nodes: seq<RawNode>, scan: NameScan, b: Binding, p: Pos) {
    || HidesInFunction(nodes, scan, b, p)
    || HidesInComprehension(nodes, scan, b, p)
    || HidesInLambda(nodes, b, p)
    || HidesInDeclaration(nodes, b, p)
  }

  lemma DeclaresOwn(nodes: seq<RawNode>, b: Binding)
    requires FunctionAt(nodes, b.pos).None? && RunAt(nodes, b.pos).Some?
    ensures IsOwnName(nodes, b) <==> Declares(nodes, Run(Values(nodes), RunAt(nodes, b.pos).value), b.name)
  {
    var run := Run(Values(nodes), RunAt(nodes, b.pos).value);
    if Declares(nodes, run, b.name) {
      var k :| 0 <= k < |run| && nodes[run[k]].name == b.name;
      assert run[k] in run;
    }
  }

  // The scope of a binding holds exactly these positions.
  lemma ScopeHides(nodes: seq<RawNode>, scan: NameScan, b: Binding, p: Pos)
    ensures
      var scope := ScopeOf(nodes, scan.globals, b);
      scope.Some? && Holds(scope.value, p) <==> HidesAt(nodes, scan, b, p)
  {
    match FunctionAt(nodes, b.pos)
    case Some(t) =>
      assert IsGlobal(nodes, scan.globals, t, b.name) <==> PlacedInModule(nodes, scan, b);
    case None =>
      if RunAt(nodes, b.pos).Some? {
        DeclaresOwn(nodes, b);
      }
  }

  // The name a local must bear to hide the read: that of the read, or, of a qualified
  // function, the text before its first dot, where locals can be qualifiers.
  ghost predicate IsKey(read: Read, scopedQualifiers: bool, key: string) {
    if read.kind != FunctionRef then key == read.name
    else !scopedQualifiers && '.' !in key && key + "." <= read.name
  }

  lemma {:induction false} HeadIsKey(name: string, key: string)
    ensures Head(name) == Some(key) <==> '.' !in key && key + "." <= name
  {
    if name != "" && name[0] != '.' {
      if key != "" {
        HeadIsKey(name[1..], key[1..]);
        assert key == [key[0]] + key[1..];
        assert key + "." == [key[0]] + (key[1..] + ".");
        assert name == [name[0]] + name[1..];
      } else {
        assert key + "." == ".";
      }
    } else if name != "" && key != "" && key + "." <= name {
      assert key[0] == (key + ".")[0] == name[0];
    }
  }

  ghost predicate HiddenRead(nodes: seq<RawNode>, scan: NameScan, read: Read, scopedQualifiers: bool) {
    exists b :: b in scan.bindings && IsKey(read, scopedQualifiers, b.name) && HidesAt(nodes, scan, b, read.pos)
  }

  // A read is shadowed exactly if some binding of its key hides it by these rules.
  lemma ShadowedIsHidden(nodes: seq<RawNode>, scan: NameScan, read: Read, scopedQualifiers: bool)
    ensures Shadowed(nodes, scan, read, scopedQualifiers) <==> HiddenRead(nodes, scan, read, scopedQualifiers)
  {
    forall key ensures KeyOf(read, scopedQualifiers) == Some(key) <==> IsKey(read, scopedQualifiers, key) {
      HeadIsKey(read.name, key);
    }
    forall b ensures
      var scope := ScopeOf(nodes, scan.globals, b);
      scope.Some? && Holds(scope.value, read.pos) <==> HidesAt(nodes, scan, b, read.pos)
    {
      ScopeHides(nodes, scan, b, read.pos);
    }
    if HiddenRead(nodes, scan, read, scopedQualifiers) {
      var b :| b in scan.bindings && IsKey(read, scopedQualifiers, b.name) && HidesAt(nodes, scan, b, read.pos);
      var i :| 0 <= i < |scan.bindings| && scan.bindings[i] == b;
      assert Scopes(nodes, scan)[i] == ScopeOf(nodes, scan.globals, b);
    }
    if Shadowed(nodes, scan, read, scopedQualifiers) {
      var key := KeyOf(read, scopedQualifiers).value;
      var i :| 0 <= i < |scan.bindings| && scan.bindings[i].name == key && Scopes(nodes, scan)[i].Some? &&
               Holds(Scopes(nodes, scan)[i].value, read.pos);
      assert HidesAt(nodes, scan, scan.bindings[i], read.pos);
    }
  }

  // So a node gains exactly the names with which some read lands on it unhidden.
  lemma AttachedIffNotHidden(
      nodes: seq<RawNode>, ds: seq<Holder.Declarator>, scan: NameScan, scopedQualifiers: bool, k: nat, ref: NameRef)
    ensures
      ref in RefsOn(scan.uses, Readers(nodes, ds, scan, scopedQualifiers), k, |scan.uses|) <==>
        exists read ::
          && read in scan.uses && RefOf(read) == ref && ReadTarget(nodes, ds, read.pos) == Some(k)
          && !HiddenRead(nodes, scan, read, scopedQualifiers)
  {
    AttachedIffUnshadowed(nodes, ds, scan, scopedQualifiers, k, ref);
    forall read ensures Shadowed(nodes, scan, read, scopedQualifiers) <==>
                          HiddenRead(nodes, scan, read, scopedQualifiers)
    {
      ShadowedIsHidden(nodes, scan, read, scopedQualifiers);
    }
    if read :| read in scan.uses && RefOf(read) == ref && ReadTarget(nodes, ds, read.pos) == Some(k) &&
               !HiddenRead(nodes, scan, read, scopedQualifiers)
    {
      var i :| 0 <= i < |scan.uses| && scan.uses[i] == read;
      assert !Shadowed(nodes, scan, scan.uses[i], scopedQualifiers);
    }
  }

  ghost predicate Gains(
      nodes: seq<RawNode>, ds: seq<Holder.Declarator>, scan: NameScan, scopedQualifiers: bool, k: nat, ref: NameRef)
  {
    ref in RefsOn(scan.uses, Readers(nodes, ds, scan, scopedQualifiers), k, |scan.uses|)
  }

  lemma UnhiddenIsGained(
      nodes: seq<RawNode>, ds: seq<Holder.Declarator>, scan: NameScan, scopedQualifiers: bool, read: Read, k: nat)
    requires read in scan.uses && ReadTarget(nodes, ds, read.pos) == Some(k)
    ensures !HiddenRead(nodes, scan, read, scopedQualifiers) ==>
              Gains(nodes, ds, scan, scopedQualifiers, k, RefOf(read))
  {
    AttachedIffNotHidden(nodes, ds, scan, scopedQualifiers, k, RefOf(read));
  }

  ghost predicate InOwnRange(b: Binding, p: Pos) {
    b.localScope.Some? && Holds(b.localScope.value.range, p)
  }

  // A read of a name that only comprehensions bind is hidden inside those, and is attached
  // anywhere else in the function.
  lemma ComprehensionRule(
      nodes: seq<RawNode>, ds: seq<Holder.Declarator>, scan: NameScan, scopedQualifiers: bool, read: Read, k: nat)
    requires read in scan.uses && read.kind != FunctionRef && ReadTarget(nodes, ds, read.pos) == Some(k)
    requires forall b :: b in scan.bindings && b.name == read.name ==>
               IsComprehensionVariable(nodes, b) && !PlacedInModule(nodes, scan, b)
    ensures HiddenRead(nodes, scan, read, scopedQualifiers) <==>
              exists b :: b in scan.bindings && b.name == read.name && InOwnRange(b, read.pos)
    ensures (forall b :: b in scan.bindings && b.name == read.name ==> !InOwnRange(b, read.pos)) ==>
              Gains(nodes, ds, scan, scopedQualifiers, k, RefOf(read))
  {
    UnhiddenIsGained(nodes, ds, scan, scopedQualifiers, read, k);
    if b :| b in scan.bindings && b.name == read.name && InOwnRange(b, read.pos) {
      assert HidesInComprehension(nodes, scan, b, read.pos);
    }
  }

  // A parameter hides its name all through its function, and nowhere else.
  lemma ParameterRule(nodes: seq<RawNode>, scan: NameScan, read: Read, scopedQualifiers: bool, b: Binding, t: nat)
    requires b in scan.bindings && b.name == read.name && read.kind != FunctionRef
    requires FunctionAt(nodes, b.pos) == Some(t) && b.localScope.None? && !PlacedInModule(nodes, scan, b)
    ensures forall p :: HidesAt(nodes, scan, b, p) <==> Holds(nodes[t].span, p)
    ensures Holds(nodes[t].span, read.pos) ==> HiddenRead(nodes, scan, read, scopedQualifiers)
  {
    assert Holds(nodes[t].span, read.pos) ==> HidesInFunction(nodes, scan, b, read.pos);
  }

  // A global statement lifts that.
  lemma GlobalRule(
      nodes: seq<RawNode>, ds: seq<Holder.Declarator>, scan: NameScan, scopedQualifiers: bool, read: Read, k: nat)
    requires read in scan.uses && read.kind != FunctionRef && ReadTarget(nodes, ds, read.pos) == Some(k)
    requires forall b :: b in scan.bindings && b.name == read.name ==> PlacedInModule(nodes, scan, b)
    ensures Gains(nodes, ds, scan, scopedQualifiers, k, RefOf(read))
  {
    UnhiddenIsGained(nodes, ds, scan, scopedQualifiers, read, k);
  }

  // The name of a lambda that is no node hides inside that lambda only.
  lemma LambdaRule(
      nodes: seq<RawNode>, ds: seq<Holder.Declarator>, scan: NameScan, scopedQualifiers: bool, read: Read, k: nat)
    requires read in scan.uses && read.kind != FunctionRef && ReadTarget(nodes, ds, read.pos) == Some(k)
    requires forall b :: b in scan.bindings && b.name == read.name ==>
               FunctionAt(nodes, b.pos).None? && b.localScope.Some? && !IsOwnName(nodes, b)
    ensures HiddenRead(nodes, scan, read, scopedQualifiers) <==>
              exists b :: b in scan.bindings && b.name == read.name && InOwnRange(b, read.pos)
    ensures (forall b :: b in scan.bindings && b.name == read.name ==> !InOwnRange(b, read.pos)) ==>
              Gains(nodes, ds, scan, scopedQualifiers, k, RefOf(read))
  {
    UnhiddenIsGained(nodes, ds, scan, scopedQualifiers, read, k);
    if b :| b in scan.bindings && b.name == read.name && InOwnRange(b, read.pos) {
      assert HidesInLambda(nodes, b, read.pos);
    }
  }

  // A declaration's own name hides nothing in it.
  lemma OwnNameRule(
      nodes: seq<RawNode>, ds: seq<Holder.Declarator>, scan: NameScan, scopedQualifiers: bool, read: Read, k: nat)
    requires read in scan.uses && read.kind != FunctionRef && ReadTarget(nodes, ds, read.pos) == Some(k)
    requires forall b :: b in scan.bindings && b.name == read.name ==> IsOwnName(nodes, b) && b.localScope.None?
    ensures Gains(nodes, ds, scan, scopedQualifiers, k, RefOf(read))
  {
    UnhiddenIsGained(nodes, ds, scan, scopedQualifiers, read, k);
  }

  // A qualified function is hidden by what hides its qualifier, unless no local can be one;
  // a function without a qualifier is hidden by nothing.
  lemma QualifiedRule(
      nodes: seq<RawNode>, ds: seq<Holder.Declarator>, scan: NameScan, scopedQualifiers: bool, read: Read,
      head: string, rest: string)
    requires read.kind == FunctionRef && read.name == head + "." + rest && '.' !in head
    ensures HiddenRead(nodes, scan, read, scopedQualifiers) <==>
              !scopedQualifiers &&
              exists b :: b in scan.bindings && b.name == head && HidesAt(nodes, scan, b, read.pos)
  {
    forall key ensures '.' !in key && key + "." <= read.name <==> key == head {
      HeadIsKey(read.name, key);
      HeadIsKey(read.name, head);
    }
  }

  lemma UnqualifiedRule(nodes: seq<RawNode>, scan: NameScan, read: Read, scopedQualifiers: bool)
    requires read.kind == FunctionRef && '.' !in read.name
    ensures !HiddenRead(nodes, scan, read, scopedQualifiers)
  {
    forall key: string ensures !(key + "." <= read.name) {
      assert (key + ".")[|key|] == '.';
    }
  }
}
