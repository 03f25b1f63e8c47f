// crates/ecp-analyzer/src/indirect_dispatch.rs: types of Rust function-pointer variables.
// A flat list of ranged declarations answers what an environment down the tree would.
module Scoping {
  import opened Options
  import opened Positions
  import opened Sets

  // The names a pattern or a parameter list binds: with a type if it is tracked.
  type Binds = map<string, Option<string>>

  datatype Stmt =
    | Block(range: Span, body: seq<Stmt>)
    | Let(range: Span, binds: Binds, init: seq<Stmt>)
    | Fn(range: Span, params: Binds, bodyRange: Span, body: seq<Stmt>)

  predicate Lt(a: Pos, b: Pos) {
    !Le(b, a)
  }

  // Syntax: statements in order between lo and hi, with something left at the end, and
  // every `let` directly in a block.
  predicate WellFormed(stmts: seq<Stmt>, lo: Pos, hi: Pos) {
    stmts == [] ||
    var s := stmts[0];
    && Le(lo, s.range.start) && Lt(s.range.start, s.range.end) && Lt(s.range.end, hi)
    && (match s
        case Block(range, body) => WellFormed(body, range.start, range.end)
        case Let(range, _, init) => WellFormed(init, range.start, range.end) && NoLet(init)
        case Fn(range, _, bodyRange, body) =>
          && Lt(range.start, bodyRange.start) && Le(bodyRange.start, bodyRange.end) && Le(bodyRange.end, range.end)
          && WellFormed(body, bodyRange.start, bodyRange.end))
    && WellFormed(stmts[1..], s.range.end, hi)
  }

  predicate NoLet(stmts: seq<Stmt>) {
    stmts == [] || (!stmts[0].Let? && NoLet(stmts[1..]))
  }

  // From the start up to, but not at, the end.
  predicate Contains(range: Span, p: Pos) {
    Le(range.start, p) && Lt(p, range.end)
  }

  function TypeIn(env: Binds, name: string): Option<string> {
    if name in env then env[name] else None
  }

  // The type of the name at p, by the language's rules: a `let` binds from its end on, an
  // inner binding hides an outer one, and a function sees its own names only.
  function Lookup(stmts: seq<Stmt>, env: Binds, p: Pos, name: string): Option<string> {
    if stmts == [] then TypeIn(env, name)
    else
      var s := stmts[0];
      if Contains(s.range, p) then
        match s
        case Block(_, body) => Lookup(body, env, p, name)
        case Let(_, _, init) => Lookup(init, env, p, name)
        case Fn(_, params, bodyRange, body) =>
          if Contains(bodyRange, p) then Lookup(body, params, p, name) else TypeIn(env, name)
      else
        Lookup(stmts[1..], if s.Let? && Le(s.range.end, p) then env + s.binds else env, p, name)
  }

  datatype Decl = Decl(name: string, scope: Span, ty: Option<string>)

  function Declared(binds: Binds, scope: Span): set<Decl> {
    set name | name in binds :: Decl(name, scope, binds[name])
  }

  function HiddenOver(names: set<string>, scope: Span): set<Decl> {
    set name | name in names :: Decl(name, scope, None)
  }

  // The lets of one function; `end` is the end of the block around the statements.
  function LetDecls(stmts: seq<Stmt>, end: Pos): set<Decl> {
    if stmts == [] then {}
    else LetDeclsOf(stmts[0], end) + LetDecls(stmts[1..], end)
  }

  function LetDeclsOf(s: Stmt, end: Pos): set<Decl> {
    match s
    case Block(range, body) => LetDecls(body, range.end)
    case Let(range, binds, init) => Declared(binds, Span(range.end, end)) + LetDecls(init, end)
    case Fn(_, _, _, _) => {}
  }

  function Names(decls: set<Decl>): set<string> {
    set d | d in decls :: d.name
  }

  // All names a function binds, wherever in it.
  function OwnNames(params: Binds, bodyRange: Span, body: seq<Stmt>): set<string> {
    params.Keys + Names(LetDecls(body, bodyRange.end))
  }

  // What a function declares, with the functions in it; `outer` is what the functions
  // around it bind.
  function FnDecls(params: Binds, bodyRange: Span, body: seq<Stmt>, outer: set<string>): set<Decl>
    decreases body, 1
  {
    HiddenOver(outer, bodyRange) + Declared(params, bodyRange) + LetDecls(body, bodyRange.end) +
    NestedDecls(body, outer + OwnNames(params, bodyRange, body))
  }

  function NestedDecls(stmts: seq<Stmt>, hidden: set<string>): set<Decl>
    decreases stmts, 0
  {
    if stmts == [] then {}
    else NestedDeclsOf(stmts[0], hidden) + NestedDecls(stmts[1..], hidden)
  }

  function NestedDeclsOf(s: Stmt, hidden: set<string>): set<Decl>
    decreases s, 0
  {
    match s
    case Block(_, body) => NestedDecls(body, hidden)
    case Let(_, _, init) => NestedDecls(init, hidden)
    case Fn(_, params, bodyRange, body) => FnDecls(params, bodyRange, body, hidden)
  }

  function DeclsOf(s: Stmt, end: Pos, hidden: set<string>): set<Decl> {
    LetDeclsOf(s, end) + NestedDeclsOf(s, hidden)
  }

  function Decls(stmts: seq<Stmt>, end: Pos, hidden: set<string>): set<Decl> {
    LetDecls(stmts, end) + NestedDecls(stmts, hidden)
  }

  ghost predicate Candidate(d: Decl, name: string, p: Pos) {
    d.name == name && Contains(d.scope, p)
  }

  // The declaration of the name with scope s is the innermost around p, ...
  ghost predicate Innermost(decls: set<Decl>, name: string, p: Pos, s: Span) {
    && (exists ty :: Decl(name, s, ty) in decls)
    && Contains(s, p)
    && forall d :: d in decls && Candidate(d, name, p) ==> Inside(s, d.scope)
  }

  // ... and with it the type: a tracked one if there is any at that scope.
  ghost predicate TypedAt(decls: set<Decl>, name: string, s: Span, r: Option<string>) {
    && (r.Some? ==> Decl(name, s, r) in decls)
    && forall ty: Option<string> :: ty.Some? && Decl(name, s, ty) in decls ==> r == ty
  }

  ghost predicate Wins(decls: set<Decl>, name: string, p: Pos, r: Option<string>) {
    || (r == None && forall d :: d in decls ==> !Candidate(d, name, p))
    || exists s :: Innermost(decls, name, p, s) && TypedAt(decls, name, s, r)
  }

  ghost predicate SameCandidates(a: set<Decl>, b: set<Decl>, name: string, p: Pos) {
    forall d :: Candidate(d, name, p) ==> (d in a <==> d in b)
  }

  lemma WinsSame(a: set<Decl>, b: set<Decl>, name: string, p: Pos, r: Option<string>)
    requires SameCandidates(a, b, name, p) && Wins(a, name, p, r)
    ensures Wins(b, name, p, r)
  {
    if exists d :: d in a && Candidate(d, name, p) {
      var s :| Innermost(a, name, p, s) && TypedAt(a, name, s, r);
      var ty :| Decl(name, s, ty) in a;
      assert Candidate(Decl(name, s, ty), name, p);
      forall ty: Option<string> ensures Decl(name, s, ty) in a <==> Decl(name, s, ty) in b {
        assert Candidate(Decl(name, s, ty), name, p);
      }
      assert Innermost(b, name, p, s) && TypedAt(b, name, s, r);
    }
  }

  ghost predicate ScopesIn(decls: set<Decl>, lo: Pos, hi: Pos) {
    forall d :: d in decls ==> Le(lo, d.scope.start) && Le(d.scope.start, d.scope.end) && Le(d.scope.end, hi)
  }

  ghost predicate ScopesAfter(decls: set<Decl>, lo: Pos) {
    forall d :: d in decls ==> Lt(lo, d.scope.start)
  }

  ghost predicate ScopesBefore(decls: set<Decl>, hi: Pos) {
    forall d :: d in decls ==> Lt(d.scope.end, hi)
  }

  // Statements declare nothing outside their own stretch.
  lemma {:induction false} DeclsStayIn(stmts: seq<Stmt>, lo: Pos, hi: Pos, end: Pos, hidden: set<string>)
    requires WellFormed(stmts, lo, hi) && (end == hi || NoLet(stmts))
    ensures ScopesIn(Decls(stmts, end, hidden), lo, hi) && ScopesAfter(Decls(stmts, end, hidden), lo)
    ensures NoLet(stmts) ==> ScopesBefore(Decls(stmts, end, hidden), hi)
    decreases stmts, 0
  {
    if stmts != [] {
      StmtStaysIn(stmts[0], lo, hi, end, hidden);
      DeclsStayIn(stmts[1..], stmts[0].range.end, hi, end, hidden);
    }
  }

  lemma {:induction false} StmtStaysIn(s: Stmt, lo: Pos, hi: Pos, end: Pos, hidden: set<string>)
    requires WellFormed([s], lo, hi) && (end == hi || !s.Let?)
    ensures ScopesIn(DeclsOf(s, end, hidden), s.range.start, if s.Let? then hi else s.range.end)
    ensures ScopesAfter(DeclsOf(s, end, hidden), s.range.start)
    ensures s.Let? ==> ScopesIn(Decls(s.init, end, hidden), s.range.start, s.range.end)
    ensures s.Let? ==> ScopesBefore(Decls(s.init, end, hidden), s.range.end)
    decreases s, 0
  {
    match s
    case Block(range, body) => DeclsStayIn(body, range.start, range.end, range.end, hidden);
    case Let(range, binds, init) => DeclsStayIn(init, range.start, range.end, end, hidden);
    case Fn(range, params, bodyRange, body) => FnStaysIn(params, bodyRange, body, hidden);
  }

  lemma {:induction false} FnStaysIn(params: Binds, bodyRange: Span, body: seq<Stmt>, outer: set<string>)
    requires WellFormed(body, bodyRange.start, bodyRange.end) && Le(bodyRange.start, bodyRange.end)
    ensures ScopesIn(FnDecls(params, bodyRange, body, outer), bodyRange.start, bodyRange.end)
    decreases body, 1
  {
    DeclsStayIn(body, bodyRange.start, bodyRange.end, bodyRange.end, outer + OwnNames(params, bodyRange, body));
  }

  // What surrounds the statements between lo and hi: its candidates reach over all of
  // them, its names are all hidden in nested functions, and it types the name as `env`.
  ghost predicate Around(
      outside: set<Decl>, env: Binds, name: string, p: Pos, lo: Pos, hi: Pos, hidden: set<string>)
  {
    && Wins(outside, name, p, TypeIn(env, name))
    && forall d :: d in outside && Candidate(d, name, p) ==>
         Le(d.scope.start, lo) && Le(hi, d.scope.end) && d.name in hidden
  }

  // A scope strictly inside everything around it, at which only `here` is declared.
  lemma Closer(
      outside: set<Decl>, here: set<Decl>, name: string, p: Pos, lo: Pos, hi: Pos, scope: Span, r: Option<string>)
    requires Contains(scope, p) && Le(lo, scope.start) && Le(scope.end, hi) && scope != Span(lo, hi)
    requires forall d :: d in outside && Candidate(d, name, p) ==> Le(d.scope.start, lo) && Le(hi, d.scope.end)
    requires forall d :: d in here ==> d.scope == scope
    requires (exists ty :: Decl(name, scope, ty) in here) && TypedAt(here, name, scope, r)
    ensures Wins(outside + here, name, p, r)
  {
    var all := outside + here;
    forall ty ensures Decl(name, scope, ty) in all ==> Decl(name, scope, ty) in here {
      if Decl(name, scope, ty) in outside {
        assert Candidate(Decl(name, scope, ty), name, p);
      }
    }
    var ty :| Decl(name, scope, ty) in here;
    assert Decl(name, scope, ty) in all;
    assert Innermost(all, name, p, scope) && TypedAt(all, name, scope, r);
  }

  // A `let` between lo and hi, seen from after it.
  lemma LetBinds(
      outside: set<Decl>, env: Binds, binds: Binds, name: string, p: Pos, lo: Pos, hi: Pos, hidden: set<string>,
      scope: Span)
    requires Around(outside, env, name, p, lo, hi, hidden) && Contains(scope, p) && binds.Keys <= hidden
    requires Lt(lo, scope.start) && scope.end == hi
    ensures Around(outside + Declared(binds, scope), env + binds, name, p, scope.start, hi, hidden)
  {
    var here := Declared(binds, scope);
    if name in binds {
      assert Decl(name, scope, binds[name]) in here;
      Closer(outside, here, name, p, lo, hi, scope, binds[name]);
    } else {
      WinsSame(outside, outside + here, name, p, TypeIn(env, name));
    }
  }

  // A function between lo and hi, seen from its body: of what is around it nothing is.
  lemma FnBinds(
      outside: set<Decl>, env: Binds, params: Binds, name: string, p: Pos, lo: Pos, hi: Pos, hidden: set<string>,
      body: Span, inner: set<string>)
    requires Around(outside, env, name, p, lo, hi, hidden) && Contains(body, p) && hidden + params.Keys <= inner
    requires Le(lo, body.start) && Lt(body.end, hi)
    ensures
      Around(outside + HiddenOver(hidden, body) + Declared(params, body), params, name, p, body.start, body.end, inner)
  {
    var here := HiddenOver(hidden, body) + Declared(params, body);
    assert outside + here == outside + HiddenOver(hidden, body) + Declared(params, body);
    if name in hidden || name in params {
      assert Decl(name, body, if name in params then params[name] else None) in here;
      Closer(outside, here, name, p, lo, hi, body, TypeIn(params, name));
    } else {
      assert forall d :: d in outside + here ==> !Candidate(d, name, p);
    }
  }

  lemma NoCandidates(decls: set<Decl>, name: string, p: Pos, lo: Pos, hi: Pos)
    requires ScopesIn(decls, lo, hi) && !Contains(Span(lo, hi), p)
    ensures forall d :: d in decls ==> !Candidate(d, name, p)
  {
  }

  // The flat list agrees with the environment: for statements between lo and hi, in what
  // is around them.
  lemma {:induction false} FlatIsLookup(
      stmts: seq<Stmt>, outside: set<Decl>, env: Binds, name: string, p: Pos, lo: Pos, hi: Pos, end: Pos,
      hidden: set<string>)
    requires WellFormed(stmts, lo, hi) && (end == hi || NoLet(stmts)) && Lt(p, hi)
    requires Around(outside, env, name, p, lo, hi, hidden)
    requires Names(LetDecls(stmts, end)) <= hidden
    ensures Wins(outside + Decls(stmts, end, hidden), name, p, Lookup(stmts, env, p, name))
    decreases stmts, 0
  {
    var all := outside + Decls(stmts, end, hidden);
    if stmts == [] {
      assert all == outside;
    } else {
      var s, rest := stmts[0], stmts[1..];
      var ofRest := Decls(rest, end, hidden);
      assert Decls(stmts, end, hidden) == DeclsOf(s, end, hidden) + ofRest;
      StmtStaysIn(s, lo, hi, end, hidden);
      DeclsStayIn(rest, s.range.end, hi, end, hidden);
      if Contains(s.range, p) {
        InsideStmt(s, outside, env, name, p, lo, hi, end, hidden);
        WinsSame(outside + DeclsOf(s, end, hidden), all, name, p, Lookup(stmts, env, p, name));
      } else if s.Let? && Le(s.range.end, p) {
        var scope := Span(s.range.end, end);
        NamesOfDeclared(s.binds, scope);
        LetBinds(outside, env, s.binds, name, p, lo, hi, hidden, scope);
        var outside' := outside + Declared(s.binds, scope);
        FlatIsLookup(rest, outside', env + s.binds, name, p, s.range.end, hi, end, hidden);
        NoCandidates(Decls(s.init, end, hidden), name, p, s.range.start, s.range.end);
        WinsSame(outside' + ofRest, all, name, p, Lookup(stmts, env, p, name));
      } else {
        FlatIsLookup(rest, outside, env, name, p, s.range.end, hi, end, hidden);
        NothingPast(s, name, p, lo, hi, end, hidden);
        WinsSame(outside + ofRest, all, name, p, Lookup(stmts, env, p, name));
      }
    }
  }

  lemma NamesOfDeclared(binds: Binds, scope: Span)
    ensures Names(Declared(binds, scope)) == binds.Keys
  {
    forall name | name in binds ensures name in Names(Declared(binds, scope)) {
      assert Decl(name, scope, binds[name]) in Declared(binds, scope);
    }
  }

  // A statement before or after p declares nothing at p, a `let` before p aside.
  lemma NothingPast(s: Stmt, name: string, p: Pos, lo: Pos, hi: Pos, end: Pos, hidden: set<string>)
    requires WellFormed([s], lo, hi) && (end == hi || !s.Let?)
    requires !Contains(s.range, p) && !(s.Let? && Le(s.range.end, p))
    ensures forall d :: d in DeclsOf(s, end, hidden) ==> !Candidate(d, name, p)
  {
    StmtStaysIn(s, lo, hi, end, hidden);
  }

  lemma {:induction false} InsideStmt(
      s: Stmt, outside: set<Decl>, env: Binds, name: string, p: Pos, lo: Pos, hi: Pos, end: Pos, hidden: set<string>)
    requires WellFormed([s], lo, hi) && (end == hi || !s.Let?) && Contains(s.range, p)
    requires Around(outside, env, name, p, lo, hi, hidden)
    requires Names(LetDeclsOf(s, end)) <= hidden
    ensures Wins(outside + DeclsOf(s, end, hidden), name, p, Lookup([s], env, p, name))
    decreases s, 0
  {
    match s
    case Block(range, body) =>
      FlatIsLookup(body, outside, env, name, p, range.start, range.end, range.end, hidden);
    case Let(range, binds, init) =>
      FlatIsLookup(init, outside, env, name, p, range.start, range.end, end, hidden);
      WinsSame(outside + Decls(init, end, hidden), outside + DeclsOf(s, end, hidden), name, p,
               Lookup([s], env, p, name));
    case Fn(range, params, bodyRange, body) =>
      if Contains(bodyRange, p) {
        var inner := hidden + OwnNames(params, bodyRange, body);
        FnBinds(outside, env, params, name, p, lo, hi, hidden, bodyRange, inner);
        var outside' := outside + HiddenOver(hidden, bodyRange) + Declared(params, bodyRange);
        var within := Decls(body, bodyRange.end, inner);
        assert FnDecls(params, bodyRange, body, hidden) ==
          HiddenOver(hidden, bodyRange) + Declared(params, bodyRange) + LetDecls(body, bodyRange.end) +
          NestedDecls(body, inner);
        assert DeclsOf(s, end, hidden) == FnDecls(params, bodyRange, body, hidden);
        assert DeclsOf(s, end, hidden) == HiddenOver(hidden, bodyRange) + Declared(params, bodyRange) + within;
        FlatIsLookup(body, outside', params, name, p, bodyRange.start, bodyRange.end, bodyRange.end, inner);
        assert outside' + within == outside + DeclsOf(s, end, hidden);
      } else {
        FnStaysIn(params, bodyRange, body, hidden);
        NoCandidates(DeclsOf(s, end, hidden), name, p, bodyRange.start, bodyRange.end);
        WinsSame(outside, outside + DeclsOf(s, end, hidden), name, p, TypeIn(env, name));
      }
  }

  // What the collector declares for a file: its functions, each apart.
  function FileDecls(file: seq<Stmt>): set<Decl> {
    NestedDecls(file, {})
  }

  // In a file whose lets all stand in functions, the innermost of the declarations that
  // hold p, and do not end there, is the one the language's rules find.
  lemma FileIsLookup(file: seq<Stmt>, lo: Pos, hi: Pos, name: string, p: Pos)
    requires WellFormed(file, lo, hi) && LetDecls(file, hi) == {} && Lt(p, hi)
    ensures Wins(FileDecls(file), name, p, Lookup(file, map[], p, name))
  {
    assert Decls(file, hi, {}) == FileDecls(file);
    FlatIsLookup(file, {}, map[], name, p, lo, hi, hi, {});
    assert {} + Decls(file, hi, {}) == FileDecls(file);
  }

  type Scoped = (Span, Option<string>)

  // The entry type_at settles on among the first n: of those that hold p the narrowest;
  // of equals the last tracked one, or the first if none is tracked.
  function Best(list: seq<Scoped>, p: Pos, n: nat): (best: Option<nat>)
    requires n <= |list|
    ensures best.Some? ==> best.value < n && Holds(list[best.value].0, p)
  {
    if n == 0 then None
    else
      var best := Best(list, p, n - 1);
      var (scope, ty) := list[n - 1];
      if Holds(scope, p) && (best.None? || Beats(scope, ty, list[best.value].0)) then Some(n - 1) else best
  }

  predicate Beats(scope: Span, ty: Option<string>, other: Span) {
    !WidthLe(SpanWidth(other), SpanWidth(scope)) || (SpanWidth(scope) == SpanWidth(other) && ty.Some?)
  }

  function TypeFrom(list: seq<Scoped>, p: Pos): Option<string> {
    match Best(list, p, |list|)
    case None => None
    case Some(i) => list[i].1
  }

  ghost predicate Chosen(list: seq<Scoped>, p: Pos, n: nat, i: nat)
    requires n <= |list|
  {
    && i < n && Holds(list[i].0, p)
    && forall k: nat :: k < n && Holds(list[k].0, p) ==>
         && WidthLe(SpanWidth(list[i].0), SpanWidth(list[k].0))
         && (SpanWidth(list[i].0) == SpanWidth(list[k].0) && list[k].1.Some? ==> list[i].1.Some? && k <= i)
  }

  lemma {:induction false} BestIsChosen(list: seq<Scoped>, p: Pos, n: nat)
    requires n <= |list|
    ensures
      match Best(list, p, n)
      case None => forall k: nat :: k < n ==> !Holds(list[k].0, p)
      case Some(i) => Chosen(list, p, n, i)
  {
    if n > 0 {
      BestIsChosen(list, p, n - 1);
    }
  }

  // The entries of the name, in some order.
  ghost predicate ListsOf(list: seq<Scoped>, decls: set<Decl>, name: string) {
    forall scope, ty :: (scope, ty) in list <==> Decl(name, scope, ty) in decls
  }

  function Entries(decls: map<string, seq<Scoped>>, name: string): seq<Scoped> {
    if name in decls then decls[name] else []
  }

  class FnPtrVars {
    var decls: map<string, seq<Scoped>>

    ghost predicate Holding(contents: set<Decl>)
      reads this
    {
      forall name :: ListsOf(Entries(decls, name), contents, name)
    }

    constructor ()
      ensures Holding({})
    {
      decls := map[];
    }

    // declare.
    method Declare(name: string, scope: Span, ty: Option<string>, ghost contents: set<Decl>)
      requires Holding(contents)
      modifies this
      ensures Holding(contents + {Decl(name, scope, ty)})
    {
      ghost var before := decls;
      decls := decls[name := Entries(decls, name) + [(scope, ty)]];
      forall other ensures ListsOf(Entries(decls, other), contents + {Decl(name, scope, ty)}, other) {
        assert ListsOf(Entries(before, other), contents, other);
        assert Entries(decls, other) == Entries(before, other) + if other == name then [(scope, ty)] else [];
      }
    }

    // type_at.
    method TypeAt(name: string, p: Pos) returns (ty: Option<string>)
      ensures ty == TypeFrom(Entries(decls, name), p)
    {
      var list := Entries(decls, name);
      var best: Option<(Option<string>, Width)> := None;
      for n := 0 to |list|
        invariant
          match Best(list, p, n)
          case None => best == None
          case Some(i) => best == Some((list[i].1, SpanWidth(list[i].0)))
      {
        var (scope, ty) := list[n];
        if Holds(scope, p) {
          var width := SpanWidth(scope);
          if best.None? || !WidthLe(best.value.1, width) || (width == best.value.1 && ty.Some?) {
            best := Some((ty, width));
          }
        }
      }
      ty := if best.Some? then best.value.0 else None;
    }
  }

  // Of two scopes that hold p, one lies in the other.
  ghost predicate NestAt(decls: set<Decl>, p: Pos) {
    forall d, e :: d in decls && e in decls && Holds(d.scope, p) && Holds(e.scope, p) ==> Nested(d.scope, e.scope)
  }

  // A scope gives a name one type at most.
  ghost predicate OneType(decls: set<Decl>) {
    forall d, e :: d in decls && e in decls && d.name == e.name && d.scope == e.scope && d.ty.Some? && e.ty.Some? ==>
      d == e
  }

  // The scopes of a stretch of code nest, their ends included.
  lemma {:induction false} DeclsNest(stmts: seq<Stmt>, lo: Pos, hi: Pos, end: Pos, hidden: set<string>, p: Pos)
    requires WellFormed(stmts, lo, hi) && (end == hi || NoLet(stmts))
    ensures NestAt(Decls(stmts, end, hidden), p) && OneType(Decls(stmts, end, hidden))
    decreases stmts, 0
  {
    if stmts != [] {
      var s, rest := stmts[0], stmts[1..];
      StmtStaysIn(s, lo, hi, end, hidden);
      DeclsStayIn(rest, s.range.end, hi, end, hidden);
      StmtNests(s, lo, hi, end, hidden, p);
      DeclsNest(rest, s.range.end, hi, end, hidden, p);
      assert Decls(stmts, end, hidden) == DeclsOf(s, end, hidden) + Decls(rest, end, hidden);
      LaterNests(s, Decls(rest, end, hidden), lo, hi, end, hidden, p);
    }
  }

  // What comes after a statement lies apart from it, or in what its `let` binds.
  lemma LaterNests(s: Stmt, later: set<Decl>, lo: Pos, hi: Pos, end: Pos, hidden: set<string>, p: Pos)
    requires WellFormed([s], lo, hi) && (end == hi || !s.Let?)
    requires ScopesAfter(later, s.range.end) && ScopesIn(later, s.range.end, hi)
    ensures forall d, e :: d in DeclsOf(s, end, hidden) && e in later && Holds(d.scope, p) && Holds(e.scope, p) ==>
              Nested(d.scope, e.scope)
    ensures forall d, e :: d in DeclsOf(s, end, hidden) && e in later ==> d.scope != e.scope
  {
    StmtStaysIn(s, lo, hi, end, hidden);
  }

  lemma {:induction false} StmtNests(s: Stmt, lo: Pos, hi: Pos, end: Pos, hidden: set<string>, p: Pos)
    requires WellFormed([s], lo, hi) && (end == hi || !s.Let?)
    ensures NestAt(DeclsOf(s, end, hidden), p) && OneType(DeclsOf(s, end, hidden))
    decreases s, 0
  {
    match s
    case Block(range, body) => DeclsNest(body, range.start, range.end, range.end, hidden, p);
    case Let(range, binds, init) =>
      DeclsNest(init, range.start, range.end, end, hidden, p);
      DeclsStayIn(init, range.start, range.end, end, hidden);
      assert DeclsOf(s, end, hidden) == Declared(binds, Span(range.end, end)) + Decls(init, end, hidden);
      OneScopeNests(Declared(binds, Span(range.end, end)), Decls(init, end, hidden), Span(range.end, end), p);
    case Fn(range, params, bodyRange, body) =>
      var inner := hidden + OwnNames(params, bodyRange, body);
      DeclsNest(body, bodyRange.start, bodyRange.end, bodyRange.end, inner, p);
      DeclsStayIn(body, bodyRange.start, bodyRange.end, bodyRange.end, inner);
      var header := HiddenOver(hidden, bodyRange) + Declared(params, bodyRange);
      assert DeclsOf(s, end, hidden) == FnDecls(params, bodyRange, body, hidden);
      SameUnion({}, params, bodyRange, body, hidden);
      assert DeclsOf(s, end, hidden) == header + Decls(body, bodyRange.end, inner);
      OneScopeNests(header, Decls(body, bodyRange.end, inner), bodyRange, p);
  }

  // Declarations of one scope, beside others that lie before it or inside it.
  lemma OneScopeNests(here: set<Decl>, others: set<Decl>, scope: Span, p: Pos)
    requires (forall d :: d in here ==> d.scope == scope) && OneType(here)
    requires NestAt(others, p) && OneType(others)
    requires forall d :: d in others ==> d.scope != scope && (Inside(d.scope, scope) || Lt(d.scope.end, scope.start))
    ensures NestAt(here + others, p) && OneType(here + others)
  {
  }

  lemma FileNests(file: seq<Stmt>, lo: Pos, hi: Pos, p: Pos)
    requires WellFormed(file, lo, hi)
    requires LetDecls(file, hi) == {}
    ensures NestAt(FileDecls(file), p) && OneType(FileDecls(file))
  {
    DeclsNest(file, lo, hi, hi, {}, p);
    assert Decls(file, hi, {}) == FileDecls(file);
  }

  // Nested scopes of equal width are equal, so the best entry is the innermost of those
  // that hold p, ends included.
  lemma BestIsInnermost(list: seq<Scoped>, decls: set<Decl>, name: string, p: Pos, i: nat)
    requires ListsOf(list, decls, name) && NestAt(decls, p) && OneType(decls) && Best(list, p, |list|) == Some(i)
    ensures Decl(name, list[i].0, list[i].1) in decls && TypedAt(decls, name, list[i].0, list[i].1)
    ensures forall d :: d in decls && d.name == name && Holds(d.scope, p) ==> Inside(list[i].0, d.scope)
  {
    BestIsChosen(list, p, |list|);
    var (scope, ty) := list[i];
    assert (scope, ty) in list && Decl(name, scope, ty) in decls;
    forall d | d in decls && d.name == name && Holds(d.scope, p) ensures Inside(scope, d.scope) {
      assert (d.scope, d.ty) in list;
      var k :| 0 <= k < |list| && list[k] == (d.scope, d.ty);
      assert Nested(scope, d.scope);
      if Inside(d.scope, scope) {
        NestedWidths(d.scope, scope);
      }
    }
    forall other: Option<string> | other.Some? && Decl(name, scope, other) in decls ensures other == ty {
      assert (scope, other) in list;
      var k :| 0 <= k < |list| && list[k] == (scope, other);
      assert Chosen(list, p, |list|, i);
    }
  }

  // The innermost of the declarations of the name that end at p has the type.
  ghost predicate EndsWith(decls: set<Decl>, name: string, p: Pos, ty: Option<string>) {
    exists s :: LastToEnd(decls, name, p, s) && Decl(name, s, ty) in decls && TypedAt(decls, name, s, ty)
  }

  ghost predicate LastToEnd(decls: set<Decl>, name: string, p: Pos, s: Span) {
    s.end == p && forall d :: d in decls && d.name == name && d.scope.end == p ==> Inside(s, d.scope)
  }

  ghost predicate NoneEnds(decls: set<Decl>, name: string, p: Pos) {
    forall d :: d in decls && d.name == name ==> d.scope.end != p
  }

  // Where no declaration of the name ends, the list gives the language's answer ...
  lemma BestWins(list: seq<Scoped>, decls: set<Decl>, name: string, p: Pos, r: Option<string>)
    requires ListsOf(list, decls, name) && NestAt(decls, p) && OneType(decls)
    requires NoneEnds(decls, name, p) && Wins(decls, name, p, r)
    ensures TypeFrom(list, p) == r
  {
    BestIsChosen(list, p, |list|);
    match Best(list, p, |list|)
    case None =>
      forall d | d in decls && d.name == name ensures !Candidate(d, name, p) {
        assert (d.scope, d.ty) in list;
      }
    case Some(i) =>
      BestIsInnermost(list, decls, name, p, i);
      var d := Decl(name, list[i].0, list[i].1);
      assert Candidate(d, name, p);
      var s :| Innermost(decls, name, p, s) && TypedAt(decls, name, s, r);
      assert s == d.scope;
  }

  // ... and where some do, the type of the innermost of those.
  lemma BestEnds(list: seq<Scoped>, decls: set<Decl>, name: string, p: Pos, ended: Decl)
    requires ListsOf(list, decls, name) && NestAt(decls, p) && OneType(decls)
    requires ended in decls && ended.name == name && ended.scope.end == p
    requires forall d :: d in decls ==> Le(d.scope.start, d.scope.end)
    ensures EndsWith(decls, name, p, TypeFrom(list, p))
  {
    BestIsChosen(list, p, |list|);
    assert (ended.scope, ended.ty) in list;
    var k :| 0 <= k < |list| && list[k] == (ended.scope, ended.ty);
    var i := Best(list, p, |list|).value;
    BestIsInnermost(list, decls, name, p, i);
    assert LastToEnd(decls, name, p, list[i].0);
  }

  // One declaration at most is the innermost that ends at p, and has one type.
  lemma EndsWithOne(decls: set<Decl>, name: string, p: Pos, a: Option<string>, b: Option<string>)
    requires EndsWith(decls, name, p, a) && EndsWith(decls, name, p, b)
    ensures a == b
  {
    var s :| LastToEnd(decls, name, p, s) && Decl(name, s, a) in decls && TypedAt(decls, name, s, a);
    var t :| LastToEnd(decls, name, p, t) && Decl(name, t, b) in decls && TypedAt(decls, name, t, b);
    assert s == t;
  }

  function Children(s: Stmt): seq<Stmt> {
    match s
    case Block(_, body) => body
    case Let(_, _, init) => init
    case Fn(_, _, _, body) => body
  }

  function Size(s: Stmt): nat {
    match s
    case Block(_, body) => 1 + Sizes(body)
    case Let(_, _, init) => 1 + Sizes(init)
    case Fn(_, _, _, body) => 1 + Sizes(body)
  }

  function Sizes(stmts: seq<Stmt>): nat {
    if stmts == [] then 0 else Size(stmts[0]) + Sizes(stmts[1..])
  }

  // The work stack: statements, each with the end of the block around it.
  type Work = seq<(Stmt, Pos)>

  function Pushed(work: Work, stmts: seq<Stmt>, end: Pos): Work {
    work + seq(|stmts|, i requires 0 <= i < |stmts| => (stmts[i], end))
  }

  ghost function WorkLets(work: Work): set<Decl> {
    if work == [] then {}
    else WorkLets(work[..|work| - 1]) + LetDeclsOf(work[|work| - 1].0, work[|work| - 1].1)
  }

  ghost function WorkNested(work: Work, hidden: set<string>): set<Decl> {
    if work == [] then {}
    else WorkNested(work[..|work| - 1], hidden) + NestedDeclsOf(work[|work| - 1].0, hidden)
  }

  ghost function WorkSize(work: Work): nat {
    if work == [] then 0 else WorkSize(work[..|work| - 1]) + Size(work[|work| - 1].0)
  }

  lemma {:induction false} PushAdds(work: Work, stmts: seq<Stmt>, end: Pos, hidden: set<string>)
    ensures WorkLets(Pushed(work, stmts, end)) == WorkLets(work) + LetDecls(stmts, end)
    ensures WorkNested(Pushed(work, stmts, end), hidden) == WorkNested(work, hidden) + NestedDecls(stmts, hidden)
    ensures WorkSize(Pushed(work, stmts, end)) == WorkSize(work) + Sizes(stmts)
    decreases stmts
  {
    if stmts == [] {
      assert Pushed(work, stmts, end) == work;
    } else {
      var work' := work + [(stmts[0], end)];
      assert Pushed(work, stmts, end) == Pushed(work', stmts[1..], end);
      assert work'[..|work'| - 1] == work;
      PushAdds(work', stmts[1..], end, hidden);
    }
  }

  lemma SetOfAppend(names: seq<string>, more: seq<string>)
    ensures SetOf(names + more) == SetOf(names) + SetOf(more)
  {
  }

  // declare_rust_pattern: every name of the pattern.
  method DeclareAll(vars: FnPtrVars, binds: Binds, scope: Span, own: seq<string>, ghost contents: set<Decl>)
      returns (names: seq<string>)
    requires vars.Holding(contents)
    modifies vars
    ensures vars.Holding(contents + Declared(binds, scope)) && SetOf(names) == SetOf(own) + binds.Keys
  {
    names := own;
    var left := binds.Keys;
    ghost var done: set<string> := {};
    assert contents + Declared(map[], scope) == contents;
    while left != {}
      invariant done !! left && done + left == binds.Keys && SetOf(names) == SetOf(own) + done
      invariant vars.Holding(contents + DeclaredOf(binds, done, scope))
      decreases left
    {
      var name :| name in left;
      vars.Declare(name, scope, binds[name], contents + DeclaredOf(binds, done, scope));
      assert contents + DeclaredOf(binds, done + {name}, scope) ==
             contents + DeclaredOf(binds, done, scope) + {Decl(name, scope, binds[name])};
      SetOfAppend(names, [name]);
      names, left, done := names + [name], left - {name}, done + {name};
    }
    assert DeclaredOf(binds, done, scope) == Declared(binds, scope);
  }

  ghost function DeclaredOf(binds: Binds, done: set<string>, scope: Span): set<Decl> {
    set name | name in binds && name in done :: Decl(name, scope, binds[name])
  }

  method HideAll(vars: FnPtrVars, outer: seq<string>, scope: Span, ghost contents: set<Decl>)
    requires vars.Holding(contents)
    modifies vars
    ensures vars.Holding(contents + HiddenOver(SetOf(outer), scope))
  {
    assert contents + HiddenOver(SetOf(outer[..0]), scope) == contents;
    for i := 0 to |outer|
      invariant vars.Holding(contents + HiddenOver(SetOf(outer[..i]), scope))
    {
      vars.Declare(outer[i], scope, None, contents + HiddenOver(SetOf(outer[..i]), scope));
      assert contents + HiddenOver(SetOf(outer[..i + 1]), scope) ==
             contents + HiddenOver(SetOf(outer[..i]), scope) + {Decl(outer[i], scope, None)};
    }
    assert outer[..|outer|] == outer;
  }

  ghost function FnsDecls(fns: seq<Stmt>, hidden: set<string>): set<Decl> {
    if fns == [] then {} else FnsDecls(fns[..|fns| - 1], hidden) + NestedDeclsOf(fns[|fns| - 1], hidden)
  }

  ghost function FnsSize(fns: seq<Stmt>): nat {
    if fns == [] then 0 else FnsSize(fns[..|fns| - 1]) + Size(fns[|fns| - 1])
  }

  lemma {:induction false} FnSizeBound(fns: seq<Stmt>, k: nat)
    requires k < |fns|
    ensures Size(fns[k]) <= FnsSize(fns)
  {
    if k < |fns| - 1 {
      FnSizeBound(fns[..|fns| - 1], k);
    }
  }

  // The walk over one body: its lets declared, its nested functions collected.
  method CollectLets(
      vars: FnPtrVars, body: seq<Stmt>, end: Pos, before: seq<string>, ghost contents: set<Decl>,
      ghost hidden: set<string>)
      returns (own: seq<string>, nested: seq<Stmt>)
    requires vars.Holding(contents)
    modifies vars
    ensures vars.Holding(contents + LetDecls(body, end))
    ensures SetOf(own) == SetOf(before) + Names(LetDecls(body, end))
    ensures (forall k :: 0 <= k < |nested| ==> nested[k].Fn?) && FnsSize(nested) <= Sizes(body)
    ensures FnsDecls(nested, hidden) == NestedDecls(body, hidden)
  {
    own, nested := before, [];
    var work: Work := Pushed([], body, end);
    PushAdds([], body, end, hidden);
    ghost var done: set<Decl> := {};
    assert contents + done == contents;
    while work != []
      invariant vars.Holding(contents + done) && done + WorkLets(work) == LetDecls(body, end)
      invariant SetOf(own) == SetOf(before) + Names(done)
      invariant forall k :: 0 <= k < |nested| ==> nested[k].Fn?
      invariant FnsDecls(nested, hidden) + WorkNested(work, hidden) == NestedDecls(body, hidden)
      invariant WorkSize(work) + FnsSize(nested) <= Sizes(body)
      decreases WorkSize(work)
    {
      var (s, e) := work[|work| - 1];
      work := work[..|work| - 1];
      match s
      case Fn(_, _, _, _) =>
        assert (nested + [s])[..|nested|] == nested;
        nested := nested + [s];
      case Let(range, binds, init) =>
        ghost var more := Declared(binds, Span(range.end, e));
        own := DeclareAll(vars, binds, Span(range.end, e), own, contents + done);
        NamesOfDeclared(binds, Span(range.end, e));
        assert Names(done + more) == Names(done) + binds.Keys;
        assert contents + (done + more) == contents + done + more;
        done := done + more;
        PushAdds(work, init, e, hidden);
        work := Pushed(work, init, e);
      case Block(range, inner) =>
        PushAdds(work, inner, range.end, hidden);
        work := Pushed(work, inner, range.end);
    }
  }

  // collect_rust_fn_vars.
  method CollectFnVars(vars: FnPtrVars, fn: Stmt, outer: seq<string>, ghost contents: set<Decl>)
    requires fn.Fn? && vars.Holding(contents)
    modifies vars
    ensures vars.Holding(contents + FnDecls(fn.params, fn.bodyRange, fn.body, SetOf(outer)))
    decreases Size(fn), 0
  {
    var Fn(_, params, bodyRange, body) := fn;
    ghost var hides := SetOf(outer) + OwnNames(params, bodyRange, body);
    ghost var hiding := contents + HiddenOver(SetOf(outer), bodyRange);
    HideAll(vars, outer, bodyRange, contents);
    var own := DeclareAll(vars, params, bodyRange, [], hiding);
    ghost var header := hiding + Declared(params, bodyRange);
    var nested;
    own, nested := CollectLets(vars, body, bodyRange.end, own, header, hides);
    SetOfAppend(outer, own);
    assert SetOf(outer + own) == hides;
    CollectNested(vars, nested, outer + own, header + LetDecls(body, bodyRange.end));
    SameUnion(contents, params, bodyRange, body, SetOf(outer));
  }

  lemma SameUnion(contents: set<Decl>, params: Binds, bodyRange: Span, body: seq<Stmt>, outer: set<string>)
    ensures contents + HiddenOver(outer, bodyRange) + Declared(params, bodyRange) + LetDecls(body, bodyRange.end) +
            NestedDecls(body, outer + OwnNames(params, bodyRange, body)) ==
            contents + FnDecls(params, bodyRange, body, outer)
  {
  }

  // Its loop over the nested functions.
  method CollectNested(vars: FnPtrVars, nested: seq<Stmt>, hidden: seq<string>, ghost contents: set<Decl>)
    requires vars.Holding(contents) && forall k :: 0 <= k < |nested| ==> nested[k].Fn?
    modifies vars
    ensures vars.Holding(contents + FnsDecls(nested, SetOf(hidden)))
    decreases FnsSize(nested), 1
  {
    assert contents + FnsDecls(nested[..0], SetOf(hidden)) == contents;
    for k := 0 to |nested|
      invariant vars.Holding(contents + FnsDecls(nested[..k], SetOf(hidden)))
    {
      FnSizeBound(nested, k);
      CollectFnVars(vars, nested[k], hidden, contents + FnsDecls(nested[..k], SetOf(hidden)));
      assert nested[..k + 1][..k] == nested[..k];
      assert contents + FnsDecls(nested[..k + 1], SetOf(hidden)) ==
             contents + FnsDecls(nested[..k], SetOf(hidden)) + NestedDeclsOf(nested[k], SetOf(hidden));
    }
    assert nested[..|nested|] == nested;
  }

  // collect_rust_indirect_param_types.
  method CollectFile(file: seq<Stmt>) returns (vars: FnPtrVars)
    ensures fresh(vars) && vars.Holding(FileDecls(file))
  {
    vars := new FnPtrVars();
    var work: Work := Pushed([], file, Pos(0, 0));
    PushAdds([], file, Pos(0, 0), {});
    ghost var done: set<Decl> := {};
    while work != []
      invariant fresh(vars) && vars.Holding(done) && done + WorkNested(work, {}) == FileDecls(file)
      decreases WorkSize(work)
    {
      var (s, e) := work[|work| - 1];
      work := work[..|work| - 1];
      if s.Fn? {
        assert SetOf<string>([]) == {};
        CollectFnVars(vars, s, [], done);
        done := done + FnDecls(s.params, s.bodyRange, s.body, {});
      } else {
        assert NestedDeclsOf(s, {}) == NestedDecls(Children(s), {});
        PushAdds(work, Children(s), e, {});
        work := Pushed(work, Children(s), e);
      }
    }
  }

  // Collect a file, then ask for one name at one place. Where no declaration of the name
  // ends, the answer is the language's. Where some do, it is the type of the innermost of
  // those, so the language's exactly if the two types are one.
  method TypeInFile(file: seq<Stmt>, name: string, p: Pos, ghost lo: Pos, ghost hi: Pos)
      returns (ty: Option<string>)
    requires WellFormed(file, lo, hi) && LetDecls(file, hi) == {} && Lt(p, hi)
    ensures NoneEnds(FileDecls(file), name, p) ==> ty == Lookup(file, map[], p, name)
    ensures !NoneEnds(FileDecls(file), name, p) ==> EndsWith(FileDecls(file), name, p, ty)
    ensures ty == Lookup(file, map[], p, name) <==>
              || NoneEnds(FileDecls(file), name, p)
              || EndsWith(FileDecls(file), name, p, Lookup(file, map[], p, name))
  {
    var vars := CollectFile(file);
    ty := vars.TypeAt(name, p);
    TypeOfFile(file, lo, hi, Entries(vars.decls, name), name, p);
  }

  lemma TypeOfFile(file: seq<Stmt>, lo: Pos, hi: Pos, list: seq<Scoped>, name: string, p: Pos)
    requires WellFormed(file, lo, hi) && LetDecls(file, hi) == {} && Lt(p, hi)
    requires ListsOf(list, FileDecls(file), name)
    ensures
      var decls, ty, found := FileDecls(file), TypeFrom(list, p), Lookup(file, map[], p, name);
      && (NoneEnds(decls, name, p) ==> ty == found)
      && (!NoneEnds(decls, name, p) ==> EndsWith(decls, name, p, ty))
      && (ty == found <==> NoneEnds(decls, name, p) || EndsWith(decls, name, p, found))
  {
    var decls := FileDecls(file);
    FileNests(file, lo, hi, p);
    if NoneEnds(decls, name, p) {
      FileIsLookup(file, lo, hi, name, p);
      BestWins(list, decls, name, p, Lookup(file, map[], p, name));
    } else {
      var ended :| ended in decls && ended.name == name && ended.scope.end == p;
      DeclsStayIn(file, lo, hi, hi, {});
      assert Decls(file, hi, {}) == decls;
      BestEnds(list, decls, name, p, ended);
      if EndsWith(decls, name, p, Lookup(file, map[], p, name)) {
        EndsWithOne(decls, name, p, TypeFrom(list, p), Lookup(file, map[], p, name));
      }
    }
  }

  // fn f() { { let g: fn() = h; }g() }: the call starts where the inner block ends.
  function Touching(ty: string): seq<Stmt> {
    var bind := Let(Span(Pos(0, 11), Pos(0, 27)), map["g" := Some(ty)], []);
    var inner := Block(Span(Pos(0, 9), Pos(0, 29)), [bind]);
    [Fn(Span(Pos(0, 0), Pos(0, 34)), map[], Span(Pos(0, 7), Pos(0, 34)), [inner])]
  }

  lemma DeclaredOne(name: string, ty: Option<string>, scope: Span)
    ensures Declared(map[name := ty], scope) == {Decl(name, scope, ty)}
  {
    var binds: Binds := map[name := ty];
    assert name in binds;
  }

  // There the flat list still sees the inner block's binding: a scope holds its end.
  lemma EndOfBlockSeesLet(ty: string)
    ensures WellFormed(Touching(ty), Pos(0, 0), Pos(1, 0)) && LetDecls(Touching(ty), Pos(1, 0)) == {}
    ensures Lookup(Touching(ty), map[], Pos(0, 29), "g") == None
    ensures
      var list := [(Span(Pos(0, 27), Pos(0, 29)), Some(ty))];
      ListsOf(list, FileDecls(Touching(ty)), "g") && TypeFrom(list, Pos(0, 29)) == Some(ty)
  {
    var file := Touching(ty);
    var body, scope := file[0].body, Span(Pos(0, 27), Pos(0, 29));
    var inner := body[0].body;
    assert inner[1..] == [] && body[1..] == [] && file[1..] == [];
    assert inner[0] == Let(Span(Pos(0, 11), Pos(0, 27)), map["g" := Some(ty)], []);
    assert WellFormed([], Pos(0, 11), Pos(0, 27)) && NoLet([]) && WellFormed([], Pos(0, 27), Pos(0, 29));
    assert WellFormed(inner, Pos(0, 9), Pos(0, 29));
    assert WellFormed(body, Pos(0, 7), Pos(0, 34));
    DeclaredOne("g", Some(ty), scope);
    assert LetDecls(inner, Pos(0, 29)) == {Decl("g", scope, Some(ty))};
    assert LetDecls(body, Pos(0, 34)) == {Decl("g", scope, Some(ty))};
    var own := {} + OwnNames(map[], file[0].bodyRange, body);
    assert NestedDecls(inner, own) == {};
    assert NestedDecls(body, own) == {};
    assert FnDecls(map[], file[0].bodyRange, body, {}) == {Decl("g", scope, Some(ty))};
    assert NestedDecls(file[1..], {}) == {};
    assert NestedDecls(file, {}) == NestedDeclsOf(file[0], {}) + NestedDecls(file[1..], {});
    assert FileDecls(file) == {Decl("g", scope, Some(ty))};
    var list := [(scope, Some(ty))];
    assert list[0] in list;
    assert Best(list, Pos(0, 29), 1) == Some(0);
    assert Lookup(body, map[], Pos(0, 29), "g") == None;
  }
}
