// crates/ecp-analyzer/src/preproc_fallback.rs: preproc_rows, the include guards of a
// source and the rows that belong to directives.
module Guards {
  import opened Options
  import opened PreprocText
  import opened Tokens
  import opened Lexer
  import opened Nesting
  import opened DirectiveText
  import opened BraceDepth

  // A line that is neither joined to the one above nor blank.
  predicate Significant(line: SrcLine) {
    !line.spliced && (line.directive.Some? || !line.blank)
  }

  // A '\' joins the next line to line k.
  predicate Continued(lines: seq<SrcLine>, k: nat) {
    k + 1 < |lines| && lines[k + 1].spliced
  }

  // The conditionals open before line k. An #endif with none open closes nothing.
  ghost function CondDepth(src: Bytes, lines: seq<SrcLine>, k: nat): nat
    requires AllFit(src, lines) && k <= |lines|
  {
    |Stack(Marks(Directives(src, lines)), k)|
  }

  // A spliced line opens no directive of its own.
  function DirectiveOf(src: Bytes, line: SrcLine): Cond
    requires DirectiveFits(src, line)
  {
    if line.spliced then Plain else CondOf(src, line)
  }

  ghost function Directives(src: Bytes, lines: seq<SrcLine>): seq<Cond>
    requires AllFit(src, lines)
  {
    seq(|lines|, k requires 0 <= k < |lines| => DirectiveOf(src, lines[k]))
  }

  // The last significant line before line n.
  ghost function LastSignificant(lines: seq<SrcLine>, n: nat): (p: Option<nat>)
    requires n <= |lines|
    ensures p.Some? ==> p.value < n
  {
    if n == 0 then None
    else if Significant(lines[n - 1]) then Some(n - 1)
    else LastSignificant(lines, n - 1)
  }

  predicate IsDirective(src: Bytes, line: SrcLine, word: Bytes)
    requires DirectiveFits(src, line)
  {
    !line.spliced && line.directive.Some? && DirectiveWord(src, line).0 == word
  }

  // The name that line k tests to be undefined, with no other conditional around it.
  ghost function Tests(src: Bytes, lines: seq<SrcLine>, k: nat): Option<Bytes>
    requires AllFit(src, lines) && k < |lines|
  {
    if DirectiveOf(src, lines[k]) != If || CondDepth(src, lines, k) != 0 || Continued(lines, k) then None
    else
      var (word, rest) := DirectiveWord(src, lines[k]);
      GuardedName(word, rest)
  }

  // Line k defines, as a guard, what the significant line before it tests: Some(true)
  // if it defines it as 1.
  ghost function Guard(src: Bytes, lines: seq<SrcLine>, k: nat): Option<bool>
    requires AllFit(src, lines) && k < |lines|
  {
    if !IsDirective(src, lines[k], "define") || Continued(lines, k) then None
    else
      match LastSignificant(lines, k)
      case None => None
      case Some(p) =>
        match Tests(src, lines, p)
        case None => None
        case Some(name) => DefinesGuard(DirectiveWord(src, lines[k]).1, name)
  }

  // What each line is to the guards: whether it ends a group, and the guard it defines.
  datatype Part = Part(ends: bool, guard: Option<bool>)

  ghost function Parts(src: Bytes, lines: seq<SrcLine>): seq<Part>
    requires AllFit(src, lines)
  {
    seq(|lines|, k requires 0 <= k < |lines| =>
      Part(IsDirective(src, lines[k], "endif"), Guard(src, lines, k)))
  }

  // Line q is the next significant line after line k, and an #endif.
  ghost predicate EndedAt(lines: seq<SrcLine>, parts: seq<Part>, k: nat, q: nat)
    requires q < |lines| == |parts|
  {
    k < q && LastSignificant(lines, q) == Some(k) && parts[q].ends
  }

  // The group of a guard defined as 1 holds nothing else, as seen before line n.
  ghost predicate Empty(lines: seq<SrcLine>, parts: seq<Part>, k: nat, n: nat)
    requires k < n <= |lines| == |parts|
  {
    parts[k].guard == Some(true) && exists q :: k < q < n && EndedAt(lines, parts, k, q)
  }

  // The guard rows among the first m lines, as seen before line n.
  ghost function GuardRows(lines: seq<SrcLine>, parts: seq<Part>, m: nat, n: nat): seq<nat>
    requires m <= n <= |lines| == |parts|
  {
    if m == 0 then []
    else
      GuardRows(lines, parts, m - 1, n) +
      if parts[m - 1].guard.Some? && !Empty(lines, parts, m - 1, n) then [lines[m - 1].row] else []
  }

  ghost predicate RowsCount(lines: seq<SrcLine>) {
    forall k :: 0 <= k < |lines| ==> lines[k].row == k
  }

  ghost predicate IsGuardRow(lines: seq<SrcLine>, parts: seq<Part>, row: nat)
    requires |lines| == |parts|
  {
    row < |lines| && parts[row].guard.Some? && !Empty(lines, parts, row, |lines|)
  }

  // The rows are those of the guards, in ascending order.
  lemma {:induction false} GuardRowsExact(lines: seq<SrcLine>, parts: seq<Part>, m: nat)
    requires RowsCount(lines) && m <= |lines| == |parts|
    ensures Ascending(GuardRows(lines, parts, m, |lines|))
    ensures forall row: nat :: row in GuardRows(lines, parts, m, |lines|) <==> row < m && IsGuardRow(lines, parts, row)
  {
    if m > 0 {
      GuardRowsExact(lines, parts, m - 1);
      var before, rows := GuardRows(lines, parts, m - 1, |lines|), GuardRows(lines, parts, m, |lines|);
      forall i | 0 <= i < |before| ensures before[i] < m - 1 {
        assert before[i] in before;
      }
      assert rows == before + if IsGuardRow(lines, parts, m - 1) then [m - 1] else [];
    }
  }

  // No line between a significant line and the next one is significant.
  lemma {:induction false} NoneBetween(lines: seq<SrcLine>, k: nat, n: nat, j: nat)
    requires n <= |lines| && LastSignificant(lines, n) == Some(k) && k < j < n
    ensures !Significant(lines[j]) && LastSignificant(lines, j) == Some(k)
    decreases n
  {
    if j < n - 1 {
      NoneBetween(lines, k, n - 1, j);
    }
  }

  // A line that plays a part is significant.
  ghost predicate PartsFit(lines: seq<SrcLine>, parts: seq<Part>) {
    && |parts| == |lines|
    && forall k :: 0 <= k < |lines| && (parts[k].ends || parts[k].guard.Some?) ==>
         Significant(lines[k]) && !(parts[k].ends && parts[k].guard.Some?)
  }

  // Unless line n ends the group of a guard defined as 1, it withdraws none.
  lemma {:induction false} RowsStay(lines: seq<SrcLine>, parts: seq<Part>, m: nat, n: nat)
    requires m <= n < |lines| == |parts|
    requires forall k: nat :: k < m && parts[k].guard == Some(true) ==> !EndedAt(lines, parts, k, n)
    ensures GuardRows(lines, parts, m, n + 1) == GuardRows(lines, parts, m, n)
  {
    if m > 0 {
      RowsStay(lines, parts, m - 1, n);
    }
  }

  // No line after the last significant one before line n is a guard.
  lemma {:induction false} RowsSinceLast(lines: seq<SrcLine>, parts: seq<Part>, k: nat, m: nat, n: nat, seen: nat)
    requires PartsFit(lines, parts) && n <= |lines| && k < m <= n <= seen <= |lines|
    requires LastSignificant(lines, n) == Some(k)
    ensures GuardRows(lines, parts, m, seen) == GuardRows(lines, parts, k + 1, seen)
    decreases m
  {
    if m > k + 1 {
      NoneBetween(lines, k, n, m - 1);
      RowsSinceLast(lines, parts, k, m - 1, n, seen);
    }
  }

  // When the significant line before an #endif is a guard defined as 1, its row is the
  // last one, and to withdraw the last row withdraws that guard and no other.
  lemma PopsThisGuard(lines: seq<SrcLine>, parts: seq<Part>, k: nat, n: nat)
    requires PartsFit(lines, parts) && n < |lines| && LastSignificant(lines, n) == Some(k)
    requires parts[k].guard == Some(true) && parts[n].ends
    ensures GuardRows(lines, parts, n, n) == GuardRows(lines, parts, k, n) + [lines[k].row]
    ensures GuardRows(lines, parts, n + 1, n + 1) == GuardRows(lines, parts, k, n)
  {
    forall q | k < q < n ensures !EndedAt(lines, parts, k, q) {
      NoneBetween(lines, k, n, q);
    }
    RowsSinceLast(lines, parts, k, n, n, n);
    assert EndedAt(lines, parts, k, n);
    RowsSinceLast(lines, parts, k, n, n, n + 1);
    RowsStay(lines, parts, k, n);
  }

  // What one more line does to the rows: it withdraws the last, adds its own, or neither.
  lemma RowsStep(lines: seq<SrcLine>, parts: seq<Part>, n: nat)
    requires PartsFit(lines, parts) && n < |lines|
    ensures
      var before, after := GuardRows(lines, parts, n, n), GuardRows(lines, parts, n + 1, n + 1);
      if Unconfirmed(lines, parts, n) && parts[n].ends then
        before != [] && after == before[..|before| - 1]
      else after == before + if parts[n].guard.Some? then [lines[n].row] else []
  {
    if Unconfirmed(lines, parts, n) && parts[n].ends {
      PopsThisGuard(lines, parts, LastSignificant(lines, n).value, n);
    } else {
      RowsStay(lines, parts, n, n);
    }
  }

  // The last significant line is a guard defined as 1.
  ghost predicate Unconfirmed(lines: seq<SrcLine>, parts: seq<Part>, n: nat)
    requires n <= |lines| == |parts|
  {
    match LastSignificant(lines, n)
    case None => false
    case Some(k) => parts[k].guard == Some(true)
  }

  // A guard's test is the only open conditional until its #endif: the depth test there
  // never fails.
  lemma GuardDepth(src: Bytes, lines: seq<SrcLine>, k: nat, n: nat)
    requires AllFit(src, lines) && n < |lines| && LastSignificant(lines, n) == Some(k)
    requires Guard(src, lines, k).Some?
    ensures CondDepth(src, lines, n) == 1
  {
    var p := GuardHasTest(src, lines, k);
    DepthStep(src, lines, p);
    DepthStays(src, lines, p, k, k);
    DepthStep(src, lines, k);
    DepthStays(src, lines, k, n, n);
  }

  lemma GuardHasTest(src: Bytes, lines: seq<SrcLine>, k: nat) returns (p: nat)
    requires AllFit(src, lines) && k < |lines| && Guard(src, lines, k).Some?
    ensures LastSignificant(lines, k) == Some(p)
    ensures DirectiveOf(src, lines[p]) == If && CondDepth(src, lines, p) == 0
    ensures DirectiveOf(src, lines[k]) == Plain
  {
    p := LastSignificant(lines, k).value;
    assert Tests(src, lines, p).Some?;
  }

  lemma DepthStep(src: Bytes, lines: seq<SrcLine>, k: nat)
    requires AllFit(src, lines) && k < |lines|
    ensures
      var depth := CondDepth(src, lines, k);
      CondDepth(src, lines, k + 1) ==
        match DirectiveOf(src, lines[k])
        case If => depth + 1
        case Endif => if depth == 0 then 0 else depth - 1
        case Else | Plain => depth
  {
    assert Marks(Directives(src, lines))[k] == MarkOf(DirectiveOf(src, lines[k]));
  }

  lemma {:induction false} DepthStays(src: Bytes, lines: seq<SrcLine>, p: nat, n: nat, j: nat)
    requires AllFit(src, lines) && n <= |lines| && LastSignificant(lines, n) == Some(p) && p < j <= n
    ensures CondDepth(src, lines, j) == CondDepth(src, lines, p + 1)
    decreases j
  {
    if j > p + 1 {
      NoneBetween(lines, p, n, j - 1);
      DepthStep(src, lines, j - 1);
      DepthStays(src, lines, p, n, j - 1);
    }
  }

  lemma PartsPlay(src: Bytes, lines: seq<SrcLine>)
    requires AllFit(src, lines)
    ensures PartsFit(lines, Parts(src, lines))
  {
  }

  ghost function Pending(src: Bytes, lines: seq<SrcLine>, n: nat): Option<Bytes>
    requires AllFit(src, lines) && n <= |lines|
  {
    match LastSignificant(lines, n)
    case None => None
    case Some(p) => Tests(src, lines, p)
  }

  ghost function DirectiveRows(lines: seq<SrcLine>, n: nat): seq<nat>
    requires n <= |lines|
  {
    if n == 0 then []
    else DirectiveRows(lines, n - 1) + if lines[n - 1].inDirective then [lines[n - 1].row] else []
  }

  // What preproc_rows carries from line to line.
  datatype RowState = RowState(guards: seq<nat>, depth: nat, pending: Option<Bytes>, unconfirmed: bool)

  ghost function StateAt(src: Bytes, lines: seq<SrcLine>, n: nat): RowState
    requires AllFit(src, lines) && n <= |lines|
  {
    var parts := Parts(src, lines);
    RowState(GuardRows(lines, parts, n, n), CondDepth(src, lines, n), Pending(src, lines, n),
             Unconfirmed(lines, parts, n))
  }

  lemma TestsByState(src: Bytes, lines: seq<SrcLine>, n: nat)
    requires AllFit(src, lines) && n < |lines| && !lines[n].spliced && lines[n].directive.Some?
    ensures
      var before, (word, rest) := StateAt(src, lines, n), DirectiveWord(src, lines[n]);
      Tests(src, lines, n) ==
        if word in {"if", "ifdef", "ifndef"} && before.depth == 0 && !Continued(lines, n) then GuardedName(word, rest)
        else None
  {
  }

  lemma GuardByState(src: Bytes, lines: seq<SrcLine>, n: nat)
    requires AllFit(src, lines) && n < |lines| && !lines[n].spliced && lines[n].directive.Some?
    ensures
      var before, (word, rest) := StateAt(src, lines, n), DirectiveWord(src, lines[n]);
      Guard(src, lines, n) ==
        if word != "define" || Continued(lines, n) then None
        else match before.pending case None => None case Some(name) => DefinesGuard(rest, name)
  {
  }

  lemma DepthByState(src: Bytes, lines: seq<SrcLine>, n: nat)
    requires AllFit(src, lines) && n < |lines| && !lines[n].spliced && lines[n].directive.Some?
    ensures
      var before, word := StateAt(src, lines, n), DirectiveWord(src, lines[n]).0;
      StateAt(src, lines, n + 1).depth ==
        if word in {"if", "ifdef", "ifndef"} then before.depth + 1
        else if word == "endif" && before.depth > 0 then before.depth - 1
        else before.depth
  {
  }

  // What a directive line does to the state.
  lemma DirectiveStep(src: Bytes, lines: seq<SrcLine>, n: nat)
    requires AllFit(src, lines) && n < |lines| && !lines[n].spliced && lines[n].directive.Some?
    ensures
      var before, now := StateAt(src, lines, n), StateAt(src, lines, n + 1);
      var word, guard := DirectiveWord(src, lines[n]).0, Guard(src, lines, n);
      && now.pending == Tests(src, lines, n)
      && now.unconfirmed == (guard == Some(true))
      && if before.unconfirmed && word == "endif" then
           before.depth == 1 && before.guards != [] && now.guards == before.guards[..|before.guards| - 1]
         else now.guards == before.guards + if guard.Some? then [lines[n].row] else []
  {
    var parts := Parts(src, lines);
    PartsPlay(src, lines);
    RowsStep(lines, parts, n);
    if Unconfirmed(lines, parts, n) {
      GuardDepth(src, lines, LastSignificant(lines, n).value, n);
    }
    assert parts[n] == Part(IsDirective(src, lines[n], "endif"), Guard(src, lines, n));
  }

  // The loop's body, for a directive line.
  method DirectiveLine(src: Bytes, lines: seq<SrcLine>, n: nat, before: RowState) returns (now: RowState)
    requires AllFit(src, lines) && n < |lines| && before == StateAt(src, lines, n)
    requires !lines[n].spliced && lines[n].directive.Some?
    ensures now == StateAt(src, lines, n + 1)
  {
    DirectiveStep(src, lines, n);
    TestsByState(src, lines, n);
    GuardByState(src, lines, n);
    DepthByState(src, lines, n);
    now := TakeDirective(DirectiveWord(src, lines[n]), Continued(lines, n), lines[n].row, before);
  }

  method TakeDirective(directive: (Bytes, Bytes), continued: bool, row: nat, before: RowState) returns (now: RowState)
    requires before.unconfirmed && directive.0 == "endif" ==> before.guards != []
    ensures
      var (word, rest) := directive;
      var guard :=
        if word != "define" || continued then None
        else match before.pending case None => None case Some(name) => DefinesGuard(rest, name);
      && now.unconfirmed == (guard == Some(true))
      && now.pending ==
         (if word in {"if", "ifdef", "ifndef"} && before.depth == 0 && !continued
          then GuardedName(word, rest) else None)
      && now.depth ==
         (if word in {"if", "ifdef", "ifndef"} then before.depth + 1
          else if word == "endif" && before.depth > 0 then before.depth - 1
          else before.depth)
      && now.guards ==
         (if word == "endif" && before.depth <= 1 && before.unconfirmed then before.guards[..|before.guards| - 1]
          else before.guards + if guard.Some? then [row] else [])
  {
    var RowState(guards, depth, pending, unconfirmed) := before;
    var open := pending;
    pending := None;
    var (word, rest) := directive;
    var guard := None;
    if word in {"if", "ifdef", "ifndef"} {
      if depth == 0 && !continued {
        pending := GuardedName(word, rest);
      }
      depth := depth + 1;
    } else if word == "endif" {
      depth := if depth == 0 then 0 else depth - 1;
      if depth == 0 && unconfirmed {
        guards := guards[..|guards| - 1];
      }
    } else if word == "define" && !continued {
      guard := match open case None => None case Some(name) => DefinesGuard(rest, name);
      if guard.Some? {
        guards := guards + [row];
      }
    }
    unconfirmed := guard == Some(true);
    now := RowState(guards, depth, pending, unconfirmed);
  }

  // preproc_rows.
  method PreprocRows(src: Bytes, lines: seq<SrcLine>) returns (guards: seq<nat>, directives: seq<nat>)
    requires AllFit(src, lines)
    ensures guards == GuardRows(lines, Parts(src, lines), |lines|, |lines|)
    ensures directives == DirectiveRows(lines, |lines|)
  {
    directives := [];
    for n := 0 to |lines|
      invariant directives == DirectiveRows(lines, n)
    {
      if lines[n].inDirective {
        directives := directives + [lines[n].row];
      }
    }
    var state := RowState([], 0, None, false);
    for n := 0 to |lines|
      invariant state == StateAt(src, lines, n)
    {
      if !lines[n].spliced && lines[n].directive.Some? {
        state := DirectiveLine(src, lines, n, state);
      } else {
        PlainLine(src, lines, n);
        if !lines[n].spliced && !lines[n].blank {
          state := state.(pending := None, unconfirmed := false);
        }
      }
    }
    guards := state.guards;
  }

  lemma PlainLine(src: Bytes, lines: seq<SrcLine>, n: nat)
    requires AllFit(src, lines) && n < |lines| && (lines[n].spliced || lines[n].directive.None?)
    ensures
      var before, now := StateAt(src, lines, n), StateAt(src, lines, n + 1);
      now == if Significant(lines[n]) then before.(pending := None, unconfirmed := false) else before
  {
    PartsPlay(src, lines);
    RowsStep(lines, Parts(src, lines), n);
  }
}
