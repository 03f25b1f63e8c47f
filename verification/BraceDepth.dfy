// crates/ecp-analyzer/src/preproc_fallback.rs: brace_depths and depth_at.
module BraceDepth {
  import opened Options
  import opened PreprocText
  import opened Tokens
  import opened Lexer
  import opened Nesting
  import opened DirectiveText

  // What a line does to the conditionals around it.
  datatype Cond = If | Else | Endif | Plain

  function CondOf(src: Bytes, line: SrcLine): Cond
    requires DirectiveFits(src, line)
  {
    if line.directive.None? then Plain
    else
      var word := DirectiveWord(src, line).0;
      if word in {"if", "ifdef", "ifndef"} then If
      else if word in {"elif", "else", "elifdef", "elifndef"} then Else
      else if word == "endif" then Endif
      else Plain
  }

  ghost predicate AllFit(src: Bytes, lines: seq<SrcLine>) {
    forall k :: 0 <= k < |lines| ==> DirectiveFits(src, lines[k])
  }

  ghost function Conds(src: Bytes, lines: seq<SrcLine>): seq<Cond>
    requires AllFit(src, lines)
  {
    seq(|lines|, k requires 0 <= k < |lines| => CondOf(src, lines[k]))
  }

  function MarkOf(cond: Cond): Mark {
    match cond
    case If => Open
    case Endif => Close
    case Else | Plain => Other
  }

  ghost function Marks(conds: seq<Cond>): seq<Mark> {
    seq(|conds|, k requires 0 <= k < |conds| => MarkOf(conds[k]))
  }

  // The conditional opened at line o has reached its second or a later branch before
  // line n: one of the lines between is an #elif or #else, and of this conditional.
  ghost predicate InLaterBranch(conds: seq<Cond>, o: nat, n: nat)
    requires n <= |conds|
  {
    exists m {:trigger conds[m]} :: o < m < n && conds[m] == Else && Balance(Marks(conds), o, m) == 1
  }

  // Some conditional around what follows line n - 1 is in a later branch.
  ghost predicate Skipped(conds: seq<Cond>, n: nat)
    requires n <= |conds|
  {
    exists o :: 0 <= o < n && OpenAt(Marks(conds), o, n) && InLaterBranch(conds, o, n)
  }

  // For each open conditional, whether it is in a later branch.
  ghost function Branches(conds: seq<Cond>, n: nat): seq<bool>
    requires n <= |conds|
  {
    var stack := Stack(Marks(conds), n);
    seq(|stack|, i requires 0 <= i < |stack| => InLaterBranch(conds, stack[i], n))
  }

  function NextBranches(branches: seq<bool>, cond: Cond): seq<bool> {
    match cond
    case If => branches + [false]
    case Else => if branches == [] then [] else branches[|branches| - 1 := true]
    case Endif => if branches == [] then [] else branches[..|branches| - 1]
    case Plain => branches
  }

  lemma BranchStep(conds: seq<Cond>, n: nat)
    requires n < |conds|
    ensures Branches(conds, n + 1) == NextBranches(Branches(conds, n), conds[n])
  {
    var branches := Branches(conds, n);
    var marks := Marks(conds);
    var stack, next := Stack(marks, n), Stack(marks, n + 1);
    var after := NextBranches(branches, conds[n]);
    StackBalances(marks, n);
    assert |after| == |next|;
    forall i | 0 <= i < |next| ensures after[i] <==> InLaterBranch(conds, next[i], n + 1) {
      if i < |stack| {
        assert next[i] == stack[i] && Balance(marks, stack[i], n) == |stack| - i;
        LaterStep(conds, stack[i], n);
      }
    }
  }

  // An #elif or #else belongs to the innermost open conditional only.
  lemma LaterStep(conds: seq<Cond>, o: nat, n: nat)
    requires o < n < |conds|
    ensures InLaterBranch(conds, o, n + 1) <==>
              InLaterBranch(conds, o, n) || (conds[n] == Else && Balance(Marks(conds), o, n) == 1)
  {
    if InLaterBranch(conds, o, n) {
      var m :| o < m < n && conds[m] == Else && Balance(Marks(conds), o, m) == 1;
      assert conds[m] == Else;
    }
  }

  lemma AnyIsSkipped(conds: seq<Cond>, n: nat)
    requires n <= |conds|
    ensures true in Branches(conds, n) <==> Skipped(conds, n)
  {
    var branches := Branches(conds, n);
    var stack := Stack(Marks(conds), n);
    if true in branches {
      var i :| 0 <= i < |branches| && branches[i];
      StackIsOpen(Marks(conds), n, stack[i]);
    }
    if Skipped(conds, n) {
      var o :| 0 <= o < n && OpenAt(Marks(conds), o, n) && InLaterBranch(conds, o, n);
      StackIsOpen(Marks(conds), n, o);
      var i :| 0 <= i < |stack| && stack[i] == o;
      assert branches[i];
    }
  }

  predicate OnLine(line: SrcLine, at: nat) {
    line.start <= at < line.end
  }

  ghost predicate OnSomeLine(lines: seq<SrcLine>, at: nat) {
    exists n :: 0 <= n < |lines| && OnLine(lines[n], at)
  }

  ghost predicate LinesApart(lines: seq<SrcLine>) {
    forall k, l :: 0 <= k < l < |lines| ==> lines[k].end < lines[l].start
  }

  ghost predicate BracesLaidOut(lines: seq<SrcLine>, braces: seq<Brace>) {
    Ascend(braces) && forall k :: 0 <= k < |braces| ==> OnSomeLine(lines, braces[k].at)
  }

  // What brace_depths relies on of the lines and braces it is given ...
  ghost predicate Layout(src: Bytes, lines: seq<SrcLine>, braces: seq<Brace>) {
    AllFit(src, lines) && Placed(src, lines, braces)
  }

  ghost predicate Placed(src: Bytes, lines: seq<SrcLine>, braces: seq<Brace>) {
    && LinesApart(lines) && (forall k :: 0 <= k < |lines| ==> lines[k].start <= lines[k].end)
    && BracesLaidOut(lines, braces) && HeadsFit(braces)
    && forall k :: 0 <= k < |braces| ==> braces[k].at <= |src|
  }

  // ... and scan_lines provides.
  lemma ScanLaysOut(src: Bytes, lines: seq<SrcLine>)
    requires LinesExact(src, lines)
    ensures Layout(src, lines, BracesOf(src, lines, |lines|).braces)
  {
    var braces := BracesOf(src, lines, |lines|).braces;
    forall k: nat | k < |lines| ensures DirectiveFits(src, lines[k]) && lines[k].start <= lines[k].end {
      assert LineIsExact(src, lines, k);
    }
    forall k, l | 0 <= k < l < |lines| ensures lines[k].end < lines[l].start {
      LinesAscend(src, lines, k, l);
    }
    BracesAscend(src, lines, |lines|);
    forall k | 0 <= k < |braces| ensures OnSomeLine(lines, braces[k].at) && braces[k].at <= |src| {
      assert IsRecorded(src, lines, braces[k]) && braces[k].at <= |src|;
      var n :| 0 <= n < |lines| && lines[n].start <= braces[k].at < lines[n].end && !lines[n].inDirective;
      assert OnLine(lines[n], braces[k].at);
    }
    BracesHeadsFit(src, lines, |lines|);
  }

  // The byte lies in a later branch of some conditional.
  ghost predicate SkippedAt(lines: seq<SrcLine>, conds: seq<Cond>, at: nat)
    requires |conds| == |lines|
  {
    exists n :: 0 <= n < |lines| && OnLine(lines[n], at) && Skipped(conds, n + 1)
  }

  lemma SkippedByLine(lines: seq<SrcLine>, conds: seq<Cond>, n: nat, at: nat)
    requires |conds| == |lines| && LinesApart(lines) && n < |lines| && OnLine(lines[n], at)
    ensures SkippedAt(lines, conds, at) <==> Skipped(conds, n + 1)
  {
    if SkippedAt(lines, conds, at) {
      var m :| 0 <= m < |lines| && OnLine(lines[m], at) && Skipped(conds, m + 1);
      assert m == n;
    }
  }

  ghost function LaterBranches(lines: seq<SrcLine>, conds: seq<Cond>): iset<nat>
    requires |conds| == |lines|
  {
    iset at: nat | SkippedAt(lines, conds, at)
  }

  // The braces that do not lie in later branches.
  ghost function Counted(braces: seq<Brace>, dropped: iset<nat>): seq<Brace> {
    if braces == [] then []
    else
      var last := braces[|braces| - 1];
      Counted(braces[..|braces| - 1], dropped) + if last.at in dropped then [] else [last]
  }

  lemma CountedStep(braces: seq<Brace>, dropped: iset<nat>, k: nat)
    requires k < |braces|
    ensures Counted(braces[..k + 1], dropped) ==
              Counted(braces[..k], dropped) + if braces[k].at in dropped then [] else [braces[k]]
  {
    assert braces[..k + 1][..k] == braces[..k];
  }

  lemma {:induction false} CountedAppend(a: seq<Brace>, b: seq<Brace>, dropped: iset<nat>)
    ensures Counted(a + b, dropped) == Counted(a, dropped) + Counted(b, dropped)
  {
    if b == [] {
      assert a + b == a;
    } else {
      assert (a + b)[..|a + b| - 1] == a + b[..|b| - 1];
      CountedAppend(a, b[..|b| - 1], dropped);
    }
  }

  lemma {:induction false} NothingCounted(later: seq<Brace>, dropped: iset<nat>)
    requires forall brace :: brace in later ==> brace.at in dropped
    ensures Counted(later, dropped) == []
  {
    if later != [] {
      assert later[|later| - 1] in later;
      NothingCounted(later[..|later| - 1], dropped);
    }
  }

  lemma {:induction false} CountedAscends(braces: seq<Brace>, dropped: iset<nat>)
    requires Ascend(braces)
    ensures Ascend(Counted(braces, dropped))
    ensures forall brace :: brace in Counted(braces, dropped) <==> brace in braces && brace.at !in dropped
  {
    if braces != [] {
      var rest := braces[..|braces| - 1];
      CountedAscends(rest, dropped);
      assert braces == rest + [braces[|braces| - 1]];
    }
  }

  ghost function BraceMarks(braces: seq<Brace>): seq<Mark> {
    seq(|braces|, k requires 0 <= k < |braces| => if braces[k].open then Open else Close)
  }

  // Whether the open brace adds depth.
  predicate Counts(src: Bytes, brace: Brace) {
    brace.headFrom <= brace.at <= |src| && !HeadsFileScope(src[brace.headFrom..brace.at])
  }

  // The opens that add depth and that none of the first n braces closes.
  ghost function Unmatched(src: Bytes, counted: seq<Brace>, n: nat): set<nat>
    requires n <= |counted|
  {
    set o: nat | o < n && OpenAt(BraceMarks(counted), o, n) && Counts(src, counted[o])
  }

  // The depths brace_depths promises.
  ghost function DepthsOf(src: Bytes, counted: seq<Brace>, n: nat): (out: seq<(nat, int)>)
    requires n <= |counted|
  {
    seq(n, k requires 0 <= k < n => (counted[k].at, |Unmatched(src, counted, k + 1)|))
  }

  function Trues(flags: seq<bool>): nat {
    if flags == [] then 0
    else Trues(flags[..|flags| - 1]) + if flags[|flags| - 1] then 1 else 0
  }

  // For each open brace, whether it adds depth.
  ghost function OpenBraces(src: Bytes, counted: seq<Brace>, n: nat): seq<bool>
    requires n <= |counted|
  {
    var stack := Stack(BraceMarks(counted), n);
    seq(|stack|, i requires 0 <= i < |stack| => Counts(src, counted[stack[i]]))
  }

  lemma {:induction false} TruesCount(stack: seq<nat>, flags: seq<bool>, members: set<nat>)
    requires Ascending(stack) && |stack| == |flags|
    requires forall x: nat :: x in members <==> exists i :: 0 <= i < |stack| && stack[i] == x && flags[i]
    ensures |members| == Trues(flags)
  {
    if stack == [] {
      assert members == {};
    } else {
      var n := |stack| - 1;
      var last := stack[n];
      forall x: nat ensures x in members - {last} <==> exists i :: 0 <= i < n && stack[..n][i] == x && flags[..n][i] {
        if x in members - {last} {
          var i :| 0 <= i < |stack| && stack[i] == x && flags[i];
          assert stack[..n][i] == x && flags[..n][i];
        }
      }
      TruesCount(stack[..n], flags[..n], members - {last});
      assert last in members <==> flags[n];
    }
  }

  lemma DepthIsUnmatched(src: Bytes, counted: seq<Brace>, n: nat)
    requires n <= |counted|
    ensures Trues(OpenBraces(src, counted, n)) == |Unmatched(src, counted, n)|
  {
    var flags := OpenBraces(src, counted, n);
    var marks := BraceMarks(counted);
    var stack := Stack(marks, n);
    StackAscends(marks, n);
    forall x: nat
      ensures x in Unmatched(src, counted, n) <==> exists i :: 0 <= i < |stack| && stack[i] == x && flags[i]
    {
      StackIsOpen(marks, n, x);
    }
    TruesCount(stack, flags, Unmatched(src, counted, n));
  }

  // What one brace does to the open ones.
  function NextOpen(openBraces: seq<bool>, open: bool, counts: bool): seq<bool> {
    if open then openBraces + [counts]
    else if openBraces == [] then []
    else openBraces[..|openBraces| - 1]
  }

  lemma OpenStep(src: Bytes, counted: seq<Brace>, n: nat)
    requires n < |counted|
    ensures OpenBraces(src, counted, n + 1) ==
              NextOpen(OpenBraces(src, counted, n), counted[n].open, Counts(src, counted[n]))
  {
  }

  lemma TruesAppend(flags: seq<bool>, flag: bool)
    ensures Trues(flags + [flag]) == Trues(flags) + if flag then 1 else 0
  {
    assert (flags + [flag])[..|flags|] == flags;
  }

  // One counted brace of the inner loop.
  method CountBrace(
      src: Bytes, ghost counted: seq<Brace>, ghost n: nat, brace: Brace, openBraces: seq<bool>, depth: int)
    returns (nowOpen: seq<bool>, nowDepth: int)
    requires n < |counted| && counted[n] == brace && brace.headFrom <= brace.at <= |src|
    requires openBraces == OpenBraces(src, counted, n) && depth == Trues(openBraces)
    ensures nowOpen == OpenBraces(src, counted, n + 1) && nowDepth == Trues(nowOpen)
  {
    OpenStep(src, counted, n);
    nowOpen, nowDepth := openBraces, depth;
    if brace.open {
      var counts := Counts(src, brace);
      TruesAppend(openBraces, counts);
      nowOpen := openBraces + [counts];
      nowDepth := depth + if counts then 1 else 0;
    } else if openBraces != [] {
      var counts := openBraces[|openBraces| - 1];
      nowOpen := openBraces[..|openBraces| - 1];
      nowDepth := depth - if counts then 1 else 0;
    }
  }

  // The outer loop has taken the first n lines and k braces.
  ghost predicate Taken(lines: seq<SrcLine>, braces: seq<Brace>, n: nat, k: nat) {
    && n <= |lines| && k <= |braces|
    && forall j, l :: k <= j < |braces| && 0 <= l < n ==> !OnLine(lines[l], braces[j].at)
  }

  lemma OnThisLine(src: Bytes, lines: seq<SrcLine>, braces: seq<Brace>, n: nat, k: nat)
    requires Placed(src, lines, braces) && Taken(lines, braces, n, k) && n < |lines| && k < |braces|
    ensures braces[k].at < lines[n].end ==> OnLine(lines[n], braces[k].at)
    ensures braces[k].at >= lines[n].end ==> Taken(lines, braces, n + 1, k)
  {
    assert OnSomeLine(lines, braces[k].at);
    var m :| 0 <= m < |lines| && OnLine(lines[m], braces[k].at);
    assert m >= n;
    if m > n {
      assert lines[n].end < lines[m].start;
    }
  }

  // The counted braces, and what is known of them after k braces.
  ghost predicate DepthState(
      src: Bytes, braces: seq<Brace>, dropped: iset<nat>, k: nat, openBraces: seq<bool>, depth: int,
      out: seq<(nat, int)>)
  {
    var counted := Counted(braces, dropped);
    && k <= |braces|
    && var n := |Counted(braces[..k], dropped)|;
    && n <= |counted|
    && openBraces == OpenBraces(src, counted, n) && depth == Trues(openBraces)
    && out == DepthsOf(src, counted, n)
  }

  lemma NextCounted(braces: seq<Brace>, dropped: iset<nat>, k: nat)
    requires k < |braces|
    ensures
      var counted, n := Counted(braces, dropped), |Counted(braces[..k], dropped)|;
      && |Counted(braces[..k + 1], dropped)| == n + (if braces[k].at in dropped then 0 else 1) <= |counted|
      && (braces[k].at !in dropped ==> counted[n] == braces[k])
  {
    CountedStep(braces, dropped, k);
    CountedAppend(braces[..k + 1], braces[k + 1..], dropped);
    assert braces[..k + 1] + braces[k + 1..] == braces;
  }

  // One brace of the inner loop.
  method TakeBrace(
      src: Bytes, braces: seq<Brace>, ghost dropped: iset<nat>, k: nat, skipped: bool,
      openBraces: seq<bool>, depth: int, out: seq<(nat, int)>)
      returns (nowOpen: seq<bool>, nowDepth: int, nowOut: seq<(nat, int)>)
    requires k < |braces| && braces[k].headFrom <= braces[k].at <= |src| && (skipped <==> braces[k].at in dropped)
    requires DepthState(src, braces, dropped, k, openBraces, depth, out)
    ensures DepthState(src, braces, dropped, k + 1, nowOpen, nowDepth, nowOut)
  {
    NextCounted(braces, dropped, k);
    nowOpen, nowDepth, nowOut := openBraces, depth, out;
    if !skipped {
      ghost var counted, n := Counted(braces, dropped), |Counted(braces[..k], dropped)|;
      nowOpen, nowDepth := CountBrace(src, counted, n, braces[k], openBraces, depth);
      DepthIsUnmatched(src, counted, n + 1);
      nowOut := out + [(braces[k].at, nowDepth)];
    }
  }

  // What both loops keep: the braces before the k-th are done, and none is left behind on
  // the first n lines.
  ghost predicate LoopState(
      src: Bytes, lines: seq<SrcLine>, conds: seq<Cond>, braces: seq<Brace>, n: nat, k: nat,
      openBraces: seq<bool>, depth: int, out: seq<(nat, int)>)
    requires |conds| == |lines|
  {
    Taken(lines, braces, n, k) && DepthState(src, braces, LaterBranches(lines, conds), k, openBraces, depth, out)
  }

  // One brace of line n.
  method TakeOnLine(
      src: Bytes, lines: seq<SrcLine>, ghost conds: seq<Cond>, braces: seq<Brace>, ghost n: nat, k: nat, skipped: bool,
      openBefore: seq<bool>, depthBefore: int, outBefore: seq<(nat, int)>)
      returns (openBraces: seq<bool>, depth: int, out: seq<(nat, int)>)
    requires |conds| == |lines| && Placed(src, lines, braces) && n < |lines| && skipped == Skipped(conds, n + 1)
    requires LoopState(src, lines, conds, braces, n, k, openBefore, depthBefore, outBefore)
    requires k < |braces| && braces[k].at < lines[n].end
    ensures LoopState(src, lines, conds, braces, n, k + 1, openBraces, depth, out)
  {
    BraceOnLine(src, lines, conds, braces, n, k);
    openBraces, depth, out :=
      TakeBrace(src, braces, LaterBranches(lines, conds), k, skipped, openBefore, depthBefore, outBefore);
  }

  // The inner loop: the braces of line n.
  method TakeLine(
      src: Bytes, lines: seq<SrcLine>, ghost conds: seq<Cond>, braces: seq<Brace>, n: nat, start: nat, skipped: bool,
      openBefore: seq<bool>, depthBefore: int, outBefore: seq<(nat, int)>)
      returns (k: nat, openBraces: seq<bool>, depth: int, out: seq<(nat, int)>)
    requires |conds| == |lines| && Placed(src, lines, braces) && n < |lines| && skipped == Skipped(conds, n + 1)
    requires LoopState(src, lines, conds, braces, n, start, openBefore, depthBefore, outBefore)
    ensures LoopState(src, lines, conds, braces, n + 1, k, openBraces, depth, out)
  {
    k, openBraces, depth, out := start, openBefore, depthBefore, outBefore;
    while k < |braces| && braces[k].at < lines[n].end
      invariant LoopState(src, lines, conds, braces, n, k, openBraces, depth, out)
    {
      openBraces, depth, out := TakeOnLine(src, lines, conds, braces, n, k, skipped, openBraces, depth, out);
      k := k + 1;
    }
    LineTaken(src, lines, braces, n, k);
  }

  lemma LineTaken(src: Bytes, lines: seq<SrcLine>, braces: seq<Brace>, n: nat, k: nat)
    requires Placed(src, lines, braces) && Taken(lines, braces, n, k) && n < |lines|
    requires k < |braces| ==> braces[k].at >= lines[n].end
    ensures Taken(lines, braces, n + 1, k)
  {
    if k < |braces| {
      OnThisLine(src, lines, braces, n, k);
    }
  }

  lemma BraceOnLine(src: Bytes, lines: seq<SrcLine>, conds: seq<Cond>, braces: seq<Brace>, n: nat, k: nat)
    requires |conds| == |lines| && Placed(src, lines, braces) && Taken(lines, braces, n, k)
    requires n < |lines| && k < |braces| && braces[k].at < lines[n].end
    ensures braces[k].headFrom <= braces[k].at <= |src| && Taken(lines, braces, n, k + 1)
    ensures Skipped(conds, n + 1) <==> braces[k].at in LaterBranches(lines, conds)
  {
    OnThisLine(src, lines, braces, n, k);
    SkippedByLine(lines, conds, n, braces[k].at);
  }

  lemma AllTaken(src: Bytes, lines: seq<SrcLine>, braces: seq<Brace>, k: nat)
    requires Placed(src, lines, braces) && Taken(lines, braces, |lines|, k)
    ensures k == |braces|
  {
    assert k < |braces| ==> OnSomeLine(lines, braces[k].at);
  }

  lemma NoneTaken(src: Bytes, lines: seq<SrcLine>, conds: seq<Cond>, braces: seq<Brace>)
    requires |conds| == |lines|
    ensures LoopState(src, lines, conds, braces, 0, 0, [], 0, [])
  {
  }

  lemma DepthsTaken(
      src: Bytes, lines: seq<SrcLine>, conds: seq<Cond>, braces: seq<Brace>, k: nat, openBraces: seq<bool>, depth: int,
      out: seq<(nat, int)>)
    requires |conds| == |lines| && Placed(src, lines, braces)
    requires LoopState(src, lines, conds, braces, |lines|, k, openBraces, depth, out)
    ensures
      var counted := Counted(braces, LaterBranches(lines, conds));
      out == DepthsOf(src, counted, |counted|)
  {
    AllTaken(src, lines, braces, k);
    assert braces[..|braces|] == braces;
  }

  // One line of the outer loop.
  method NextBranchesAndLine(
      src: Bytes, lines: seq<SrcLine>, ghost conds: seq<Cond>, braces: seq<Brace>, n: nat, start: nat,
      branches: seq<bool>, openBefore: seq<bool>, depthBefore: int, outBefore: seq<(nat, int)>)
      returns (k: nat, nowBranches: seq<bool>, openBraces: seq<bool>, depth: int, out: seq<(nat, int)>)
    requires |conds| == |lines| && Placed(src, lines, braces) && n < |lines| && branches == Branches(conds, n)
    requires DirectiveFits(src, lines[n]) && conds[n] == CondOf(src, lines[n])
    requires LoopState(src, lines, conds, braces, n, start, openBefore, depthBefore, outBefore)
    ensures nowBranches == Branches(conds, n + 1)
    ensures LoopState(src, lines, conds, braces, n + 1, k, openBraces, depth, out)
  {
    BranchStep(conds, n);
    nowBranches := NextBranches(branches, CondOf(src, lines[n]));
    AnyIsSkipped(conds, n + 1);
    k, openBraces, depth, out :=
      TakeLine(src, lines, conds, braces, n, start, true in nowBranches, openBefore, depthBefore, outBefore);
  }

  // brace_depths.
  method BraceDepths(src: Bytes, lines: seq<SrcLine>, braces: seq<Brace>) returns (out: seq<(nat, int)>)
    requires Layout(src, lines, braces)
    ensures
      var counted := Counted(braces, LaterBranches(lines, Conds(src, lines)));
      out == DepthsOf(src, counted, |counted|)
  {
    ghost var conds := Conds(src, lines);
    NoneTaken(src, lines, conds, braces);
    var k, branches, openBraces, depth := 0, [], [], 0;
    out := [];
    for n := 0 to |lines|
      invariant branches == Branches(conds, n)
      invariant LoopState(src, lines, conds, braces, n, k, openBraces, depth, out)
    {
      k, branches, openBraces, depth, out :=
        NextBranchesAndLine(src, lines, conds, braces, n, k, branches, openBraces, depth, out);
    }
    DepthsTaken(src, lines, conds, braces, k, openBraces, depth, out);
  }

  // Preproc::depths.
  method Depths(src: Bytes) returns (lines: seq<SrcLine>, braces: seq<Brace>, out: seq<(nat, int)>)
    ensures LinesExact(src, lines) && braces == BracesOf(src, lines, |lines|).braces
    ensures AllFit(src, lines)
    ensures
      var counted := Counted(braces, LaterBranches(lines, Conds(src, lines)));
      out == DepthsOf(src, counted, |counted|)
  {
    lines, braces := ScanLines(src);
    ScanLaysOut(src, lines);
    out := BraceDepths(src, lines, braces);
  }

  ghost predicate AtsAscend(depths: seq<(nat, int)>) {
    forall i, j :: 0 <= i < j < |depths| ==> depths[i].0 < depths[j].0
  }

  // partition_point: the number of entries before the offset, by halving.
  function PartitionPoint(depths: seq<(nat, int)>, offset: nat, lo: nat, hi: nat): (p: nat)
    requires AtsAscend(depths) && lo <= hi <= |depths|
    requires forall k :: 0 <= k < lo ==> depths[k].0 < offset
    requires forall k :: hi <= k < |depths| ==> depths[k].0 >= offset
    ensures p <= |depths|
    ensures forall k :: 0 <= k < p ==> depths[k].0 < offset
    ensures forall k :: p <= k < |depths| ==> depths[k].0 >= offset
    decreases hi - lo
  {
    if lo == hi then lo
    else
      var mid := (lo + hi) / 2;
      if depths[mid].0 < offset then PartitionPoint(depths, offset, mid + 1, hi)
      else PartitionPoint(depths, offset, lo, mid)
  }

  // depth_at.
  function DepthAt(depths: seq<(nat, int)>, offset: nat): int
    requires AtsAscend(depths)
  {
    var before := PartitionPoint(depths, offset, 0, |depths|);
    if before == 0 then 0 else depths[before - 1].1
  }

  // The depth of the last entry before the offset, by a scan from the end.
  function ScanDepth(depths: seq<(nat, int)>, offset: nat): int {
    if depths == [] then 0
    else if depths[|depths| - 1].0 < offset then depths[|depths| - 1].1
    else ScanDepth(depths[..|depths| - 1], offset)
  }

  lemma {:induction false} DepthAtIsScan(depths: seq<(nat, int)>, offset: nat)
    requires AtsAscend(depths)
    ensures DepthAt(depths, offset) == ScanDepth(depths, offset)
  {
    if depths != [] && depths[|depths| - 1].0 >= offset {
      var rest := depths[..|depths| - 1];
      DepthAtIsScan(rest, offset);
      OneCut(depths, offset, PartitionPoint(depths, offset, 0, |depths|), PartitionPoint(rest, offset, 0, |rest|));
    }
  }

  ghost predicate CutAt(depths: seq<(nat, int)>, offset: nat, p: nat) {
    p <= |depths| && forall k :: 0 <= k < |depths| ==> (k < p <==> depths[k].0 < offset)
  }

  lemma OneCut(depths: seq<(nat, int)>, offset: nat, p: nat, q: nat)
    requires CutAt(depths, offset, p) && CutAt(depths, offset, q)
    ensures p == q
  {
    var k := if p < q then p else q;
    if k < |depths| {
      assert k < p <==> depths[k].0 < offset;
    }
  }

  // The depth at an offset: the counting opens before it that no counted brace before
  // it closes.
  lemma DepthAtIsUnmatched(src: Bytes, lines: seq<SrcLine>, braces: seq<Brace>, offset: nat)
    requires Layout(src, lines, braces)
    ensures
      var counted := Counted(braces, LaterBranches(lines, Conds(src, lines)));
      var depths := DepthsOf(src, counted, |counted|);
      && AtsAscend(depths)
      && exists n: nat :: BeforeOffset(counted, offset, n) && DepthAt(depths, offset) == |Unmatched(src, counted, n)|
  {
    CountedAscends(braces, LaterBranches(lines, Conds(src, lines)));
    DepthAtCounted(src, Counted(braces, LaterBranches(lines, Conds(src, lines))), offset);
  }

  // The first n of the braces are those before the offset.
  ghost predicate BeforeOffset(counted: seq<Brace>, offset: nat, n: nat) {
    n <= |counted| && forall k :: 0 <= k < |counted| ==> (k < n <==> counted[k].at < offset)
  }

  lemma DepthAtCounted(src: Bytes, counted: seq<Brace>, offset: nat)
    requires Ascend(counted)
    ensures
      var depths := DepthsOf(src, counted, |counted|);
      && AtsAscend(depths)
      && exists n: nat :: BeforeOffset(counted, offset, n) && DepthAt(depths, offset) == |Unmatched(src, counted, n)|
  {
    var depths := DepthsOf(src, counted, |counted|);
    var n := PartitionPoint(depths, offset, 0, |depths|);
    forall k | 0 <= k < |counted| ensures k < n <==> counted[k].at < offset {
      assert depths[k].0 == counted[k].at;
    }
    assert Unmatched(src, counted, 0) == {};
    assert BeforeOffset(counted, offset, n);
  }
}
