// crates/ecp-analyzer/src/preproc_fallback.rs: brace_depths reads only the first branch of
// a conditional. What stands in a later branch can be exchanged for other lines, and the
// depths outside stay, up to one thing: the code that heads a brace is taken from the text
// before it, and that may reach back into the later branch. Here are the conditionals of a
// source made of three stretches, the middle one in a later branch, and its counted braces;
// Exchange compares two such sources.
module LaterText {
  import opened Options
  import opened PreprocText
  import opened Automaton
  import opened Tokens
  import opened Lexer
  import opened Nesting
  import opened DirectiveText
  import opened BraceDepth
  import opened Stretches

  // The branches after some more lines.
  ghost function Fold(branches: seq<bool>, conds: seq<Cond>): seq<bool> {
    if conds == [] then branches else NextBranches(Fold(branches, conds[..|conds| - 1]), conds[|conds| - 1])
  }

  lemma {:induction false} FoldIsBranches(conds: seq<Cond>, n: nat)
    requires n <= |conds|
    ensures Fold([], conds[..n]) == Branches(conds, n)
  {
    if n > 0 {
      FoldIsBranches(conds, n - 1);
      BranchStep(conds, n - 1);
      assert conds[..n][..n - 1] == conds[..n - 1];
    }
  }

  lemma {:induction false} FoldSplit(branches: seq<bool>, a: seq<Cond>, b: seq<Cond>)
    ensures Fold(branches, a + b) == Fold(Fold(branches, a), b)
  {
    if b == [] {
      assert a + b == a;
    } else {
      assert (a + b)[..|a + b| - 1] == a + b[..|b| - 1];
      FoldSplit(branches, a, b[..|b| - 1]);
    }
  }

  lemma SkippedIsFold(conds: seq<Cond>, n: nat)
    requires n <= |conds|
    ensures Skipped(conds, n) <==> true in Fold([], conds[..n])
  {
    FoldIsBranches(conds, n);
    AnyIsSkipped(conds, n);
  }

  // Every conditional opened here is closed here, and no other is.
  ghost predicate Contained(conds: seq<Cond>) {
    && Balance(Marks(conds), 0, |conds|) == 0
    && forall m {:trigger Balance(Marks(conds), 0, m)} :: 0 <= m <= |conds| ==> Balance(Marks(conds), 0, m) >= 0
  }

  // `now` has the branches of `outer` below its own; only the innermost of them can have
  // gone on to a later branch.
  ghost predicate Above(outer: seq<bool>, now: seq<bool>) {
    && |outer| <= |now|
    && (forall i :: 0 <= i < |outer| - 1 ==> now[i] == outer[i])
    && (outer != [] && outer[|outer| - 1] ==> now[|outer| - 1])
  }

  lemma {:induction false} ContainedFold(outer: seq<bool>, conds: seq<Cond>, m: nat)
    requires Contained(conds) && m <= |conds|
    ensures
      var now := Fold(outer, conds[..m]);
      |now| == |outer| + Balance(Marks(conds), 0, m) && Above(outer, now)
  {
    if m > 0 {
      ContainedFold(outer, conds, m - 1);
      assert conds[..m][..m - 1] == conds[..m - 1];
      assert Balance(Marks(conds), 0, m) >= 0;
    }
  }

  // Two lists of branches of which the same later lines are skipped.
  ghost predicate SameSkips(a: seq<bool>, b: seq<bool>) {
    |a| == |b| && (a == b || exists i :: 0 <= i < |a| && SkipsAt(a, b, i))
  }

  ghost predicate SkipsAt(a: seq<bool>, b: seq<bool>, i: nat)
    requires i < |a| == |b|
  {
    a[i] && b[i] && a[..i] == b[..i]
  }

  lemma SameSkipsStep(a: seq<bool>, b: seq<bool>, cond: Cond)
    requires SameSkips(a, b)
    ensures SameSkips(NextBranches(a, cond), NextBranches(b, cond))
  {
    if a != b {
      var i :| 0 <= i < |a| && SkipsAt(a, b, i);
      var c, d := NextBranches(a, cond), NextBranches(b, cond);
      if i < |c| {
        assert c[..i] == a[..i] && d[..i] == b[..i];
        assert SkipsAt(c, d, i);
      } else {
        assert c == d;
      }
    }
  }

  lemma {:induction false} SameSkipsFold(a: seq<bool>, b: seq<bool>, conds: seq<Cond>)
    requires SameSkips(a, b)
    ensures SameSkips(Fold(a, conds), Fold(b, conds))
    ensures true in Fold(a, conds) <==> true in Fold(b, conds)
  {
    if conds != [] {
      SameSkipsFold(a, b, conds[..|conds| - 1]);
      SameSkipsStep(Fold(a, conds[..|conds| - 1]), Fold(b, conds[..|conds| - 1]), conds[|conds| - 1]);
    }
  }

  // Two stretches in a later branch, each with its own conditionals, leave the same
  // lines skipped after them.
  lemma ContainedSameSkips(outer: seq<bool>, x: seq<Cond>, y: seq<Cond>)
    requires true in outer && Contained(x) && Contained(y)
    ensures SameSkips(Fold(outer, x), Fold(outer, y))
  {
    ContainedFold(outer, x, |x|);
    ContainedFold(outer, y, |y|);
    assert x[..|x|] == x && y[..|y|] == y;
    var i :| 0 <= i < |outer| && outer[i];
    assert SkipsAt(Fold(outer, x), Fold(outer, y), i);
  }

  lemma ContainedIsSkipped(outer: seq<bool>, conds: seq<Cond>, m: nat)
    requires true in outer && Contained(conds) && m <= |conds|
    ensures true in Fold(outer, conds[..m])
  {
    ContainedFold(outer, conds, m);
    var i :| 0 <= i < |outer| && outer[i];
    assert Fold(outer, conds[..m])[i];
  }

  // A source as scan_lines scans it.
  datatype Scan = Scan(src: Bytes, lines: seq<SrcLine>, braces: seq<Brace>)

  ghost predicate IsScan(scan: Scan) {
    Scanned(scan.src, scan.lines, scan.braces)
  }

  lemma LinesFit(src: Bytes, lines: seq<SrcLine>)
    requires LinesExact(src, lines)
    ensures AllFit(src, lines)
  {
    ScanLaysOut(src, lines);
  }

  ghost function CondsIn(scan: Scan): (conds: seq<Cond>)
    requires IsScan(scan)
    ensures |conds| == |scan.lines|
  {
    LinesFit(scan.src, scan.lines);
    Conds(scan.src, scan.lines)
  }

  ghost function DroppedIn(scan: Scan): iset<nat>
    requires IsScan(scan)
  {
    LaterBranches(scan.lines, CondsIn(scan))
  }

  ghost function CountedIn(scan: Scan): seq<Brace>
    requires IsScan(scan)
  {
    Counted(scan.braces, DroppedIn(scan))
  }

  // What brace_depths returns.
  ghost function DepthsIn(scan: Scan): seq<(nat, int)>
    requires IsScan(scan)
  {
    DepthsOf(scan.src, CountedIn(scan), |CountedIn(scan)|)
  }

  // The stretch t of s starts at line n and byte d, afresh.
  ghost predicate Within(s: Scan, n: nat, d: nat, t: Scan) {
    IsScan(s) && IsScan(t) && Starts(s.src, s.lines, n, d, t.src, t.lines)
  }

  lemma CondsInside(s: Scan, n: nat, d: nat, t: Scan, k: nat)
    requires Within(s, n, d, t) && k < |t.lines| && EndsInside(s.src, d, t.src, t.lines[k])
    ensures n + k < |s.lines| && CondsIn(s)[n + k] == CondsIn(t)[k]
  {
    LineInside(s.src, s.lines, n, d, t.src, t.lines, k);
    LinesFit(t.src, t.lines);
    CondInside(s.src, d, t.src, t.lines[k], n);
  }

  lemma FoldAlike(a: seq<Cond>, n: nat, b: seq<Cond>, k: nat)
    requires n + k <= |a| && k <= |b| && forall j :: 0 <= j < k ==> a[n + j] == b[j]
    ensures Fold([], a[..n + k]) == Fold(Fold([], a[..n]), b[..k])
  {
    assert a[..n + k] == a[..n] + b[..k];
    FoldSplit([], a[..n], b[..k]);
  }

  lemma EndsEarlier(s: Bytes, d: nat, t: Scan, j: nat, k: nat)
    requires IsScan(t) && j <= k < |t.lines| && EndsInside(s, d, t.src, t.lines[k])
    ensures EndsInside(s, d, t.src, t.lines[j])
  {
    if j < k {
      LinesAscend(t.src, t.lines, j, k);
      ScanLaysOut(t.src, t.lines);
    }
  }

  // The first k conditionals of the stretch, after those before it.
  lemma FoldInside(s: Scan, n: nat, d: nat, t: Scan, k: nat)
    requires Within(s, n, d, t) && k <= |t.lines| && (k > 0 ==> EndsInside(s.src, d, t.src, t.lines[k - 1]))
    ensures n + k <= |s.lines|
    ensures Fold([], CondsIn(s)[..n + k]) == Fold(Fold([], CondsIn(s)[..n]), CondsIn(t)[..k])
  {
    if k > 0 {
      LineInside(s.src, s.lines, n, d, t.src, t.lines, k - 1);
    }
    forall j: nat | j < k ensures CondsIn(s)[n + j] == CondsIn(t)[j] {
      EndsEarlier(s.src, d, t, j, k - 1);
      CondsInside(s, n, d, t, j);
    }
    FoldAlike(CondsIn(s), n, CondsIn(t), k);
  }

  // Line k of t is skipped when t follows the branches `outer`.
  ghost predicate SkippedAfter(outer: seq<bool>, t: Scan, k: nat)
    requires IsScan(t) && k < |t.lines|
  {
    true in Fold(outer, CondsIn(t)[..k + 1])
  }

  lemma DroppedIsSkipped(s: Scan, n: nat, at: nat)
    requires IsScan(s) && n < |s.lines| && OnLine(s.lines[n], at)
    ensures at in DroppedIn(s) <==> SkippedAfter([], s, n)
  {
    ScanLaysOut(s.src, s.lines);
    SkippedByLine(s.lines, CondsIn(s), n, at);
    SkippedIsFold(CondsIn(s), n + 1);
  }

  // A byte on line k of the stretch is dropped or not by the branches up to that line.
  lemma DroppedInside(s: Scan, n: nat, d: nat, t: Scan, k: nat, at: nat)
    requires Within(s, n, d, t) && k < |t.lines| && EndsInside(s.src, d, t.src, t.lines[k]) && OnLine(t.lines[k], at)
    ensures d + at in DroppedIn(s) <==> SkippedAfter(Fold([], CondsIn(s)[..n]), t, k)
  {
    SkippedInside(s, n, d, t, k);
    DroppedIsSkipped(s, n + k, d + at);
  }

  lemma SkippedInside(s: Scan, n: nat, d: nat, t: Scan, k: nat)
    requires Within(s, n, d, t) && k < |t.lines| && EndsInside(s.src, d, t.src, t.lines[k])
    ensures n + k < |s.lines| && s.lines[n + k] == Moved(t.lines[k], d, n)
    ensures SkippedAfter([], s, n + k) <==> SkippedAfter(Fold([], CondsIn(s)[..n]), t, k)
  {
    LineInside(s.src, s.lines, n, d, t.src, t.lines, k);
    FoldInside(s, n, d, t, k + 1);
    assert n + k + 1 == n + (k + 1);
  }

  ghost predicate LiesAfter(outer: seq<bool>, t: Scan, at: nat)
    requires IsScan(t)
  {
    exists k :: 0 <= k < |t.lines| && OnLine(t.lines[k], at) && SkippedAfter(outer, t, k)
  }

  // The bytes of t that lie in a later branch when t follows the branches `outer`.
  ghost function DroppedAfter(outer: seq<bool>, t: Scan): iset<nat>
    requires IsScan(t)
  {
    iset at: nat | LiesAfter(outer, t, at)
  }

  ghost function CountedAfter(outer: seq<bool>, t: Scan): seq<Brace>
    requires IsScan(t)
  {
    Counted(t.braces, DroppedAfter(outer, t))
  }

  lemma DroppedByLine(outer: seq<bool>, t: Scan, k: nat, at: nat)
    requires IsScan(t) && k < |t.lines| && OnLine(t.lines[k], at)
    ensures at in DroppedAfter(outer, t) <==> SkippedAfter(outer, t, k)
  {
    ScanLaysOut(t.src, t.lines);
    if at in DroppedAfter(outer, t) {
      var l :| 0 <= l < |t.lines| && OnLine(t.lines[l], at) && SkippedAfter(outer, t, l);
      assert l == k;
    }
  }

  // The line of a brace; it does not reach past the stretch.
  lemma LineOfBrace(t: Scan, j: nat) returns (k: nat)
    requires IsScan(t) && j < |t.braces|
    ensures k < |t.lines| && OnLine(t.lines[k], t.braces[j].at) && t.braces[j].at < |t.src|
    ensures t.src[|t.src| - 1] == '\n' ==> t.lines[k].end < |t.src|
  {
    BracesAscend(t.src, t.lines, |t.lines|);
    assert IsRecorded(t.src, t.lines, t.braces[j]);
    k :| 0 <= k < |t.lines| && OnLine(t.lines[k], t.braces[j].at);
    assert LineIsExact(t.src, t.lines, k);
  }

  lemma {:induction false} CountedMoved(braces: seq<Brace>, there: iset<nat>, here: iset<nat>, d: nat, from: nat)
    requires forall k :: 0 <= k < |braces| ==> (d + braces[k].at in there <==> braces[k].at in here)
    ensures Counted(MovedBraces(braces, d, from), there) == MovedBraces(Counted(braces, here), d, from)
  {
    if braces != [] {
      var rest, last := braces[..|braces| - 1], braces[|braces| - 1];
      assert braces == rest + [last];
      CountedMoved(rest, there, here, d, from);
      var moved := MovedBraces(braces, d, from);
      assert moved[..|moved| - 1] == MovedBraces(rest, d, from) && moved[|moved| - 1] == MovedBrace(last, d, from);
      if last.at !in here {
        assert MovedBraces([last], d, from) == [MovedBrace(last, d, from)];
        MovedAppend(Counted(rest, here), [last], d, from);
      }
    }
  }

  // The counted braces of a stretch are those it has after the branches before it.
  lemma CountedInside(s: Scan, n: nat, d: nat, t: Scan, outer: seq<bool>, from: nat)
    requires Within(s, n, d, t) && outer == Fold([], CondsIn(s)[..n])
    ensures Counted(MovedBraces(t.braces, d, from), DroppedIn(s)) == MovedBraces(CountedAfter(outer, t), d, from)
  {
    forall j | 0 <= j < |t.braces|
      ensures d + t.braces[j].at in DroppedIn(s) <==> t.braces[j].at in DroppedAfter(outer, t)
    {
      var k := LineOfBrace(t, j);
      DroppedInside(s, n, d, t, k, t.braces[j].at);
      DroppedByLine(outer, t, k, t.braces[j].at);
    }
    CountedMoved(t.braces, DroppedIn(s), DroppedAfter(outer, t), d, from);
  }

  // What the lines but the empty last one do to the conditionals.
  ghost function BodyConds(t: Scan): seq<Cond>
    requires IsScan(t)
  {
    CondsIn(t)[..|t.lines| - 1]
  }

  lemma NoneCounted(outer: seq<bool>, t: Scan)
    requires IsScan(t) && WholeLines(t.src) && true in outer && Contained(BodyConds(t))
    ensures CountedAfter(outer, t) == []
  {
    forall brace | brace in t.braces ensures brace.at in DroppedAfter(outer, t) {
      var j :| 0 <= j < |t.braces| && t.braces[j] == brace;
      var k := LineOfBrace(t, j);
      assert t.lines[|t.lines| - 1].end == |t.src|;
      DroppedByLine(outer, t, k, brace.at);
      ContainedIsSkipped(outer, BodyConds(t), k + 1);
      assert BodyConds(t)[..k + 1] == CondsIn(t)[..k + 1];
    }
    NothingCounted(t.braces, DroppedAfter(outer, t));
  }

  lemma SameDropped(outer: seq<bool>, other: seq<bool>, t: Scan)
    requires IsScan(t) && SameSkips(outer, other)
    ensures CountedAfter(outer, t) == CountedAfter(other, t)
  {
    forall k | 0 <= k < |t.lines| ensures SkippedAfter(outer, t, k) <==> SkippedAfter(other, t, k) {
      SameSkipsFold(outer, other, CondsIn(t)[..k + 1]);
    }
    assert DroppedAfter(outer, t) == DroppedAfter(other, t);
  }

  // `one` is made of a, x and b; a and x are whole lines.
  ghost predicate MadeOf(one: Scan, a: Scan, x: Scan, b: Scan) {
    && IsScan(one) && IsScan(a) && IsScan(x) && IsScan(b)
    && WholeLines(a.src) && WholeLines(x.src)
    && Inside(one.src, 0, a.src) && Inside(one.src, |a.src|, x.src) && Inside(one.src, BByte(a, x), b.src)
    && |one.src| == |a.src| + |x.src| + |b.src|
  }

  lemma PartsInside(a: Bytes, x: Bytes, b: Bytes)
    requires a == "" || a[|a| - 1] == '\n'
    requires x == "" || x[|x| - 1] == '\n'
    ensures
      var src := a + x + b;
      Inside(src, 0, a) && Inside(src, |a|, x) && Inside(src, |a| + |x|, b)
  {
    var src := a + x + b;
    assert a != "" ==> src[|a| - 1] == a[|a| - 1];
    assert x != "" ==> src[|a| + |x| - 1] == x[|x| - 1];
    assert x == "" && a != "" ==> src[|a| + |x| - 1] == a[|a| - 1];
  }

  // Where x and b start.
  function XLine(a: Scan): nat
    requires a.lines != []
  {
    |a.lines| - 1
  }

  function BLine(a: Scan, x: Scan): nat
    requires a.lines != [] && x.lines != []
  {
    XLine(a) + |x.lines| - 1
  }

  function BByte(a: Scan, x: Scan): nat {
    |a.src| + |x.src|
  }

  lemma NextWithin(s: Scan, n: nat, d: nat, t: Scan, u: Scan)
    requires Within(s, n, d, t) && WholeLines(t.src) && IsScan(u) && Inside(s.src, d + |t.src|, u.src)
    ensures Within(s, n + |t.lines| - 1, d + |t.src|, u)
  {
    NextStretch(s.src, s.lines, n, d, t.src, t.lines);
  }

  lemma PartsWithin(one: Scan, a: Scan, x: Scan, b: Scan)
    requires MadeOf(one, a, x, b)
    ensures Within(one, 0, 0, a) && Within(one, XLine(a), |a.src|, x) && Within(one, BLine(a, x), BByte(a, x), b)
  {
    StartIs(one.src, one.lines, 0);
    NextWithin(one, 0, 0, a, x);
    NextWithin(one, XLine(a), |a.src|, x, b);
  }

  // Whole lines add all their braces, before the line they end with.
  lemma WholeBraces(s: Scan, n: nat, d: nat, t: Scan)
    requires Within(s, n, d, t) && WholeLines(t.src)
    ensures n + |t.lines| - 1 <= |s.lines|
    ensures
      var before := BracesOf(s.src, s.lines, n);
      BracesOf(s.src, s.lines, n + |t.lines| - 1).braces ==
      before.braces + MovedBraces(t.braces, d, before.headFrom)
  {
    var last := |t.lines| - 1;
    if last > 0 {
      StartIs(t.src, t.lines, last);
    }
    BracesInside(s.src, s.lines, n, d, t.src, t.lines, last);
    BodyBraces(t);
  }

  lemma BodyBraces(t: Scan)
    requires IsScan(t) && WholeLines(t.src)
    ensures BracesOf(t.src, t.lines, |t.lines| - 1).braces == t.braces
  {
    var last := |t.lines| - 1;
    LastIsEmpty(t.src, t.lines);
    BracesNext(t.src, t.lines, last);
    assert BracesOf(t.src, t.lines, last).braces + [] == BracesOf(t.src, t.lines, last).braces;
  }

  // The last stretch of a source adds the rest of its braces.
  lemma LastBraces(s: Scan, n: nat, d: nat, t: Scan)
    requires Within(s, n, d, t) && d + |t.src| == |s.src|
    ensures
      var before := BracesOf(s.src, s.lines, n);
      s.braces == before.braces + MovedBraces(t.braces, d, before.headFrom)
  {
    var last := |t.lines| - 1;
    BracesInside(s.src, s.lines, n, d, t.src, t.lines, |t.lines|);
    LineInside(s.src, s.lines, n, d, t.src, t.lines, last);
    if n + last < |s.lines| - 1 {
      StartIs(s.src, s.lines, n + last + 1);
    }
  }

  lemma MovedNowhere(braces: seq<Brace>)
    ensures MovedBraces(braces, 0, 0) == braces
  {
  }

  // The byte after the last ';', '{' or '}' of one before b.
  ghost function HeadBefore(one: Scan, n: nat): nat
    requires IsScan(one) && n <= |one.lines|
  {
    BracesOf(one.src, one.lines, n).headFrom
  }

  lemma BracesOfA(one: Scan, a: Scan, x: Scan, b: Scan)
    requires MadeOf(one, a, x, b)
    ensures XLine(a) <= |one.lines| && BracesOf(one.src, one.lines, XLine(a)).braces == a.braces
  {
    PartsWithin(one, a, x, b);
    WholeBraces(one, 0, 0, a);
    MovedNowhere(a.braces);
    assert [] + a.braces == a.braces;
  }

  lemma BracesOfX(one: Scan, a: Scan, x: Scan, b: Scan)
    requires MadeOf(one, a, x, b)
    ensures XLine(a) <= |one.lines| && BLine(a, x) <= |one.lines|
    ensures BracesOf(one.src, one.lines, BLine(a, x)).braces ==
              a.braces + MovedBraces(x.braces, |a.src|, HeadBefore(one, XLine(a)))
  {
    PartsWithin(one, a, x, b);
    BracesOfA(one, a, x, b);
    WholeBraces(one, XLine(a), |a.src|, x);
  }

  lemma BracesOfParts(one: Scan, a: Scan, x: Scan, b: Scan)
    requires MadeOf(one, a, x, b)
    ensures XLine(a) <= |one.lines| && BLine(a, x) <= |one.lines|
    ensures one.braces ==
              a.braces + MovedBraces(x.braces, |a.src|, HeadBefore(one, XLine(a))) +
              MovedBraces(b.braces, BByte(a, x), HeadBefore(one, BLine(a, x)))
  {
    PartsWithin(one, a, x, b);
    BracesOfX(one, a, x, b);
    LastBraces(one, BLine(a, x), BByte(a, x), b);
  }

  // The branches that b follows.
  ghost function BranchesBefore(a: Scan, x: Scan): seq<bool>
    requires IsScan(a) && IsScan(x)
  {
    Fold(Fold([], BodyConds(a)), BodyConds(x))
  }

  lemma FoldBody(s: Scan, n: nat, d: nat, t: Scan)
    requires Within(s, n, d, t) && WholeLines(t.src)
    ensures n + |t.lines| - 1 <= |s.lines|
    ensures Fold([], CondsIn(s)[..n + |t.lines| - 1]) == Fold(Fold([], CondsIn(s)[..n]), BodyConds(t))
  {
    if |t.lines| > 1 {
      StartIs(t.src, t.lines, |t.lines| - 1);
    }
    FoldInside(s, n, d, t, |t.lines| - 1);
  }

  // a ends in a later branch, and x keeps its conditionals to itself.
  ghost predicate LaterPart(a: Scan, x: Scan)
    requires IsScan(a) && IsScan(x)
  {
    Skipped(CondsIn(a), XLine(a)) && Contained(BodyConds(x))
  }

  lemma CountedOfA(one: Scan, a: Scan, x: Scan, b: Scan)
    requires MadeOf(one, a, x, b)
    ensures Counted(a.braces, DroppedIn(one)) == CountedAfter([], a)
  {
    PartsWithin(one, a, x, b);
    CountedInside(one, 0, 0, a, [], 0);
    MovedNowhere(a.braces);
    MovedNowhere(CountedAfter([], a));
  }

  lemma CountedOfX(one: Scan, a: Scan, x: Scan, b: Scan, from: nat)
    requires MadeOf(one, a, x, b) && LaterPart(a, x)
    ensures Counted(MovedBraces(x.braces, |a.src|, from), DroppedIn(one)) == []
  {
    PartsWithin(one, a, x, b);
    FoldBody(one, 0, 0, a);
    CountedInside(one, XLine(a), |a.src|, x, Fold([], BodyConds(a)), from);
    SkippedIsFold(CondsIn(a), XLine(a));
    NoneCounted(Fold([], BodyConds(a)), x);
  }

  lemma FoldBefore(one: Scan, a: Scan, x: Scan, b: Scan)
    requires MadeOf(one, a, x, b)
    ensures BLine(a, x) <= |one.lines| && Fold([], CondsIn(one)[..BLine(a, x)]) == BranchesBefore(a, x)
  {
    PartsWithin(one, a, x, b);
    FoldBody(one, 0, 0, a);
    FoldBody(one, XLine(a), |a.src|, x);
  }

  lemma CountedOfB(one: Scan, a: Scan, x: Scan, b: Scan, from: nat)
    requires MadeOf(one, a, x, b)
    ensures Counted(MovedBraces(b.braces, BByte(a, x), from), DroppedIn(one)) ==
              MovedBraces(CountedAfter(BranchesBefore(a, x), b), BByte(a, x), from)
  {
    PartsWithin(one, a, x, b);
    FoldBefore(one, a, x, b);
    CountedInside(one, BLine(a, x), BByte(a, x), b, BranchesBefore(a, x), from);
  }

  lemma CountedAround(a: seq<Brace>, x: seq<Brace>, b: seq<Brace>, dropped: iset<nat>)
    requires Counted(x, dropped) == []
    ensures Counted(a + x + b, dropped) == Counted(a, dropped) + Counted(b, dropped)
  {
    CountedAppend(a + x, b, dropped);
    CountedAppend(a, x, dropped);
  }

  // Of a source whose later branch holds x, the braces of x are not counted.
  lemma CountedOfParts(one: Scan, a: Scan, x: Scan, b: Scan)
    requires MadeOf(one, a, x, b) && LaterPart(a, x)
    ensures BLine(a, x) <= |one.lines|
    ensures CountedIn(one) ==
              CountedAfter([], a) +
              MovedBraces(CountedAfter(BranchesBefore(a, x), b), BByte(a, x), HeadBefore(one, BLine(a, x)))
  {
    BracesOfParts(one, a, x, b);
    CountedOfA(one, a, x, b);
    CountedOfX(one, a, x, b, HeadBefore(one, XLine(a)));
    CountedOfB(one, a, x, b, HeadBefore(one, BLine(a, x)));
    CountedAround(a.braces, MovedBraces(x.braces, |a.src|, HeadBefore(one, XLine(a))),
                  MovedBraces(b.braces, BByte(a, x), HeadBefore(one, BLine(a, x))), DroppedIn(one));
  }
}
