// preproc_fallback.rs: which lines a conditional skips, told by the text of its directives.
module Conditionals {
  import opened Options
  import opened PreprocText
  import opened Tokens
  import opened Lexer
  import opened Nesting
  import opened DirectiveText
  import opened BraceDepth
  import opened Stretches
  import opened LaterText
  import opened Spelling

  ghost predicate Letters(word: Bytes) {
    word != "" && forall i :: 0 <= i < |word| ==> IsAlpha(word[i])
  }

  // The directive of the line is `word`, with `rest` after it: behind the '#' stand blanks,
  // the word, and no further letter.
  ghost predicate Says(src: Bytes, line: SrcLine, word: Bytes, rest: Bytes) {
    && line.directive.Some? && line.directive.value <= line.end <= |src|
    && (rest != "" ==> !IsAlpha(rest[0]))
    && exists b :: AllBlank(b) && src[line.directive.value..line.end] == b + word + rest
  }

  ghost predicate SaysWord(src: Bytes, line: SrcLine, word: Bytes) {
    exists rest :: Says(src, line, word, rest)
  }

  // Lines that open a conditional, start its next branch, or close it.
  ghost predicate Opens(src: Bytes, line: SrcLine) {
    SaysWord(src, line, "if") || SaysWord(src, line, "ifdef") || SaysWord(src, line, "ifndef")
  }

  ghost predicate Continues(src: Bytes, line: SrcLine) {
    || SaysWord(src, line, "elif") || SaysWord(src, line, "else")
    || SaysWord(src, line, "elifdef") || SaysWord(src, line, "elifndef")
  }

  ghost predicate Closes(src: Bytes, line: SrcLine) {
    SaysWord(src, line, "endif")
  }

  lemma SaysIff(src: Bytes, line: SrcLine, word: Bytes, rest: Bytes)
    requires DirectiveFits(src, line) && line.directive.Some? && Letters(word)
    ensures DirectiveWord(src, line) == (word, rest) <==> Says(src, line, word, rest)
  {
    if DirectiveWord(src, line) == (word, rest) {
      WordSays(src, line, word, rest);
    }
    if Says(src, line, word, rest) {
      SaysIsWord(src, line, word, rest);
    }
  }

  lemma WordSays(src: Bytes, line: SrcLine, word: Bytes, rest: Bytes)
    requires DirectiveFits(src, line) && line.directive.Some? && DirectiveWord(src, line) == (word, rest)
    ensures Says(src, line, word, rest)
  {
    var lo, hi := line.directive.value, line.end;
    var from := FirstSolid(src, lo, hi);
    var to := AlphaEnd(src, from, hi);
    AlphaEndStops(src, from, hi);
    assert src[lo..hi] == src[lo..from] + src[from..to] + src[to..hi];
  }

  lemma SaysIsWord(src: Bytes, line: SrcLine, word: Bytes, rest: Bytes)
    requires DirectiveFits(src, line) && line.directive.Some? && Letters(word) && Says(src, line, word, rest)
    ensures DirectiveWord(src, line) == (word, rest)
  {
    var lo, hi := line.directive.value, line.end;
    var b :| AllBlank(b) && src[lo..hi] == b + word + rest;
    var from, to := lo + |b|, lo + |b| + |word|;
    PartsOfSlice(src, lo, hi, b, word, rest);
    assert from < hi ==> src[from] == src[from..to][0];
    FirstSolidIs(src, lo, from, hi);
    AlphaEndIs(src, from, to, hi);
  }

  lemma PartsOfSlice(src: Bytes, lo: nat, hi: nat, b: Bytes, word: Bytes, rest: Bytes)
    requires lo <= hi <= |src| && src[lo..hi] == b + word + rest
    ensures
      var from, to := lo + |b|, lo + |b| + |word|;
      && to <= hi && src[from..to] == word && src[to..hi] == rest && (to < hi ==> src[to] == rest[0])
      && (forall k :: lo <= k < from ==> src[k] == b[k - lo])
      && (forall k :: from <= k < to ==> src[k] == word[k - from])
  {
    var text := src[lo..hi];
    var from, to := lo + |b|, lo + |b| + |word|;
    assert |text| == hi - lo;
    assert text[|b|..|b| + |word|] == word && text[|b| + |word|..] == rest;
    forall k | lo <= k < from ensures src[k] == b[k - lo] {
      assert text[k - lo] == b[k - lo];
    }
    forall k | from <= k < to ensures src[k] == word[k - from] {
      assert text[k - lo] == word[k - from];
    }
  }

  lemma SaysWordIff(src: Bytes, line: SrcLine, word: Bytes)
    requires DirectiveFits(src, line) && Letters(word)
    ensures SaysWord(src, line, word) <==> line.directive.Some? && DirectiveWord(src, line).0 == word
  {
    if line.directive.Some? {
      SaysIff(src, line, word, DirectiveWord(src, line).1);
      if rest :| Says(src, line, word, rest) {
        SaysIff(src, line, word, rest);
      }
    }
  }

  lemma AreLetters()
    ensures Letters("if") && Letters("ifdef") && Letters("ifndef") && Letters("endif") && Letters("define")
    ensures Letters("elif") && Letters("else") && Letters("elifdef") && Letters("elifndef")
  {
  }

  // What the scan takes a line for.
  lemma CondSays(src: Bytes, line: SrcLine)
    requires DirectiveFits(src, line)
    ensures CondOf(src, line) == If <==> Opens(src, line)
    ensures CondOf(src, line) == Else <==> Continues(src, line)
    ensures CondOf(src, line) == Endif <==> Closes(src, line)
  {
    AreLetters();
    SaysWordIff(src, line, "if");
    SaysWordIff(src, line, "ifdef");
    SaysWordIff(src, line, "ifndef");
    SaysWordIff(src, line, "elif");
    SaysWordIff(src, line, "else");
    SaysWordIff(src, line, "elifdef");
    SaysWordIff(src, line, "elifndef");
    SaysWordIff(src, line, "endif");
  }

  // The directives as marks that nest.
  ghost function TextMarks(src: Bytes, lines: seq<SrcLine>): seq<Mark> {
    seq(|lines|, k requires 0 <= k < |lines| =>
      if Opens(src, lines[k]) then Open else if Closes(src, lines[k]) then Close else Other)
  }

  lemma MarksAreText(src: Bytes, lines: seq<SrcLine>)
    requires AllFit(src, lines)
    ensures TextMarks(src, lines) == Marks(Conds(src, lines))
  {
    forall k | 0 <= k < |lines| ensures TextMarks(src, lines)[k] == Marks(Conds(src, lines))[k] {
      CondSays(src, lines[k]);
    }
  }

  // Line q starts a later branch of the conditional opened at line p, which is open at n.
  ghost predicate SkippedBy(src: Bytes, lines: seq<SrcLine>, n: nat, p: nat, q: nat)
    requires n < |lines|
  {
    && p < q <= n && OpenAt(TextMarks(src, lines), p, n + 1)
    && Continues(src, lines[q]) && Balance(TextMarks(src, lines), p, q) == 1
  }

  // Line n lies in a second or later branch: of a conditional that is open there, some line
  // up to n starts another branch.
  ghost predicate InLaterText(src: Bytes, lines: seq<SrcLine>, n: nat)
    requires n < |lines|
  {
    exists o: nat, m: nat :: SkippedBy(src, lines, n, o, m)
  }

  lemma SkippedIsText(src: Bytes, lines: seq<SrcLine>, n: nat)
    requires AllFit(src, lines) && n < |lines|
    ensures Skipped(Conds(src, lines), n + 1) <==> InLaterText(src, lines, n)
  {
    var conds := Conds(src, lines);
    MarksAreText(src, lines);
    forall m | 0 <= m < |lines| ensures conds[m] == Else <==> Continues(src, lines[m]) {
      CondSays(src, lines[m]);
    }
    if InLaterText(src, lines, n) {
      var o: nat, m: nat :| SkippedBy(src, lines, n, o, m);
      assert conds[m] == Else && InLaterBranch(conds, o, n + 1);
    }
    if Skipped(conds, n + 1) {
      var o :| 0 <= o < n + 1 && OpenAt(Marks(conds), o, n + 1) && InLaterBranch(conds, o, n + 1);
      var m :| o < m < n + 1 && conds[m] == Else && Balance(Marks(conds), o, m) == 1;
      assert SkippedBy(src, lines, n, o, m);
    }
  }

  // The depths have an entry for a brace.
  ghost predicate HasEntry(scan: Scan, at: nat)
    requires IsScan(scan)
  {
    exists k :: 0 <= k < |DepthsIn(scan)| && DepthsIn(scan)[k].0 == at
  }

  // A brace has one exactly if it lies in no later branch.
  lemma EntryIff(scan: Scan, brace: Brace, n: nat)
    requires IsScan(scan) && brace in scan.braces && n < |scan.lines| && OnLine(scan.lines[n], brace.at)
    ensures HasEntry(scan, brace.at) <==> !InLaterText(scan.src, scan.lines, n)
  {
    ScanLaysOut(scan.src, scan.lines);
    SkippedByLine(scan.lines, CondsIn(scan), n, brace.at);
    SkippedIsText(scan.src, scan.lines, n);
    CountedAscends(scan.braces, DroppedIn(scan));
    CountedHasEntry(scan, brace);
  }

  lemma CountedHasEntry(scan: Scan, brace: Brace)
    requires IsScan(scan) && brace in scan.braces && Ascend(scan.braces)
    ensures HasEntry(scan, brace.at) <==> brace in CountedIn(scan)
  {
    var counted := CountedIn(scan);
    CountedAscends(scan.braces, DroppedIn(scan));
    if HasEntry(scan, brace.at) {
      var k :| 0 <= k < |counted| && DepthsIn(scan)[k].0 == brace.at;
      assert counted[k] in scan.braces;
      var i, j :| 0 <= i < |scan.braces| && 0 <= j < |scan.braces| &&
                  scan.braces[i] == counted[k] && scan.braces[j] == brace;
      assert i == j;
    }
    if brace in counted {
      var k :| 0 <= k < |counted| && counted[k] == brace;
      assert DepthsIn(scan)[k].0 == brace.at;
    }
  }

  lemma {:induction false} BalanceSplit(marks: seq<Mark>, a: nat, b: nat, c: nat)
    requires a <= b <= c <= |marks|
    ensures Balance(marks, a, c) == Balance(marks, a, b) + Balance(marks, b, c)
    decreases c
  {
    if b < c {
      BalanceSplit(marks, a, b, c - 1);
    }
  }

  // The lines from a to b close what they open, and nothing else.
  ghost predicate IsBranch(marks: seq<Mark>, a: nat, b: nat) {
    && a <= b <= |marks| && Balance(marks, a, b) == 0
    && forall j {:trigger Balance(marks, a, j)} :: a <= j <= b ==> Balance(marks, a, j) >= 0
  }

  // A conditional: opened at line o, its first branch up to line m, which starts another,
  // and closed at line e.
  ghost predicate IsConditional(src: Bytes, lines: seq<SrcLine>, o: nat, m: nat, e: nat) {
    && o < m < e < |lines|
    && Opens(src, lines[o]) && Continues(src, lines[m]) && Closes(src, lines[e])
    && IsBranch(TextMarks(src, lines), o + 1, m) && IsBranch(TextMarks(src, lines), m + 1, e)
  }

  ghost predicate IsPlain(src: Bytes, line: SrcLine) {
    !Opens(src, line) && !Continues(src, line) && !Closes(src, line)
  }

  // A directive says one word.
  lemma OneWord(src: Bytes, line: SrcLine)
    requires DirectiveFits(src, line)
    ensures !(Opens(src, line) && Continues(src, line)) && !(Opens(src, line) && Closes(src, line))
    ensures !(Continues(src, line) && Closes(src, line))
  {
    CondSays(src, line);
  }

  lemma ConditionalBalance(src: Bytes, lines: seq<SrcLine>, o: nat, m: nat, e: nat, j: nat)
    requires AllFit(src, lines) && IsConditional(src, lines, o, m, e) && o < j <= e + 1
    ensures
      var marks := TextMarks(src, lines);
      && (j <= e ==> Balance(marks, o, j) >= 1) && Balance(marks, o, m) == 1 && Balance(marks, o, e + 1) == 0
  {
    var marks := TextMarks(src, lines);
    OneWord(src, lines[m]);
    OneWord(src, lines[e]);
    assert Balance(marks, o, o) == 0 && Balance(marks, o, o + 1) == 1;
    BalanceSplit(marks, o, o + 1, m);
    assert Balance(marks, o, m + 1) == 1;
    BalanceSplit(marks, o, m + 1, e);
    if j <= m {
      BalanceSplit(marks, o, o + 1, j);
    } else if j <= e {
      BalanceSplit(marks, o, m + 1, j);
    }
  }

  // Nothing from the line that starts the second branch to the close is counted ...
  lemma LaterBranchIsSkipped(src: Bytes, lines: seq<SrcLine>, o: nat, m: nat, e: nat, n: nat)
    requires AllFit(src, lines) && IsConditional(src, lines, o, m, e) && m <= n < e
    ensures InLaterText(src, lines, n)
  {
    var marks := TextMarks(src, lines);
    ConditionalBalance(src, lines, o, m, e, o + 1);
    forall j: nat | o < j <= n + 1 ensures Balance(marks, o, j) >= 1 {
      ConditionalBalance(src, lines, o, m, e, j);
    }
    assert SkippedBy(src, lines, n, o, m);
  }

  lemma SkippedEarlier(src: Bytes, lines: seq<SrcLine>, o: nat, n: nat, p: nat, q: nat)
    requires o <= n < |lines| && SkippedBy(src, lines, n, p, q) && q <= o
    ensures InLaterText(src, lines, o)
  {
    assert SkippedBy(src, lines, o, p, q);
  }

  // ... the first branch is as far as what surrounds the conditional is ...
  lemma FirstBranchCounts(src: Bytes, lines: seq<SrcLine>, o: nat, n: nat)
    requires AllFit(src, lines) && o <= n < |lines| && Opens(src, lines[o])
    requires forall k :: o < k <= n ==> IsPlain(src, lines[k])
    ensures InLaterText(src, lines, n) ==> InLaterText(src, lines, o)
  {
    if InLaterText(src, lines, n) {
      var p: nat, q: nat :| SkippedBy(src, lines, n, p, q);
      SkippedEarlier(src, lines, o, n, p, q);
    }
  }

  // ... and so is what follows the close.
  lemma CountsAgain(src: Bytes, lines: seq<SrcLine>, o: nat, m: nat, e: nat, n: nat)
    requires AllFit(src, lines) && IsConditional(src, lines, o, m, e) && e <= n < |lines|
    requires forall k :: e < k <= n ==> IsPlain(src, lines[k])
    ensures InLaterText(src, lines, n) ==> InLaterText(src, lines, o)
  {
    if InLaterText(src, lines, n) {
      var p: nat, q: nat :| SkippedBy(src, lines, n, p, q);
      OpenedBefore(src, lines, o, m, e, n, p);
      OneWord(src, lines[e]);
      if o < q {
        ContinuesOuter(src, lines, o, m, e, p, q);
      }
      SkippedEarlier(src, lines, o, n, p, q);
    }
  }

  // What is open after the close was opened before the conditional.
  lemma OpenedBefore(src: Bytes, lines: seq<SrcLine>, o: nat, m: nat, e: nat, n: nat, p: nat)
    requires AllFit(src, lines) && IsConditional(src, lines, o, m, e) && e <= n < |lines|
    requires forall k :: e < k <= n ==> IsPlain(src, lines[k])
    requires OpenAt(TextMarks(src, lines), p, n + 1)
    ensures p < o
  {
    var marks := TextMarks(src, lines);
    OneWord(src, lines[p]);
    ConditionalBalance(src, lines, o, m, e, e + 1);
    if o < p < m {
      BalanceSplit(marks, o + 1, p, m);
    } else if m < p < e {
      BalanceSplit(marks, m + 1, p, e);
    }
  }

  // Inside the conditional no line continues one around it.
  lemma ContinuesOuter(src: Bytes, lines: seq<SrcLine>, o: nat, m: nat, e: nat, p: nat, q: nat)
    requires AllFit(src, lines) && IsConditional(src, lines, o, m, e) && p < o <= q < e
    requires OpenAt(TextMarks(src, lines), p, e)
    requires Continues(src, lines[q])
    ensures Balance(TextMarks(src, lines), p, q) >= 2
  {
    var marks := TextMarks(src, lines);
    OneWord(src, lines[o]);
    ConditionalBalance(src, lines, o, m, e, q);
    BalanceSplit(marks, p, o, q);
    assert Balance(marks, p, o) >= 1;
  }
}
