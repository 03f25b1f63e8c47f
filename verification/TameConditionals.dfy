// crates/ecp-analyzer/src/preproc_fallback.rs: a conditional written out as text. For every
// spelling of its directives and any lines around and in it, the depths have an entry for
// exactly the braces outside its second branch.
module TameConditionals {
  import opened Options
  import opened PreprocText
  import opened Tokens
  import opened Lexer
  import opened Nesting
  import opened DirectiveText
  import opened BraceDepth
  import opened LaterText
  import opened Spelling
  import opened Conditionals
  import opened TameText

  lemma TameSays(scan: Scan, lines: seq<Bytes>, k: nat, word: Bytes, rest: Bytes)
    requires IsScan(scan) && TameLines(lines) && scan.src == Joined(lines) && k < |lines|
    requires lines[k] == "#" + word + rest && IsWord(word, rest)
    ensures |scan.lines| == |lines| && Says(scan.src, scan.lines[k], word, rest)
  {
    LineOf(scan, lines, k);
    RecordedSays(scan, k, StartOf(lines, k), lines[k], word, rest);
  }

  lemma RecordedSays(scan: Scan, k: nat, start: nat, line: Bytes, word: Bytes, rest: Bytes)
    requires IsScan(scan) && k < |scan.lines| && RecordedAs(scan, k, start, line) && LineAt(scan.src, start, line)
    requires line == "#" + word + rest && IsWord(word, rest)
    ensures Says(scan.src, scan.lines[k], word, rest)
  {
    TextSays(scan.src, scan.lines[k], line, word, rest);
  }

  lemma TextSays(src: Bytes, line: SrcLine, text: Bytes, word: Bytes, rest: Bytes)
    requires line.start < line.end <= |src| && line.directive == Some(line.start + 1)
    requires src[line.start..line.end] == text == "#" + word + rest && IsWord(word, rest)
    ensures Says(src, line, word, rest)
  {
    var b := "";
    assert src[line.start + 1..line.end] == text[1..] == b + word + rest;
  }

  lemma TameSaysNothing(scan: Scan, lines: seq<Bytes>, k: nat)
    requires IsScan(scan) && TameLines(lines) && scan.src == Joined(lines) && k < |lines|
    requires lines[k] == "" || lines[k][0] != '#'
    ensures |scan.lines| == |lines| && IsPlain(scan.src, scan.lines[k])
  {
    LineOf(scan, lines, k);
  }

  ghost predicate NoHash(lines: seq<Bytes>) {
    forall k :: 0 <= k < |lines| ==> lines[k] == "" || lines[k][0] != '#'
  }

  predicate OpensWord(word: Bytes) {
    word == "if" || word == "ifdef" || word == "ifndef"
  }

  predicate NextWord(word: Bytes) {
    word == "elif" || word == "else" || word == "elifdef" || word == "elifndef"
  }

  // A directive and what stands behind it.
  datatype Directive = Directive(word: Bytes, rest: Bytes)

  function LineText(d: Directive): Bytes {
    "#" + d.word + d.rest
  }

  // The parts of a conditional with two branches, and the lines around it.
  datatype Conditional = Conditional(
    before: seq<Bytes>, head: Directive, first: seq<Bytes>, next: Directive, later: seq<Bytes>,
    close: Directive, after: seq<Bytes>)

  function LinesOf(c: Conditional): seq<Bytes> {
    c.before + [LineText(c.head)] + c.first + [LineText(c.next)] + c.later + [LineText(c.close)] + c.after
  }

  function HeadLine(c: Conditional): nat { |c.before| }
  function NextLine(c: Conditional): nat { |c.before| + 1 + |c.first| }
  function CloseLine(c: Conditional): nat { |c.before| + 1 + |c.first| + 1 + |c.later| }

  ghost predicate IsWritten(c: Conditional) {
    && TameLines(LinesOf(c)) && NoHash(c.before) && NoHash(c.first) && NoHash(c.later) && NoHash(c.after)
    && OpensWord(c.head.word) && IsWord(c.head.word, c.head.rest)
    && NextWord(c.next.word) && IsWord(c.next.word, c.next.rest)
    && c.close.word == "endif" && IsWord(c.close.word, c.close.rest)
  }

  lemma LinesAre(c: Conditional)
    ensures
      var lines := LinesOf(c);
      && HeadLine(c) < NextLine(c) < CloseLine(c) < |lines|
      && lines[HeadLine(c)] == LineText(c.head) && lines[NextLine(c)] == LineText(c.next)
      && lines[CloseLine(c)] == LineText(c.close)
      && (NoHash(c.before) && NoHash(c.first) && NoHash(c.later) && NoHash(c.after) ==>
            forall k :: 0 <= k < |lines| && k != HeadLine(c) && k != NextLine(c) && k != CloseLine(c) ==>
              lines[k] == "" || lines[k][0] != '#')
  {
  }

  lemma {:induction false} PlainBalance(src: Bytes, lines: seq<SrcLine>, a: nat, j: nat)
    requires a <= j <= |lines| && forall k :: a <= k < j ==> IsPlain(src, lines[k])
    ensures Balance(TextMarks(src, lines), a, j) == 0
    decreases j
  {
    if a < j {
      PlainBalance(src, lines, a, j - 1);
    }
  }

  lemma PlainIsBranch(src: Bytes, lines: seq<SrcLine>, a: nat, b: nat)
    requires a <= b <= |lines| && forall k :: a <= k < b ==> IsPlain(src, lines[k])
    ensures IsBranch(TextMarks(src, lines), a, b)
  {
    forall j | a <= j <= b ensures Balance(TextMarks(src, lines), a, j) == 0 {
      PlainBalance(src, lines, a, j);
    }
  }

  // The scan of the text finds the conditional.
  lemma ConditionalFound(scan: Scan, c: Conditional)
    requires IsScan(scan) && IsWritten(c) && scan.src == Joined(LinesOf(c))
    ensures |scan.lines| == |LinesOf(c)| && AllFit(scan.src, scan.lines)
    ensures IsConditional(scan.src, scan.lines, HeadLine(c), NextLine(c), CloseLine(c))
    ensures forall k :: 0 <= k < |scan.lines| && k != HeadLine(c) && k != NextLine(c) && k != CloseLine(c) ==>
              IsPlain(scan.src, scan.lines[k])
  {
    var lines := LinesOf(c);
    LinesAre(c);
    LinesFit(scan.src, scan.lines);
    TameSays(scan, lines, HeadLine(c), c.head.word, c.head.rest);
    TameSays(scan, lines, NextLine(c), c.next.word, c.next.rest);
    TameSays(scan, lines, CloseLine(c), c.close.word, c.close.rest);
    forall k: nat | k < |lines| && k != HeadLine(c) && k != NextLine(c) && k != CloseLine(c)
      ensures IsPlain(scan.src, scan.lines[k])
    {
      TameSaysNothing(scan, lines, k);
    }
    PlainIsBranch(scan.src, scan.lines, HeadLine(c) + 1, NextLine(c));
    PlainIsBranch(scan.src, scan.lines, NextLine(c) + 1, CloseLine(c));
  }

  lemma NothingBefore(src: Bytes, lines: seq<SrcLine>, o: nat)
    requires o < |lines| && forall k :: 0 <= k < o ==> IsPlain(src, lines[k])
    ensures forall n :: 0 <= n <= o ==> !InLaterText(src, lines, n)
  {
  }

  // The lines skipped are those from the second branch's directive to the #endif.
  lemma SkippedLines(scan: Scan, c: Conditional, n: nat)
    requires IsScan(scan) && IsWritten(c) && scan.src == Joined(LinesOf(c)) && n < |scan.lines|
    ensures InLaterText(scan.src, scan.lines, n) <==> NextLine(c) <= n < CloseLine(c)
  {
    var o, m, e := HeadLine(c), NextLine(c), CloseLine(c);
    ConditionalFound(scan, c);
    NothingBefore(scan.src, scan.lines, o);
    if o <= n < m {
      FirstBranchCounts(scan.src, scan.lines, o, n);
    } else if m <= n < e {
      LaterBranchIsSkipped(scan.src, scan.lines, o, m, e, n);
    } else if e <= n {
      CountsAgain(scan.src, scan.lines, o, m, e, n);
    }
  }

  // So the depths have an entry for every brace but those of the second branch.
  lemma EntriesOfConditional(scan: Scan, c: Conditional, brace: Brace)
    requires IsScan(scan) && IsWritten(c) && scan.src == Joined(LinesOf(c)) && brace in scan.braces
    ensures NextLine(c) < CloseLine(c) < |LinesOf(c)|
    ensures HasEntry(scan, brace.at) <==>
              !(StartOf(LinesOf(c), NextLine(c)) <= brace.at < StartOf(LinesOf(c), CloseLine(c)))
  {
    var lines := LinesOf(c);
    LinesAre(c);
    var j :| 0 <= j < |scan.braces| && scan.braces[j] == brace;
    var n := LineOfBrace(scan, j);
    EntryIff(scan, brace, n);
    SkippedLines(scan, c, n);
    ScanOfLines(scan, lines, |lines| - 1);
    ScanOfLines(scan, lines, n);
    LineOrder(scan, lines, n, NextLine(c));
    LineOrder(scan, lines, n, CloseLine(c));
  }

  // A byte of line n stands before the start of line k exactly if n is before k.
  lemma LineOrder(scan: Scan, lines: seq<Bytes>, n: nat, k: nat)
    requires IsScan(scan) && TameLines(lines) && scan.src == Joined(lines) && n < |scan.lines| && k < |lines|
    ensures |scan.lines| == |lines|
    ensures forall at: nat :: OnLine(scan.lines[n], at) ==> (at < StartOf(lines, k) <==> n < k)
  {
    LineOf(scan, lines, k);
    if n < k {
      LinesAscend(scan.src, scan.lines, n, k);
    } else if k < n {
      LinesAscend(scan.src, scan.lines, k, n);
    }
  }
}
