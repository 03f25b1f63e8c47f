// preproc_fallback.rs: where the code that heads a brace starts.
module Heads {
  import opened PreprocText
  import opened Automaton
  import opened Tokens
  import opened Lexer

  // A byte that ends what stands before it: code, and one of `;`, `{` and `}`.
  ghost predicate EndsHead(src: Bytes, i: nat) {
    i < |src| && CodeByte(src, i) && (src[i] == ';' || src[i] == '{' || src[i] == '}')
  }

  // The last such byte of [lo, at) is the one before h; if there is none, h is `from`.
  ghost predicate HeadIn(src: Bytes, lo: nat, at: nat, from: nat, h: nat) {
    && (h == from || (lo < h <= at && EndsHead(src, h - 1)))
    && forall i: nat {:trigger EndsHead(src, i)} :: lo <= i < at && EndsHead(src, i) ==> lo < h && i < h
  }

  ghost predicate HeadsIn(src: Bytes, lo: nat, from: nat, braces: seq<Brace>) {
    forall k :: 0 <= k < |braces| ==> HeadIn(src, lo, braces[k].at, from, braces[k].headFrom)
  }

  lemma {:induction false} LineHeads(src: Bytes, lo: nat, hi: nat, from: nat)
    requires from <= lo <= hi <= |src|
    ensures HeadIn(src, lo, hi, from, PunctIn(src, lo, hi, from).headFrom)
    ensures HeadsIn(src, lo, from, PunctIn(src, lo, hi, from).braces)
    decreases hi
  {
    if lo < hi {
      LineHeads(src, lo, hi - 1, from);
      PunctStep(src, lo, hi - 1, from);
    }
  }

  // The same over the source, where the lines of directives end nothing.
  ghost predicate Ends(src: Bytes, lines: seq<SrcLine>, i: nat) {
    EndsHead(src, i) && CountedLine(lines, i)
  }

  ghost predicate IsHeadOf(src: Bytes, lines: seq<SrcLine>, at: nat, h: nat) {
    && (h == 0 || (h <= at && Ends(src, lines, h - 1)))
    && forall i: nat {:trigger Ends(src, lines, i)} :: h <= i < at ==> !Ends(src, lines, i)
  }

  // A byte of a line ends a head exactly if it does in that line, which is no directive's.
  lemma EndsInLine(src: Bytes, lines: seq<SrcLine>, n: nat, i: nat)
    requires LinesExact(src, lines) && n < |lines| && lines[n].start <= i < lines[n].end
    ensures Ends(src, lines, i) <==> EndsHead(src, i) && !lines[n].inDirective
  {
    forall k | 0 <= k < |lines| && k != n ensures !(lines[k].start <= i < lines[k].end) {
      if k < n {
        LinesAscend(src, lines, k, n);
      } else {
        LinesAscend(src, lines, n, k);
      }
    }
  }

  // Nothing ends a head between two lines.
  lemma NoneBetween(src: Bytes, lines: seq<SrcLine>, n: nat)
    requires LinesExact(src, lines) && n + 1 < |lines|
    ensures !Ends(src, lines, lines[n].end) && lines[n + 1].start == lines[n].end + 1
  {
    var i := lines[n].end;
    assert LineIsExact(src, lines, n + 1) && LineIsExact(src, lines, n);
    forall k | 0 <= k < |lines| ensures !(lines[k].start <= i < lines[k].end) {
      if k < n {
        LinesAscend(src, lines, k, n);
      } else if n + 1 < k {
        LinesAscend(src, lines, n + 1, k);
      }
    }
  }

  // One line more: a head in the line, or the one before it.
  lemma HeadOverLine(src: Bytes, lines: seq<SrcLine>, n: nat, at: nat, from: nat, h: nat)
    requires LinesExact(src, lines) && n < |lines| && !lines[n].inDirective
    requires lines[n].start <= at <= lines[n].end && from <= lines[n].start
    requires IsHeadOf(src, lines, lines[n].start, from) && HeadIn(src, lines[n].start, at, from, h)
    ensures IsHeadOf(src, lines, at, h)
  {
    var lo := lines[n].start;
    if h != from {
      EndsInLine(src, lines, n, h - 1);
    }
    forall i: nat | h <= i < at ensures !Ends(src, lines, i) {
      if lo <= i {
        EndsInLine(src, lines, n, i);
      }
    }
  }

  lemma NoHeadInDirective(src: Bytes, lines: seq<SrcLine>, n: nat, h: nat)
    requires LinesExact(src, lines) && n < |lines| && lines[n].inDirective
    requires lines[n].start <= lines[n].end && IsHeadOf(src, lines, lines[n].start, h)
    ensures IsHeadOf(src, lines, lines[n].end, h)
  {
    forall i: nat | h <= i < lines[n].end ensures !Ends(src, lines, i) {
      if lines[n].start <= i {
        EndsInLine(src, lines, n, i);
      }
    }
  }

  ghost predicate AreHeads(src: Bytes, lines: seq<SrcLine>, braces: seq<Brace>) {
    forall k :: 0 <= k < |braces| ==> IsHeadOf(src, lines, braces[k].at, braces[k].headFrom)
  }

  lemma {:induction false} HeadsSoFar(src: Bytes, lines: seq<SrcLine>, n: nat)
    requires LinesExact(src, lines) && n <= |lines|
    ensures IsHeadOf(src, lines, if n == 0 then 0 else lines[n - 1].end, BracesOf(src, lines, n).headFrom)
    ensures AreHeads(src, lines, BracesOf(src, lines, n).braces)
  {
    if n > 0 {
      var line, from := lines[n - 1], BracesOf(src, lines, n - 1).headFrom;
      HeadsSoFar(src, lines, n - 1);
      BracesHeadsFit(src, lines, n - 1);
      assert LineIsExact(src, lines, n - 1);
      if n > 1 {
        NoneBetween(src, lines, n - 2);
      }
      assert from <= line.start && IsHeadOf(src, lines, line.start, from);
      if line.inDirective {
        NoHeadInDirective(src, lines, n - 1, from);
      } else {
        LineHeadsSoFar(src, lines, n - 1, from);
      }
    }
  }

  lemma LineHeadsSoFar(src: Bytes, lines: seq<SrcLine>, n: nat, from: nat)
    requires LinesExact(src, lines) && n < |lines| && !lines[n].inDirective
    requires lines[n].start <= lines[n].end <= |src| && from <= lines[n].start
    requires IsHeadOf(src, lines, lines[n].start, from)
    ensures
      var here := PunctIn(src, lines[n].start, lines[n].end, from);
      IsHeadOf(src, lines, lines[n].end, here.headFrom) && AreHeads(src, lines, here.braces)
  {
    var lo, hi := lines[n].start, lines[n].end;
    var here := PunctIn(src, lo, hi, from);
    LineHeads(src, lo, hi, from);
    PunctAscends(src, lo, hi, from);
    HeadOverLine(src, lines, n, hi, from, here.headFrom);
    forall k | 0 <= k < |here.braces|
      ensures IsHeadOf(src, lines, here.braces[k].at, here.braces[k].headFrom)
    {
      var brace := here.braces[k];
      assert brace == PunctIn(src, lo, hi, from).braces[k];
      assert HeadIn(src, lo, brace.at, from, brace.headFrom);
      assert lo <= brace.at;
      assert brace.at < hi;
      HeadOverLine(src, lines, n, brace.at, from, brace.headFrom);
    }
  }

  // The head of every brace starts behind the last `;`, `{` or `}` of the code before it,
  // or with the source; nothing in a comment, a literal or a directive starts it.
  lemma HeadsAreExact(src: Bytes, lines: seq<SrcLine>, braces: seq<Brace>)
    requires Scanned(src, lines, braces)
    ensures AreHeads(src, lines, braces)
  {
    HeadsSoFar(src, lines, |lines|);
  }
}
