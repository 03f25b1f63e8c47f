// crates/ecp-analyzer/src/preproc_fallback.rs: scan_lines, one pass over the lines of a
// source and, by Tokens, over the tokens of each.
module Lexer {
  import opened Options
  import opened PreprocText
  import opened Automaton
  import opened Tokens

  datatype SrcLine = SrcLine(
    row: nat, start: nat, end: nat,
    directive: Option<nat>,  // the byte after the '#' that opens a directive here
    spliced: bool,           // a '\' before the line end above joins this line to it
    inDirective: bool,
    blank: bool)

  // The line end at or after `from`.
  function LineEnd(src: Bytes, from: nat): (end: nat)
    requires from <= |src|
    ensures from <= end <= |src| && (end < |src| ==> src[end] == '\n')
    ensures forall k :: from <= k < end ==> src[k] != '\n'
    decreases |src| - from
  {
    if from == |src| || src[from] == '\n' then from else LineEnd(src, from + 1)
  }

  function FirstSolid(src: Bytes, lo: nat, hi: nat): (i: nat)
    requires lo <= hi <= |src|
    ensures lo <= i <= hi && (i < hi ==> !IsSpace(src[i]))
    ensures forall k :: lo <= k < i ==> IsSpace(src[k])
    decreases hi - lo
  {
    if lo == hi || !IsSpace(src[lo]) then lo else FirstSolid(src, lo + 1, hi)
  }

  // The byte after the '#' when that is the first byte of the line but white space.
  function HashIn(src: Bytes, lo: nat, hi: nat): Option<nat>
    requires lo <= hi <= |src|
  {
    var i := FirstSolid(src, lo, hi);
    if i < hi && src[i] == '#' then Some(i + 1) else None
  }

  // The line, its '\r' aside, ends with a backslash.
  predicate EndsWithBackslash(src: Bytes, lo: nat, hi: nat)
    requires lo <= hi <= |src|
  {
    var end := if lo < hi && src[hi - 1] == '\r' then hi - 1 else hi;
    lo < end && src[end - 1] == '\\'
  }

  // What is recorded of line k, in terms of the automaton and the line above.
  ghost predicate LineIsExact(src: Bytes, lines: seq<SrcLine>, k: nat)
    requires k < |lines|
  {
    var line := lines[k];
    && IsLine(src, line.start, line.end)
    && line.row == k
    && line.start == (if k == 0 then 0 else lines[k - 1].end + 1)
    && line.spliced == (k > 0 && lines[k - 1].start <= lines[k - 1].end <= |src| &&
                        EndsWithBackslash(src, lines[k - 1].start, lines[k - 1].end) && !Before(src, line.start).Raw?)
    && line.directive == (if !line.spliced && Before(src, line.start) == Code
                          then HashIn(src, line.start, line.end) else None)
    && line.inDirective == (line.directive.Some? || (line.spliced && k > 0 && lines[k - 1].inDirective))
    && (line.blank <==> !Before(src, line.start).Raw? && BlankSoFar(src, line.start, line.end))
  }

  ghost predicate LinesExact(src: Bytes, lines: seq<SrcLine>) {
    forall k :: 0 <= k < |lines| ==> LineIsExact(src, lines, k)
  }

  // The braces of the first n lines, directives left out.
  ghost function BracesOf(src: Bytes, lines: seq<SrcLine>, n: nat): Punct
    requires n <= |lines| && LinesExact(src, lines)
  {
    if n == 0 then Punct([], 0)
    else
      var before, line := BracesOf(src, lines, n - 1), lines[n - 1];
      assert LineIsExact(src, lines, n - 1);
      if line.inDirective then before
      else
        var here := PunctIn(src, line.start, line.end, before.headFrom);
        Punct(before.braces + here.braces, here.headFrom)
  }

  // What one more line adds.
  ghost function BracesIn(src: Bytes, lines: seq<SrcLine>, n: nat): seq<Brace>
    requires n < |lines| && LinesExact(src, lines)
  {
    assert LineIsExact(src, lines, n);
    if lines[n].inDirective then []
    else PunctIn(src, lines[n].start, lines[n].end, BracesOf(src, lines, n).headFrom).braces
  }

  lemma BracesStep(src: Bytes, lines: seq<SrcLine>, n: nat)
    requires n < |lines| && LinesExact(src, lines)
    ensures BracesOf(src, lines, n + 1).braces == BracesOf(src, lines, n).braces + BracesIn(src, lines, n)
  {
  }

  lemma {:induction false} BracesOfPrefix(src: Bytes, lines: seq<SrcLine>, more: seq<SrcLine>, n: nat)
    requires LinesExact(src, lines) && LinesExact(src, lines + more) && n <= |lines|
    ensures BracesOf(src, lines + more, n) == BracesOf(src, lines, n)
  {
    if n > 0 {
      BracesOfPrefix(src, lines, more, n - 1);
      assert (lines + more)[n - 1] == lines[n - 1];
    }
  }

  lemma ExtendLines(src: Bytes, lines: seq<SrcLine>, line: SrcLine)
    requires LinesExact(src, lines) && LineIsExact(src, lines + [line], |lines|)
    ensures LinesExact(src, lines + [line])
    ensures BracesOf(src, lines + [line], |lines|) == BracesOf(src, lines, |lines|)
  {
    var all := lines + [line];
    forall k: nat | k < |all| ensures LineIsExact(src, all, k) {
      if k < |lines| {
        assert LineIsExact(src, lines, k);
        assert all[k] == lines[k] && (k > 0 ==> all[k - 1] == lines[k - 1]);
      }
    }
    BracesOfPrefix(src, lines, [line], |lines|);
  }

  // One more exact line, and what its braces add.
  lemma AppendLine(src: Bytes, lines: seq<SrcLine>, line: SrcLine, found: Punct, before: Punct)
    requires LinesExact(src, lines) && LineIsExact(src, lines + [line], |lines|)
    requires before == BracesOf(src, lines, |lines|)
    requires found == if line.inDirective then Punct([], before.headFrom)
                      else PunctIn(src, line.start, line.end, before.headFrom)
    ensures LinesExact(src, lines + [line])
    ensures BracesOf(src, lines + [line], |lines| + 1) == Punct(before.braces + found.braces, found.headFrom)
  {
    ExtendLines(src, lines, line);
    assert (lines + [line])[|lines|] == line;
  }

  // What scan_lines carries from one line to the next.
  datatype Carry = Carry(start: nat, inComment: bool, rawClose: Option<Bytes>, spliced: bool, inDirective: bool)

  ghost predicate Carried(src: Bytes, lines: seq<SrcLine>, carry: Carry) {
    && carry.start <= |src|
    && (carry.start > 0 ==> src[carry.start - 1] == '\n')
    && Before(src, carry.start) == LineMode(carry.inComment, carry.rawClose)
    && Crosses(carry.inComment, carry.rawClose)
    && (lines == [] ==> carry.start == 0 && !carry.spliced && !carry.inDirective)
    && (lines != [] ==>
          var above := lines[|lines| - 1];
          && carry.start == above.end + 1
          && above.start <= above.end <= |src|
          && carry.spliced == (carry.rawClose.None? && EndsWithBackslash(src, above.start, above.end))
          && carry.inDirective == above.inDirective)
  }

  // The next line.
  method NextLine(src: Bytes, ghost lines: seq<SrcLine>, row: nat, carry: Carry, headFrom: nat)
    returns (line: SrcLine, found: Punct, next: Carry)
    requires Carried(src, lines, carry) && row == |lines|
    ensures LineIsExact(src, lines + [line], |lines|)
    ensures found == if line.inDirective then Punct([], headFrom) else PunctIn(src, line.start, line.end, headFrom)
    ensures next.start == line.end + 1
    ensures line.end < |src| ==> Carried(src, lines + [line], next)
  {
    var start := carry.start;
    var end := LineEnd(src, start);
    var directive :=
      if !carry.spliced && !carry.inComment && carry.rawClose.None? then HashIn(src, start, end) else None;
    var inDirective := directive.Some? || (carry.spliced && carry.inDirective);
    var inComment, rawClose, blank;
    inComment, rawClose, blank, found :=
      ScanLine(src, start, end, carry.inComment, carry.rawClose, inDirective, headFrom);
    line := SrcLine(row, start, end, directive, carry.spliced, inDirective, blank);
    next := Carry(end + 1, inComment, rawClose, rawClose.None? && EndsWithBackslash(src, start, end), inDirective);
  }

  // The lines and braces of a source: every line exact, the last one at its end, and the
  // braces of the lines outside directives.
  ghost predicate Scanned(src: Bytes, lines: seq<SrcLine>, braces: seq<Brace>) {
    && lines != [] && LinesExact(src, lines) && lines[|lines| - 1].end == |src|
    && braces == BracesOf(src, lines, |lines|).braces
  }

  // scan_lines.
  method ScanLines(src: Bytes) returns (lines: seq<SrcLine>, braces: seq<Brace>)
    ensures Scanned(src, lines, braces)
  {
    lines, braces := [], [];
    var carry, headFrom := Carry(0, false, None, false, false), 0;
    while true
      invariant LinesExact(src, lines) && Carried(src, lines, carry)
      invariant Punct(braces, headFrom) == BracesOf(src, lines, |lines|)
      decreases |src| - carry.start
    {
      var line, found, next := NextLine(src, lines, |lines|, carry, headFrom);
      AppendLine(src, lines, line, found, Punct(braces, headFrom));
      lines, braces, headFrom := lines + [line], braces + found.braces, found.headFrom;
      if line.end >= |src| {
        break;
      }
      carry := next;
    }
  }

  // The lines tile the source: byte `at` lies in one of them or is the line end after it.
  lemma {:induction false} LinesTile(src: Bytes, lines: seq<SrcLine>, n: nat, at: nat) returns (k: nat)
    requires LinesExact(src, lines) && 0 < n <= |lines| && at <= lines[n - 1].end
    ensures k < n && lines[k].start <= at <= lines[k].end
    ensures forall l :: 0 <= l < n && lines[l].start <= at <= lines[l].end ==> l == k
  {
    assert LineIsExact(src, lines, n - 1);
    if lines[n - 1].start <= at {
      k := n - 1;
      forall l | 0 <= l < n - 1 ensures lines[l].end < lines[n - 1].start {
        LinesAscend(src, lines, l, n - 1);
      }
    } else {
      k := LinesTile(src, lines, n - 1, at);
    }
  }

  lemma {:induction false} LinesAscend(src: Bytes, lines: seq<SrcLine>, l: nat, k: nat)
    requires LinesExact(src, lines) && l < k < |lines|
    ensures lines[l].end < lines[k].start
  {
    assert LineIsExact(src, lines, k) && LineIsExact(src, lines, k - 1);
    if l < k - 1 {
      LinesAscend(src, lines, l, k - 1);
    }
  }

  ghost predicate CountedLine(lines: seq<SrcLine>, at: nat) {
    exists k :: 0 <= k < |lines| && lines[k].start <= at < lines[k].end && !lines[k].inDirective
  }

  // A recorded brace: in code, on a line that belongs to no directive.
  ghost predicate IsRecorded(src: Bytes, lines: seq<SrcLine>, brace: Brace) {
    && brace.at < |src| && CodeByte(src, brace.at) && CountedLine(lines, brace.at)
    && src[brace.at] == if brace.open then '{' else '}'
  }

  lemma RecordedHere(src: Bytes, lines: seq<SrcLine>, n: nat, brace: Brace)
    requires n < |lines| && lines[n].start <= brace.at < lines[n].end && !lines[n].inDirective
    requires brace.at < |src| && CodeByte(src, brace.at) && src[brace.at] == if brace.open then '{' else '}'
    ensures IsRecorded(src, lines, brace)
  {
  }

  ghost predicate Ascend(braces: seq<Brace>) {
    forall k, l :: 0 <= k < l < |braces| ==> braces[k].at < braces[l].at
  }

  ghost predicate AllRecorded(src: Bytes, lines: seq<SrcLine>, braces: seq<Brace>, from: nat, to: nat) {
    forall k :: 0 <= k < |braces| ==> from <= braces[k].at < to && IsRecorded(src, lines, braces[k])
  }

  lemma BracesInLine(src: Bytes, lines: seq<SrcLine>, n: nat)
    requires n < |lines| && LinesExact(src, lines)
    ensures
      var here := BracesIn(src, lines, n);
      AllRecorded(src, lines, here, lines[n].start, lines[n].end) && Ascend(here)
  {
    assert LineIsExact(src, lines, n);
    var line, here := lines[n], BracesIn(src, lines, n);
    if !line.inDirective {
      var headFrom := BracesOf(src, lines, n).headFrom;
      assert here == PunctIn(src, line.start, line.end, headFrom).braces;
      PunctAscends(src, line.start, line.end, headFrom);
      forall k | 0 <= k < |here| ensures line.start <= here[k].at < line.end && IsRecorded(src, lines, here[k]) {
        RecordedHere(src, lines, n, here[k]);
      }
    }
  }

  // The recorded braces ascend, and each is one ...
  lemma {:induction false} BracesAscend(src: Bytes, lines: seq<SrcLine>, n: nat)
    requires LinesExact(src, lines) && n <= |lines|
    ensures
      var braces := BracesOf(src, lines, n).braces;
      AllRecorded(src, lines, braces, 0, if n == 0 then 0 else lines[n - 1].end) && Ascend(braces)
  {
    if n > 0 {
      BracesAscend(src, lines, n - 1);
      BracesStep(src, lines, n - 1);
      BracesInLine(src, lines, n - 1);
      assert LineIsExact(src, lines, n - 1);
      if n > 1 {
        LinesAscend(src, lines, n - 2, n - 1);
      }
      var before, here := BracesOf(src, lines, n - 1).braces, BracesIn(src, lines, n - 1);
      forall k | 0 <= k < |before| ensures before[k].at < lines[n - 1].start {}
    }
  }

  // ... and no brace in code on such a line is missing.
  lemma {:induction false} BracesHoldAll(src: Bytes, lines: seq<SrcLine>, n: nat, k: nat, at: nat)
    requires LinesExact(src, lines) && k < n <= |lines|
    requires lines[k].start <= at < lines[k].end && !lines[k].inDirective
    requires at < |src| && CodeByte(src, at) && (src[at] == '{' || src[at] == '}')
    ensures HasBraceAt(BracesOf(src, lines, n).braces, at)
  {
    if k == n - 1 {
      LineHoldsAll(src, lines, k, at);
    } else {
      BracesHoldAll(src, lines, n - 1, k, at);
    }
    HasSoFar(src, lines, n - 1, at);
  }

  lemma HasSoFar(src: Bytes, lines: seq<SrcLine>, n: nat, at: nat)
    requires LinesExact(src, lines) && n < |lines|
    requires HasBraceAt(BracesOf(src, lines, n).braces, at) || HasBraceAt(BracesIn(src, lines, n), at)
    ensures HasBraceAt(BracesOf(src, lines, n + 1).braces, at)
  {
    BracesStep(src, lines, n);
    HasInEither(BracesOf(src, lines, n).braces, BracesIn(src, lines, n), at);
  }

  lemma LineHoldsAll(src: Bytes, lines: seq<SrcLine>, k: nat, at: nat)
    requires LinesExact(src, lines) && k < |lines| && lines[k].start <= at < lines[k].end && !lines[k].inDirective
    requires at < |src| && CodeByte(src, at) && (src[at] == '{' || src[at] == '}')
    ensures HasBraceAt(BracesIn(src, lines, k), at)
  {
    assert LineIsExact(src, lines, k);
    PunctHoldsAll(src, lines[k].start, lines[k].end, BracesOf(src, lines, k).headFrom, at);
  }

  lemma HasInEither(before: seq<Brace>, here: seq<Brace>, at: nat)
    requires HasBraceAt(before, at) || HasBraceAt(here, at)
    ensures HasBraceAt(before + here, at)
  {
    if HasBraceAt(before, at) {
      var b :| 0 <= b < |before| && before[b].at == at;
      assert (before + here)[b] == before[b];
    } else {
      var b :| 0 <= b < |here| && here[b].at == at;
      assert (before + here)[|before| + b] == here[b];
    }
  }

  ghost predicate HeadsFit(braces: seq<Brace>) {
    forall k :: 0 <= k < |braces| ==> braces[k].headFrom <= braces[k].at
  }

  lemma {:induction false} PunctHeadsFit(src: Bytes, lo: nat, hi: nat, headFrom: nat)
    requires headFrom <= lo <= hi <= |src|
    ensures PunctIn(src, lo, hi, headFrom).headFrom <= hi && HeadsFit(PunctIn(src, lo, hi, headFrom).braces)
    decreases hi
  {
    if lo < hi {
      PunctHeadsFit(src, lo, hi - 1, headFrom);
      PunctStep(src, lo, hi - 1, headFrom);
    }
  }

  // The code that heads a brace lies before it.
  lemma {:induction false} BracesHeadsFit(src: Bytes, lines: seq<SrcLine>, n: nat)
    requires LinesExact(src, lines) && n <= |lines|
    ensures BracesOf(src, lines, n).headFrom <= if n == 0 then 0 else lines[n - 1].end
    ensures HeadsFit(BracesOf(src, lines, n).braces)
  {
    if n > 0 {
      BracesHeadsFit(src, lines, n - 1);
      assert LineIsExact(src, lines, n - 1);
      if n > 1 {
        LinesAscend(src, lines, n - 2, n - 1);
      }
      if !lines[n - 1].inDirective {
        PunctHeadsFit(src, lines[n - 1].start, lines[n - 1].end, BracesOf(src, lines, n - 1).headFrom);
      }
    }
  }
}
