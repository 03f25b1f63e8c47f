// preproc_fallback.rs: whole lines inside a source that begin as code are scanned as they are alone, offsets shifted.
module Stretches {
  import opened Options
  import opened PreprocText
  import opened Automaton
  import opened Tokens
  import opened Lexer
  import opened DirectiveText
  import opened BraceDepth

  // t is a stretch of whole lines of s, from byte d on.
  ghost predicate Inside(s: Bytes, d: nat, t: Bytes) {
    && d + |t| <= |s| && (forall i {:trigger t[i]} :: 0 <= i < |t| ==> s[d + i] == t[i])
    && (d == 0 || s[d - 1] == '\n')
    && (d + |t| == |s| || t == "" || t[|t| - 1] == '\n')
  }

  lemma ByteInside(s: Bytes, d: nat, t: Bytes, i: nat)
    requires Inside(s, d, t) && i < |t|
    ensures d + i < |s| && s[d + i] == t[i] && (i + 1 == |t| && t[i] != '\n' ==> d + |t| == |s|)
  {
  }

  lemma SliceInside(s: Bytes, d: nat, t: Bytes, lo: nat, hi: nat)
    requires Inside(s, d, t) && lo <= hi <= |t|
    ensures s[d + lo..d + hi] == t[lo..hi]
  {
    forall k | 0 <= k < hi - lo ensures s[d + lo..d + hi][k] == t[lo..hi][k] {
      ByteInside(s, d, t, lo + k);
    }
  }

  lemma {:induction false} OccursInside(s: Bytes, d: nat, t: Bytes, needle: Bytes, i: nat)
    requires Inside(s, d, t) && i <= |t| && (i < |t| || d + |t| == |s|)
    requires forall k :: 0 <= k < |needle| ==> needle[k] != '\n'
    ensures OccursAt(s, needle, d + i) == OccursAt(t, needle, i)
    decreases |needle|
  {
    if needle != "" && i < |t| {
      ByteInside(s, d, t, i);
      if t[i] == needle[0] {
        OccursInside(s, d, t, needle[1..], i + 1);
      }
    }
  }

  lemma {:induction false} IdentStartInside(s: Bytes, d: nat, t: Bytes, i: nat)
    requires Inside(s, d, t) && i <= |t|
    ensures IdentStart(s, 0, d + i) == d + IdentStart(t, 0, i)
  {
    if i > 0 {
      ByteInside(s, d, t, i - 1);
      if IsIdentByte(t[i - 1]) {
        IdentStartInside(s, d, t, i - 1);
      }
    }
  }

  lemma {:induction false} FindParenInside(s: Bytes, d: nat, t: Bytes, from: nat, left: nat)
    requires Inside(s, d, t) && from <= |t|
    ensures
      var here, all := FindParen(t, |t|, from, left), FindParen(s, |s|, d + from, left);
      || (here.None? && (all.None? || d + |t| <= all.value))
      || (here.Some? && all == Some(d + here.value))
    decreases left
  {
    if left > 0 && from < |t| {
      ByteInside(s, d, t, from);
      FindParenInside(s, d, t, from + 1, left - 1);
    }
  }

  // The '(' of a raw string's opener, if there is one with no bad byte before it.
  ghost predicate SameParen(s: Bytes, d: nat, t: Bytes, i: nat, here: Option<nat>, all: Option<nat>) {
    match here
    case None => all.None? || (d + i < all.value <= |s| && BadIn(s, d + i, all.value))
    case Some(open) =>
      && i < open < |t| && all == Some(d + open) && d + open < |s|
      && s[d + i + 1..d + open] == t[i + 1..open] && (BadIn(s, d + i, d + open) <==> BadIn(t, i, open))
  }

  ghost predicate BadIn(src: Bytes, quote: nat, open: nat)
    requires open <= |src|
  {
    exists k :: quote < k < open && BadInDelimiter(src[k])
  }

  lemma ParenInside(s: Bytes, d: nat, t: Bytes, i: nat)
    requires Inside(s, d, t) && i < |t| && t[i] == '"'
    ensures SameParen(s, d, t, i, FindParen(t, |t|, i + 1, 17), FindParen(s, |s|, d + i + 1, 17))
  {
    FindParenInside(s, d, t, i + 1, 17);
    var here, all := FindParen(t, |t|, i + 1, 17), FindParen(s, |s|, d + i + 1, 17);
    if here.Some? {
      SliceInside(s, d, t, i + 1, here.value);
      BadInside(s, d, t, i, here.value);
    } else if all.Some? {
      ByteInside(s, d, t, |t| - 1);
      assert BadInDelimiter(s[d + |t| - 1]);
    }
  }

  lemma BadInside(s: Bytes, d: nat, t: Bytes, i: nat, open: nat)
    requires Inside(s, d, t) && open < |t|
    ensures d + open < |s| && (BadIn(s, d + i, d + open) <==> BadIn(t, i, open))
  {
    if k :| i < k < open && BadInDelimiter(t[k]) {
      ByteInside(s, d, t, k);
      assert BadInDelimiter(s[d + k]);
    }
    if k :| d + i < k < d + open && BadInDelimiter(s[k]) {
      ByteInside(s, d, t, k - d);
      assert BadInDelimiter(t[k - d]);
    }
  }

  lemma SameParenSameOpen(s: Bytes, d: nat, t: Bytes, i: nat)
    requires i < |t| && d + i < |s|
    requires s[IdentStart(s, 0, d + i)..d + i] == t[IdentStart(t, 0, i)..i]
    requires SameParen(s, d, t, i, FindParen(t, |t|, i + 1, 17), FindParen(s, |s|, d + i + 1, 17))
    ensures
      RawStringOpen(s, 0, |s|, d + i) ==
      match RawStringOpen(t, 0, |t|, i)
      case None => None
      case Some(raw) => Some(RawOpen(d + raw.body, raw.close))
  {
  }

  // A raw string opens inside a stretch as it does in the stretch alone.
  lemma RawOpenInside(s: Bytes, d: nat, t: Bytes, i: nat)
    requires Inside(s, d, t) && i < |t| && t[i] == '"'
    ensures
      RawStringOpen(s, 0, |s|, d + i) ==
      match RawStringOpen(t, 0, |t|, i)
      case None => None
      case Some(raw) => Some(RawOpen(d + raw.body, raw.close))
  {
    IdentStartInside(s, d, t, i);
    SliceInside(s, d, t, IdentStart(t, 0, i), i);
    ParenInside(s, d, t, i);
    SameParenSameOpen(s, d, t, i);
  }

  lemma NumberTakesInside(s: Bytes, d: nat, t: Bytes, i: nat)
    requires Inside(s, d, t) && 0 < i < |t|
    ensures NumberTakes(s, |s|, d + i) == NumberTakes(t, |t|, i)
  {
    ByteInside(s, d, t, i);
    ByteInside(s, d, t, i - 1);
    if i + 1 < |t| {
      ByteInside(s, d, t, i + 1);
    }
  }

  // The next byte, where a byte other than a line end looks at it.
  lemma NextByteInside(s: Bytes, d: nat, t: Bytes, i: nat, b: char)
    requires Inside(s, d, t) && i < |t| && t[i] != '\n'
    ensures NextIs(s, d + i, b) == NextIs(t, i, b)
  {
    ByteInside(s, d, t, i);
    if i + 1 < |t| {
      ByteInside(s, d, t, i + 1);
    }
  }

  lemma CodeStepInside(s: Bytes, d: nat, t: Bytes, i: nat)
    requires Inside(s, d, t) && i < |t|
    ensures CodeStep(s, d + i) == CodeStep(t, i)
  {
    ByteInside(s, d, t, i);
    if t[i] == '"' {
      RawOpenInside(s, d, t, i);
    } else if t[i] == '/' {
      NextByteInside(s, d, t, i, '/');
      NextByteInside(s, d, t, i, '*');
    }
    if i > 0 {
      ByteInside(s, d, t, i - 1);
    }
  }

  // A raw string that is open has a real close.
  lemma {:induction false} RawIsReal(t: Bytes, i: nat)
    requires i <= |t|
    ensures Before(t, i).RawHead? || Before(t, i).Raw? ==> IsClose(Before(t, i).close)
  {
    if i > 0 {
      RawIsReal(t, i - 1);
    }
  }

  lemma StepInside(s: Bytes, d: nat, t: Bytes, i: nat, mode: Mode)
    requires Inside(s, d, t) && i < |t| && (mode.Number? ==> i > 0) && (mode.Raw? ==> IsClose(mode.close))
    ensures Step(s, d + i, mode) == Step(t, i, mode)
  {
    ByteInside(s, d, t, i);
    match mode
    case Code => CodeStepInside(s, d, t, i);
    case Block =>
      if t[i] == '*' {
        NextByteInside(s, d, t, i, '/');
      }
    case Quote(_, _) =>
      if i + 1 < |t| {
        ByteInside(s, d, t, i + 1);
      }
    case Number =>
      NumberTakesInside(s, d, t, i);
      CodeStepInside(s, d, t, i);
    case Raw(close) => OccursInside(s, d, t, close, i);
    case _ =>
  }

  // The mode of every byte is the mode it has in the stretch alone.
  lemma {:induction false} BeforeInside(s: Bytes, d: nat, t: Bytes, i: nat)
    requires Inside(s, d, t) && Before(s, d) == Code && i <= |t|
    ensures Before(s, d + i) == Before(t, i)
  {
    if i > 0 {
      BeforeInside(s, d, t, i - 1);
      ModeInside(s, d, t, i - 1, Before(t, i - 1));
    }
  }

  lemma ModeInside(s: Bytes, d: nat, t: Bytes, i: nat, mode: Mode)
    requires Inside(s, d, t) && i < |t| && Before(t, i) == mode == Before(s, d + i)
    ensures Before(s, d + i + 1) == Before(t, i + 1)
  {
    RawIsReal(t, i);
    StepInside(s, d, t, i, mode);
  }

  lemma CodeByteInside(s: Bytes, d: nat, t: Bytes, i: nat)
    requires Inside(s, d, t) && Before(s, d) == Code && i < |t|
    ensures d + i < |s| && s[d + i] == t[i] && CodeByte(s, d + i) == CodeByte(t, i)
  {
    ByteInside(s, d, t, i);
    BeforeInside(s, d, t, i);
    if i > 0 {
      NumberTakesInside(s, d, t, i);
    }
  }

  lemma BlankByteInside(s: Bytes, d: nat, t: Bytes, i: nat)
    requires Inside(s, d, t) && Before(s, d) == Code && i < |t|
    ensures d + i < |s| && BlankByte(s, d + i) == BlankByte(t, i)
  {
    CodeByteInside(s, d, t, i);
    BeforeInside(s, d, t, i);
    if t[i] != '\n' {
      NextByteInside(s, d, t, i, '/');
      NextByteInside(s, d, t, i, '*');
    }
  }

  // The line as it stands in the source.
  function Moved(line: SrcLine, d: nat, row: nat): SrcLine {
    SrcLine(row + line.row, d + line.start, d + line.end,
            if line.directive.None? then None else Some(d + line.directive.value),
            line.spliced, line.inDirective, line.blank)
  }

  lemma {:induction false} FirstSolidInside(s: Bytes, d: nat, t: Bytes, lo: nat, hi: nat)
    requires Inside(s, d, t) && lo <= hi <= |t|
    ensures FirstSolid(s, d + lo, d + hi) == d + FirstSolid(t, lo, hi)
    decreases hi - lo
  {
    if lo < hi {
      ByteInside(s, d, t, lo);
      if IsSpace(t[lo]) {
        FirstSolidInside(s, d, t, lo + 1, hi);
      }
    }
  }

  lemma {:induction false} AlphaEndInside(s: Bytes, d: nat, t: Bytes, lo: nat, hi: nat)
    requires Inside(s, d, t) && lo <= hi <= |t|
    ensures AlphaEnd(s, d + lo, d + hi) == d + AlphaEnd(t, lo, hi)
    decreases hi - lo
  {
    if lo < hi {
      ByteInside(s, d, t, lo);
      if IsAlpha(t[lo]) {
        AlphaEndInside(s, d, t, lo + 1, hi);
      }
    }
  }

  lemma HashInside(s: Bytes, d: nat, t: Bytes, lo: nat, hi: nat)
    requires Inside(s, d, t) && lo <= hi <= |t|
    ensures HashIn(s, d + lo, d + hi) == if HashIn(t, lo, hi).None? then None else Some(d + HashIn(t, lo, hi).value)
  {
    FirstSolidInside(s, d, t, lo, hi);
    if FirstSolid(t, lo, hi) < hi {
      ByteInside(s, d, t, FirstSolid(t, lo, hi));
    }
  }

  lemma BackslashInside(s: Bytes, d: nat, t: Bytes, lo: nat, hi: nat)
    requires Inside(s, d, t) && lo <= hi <= |t|
    ensures EndsWithBackslash(s, d + lo, d + hi) == EndsWithBackslash(t, lo, hi)
  {
    assert lo < hi ==> s[d + (hi - 1)] == t[hi - 1];
    assert lo + 1 < hi ==> s[d + (hi - 2)] == t[hi - 2];
  }

  lemma BlankInside(s: Bytes, d: nat, t: Bytes, lo: nat, hi: nat)
    requires Inside(s, d, t) && Before(s, d) == Code && lo <= hi <= |t|
    ensures BlankSoFar(s, d + lo, d + hi) == BlankSoFar(t, lo, hi)
  {
    forall i: nat | lo <= i < hi ensures BlankByte(s, d + i) == BlankByte(t, i) {
      BlankByteInside(s, d, t, i);
    }
    if BlankSoFar(t, lo, hi) {
      forall k: nat | d + lo <= k < d + hi ensures BlankByte(s, k) {
        assert BlankByte(t, k - d);
      }
    }
  }

  lemma OneEnd(s: Bytes, lo: nat, hi: nat, end: nat)
    requires IsLine(s, lo, hi) && IsLine(s, lo, end)
    ensures hi == end
  {
  }

  lemma IsLineInside(s: Bytes, d: nat, t: Bytes, lo: nat, hi: nat)
    requires Inside(s, d, t) && IsLine(t, lo, hi) && (hi < |t| || d + |t| == |s|)
    ensures IsLine(s, d + lo, d + hi)
  {
    forall k | d + lo <= k < d + hi ensures s[k] != '\n' {
      assert s[d + (k - d)] == t[k - d];
    }
    if lo > 0 {
      assert s[d + (lo - 1)] == t[lo - 1];
    }
  }

  // Byte d is read as code. The automaton is named under a quantifier, so that a proof
  // that only passes the fact on does not run it.
  ghost predicate Afresh(src: Bytes, d: nat) {
    forall i: nat {:trigger Before(src, i)} :: i <= |src| && i == d ==> Before(src, i) == Code
  }

  // The lines of a stretch that starts at line n of the source, unspliced.
  ghost predicate Starts(s: Bytes, ls: seq<SrcLine>, n: nat, d: nat, t: Bytes, lt: seq<SrcLine>) {
    && Inside(s, d, t) && Afresh(s, d)
    && LinesExact(s, ls) && ls != [] && ls[|ls| - 1].end == |s|
    && LinesExact(t, lt) && lt != [] && lt[|lt| - 1].end == |t|
    && n < |ls| && ls[n].start == d && !ls[n].spliced
  }

  // Line k of the stretch does not reach past it in the source.
  ghost predicate EndsInside(s: Bytes, d: nat, t: Bytes, line: SrcLine) {
    line.end < |t| || d + |t| == |s|
  }

  lemma SameLine(s: Bytes, ls: seq<SrcLine>, n: nat, d: nat, t: Bytes, lt: seq<SrcLine>, k: nat)
    requires Starts(s, ls, n, d, t, lt) && k < |lt| && n + k < |ls| && EndsInside(s, d, t, lt[k])
    requires ls[n + k].start == d + lt[k].start && ls[n + k].spliced == lt[k].spliced
    requires k > 0 ==> ls[n + k - 1].inDirective == lt[k - 1].inDirective
    ensures ls[n + k] == Moved(lt[k], d, n)
  {
    SameEnd(s, ls, n, d, t, lt, k);
    SameDirective(s, ls, n, d, t, lt, k);
    SameBlank(s, ls, n, d, t, lt, k);
    assert LineIsExact(s, ls, n + k) && LineIsExact(t, lt, k);
  }

  // What an exact line says of its directive, and of where it starts.
  lemma DirectiveIs(src: Bytes, lines: seq<SrcLine>, k: nat)
    requires LinesExact(src, lines) && k < |lines|
    ensures
      var line := lines[k];
      && line.start <= line.end <= |src|
      && line.directive == (if !line.spliced && Before(src, line.start) == Code
                            then HashIn(src, line.start, line.end) else None)
      && line.inDirective == (line.directive.Some? || (line.spliced && k > 0 && lines[k - 1].inDirective))
  {
    assert LineIsExact(src, lines, k);
  }

  lemma StartIs(src: Bytes, lines: seq<SrcLine>, k: nat)
    requires LinesExact(src, lines) && k < |lines|
    ensures lines[k].start <= lines[k].end <= |src|
    ensures k == 0 ==> lines[k].start == 0 && !lines[k].spliced
    ensures k > 0 ==> lines[k - 1].start <= lines[k - 1].end < |src| && lines[k].start == lines[k - 1].end + 1
    ensures k > 0 ==>
              var above := lines[k - 1];
              lines[k].spliced == (EndsWithBackslash(src, above.start, above.end) && !Before(src, lines[k].start).Raw?)
  {
    assert LineIsExact(src, lines, k);
    if k > 0 {
      assert LineIsExact(src, lines, k - 1);
    }
  }

  lemma SameDirective(s: Bytes, ls: seq<SrcLine>, n: nat, d: nat, t: Bytes, lt: seq<SrcLine>, k: nat)
    requires Starts(s, ls, n, d, t, lt) && k < |lt| && n + k < |ls| && ls[n + k].end == d + lt[k].end
    requires ls[n + k].start == d + lt[k].start && ls[n + k].spliced == lt[k].spliced
    requires k > 0 ==> ls[n + k - 1].inDirective == lt[k - 1].inDirective
    ensures ls[n + k].directive == Moved(lt[k], d, n).directive && ls[n + k].inDirective == lt[k].inDirective
  {
    DirectiveIs(s, ls, n + k);
    DirectiveIs(t, lt, k);
    StartIs(t, lt, k);
    BeforeInside(s, d, t, lt[k].start);
    HashInside(s, d, t, lt[k].start, lt[k].end);
  }

  lemma SameBlank(s: Bytes, ls: seq<SrcLine>, n: nat, d: nat, t: Bytes, lt: seq<SrcLine>, k: nat)
    requires Starts(s, ls, n, d, t, lt) && k < |lt| && n + k < |ls| && ls[n + k].end == d + lt[k].end
    requires ls[n + k].start == d + lt[k].start
    ensures ls[n + k].blank == lt[k].blank
  {
    assert LineIsExact(s, ls, n + k) && LineIsExact(t, lt, k);
    BeforeInside(s, d, t, lt[k].start);
    BlankInside(s, d, t, lt[k].start, lt[k].end);
  }

  lemma SameEnd(s: Bytes, ls: seq<SrcLine>, n: nat, d: nat, t: Bytes, lt: seq<SrcLine>, k: nat)
    requires Starts(s, ls, n, d, t, lt) && k < |lt| && n + k < |ls| && EndsInside(s, d, t, lt[k])
    requires ls[n + k].start == d + lt[k].start
    ensures ls[n + k].end == d + lt[k].end
  {
    assert LineIsExact(s, ls, n + k) && LineIsExact(t, lt, k);
    IsLineInside(s, d, t, lt[k].start, lt[k].end);
    OneEnd(s, d + lt[k].start, d + lt[k].end, ls[n + k].end);
  }

  // The line after one of the stretch starts where it does there, and is spliced alike.
  lemma NextInside(s: Bytes, ls: seq<SrcLine>, n: nat, d: nat, t: Bytes, lt: seq<SrcLine>, k: nat)
    requires Starts(s, ls, n, d, t, lt) && k + 1 < |lt| && n + k < |ls| && ls[n + k] == Moved(lt[k], d, n)
    ensures n + k + 1 < |ls|
    ensures ls[n + k + 1].start == d + lt[k + 1].start && ls[n + k + 1].spliced == lt[k + 1].spliced
  {
    StartIs(t, lt, k + 1);
    assert n + k + 1 < |ls|;
    StartIs(s, ls, n + k + 1);
    SpliceInside(s, d, t, lt[k].start, lt[k].end);
  }

  // Whether the line after [lo, hi) is spliced to it.
  lemma SpliceInside(s: Bytes, d: nat, t: Bytes, lo: nat, hi: nat)
    requires Inside(s, d, t) && Afresh(s, d) && lo <= hi < |t|
    ensures
      (EndsWithBackslash(s, d + lo, d + hi) && !Before(s, d + hi + 1).Raw?) ==
      (EndsWithBackslash(t, lo, hi) && !Before(t, hi + 1).Raw?)
  {
    BackslashInside(s, d, t, lo, hi);
    BeforeInside(s, d, t, hi + 1);
  }

  // Line k of the stretch is line n + k of the source.
  lemma {:induction false} LineInside(s: Bytes, ls: seq<SrcLine>, n: nat, d: nat, t: Bytes, lt: seq<SrcLine>, k: nat)
    requires Starts(s, ls, n, d, t, lt) && k < |lt| && EndsInside(s, d, t, lt[k])
    ensures n + k < |ls| && ls[n + k] == Moved(lt[k], d, n)
  {
    assert LineIsExact(t, lt, k);
    if k > 0 {
      LineInside(s, ls, n, d, t, lt, k - 1);
      NextInside(s, ls, n, d, t, lt, k - 1);
    }
    SameLine(s, ls, n, d, t, lt, k);
  }

  lemma CondInside(s: Bytes, d: nat, t: Bytes, line: SrcLine, row: nat)
    requires Inside(s, d, t) && DirectiveFits(t, line)
    ensures DirectiveFits(s, Moved(line, d, row)) && CondOf(s, Moved(line, d, row)) == CondOf(t, line)
  {
    if line.directive.Some? {
      WordInside(s, d, t, line, row);
    }
  }

  lemma WordInside(s: Bytes, d: nat, t: Bytes, line: SrcLine, row: nat)
    requires Inside(s, d, t) && DirectiveFits(t, line) && line.directive.Some?
    ensures d + line.end <= |s| && DirectiveWord(s, Moved(line, d, row)).0 == DirectiveWord(t, line).0
  {
    var lo, hi := line.directive.value, line.end;
    FirstSolidInside(s, d, t, lo, hi);
    var from := FirstSolid(t, lo, hi);
    AlphaEndInside(s, d, t, from, hi);
    var to := AlphaEnd(t, from, hi);
    SliceInside(s, d, t, from, to);
    assert DirectiveWord(s, Moved(line, d, row)).0 == s[d + from..d + to];
  }

  // The punctuation of a stretch as it stands in the source; the code that heads its first
  // brace begins at `from`, before the stretch.
  function MovedHead(head: nat, d: nat, from: nat): nat {
    if head == 0 then from else d + head
  }

  function MovedBrace(brace: Brace, d: nat, from: nat): Brace {
    Brace(d + brace.at, brace.open, MovedHead(brace.headFrom, d, from))
  }

  function MovedBraces(braces: seq<Brace>, d: nat, from: nat): seq<Brace> {
    seq(|braces|, k requires 0 <= k < |braces| => MovedBrace(braces[k], d, from))
  }

  function MovedPunct(punct: Punct, d: nat, from: nat): Punct {
    Punct(MovedBraces(punct.braces, d, from), MovedHead(punct.headFrom, d, from))
  }

  lemma MovedAppend(a: seq<Brace>, b: seq<Brace>, d: nat, from: nat)
    ensures MovedBraces(a + b, d, from) == MovedBraces(a, d, from) + MovedBraces(b, d, from)
  {
  }

  // The punctuation so far and that of one more piece, or of one more byte.
  ghost function After(before: Punct, here: Punct): Punct {
    Punct(before.braces + here.braces, here.headFrom)
  }

  ghost function AfterByte(before: Punct, code: bool, b: char, i: nat): Punct {
    if !code || !IsPunct(b) then before
    else if b == ';' then Punct(before.braces, i + 1)
    else Punct(before.braces + [Brace(i, b == '{', before.headFrom)], i + 1)
  }

  lemma PunctAfter(src: Bytes, lo: nat, i: nat, before: Punct)
    requires lo <= i < |src|
    ensures After(before, PunctIn(src, lo, i + 1, before.headFrom)) ==
              AfterByte(After(before, PunctIn(src, lo, i, before.headFrom)), CodeByte(src, i), src[i], i)
  {
    var here := PunctIn(src, lo, i, before.headFrom);
    var brace := Brace(i, src[i] == '{', here.headFrom);
    assert before.braces + (here.braces + [brace]) == (before.braces + here.braces) + [brace];
  }

  lemma MovedAfterByte(now: Punct, d: nat, from: nat, code: bool, b: char, i: nat)
    ensures MovedPunct(AfterByte(now, code, b, i), d, from) == AfterByte(MovedPunct(now, d, from), code, b, d + i)
  {
    MovedAppend(now.braces, [Brace(i, b == '{', now.headFrom)], d, from);
    var brace := Brace(i, b == '{', now.headFrom);
    assert MovedBraces([brace], d, from) == [MovedBrace(brace, d, from)];
  }

  // Some punctuation of the stretch, and more of it up to byte hi.
  ghost predicate PunctMoves(s: Bytes, d: nat, t: Bytes, lo: nat, hi: nat, inT: Punct, from: nat)
    requires d + |t| <= |s| && lo <= hi <= |t|
  {
    var inS := MovedPunct(inT, d, from);
    After(inS, PunctIn(s, d + lo, d + hi, inS.headFrom)) ==
    MovedPunct(After(inT, PunctIn(t, lo, hi, inT.headFrom)), d, from)
  }

  lemma {:induction false} PunctInside(s: Bytes, d: nat, t: Bytes, lo: nat, hi: nat, inT: Punct, from: nat)
    requires Inside(s, d, t) && Before(s, d) == Code && lo <= hi <= |t|
    ensures PunctMoves(s, d, t, lo, hi, inT, from)
    decreases hi
  {
    if lo == hi {
      var inS := MovedPunct(inT, d, from);
      assert inS.braces + [] == inS.braces && inT.braces + [] == inT.braces;
    } else {
      PunctInside(s, d, t, lo, hi - 1, inT, from);
      CodeByteInside(s, d, t, hi - 1);
      NextHere(s, d, t, lo, hi - 1, inT, from);
    }
  }

  lemma NextHere(s: Bytes, d: nat, t: Bytes, lo: nat, i: nat, inT: Punct, from: nat)
    requires d + |t| <= |s| && lo <= i < |t| && s[d + i] == t[i] && CodeByte(s, d + i) == CodeByte(t, i)
    requires PunctMoves(s, d, t, lo, i, inT, from)
    ensures PunctMoves(s, d, t, lo, i + 1, inT, from)
  {
    PunctAfter(s, d + lo, d + i, MovedPunct(inT, d, from));
    PunctAfter(t, lo, i, inT);
    MovedAfterByte(After(inT, PunctIn(t, lo, i, inT.headFrom)), d, from, CodeByte(t, i), t[i], i);
  }

  // The first k lines of the stretch add its braces to those before it.
  lemma {:induction false} BracesInside(
      s: Bytes, ls: seq<SrcLine>, n: nat, d: nat, t: Bytes, lt: seq<SrcLine>, k: nat)
    requires Starts(s, ls, n, d, t, lt) && k <= |lt| && (k > 0 ==> EndsInside(s, d, t, lt[k - 1]))
    ensures n + k <= |ls|
    ensures
      var before := BracesOf(s, ls, n);
      BracesOf(s, ls, n + k) == After(before, MovedPunct(BracesOf(t, lt, k), d, before.headFrom))
    decreases k
  {
    if k == 0 {
      assert BracesOf(s, ls, n).braces + [] == BracesOf(s, ls, n).braces;
    } else {
      EndsBefore(s, d, t, lt, k - 1);
      BracesInside(s, ls, n, d, t, lt, k - 1);
      LineInside(s, ls, n, d, t, lt, k - 1);
      BracesLine(s, ls, n, d, t, lt, k - 1, BracesOf(s, ls, n));
    }
  }

  lemma EndsBefore(s: Bytes, d: nat, t: Bytes, lt: seq<SrcLine>, k: nat)
    requires LinesExact(t, lt) && k < |lt| && EndsInside(s, d, t, lt[k])
    ensures k > 0 ==> EndsInside(s, d, t, lt[k - 1])
  {
    if k > 0 {
      StartIs(t, lt, k);
    }
  }

  lemma {:induction false} BracesLine(
      s: Bytes, ls: seq<SrcLine>, n: nat, d: nat, t: Bytes, lt: seq<SrcLine>, k: nat, before: Punct)
    requires Inside(s, d, t) && Before(s, d) == Code && LinesExact(s, ls) && LinesExact(t, lt)
    requires k < |lt| && n + k < |ls| && ls[n + k] == Moved(lt[k], d, n)
    requires BracesOf(s, ls, n + k) == After(before, MovedPunct(BracesOf(t, lt, k), d, before.headFrom))
    ensures BracesOf(s, ls, n + k + 1) == After(before, MovedPunct(BracesOf(t, lt, k + 1), d, before.headFrom))
  {
    BracesNext(s, ls, n + k);
    BracesNext(t, lt, k);
    if !lt[k].inDirective {
      AddedHere(s, d, t, lt[k].start, lt[k].end, before, BracesOf(t, lt, k));
    }
  }

  lemma AddedHere(s: Bytes, d: nat, t: Bytes, lo: nat, hi: nat, before: Punct, inT: Punct)
    requires Inside(s, d, t) && Before(s, d) == Code && lo <= hi <= |t|
    ensures
      var now := After(before, MovedPunct(inT, d, before.headFrom));
      After(now, PunctIn(s, d + lo, d + hi, now.headFrom)) ==
      After(before, MovedPunct(After(inT, PunctIn(t, lo, hi, inT.headFrom)), d, before.headFrom))
  {
    PunctInside(s, d, t, lo, hi, inT, before.headFrom);
    var inS := MovedPunct(inT, d, before.headFrom);
    AfterAfter(before, inS, PunctIn(s, d + lo, d + hi, inS.headFrom));
  }

  lemma AfterAfter(a: Punct, b: Punct, c: Punct)
    ensures After(After(a, b), c) == After(a, After(b, c))
  {
    assert (a.braces + b.braces) + c.braces == a.braces + (b.braces + c.braces);
  }

  lemma BracesNext(src: Bytes, lines: seq<SrcLine>, n: nat)
    requires LinesExact(src, lines) && n < |lines|
    ensures lines[n].start <= lines[n].end <= |src|
    ensures
      var now := BracesOf(src, lines, n);
      BracesOf(src, lines, n + 1) ==
      if lines[n].inDirective then now else After(now, PunctIn(src, lines[n].start, lines[n].end, now.headFrom))
  {
    assert LineIsExact(src, lines, n);
  }

  // Whole lines that leave no comment, no literal and no splice open.
  ghost predicate WholeLines(t: Bytes) {
    t == "" || (t[|t| - 1] == '\n' && Afresh(t, |t|) && !EndsWithBackslash(t, 0, |t| - 1))
  }

  // After such lines the next ones start afresh.
  lemma NextStretch(s: Bytes, ls: seq<SrcLine>, n: nat, d: nat, t: Bytes, lt: seq<SrcLine>)
    requires Starts(s, ls, n, d, t, lt) && WholeLines(t)
    ensures Afresh(s, d + |t|)
    ensures
      var last := n + |lt| - 1;
      last < |ls| && ls[last].start == d + |t| && !ls[last].spliced
  {
    BeforeInside(s, d, t, |t|);
    LastIsEmpty(t, lt);
    if |lt| > 1 {
      var k := |lt| - 2;
      StartIs(t, lt, k + 1);
      LineInside(s, ls, n, d, t, lt, k);
      StartIs(s, ls, n + k);
      assert n + k + 1 < |ls|;
      StartIs(s, ls, n + k + 1);
      BackslashInside(s, d, t, lt[k].start, lt[k].end);
    }
  }

  // Whole lines end with an empty one.
  lemma LastIsEmpty(t: Bytes, lt: seq<SrcLine>)
    requires LinesExact(t, lt) && lt != [] && lt[|lt| - 1].end == |t| && WholeLines(t)
    ensures lt[|lt| - 1].start == |t|
    ensures |lt| == 1 ==> t == ""
  {
    assert LineIsExact(t, lt, |lt| - 1);
  }
}
