// crates/ecp-analyzer/src/preproc_fallback.rs: the loop of scan_lines over the bytes of
// one line. It takes a whole comment, literal or number at a time; each lemma here says
// that the byte automaton, over the same bytes, ends in the state the loop goes on from,
// and that no byte inside the token is code. What is open when the line ends is carried
// to the next.
module Tokens {
  import opened Options
  import opened PreprocText
  import opened Automaton

  datatype Brace = Brace(at: nat, open: bool, headFrom: nat)

  // What crosses a line end: an open block comment or an open raw string.
  function LineMode(inComment: bool, rawClose: Option<Bytes>): Mode {
    if rawClose.Some? then Raw(rawClose.value) else if inComment then Block else Code
  }

  // What can be open at a line end: a comment or a raw string with a real close.
  ghost predicate Crosses(inComment: bool, rawClose: Option<Bytes>) {
    rawClose.Some? ==> !inComment && IsClose(rawClose.value)
  }

  ghost predicate IsClose(close: Bytes) {
    |close| >= 2 && forall k :: 0 <= k < |close| ==> close[k] != '\n'
  }

  predicate IsPunct(b: char) {
    b == '{' || b == '}' || b == ';'
  }

  // The braces among the code bytes of [lo, hi), each with the byte after the last
  // ';', '{' or '}' before it.
  datatype Punct = Punct(braces: seq<Brace>, headFrom: nat)

  ghost function PunctIn(src: Bytes, lo: nat, hi: nat, headFrom: nat): Punct
    requires lo <= hi <= |src|
    decreases hi
  {
    if lo == hi then Punct([], headFrom)
    else
      var before := PunctIn(src, lo, hi - 1, headFrom);
      var b := src[hi - 1];
      if !CodeByte(src, hi - 1) || !IsPunct(b) then before
      else if b == ';' then Punct(before.braces, hi)
      else Punct(before.braces + [Brace(hi - 1, b == '{', before.headFrom)], hi)
  }

  // What one more byte adds.
  lemma PunctStep(src: Bytes, lo: nat, i: nat, headFrom: nat)
    requires lo <= i < |src|
    ensures
      var before, now := PunctIn(src, lo, i, headFrom), PunctIn(src, lo, i + 1, headFrom);
      if CodeByte(src, i) && IsPunct(src[i]) then
        && now.headFrom == i + 1
        && now.braces == before.braces +
                         if src[i] == ';' then [] else [Brace(i, src[i] == '{', before.headFrom)]
      else now == before
  {
  }

  // Bytes [a, b) hold no punctuation that is code.
  lemma {:induction false} NoPunct(src: Bytes, lo: nat, a: nat, b: nat, headFrom: nat)
    requires lo <= a <= b <= |src|
    requires forall k {:trigger CodeByte(src, k)} :: a <= k < b ==> !CodeByte(src, k) || !IsPunct(src[k])
    ensures PunctIn(src, lo, b, headFrom) == PunctIn(src, lo, a, headFrom)
    decreases b
  {
    if a < b {
      NoPunct(src, lo, a, b - 1, headFrom);
    }
  }

  // The braces of [lo, hi) ascend, and each is a code brace.
  lemma {:induction false} PunctAscends(src: Bytes, lo: nat, hi: nat, headFrom: nat)
    requires lo <= hi <= |src|
    ensures
      var braces := PunctIn(src, lo, hi, headFrom).braces;
      && (forall k :: 0 <= k < |braces| ==>
            && lo <= braces[k].at < hi && CodeByte(src, braces[k].at)
            && src[braces[k].at] == if braces[k].open then '{' else '}')
      && (forall k, l :: 0 <= k < l < |braces| ==> braces[k].at < braces[l].at)
    decreases hi
  {
    if lo < hi {
      PunctAscends(src, lo, hi - 1, headFrom);
      PunctStep(src, lo, hi - 1, headFrom);
    }
  }

  ghost predicate HasBraceAt(braces: seq<Brace>, at: nat) {
    exists b :: 0 <= b < |braces| && braces[b].at == at
  }

  // No code brace of [lo, hi) is missing.
  lemma {:induction false} PunctHoldsAll(src: Bytes, lo: nat, hi: nat, headFrom: nat, at: nat)
    requires lo <= at < hi <= |src| && CodeByte(src, at) && (src[at] == '{' || src[at] == '}')
    ensures HasBraceAt(PunctIn(src, lo, hi, headFrom).braces, at)
    decreases hi
  {
    PunctStep(src, lo, hi - 1, headFrom);
    var before, now := PunctIn(src, lo, hi - 1, headFrom).braces, PunctIn(src, lo, hi, headFrom).braces;
    if at == hi - 1 {
      assert now[|now| - 1].at == at;
    } else {
      PunctHoldsAll(src, lo, hi - 1, headFrom, at);
      var k :| 0 <= k < |before| && before[k].at == at;
      assert now[k] == before[k];
    }
  }

  ghost predicate BlankSoFar(src: Bytes, lo: nat, i: nat)
    requires i <= |src|
  {
    forall k: nat {:trigger BlankByte(src, k)} :: lo <= k < i ==> BlankByte(src, k)
  }

  // The state of the loop over one line, before byte i of the source.
  ghost predicate InLine(src: Bytes, lo: nat, hi: nat, i: nat, inComment: bool, rawClose: Option<Bytes>) {
    && IsLine(src, lo, hi) && lo <= i
    && (i < hi ==>
          && rawClose.None?
          && if inComment then Before(src, i) == Block else CodeByte(src, i))
    && (i >= hi ==> LineEnds(src, hi, inComment, rawClose))
  }

  // What the byte after the line end is read in.
  ghost predicate LineEnds(src: Bytes, hi: nat, inComment: bool, rawClose: Option<Bytes>)
    requires hi <= |src|
  {
    hi < |src| ==> Before(src, hi + 1) == LineMode(inComment, rawClose)
  }

  lemma CodeIsReadAsCode(src: Bytes, i: nat)
    requires i < |src| && CodeByte(src, i)
    ensures Before(src, i + 1) == CodeStep(src, i)
  {
  }

  // At a line end, code stays code and a comment stays a comment.
  lemma AtLineEnd(src: Bytes, lo: nat, hi: nat, i: nat, inComment: bool)
    requires IsLine(src, lo, hi) && lo <= i <= hi
    requires if inComment then Before(src, i) == Block
             else Before(src, i) == Code || (Before(src, i) == Number && !(i > 0 && NumberTakes(src, |src|, i)))
    ensures InLine(src, lo, hi, i, inComment, None)
  {
  }

  // A `//` comment runs to the line end.
  lemma {:induction false} LineCommentRuns(src: Bytes, lo: nat, hi: nat, from: nat, i: nat)
    requires IsLine(src, lo, hi) && lo <= from <= i <= hi && Before(src, from) == LineComment
    ensures Before(src, i) == LineComment
    decreases i
  {
    if from < i {
      LineCommentRuns(src, lo, hi, from, i - 1);
    }
  }

  // A number runs as far as its bytes go, whether read in its line or in the source.
  lemma NumberTakesInLine(src: Bytes, lo: nat, hi: nat, i: nat)
    requires IsLine(src, lo, hi) && lo < i <= hi
    ensures i < hi ==> NumberTakes(src, hi, i) == NumberTakes(src, |src|, i)
    ensures i == hi ==> !NumberTakes(src, |src|, i)
  {
  }

  lemma {:induction false} NumberRuns(src: Bytes, lo: nat, hi: nat, digit: nat, i: nat)
    requires IsLine(src, lo, hi) && lo <= digit < i <= hi
    requires CodeByte(src, digit) && CodeStep(src, digit) == Number
    requires forall k :: digit < k < i ==> NumberTakes(src, hi, k)
    ensures Before(src, i) == Number
    decreases i
  {
    if i > digit + 1 {
      NumberRuns(src, lo, hi, digit, i - 1);
      NumberTakesInLine(src, lo, hi, i - 1);
    }
  }

  // A close has no line end, so an occurrence that starts in the line lies in it.
  lemma CloseInLine(src: Bytes, lo: nat, hi: nat, close: Bytes, from: nat)
    requires IsLine(src, lo, hi) && lo <= from <= hi && |close| >= 2
    requires forall k :: 0 <= k < |close| ==> close[k] != '\n'
    ensures
      match FindIn(src, close, from, hi)
      case None => forall q :: from <= q < hi ==> !OccursAt(src, close, q)
      case Some(p) => FindIn(src, close, from, |src|) == Some(p)
  {
    forall q | from <= q < hi && hi < q + |close| ensures !OccursAt(src, close, q) {
      if OccursAt(src, close, q) {
        OccursBytes(src, close, q, hi - q);
      }
    }
    FindsFirst(src, close, from, hi);
  }

  lemma {:induction false} FindsFirst(src: Bytes, close: Bytes, from: nat, hi: nat)
    requires from <= hi <= |src| && |close| > 0
    ensures FindIn(src, close, from, hi).Some? ==>
              FindIn(src, close, from, |src|) == FindIn(src, close, from, hi)
    decreases hi - from
  {
    if from + |close| <= hi && !OccursAt(src, close, from) {
      FindsFirst(src, close, from + 1, hi);
    }
  }

  ghost predicate NoCode(src: Bytes, hi: nat, from: nat, to: nat)
    requires hi <= |src|
  {
    forall k: nat {:trigger CodeByte(src, k)} :: from < k < to && k < hi ==> !CodeByte(src, k)
  }

  // No byte strictly inside the token at [i, j) is code.
  ghost predicate IsToken(src: Bytes, hi: nat, i: nat, j: nat)
    requires hi <= |src|
  {
    i < j && NoCode(src, hi, i, j)
  }

  // One byte of a string or char literal, or an escape and the byte after it.
  lemma QuoteGoesOn(src: Bytes, lo: nat, hi: nat, i: nat, quote: char)
    requires IsLine(src, lo, hi) && lo <= i < hi && Before(src, i) == Quote(quote, false) && src[i] != quote
    ensures if src[i] == '\\' && i + 1 < hi
            then Before(src, i + 1) == Quote(quote, true) && Before(src, i + 2) == Quote(quote, false)
            else Before(src, i + 1) == Quote(quote, false)
  {
    assert Before(src, i + 1) == Step(src, i, Quote(quote, false));
  }

  lemma QuoteEnds(src: Bytes, lo: nat, hi: nat, i: nat, quote: char)
    requires IsLine(src, lo, hi) && lo <= i && Before(src, Upto(i, hi)) == Quote(quote, false)
    requires i < hi ==> src[i] == quote
    ensures InLine(src, lo, hi, i + 1, false, None)
  {
    if i < hi {
      assert Before(src, i + 1) == Code;
      AtLineEnd(src, lo, hi, i + 1, false);
    }
  }

  // A string or char literal from its quote; it ends at the line end at the latest.
  method ScanQuote(src: Bytes, lo: nat, hi: nat, quote: nat) returns (j: nat)
    requires IsLine(src, lo, hi) && lo <= quote < hi
    requires CodeByte(src, quote) && CodeStep(src, quote) == Quote(src[quote], false)
    ensures IsToken(src, hi, quote, j) && InLine(src, lo, hi, j, false, None)
  {
    var b, i := src[quote], quote + 1;
    while i < hi && src[i] != b
      invariant quote < i <= hi + 1
      invariant Before(src, Upto(i, hi)) == Quote(b, false)
      invariant NoCode(src, hi, quote, i)
    {
      QuoteGoesOn(src, lo, hi, i, b);
      i := i + (if src[i] == '\\' then 2 else 1);
    }
    QuoteEnds(src, lo, hi, i, b);
    j := i + 1;
  }

  // A raw string from its quote: past its close, or to the line end.
  lemma RawToken(src: Bytes, lo: nat, hi: nat, quote: nat, raw: RawOpen)
    requires IsLine(src, lo, hi) && lo <= quote < hi && CodeByte(src, quote) && src[quote] == '"'
    requires RawStringOpen(src, lo, hi, quote) == Some(raw)
    ensures
      match FindIn(src, raw.close, raw.body, hi)
      case Some(p) =>
        IsToken(src, hi, quote, p + |raw.close|) && InLine(src, lo, hi, p + |raw.close|, false, None)
      case None => IsToken(src, hi, quote, hi) && InLine(src, lo, hi, hi, false, Some(raw.close))
  {
    RawHeadBytes(src, lo, hi, quote, raw, raw.body);
    RawContinues(src, lo, hi, raw.close, raw.body);
    forall k: nat | quote < k < raw.body ensures !CodeByte(src, k) {
      RawHeadBytes(src, lo, hi, quote, raw, k);
    }
  }

  lemma RawHeadBytes(src: Bytes, lo: nat, hi: nat, quote: nat, raw: RawOpen, k: nat)
    requires IsLine(src, lo, hi) && lo <= quote < hi && CodeByte(src, quote) && src[quote] == '"'
    requires RawStringOpen(src, lo, hi, quote) == Some(raw) && quote < k <= raw.body
    ensures Before(src, k) == if k == raw.body then Raw(raw.close) else RawHead(raw.close, raw.body - k)
  {
    RawOpenInLine(src, lo, hi, quote);
    CodeIsReadAsCode(src, quote);
    RawHeadRuns(src, raw.close, quote + 1, raw.body - quote - 1, k - quote - 1);
  }

  // The bytes of [from, j) are raw text, and the line goes on as `rawClose` says.
  ghost predicate RawText(src: Bytes, lo: nat, hi: nat, from: nat, j: nat, rawClose: Option<Bytes>) {
    && InLine(src, lo, hi, j, false, rawClose)
    && forall k: nat {:trigger CodeByte(src, k)} {:trigger BlankByte(src, k)} ::
         from <= k < j && k < |src| ==> !CodeByte(src, k) && !BlankByte(src, k)
  }

  // Raw text from `from` on: past the close, or raw to the line end and beyond.
  lemma RawContinues(src: Bytes, lo: nat, hi: nat, close: Bytes, from: nat)
    requires IsLine(src, lo, hi) && lo <= from <= hi && IsClose(close) && Before(src, from) == Raw(close)
    ensures
      match FindIn(src, close, from, hi)
      case Some(p) => RawText(src, lo, hi, from, p + |close|, None)
      case None => RawText(src, lo, hi, from, hi, Some(close))
  {
    CloseInLine(src, lo, hi, close, from);
    match FindIn(src, close, from, hi)
    case Some(p) => RawCloses(src, lo, hi, close, from, p);
    case None => RawCrosses(src, lo, hi, close, from);
  }

  lemma RawCloses(src: Bytes, lo: nat, hi: nat, close: Bytes, from: nat, p: nat)
    requires IsLine(src, lo, hi) && lo <= from <= hi && IsClose(close) && Before(src, from) == Raw(close)
    requires p + |close| <= hi && FindIn(src, close, from, |src|) == Some(p)
    ensures RawText(src, lo, hi, from, p + |close|, None)
  {
    forall k: nat | from <= k < p + |close| ensures !CodeByte(src, k) && !BlankByte(src, k) {
      RawBytes(src, close, from, p, k);
    }
    RawCloseEnds(src, close, from, p);
    AtLineEnd(src, lo, hi, p + |close|, false);
  }

  lemma RawCloseEnds(src: Bytes, close: Bytes, from: nat, p: nat)
    requires from <= p && p + |close| <= |src| && |close| >= 2 && Before(src, from) == Raw(close)
    requires OccursAt(src, close, p) && forall q :: from <= q < p ==> !OccursAt(src, close, q)
    ensures Before(src, p + |close|) == Code
  {
    RawUntilClose(src, close, from, p);
    RawEndRuns(src, p + 1, |close| - 1, |close| - 1);
  }

  lemma RawBytes(src: Bytes, close: Bytes, from: nat, p: nat, k: nat)
    requires from <= p && from <= k < p + |close| && p + |close| <= |src|
    requires |close| >= 2 && Before(src, from) == Raw(close)
    requires OccursAt(src, close, p) && forall q :: from <= q < p ==> !OccursAt(src, close, q)
    ensures !CodeByte(src, k) && !BlankByte(src, k)
  {
    if k <= p {
      RawUntilClose(src, close, from, k);
    } else {
      RawUntilClose(src, close, from, p);
      CloseBytes(src, close, p, k);
    }
  }

  lemma CloseBytes(src: Bytes, close: Bytes, p: nat, k: nat)
    requires p < k < p + |close| && p + |close| <= |src|
    requires |close| >= 2 && Before(src, p) == Raw(close) && OccursAt(src, close, p)
    ensures Before(src, k).RawEnd?
  {
    assert Before(src, p + 1) == RawEnd(|close| - 1);
    RawEndRuns(src, p + 1, |close| - 1, k - p - 1);
  }

  lemma RawCrosses(src: Bytes, lo: nat, hi: nat, close: Bytes, from: nat)
    requires IsLine(src, lo, hi) && lo <= from <= hi && IsClose(close) && Before(src, from) == Raw(close)
    requires forall q :: from <= q < hi ==> !OccursAt(src, close, q)
    ensures RawText(src, lo, hi, from, hi, Some(close))
  {
    forall k: nat | from <= k < hi ensures !CodeByte(src, k) && !BlankByte(src, k) {
      RawUntilClose(src, close, from, k);
    }
    RawUntilClose(src, close, from, hi);
    assert hi < |src| ==> src[hi] != close[0];
  }

  method NumberToken(src: Bytes, lo: nat, hi: nat, digit: nat) returns (j: nat)
    requires IsLine(src, lo, hi) && lo <= digit < hi
    requires CodeByte(src, digit) && CodeStep(src, digit) == Number
    ensures IsToken(src, hi, digit, j) && InLine(src, lo, hi, j, false, None)
  {
    j := PpNumberEnd(src, hi, digit);
    forall k: nat | digit < k < j ensures !CodeByte(src, k) {
      NumberRuns(src, lo, hi, digit, k);
      NumberTakesInLine(src, lo, hi, k);
    }
    NumberRuns(src, lo, hi, digit, j);
    NumberTakesInLine(src, lo, hi, j);
    AtLineEnd(src, lo, hi, j, false);
  }

  function Upto(i: nat, hi: nat): nat {
    if i < hi then i else hi
  }

  // What the loop over a line has found before byte i.
  ghost predicate Found(
      src: Bytes, lo: nat, hi: nat, i: nat, startRaw: bool, inDirective: bool, headFrom: nat,
      blank: bool, found: Punct)
    requires lo <= hi <= |src| && lo <= i
  {
    && (blank <==> !startRaw && BlankSoFar(src, lo, Upto(i, hi)))
    && found == if inDirective then Punct([], headFrom) else PunctIn(src, lo, Upto(i, hi), headFrom)
  }

  // A token without code punctuation, of which some byte is neither blank nor comment.
  lemma SolidToken(
      src: Bytes, lo: nat, hi: nat, i: nat, j: nat, startRaw: bool, inDirective: bool, headFrom: nat,
      blank: bool, found: Punct)
    requires lo <= i < hi <= |src| && IsToken(src, hi, i, j) && !BlankByte(src, i) && !IsPunct(src[i])
    requires Found(src, lo, hi, i, startRaw, inDirective, headFrom, blank, found)
    ensures Found(src, lo, hi, j, startRaw, inDirective, headFrom, false, found)
  {
    NoPunct(src, lo, i, Upto(j, hi), headFrom);
  }

  // White space or a comment.
  lemma BlankToken(
      src: Bytes, lo: nat, hi: nat, i: nat, j: nat, startRaw: bool, inDirective: bool, headFrom: nat,
      blank: bool, found: Punct)
    requires lo <= i < hi <= |src| && i < j
    requires forall k: nat {:trigger CodeByte(src, k)} {:trigger BlankByte(src, k)} ::
               i <= k < j && k < hi ==> BlankByte(src, k) && (!CodeByte(src, k) || !IsPunct(src[k]))
    requires Found(src, lo, hi, i, startRaw, inDirective, headFrom, blank, found)
    ensures Found(src, lo, hi, j, startRaw, inDirective, headFrom, blank, found)
  {
    NoPunct(src, lo, i, Upto(j, hi), headFrom);
  }

  // Inside a block comment: its end, or one more byte of it.
  method CommentByte(src: Bytes, lo: nat, hi: nat, i: nat) returns (j: nat, inComment: bool)
    requires IsLine(src, lo, hi) && lo <= i < hi && Before(src, i) == Block
    ensures i < j && InLine(src, lo, hi, j, inComment, None)
    ensures forall k: nat {:trigger CodeByte(src, k)} {:trigger BlankByte(src, k)} ::
              i <= k < j && k < hi ==> BlankByte(src, k) && !CodeByte(src, k)
  {
    if src[i] == '*' && i + 1 < hi && src[i + 1] == '/' {
      assert Before(src, i + 1) == BlockEnd && Before(src, i + 2) == Code;
      AtLineEnd(src, lo, hi, i + 2, false);
      j, inComment := i + 2, false;
    } else {
      assert Before(src, i + 1) == Block;
      AtLineEnd(src, lo, hi, i + 1, true);
      j, inComment := i + 1, true;
    }
  }

  // A raw string literal.
  method RawLiteral(src: Bytes, lo: nat, hi: nat, i: nat, raw: RawOpen) returns (j: nat, rawClose: Option<Bytes>)
    requires IsLine(src, lo, hi) && lo <= i < hi && CodeByte(src, i) && src[i] == '"'
    requires RawStringOpen(src, lo, hi, i) == Some(raw)
    ensures IsToken(src, hi, i, j) && InLine(src, lo, hi, j, false, rawClose) && Crosses(false, rawClose)
  {
    RawToken(src, lo, hi, i, raw);
    var p := FindIn(src, raw.close, raw.body, hi);
    if p.Some? {
      j, rawClose := p.value + |raw.close|, None;
    } else {
      j, rawClose := hi, Some(raw.close);
    }
  }

  // The opener of a block comment, or a whole line comment.
  method CommentStart(src: Bytes, lo: nat, hi: nat, i: nat) returns (j: nat, inComment: bool)
    requires IsLine(src, lo, hi) && lo <= i && i + 1 < hi && CodeByte(src, i)
    requires src[i] == '/' && (src[i + 1] == '/' || src[i + 1] == '*')
    ensures i < j && InLine(src, lo, hi, j, inComment, None)
    ensures forall k: nat {:trigger CodeByte(src, k)} {:trigger BlankByte(src, k)} ::
              i <= k < j && k < hi ==> BlankByte(src, k) && (!CodeByte(src, k) || !IsPunct(src[k]))
  {
    CodeIsReadAsCode(src, i);
    if src[i + 1] == '/' {
      forall k: nat | i < k < hi ensures BlankByte(src, k) && !CodeByte(src, k) {
        LineCommentRuns(src, lo, hi, i + 1, k);
      }
      LineCommentRuns(src, lo, hi, i + 1, hi);
      j, inComment := hi, false;
    } else {
      assert Before(src, i + 1) == BlockOpen && Before(src, i + 2) == Block;
      AtLineEnd(src, lo, hi, i + 2, true);
      j, inComment := i + 2, true;
    }
  }

  // A byte that opens no token: punctuation, white space or anything else.
  method SingleByte(
      src: Bytes, lo: nat, hi: nat, i: nat, ghost startRaw: bool, inDirective: bool, ghost headBefore: nat,
      blankBefore: bool, foundBefore: Punct)
      returns (blank: bool, found: Punct)
    requires IsLine(src, lo, hi) && lo <= i < hi && CodeByte(src, i) && CodeStep(src, i) == Code
    requires !(src[i] == '/' && (NextIs(src, i, '/') || NextIs(src, i, '*')))
    requires Found(src, lo, hi, i, startRaw, inDirective, headBefore, blankBefore, foundBefore)
    ensures InLine(src, lo, hi, i + 1, false, None)
    ensures Found(src, lo, hi, i + 1, startRaw, inDirective, headBefore, blank, found)
  {
    blank, found := blankBefore, foundBefore;
    AtLineEnd(src, lo, hi, i + 1, false);
    if IsPunct(src[i]) {
      blank := false;
      assert !BlankByte(src, i);
      PunctStep(src, lo, i, headBefore);
      if !inDirective {
        if src[i] != ';' {
          found := found.(braces := found.braces + [Brace(i, src[i] == '{', found.headFrom)]);
        }
        found := found.(headFrom := i + 1);
      }
    } else if IsSpace(src[i]) {
      BlankToken(src, lo, hi, i, i + 1, startRaw, inDirective, headBefore, blankBefore, foundBefore);
    } else {
      blank := false;
      SolidToken(src, lo, hi, i, i + 1, startRaw, inDirective, headBefore, blankBefore, foundBefore);
    }
  }

  // A string, char or raw string literal, or a preprocessing number.
  method Literal(src: Bytes, lo: nat, hi: nat, i: nat, raw: Option<RawOpen>) returns (j: nat, rawClose: Option<Bytes>)
    requires IsLine(src, lo, hi) && lo <= i < hi && CodeByte(src, i)
    requires raw == if src[i] == '"' then RawStringOpen(src, lo, hi, i) else None
    requires src[i] == '"' || src[i] == '\'' || (IsDigit(src[i]) && (i == lo || !IsIdentByte(src[i - 1])))
    ensures IsToken(src, hi, i, j) && InLine(src, lo, hi, j, false, rawClose) && Crosses(false, rawClose)
    ensures !BlankByte(src, i) && !IsPunct(src[i])
  {
    rawClose := None;
    RawOpenInLine(src, lo, hi, i);
    if raw.Some? {
      j, rawClose := RawLiteral(src, lo, hi, i, raw.value);
    } else if src[i] == '"' || src[i] == '\'' {
      j := ScanQuote(src, lo, hi, i);
    } else {
      j := NumberToken(src, lo, hi, i);
    }
  }

  // One token outside comments, from a byte that is code.
  method CodeToken(
      src: Bytes, lo: nat, hi: nat, i: nat, ghost startRaw: bool, inDirective: bool, ghost headBefore: nat,
      blankBefore: bool, foundBefore: Punct)
      returns (j: nat, inComment: bool, rawClose: Option<Bytes>, blank: bool, found: Punct)
    requires IsLine(src, lo, hi) && lo <= i < hi && CodeByte(src, i)
    requires Found(src, lo, hi, i, startRaw, inDirective, headBefore, blankBefore, foundBefore)
    ensures i < j && InLine(src, lo, hi, j, inComment, rawClose)
    ensures Crosses(inComment, rawClose)
    ensures Found(src, lo, hi, j, startRaw, inDirective, headBefore, blank, found)
  {
    inComment, rawClose, blank, found := false, None, blankBefore, foundBefore;
    var b := src[i];
    RawOpenInLine(src, lo, hi, i);
    var raw := if b == '"' then RawStringOpen(src, lo, hi, i) else None;
    if raw.None? && b == '/' && i + 1 < hi && (src[i + 1] == '/' || src[i + 1] == '*') {
      j, inComment := CommentStart(src, lo, hi, i);
      BlankToken(src, lo, hi, i, j, startRaw, inDirective, headBefore, blankBefore, foundBefore);
    } else if raw.Some? || b == '"' || b == '\'' || (IsDigit(b) && (i == lo || !IsIdentByte(src[i - 1]))) {
      blank := false;
      j, rawClose := Literal(src, lo, hi, i, raw);
      SolidToken(src, lo, hi, i, j, startRaw, inDirective, headBefore, blankBefore, foundBefore);
    } else {
      j := i + 1;
      blank, found := SingleByte(src, lo, hi, i, startRaw, inDirective, headBefore, blankBefore, foundBefore);
    }
  }

  // The start of a line: past the close of a raw string that is still open.
  method StartLine(
      src: Bytes, lo: nat, hi: nat, inComment: bool, rawBefore: Option<Bytes>, inDirective: bool, headBefore: nat)
      returns (i: nat, rawClose: Option<Bytes>)
    requires IsLine(src, lo, hi) && Before(src, lo) == LineMode(inComment, rawBefore) && Crosses(inComment, rawBefore)
    ensures lo <= i && InLine(src, lo, hi, i, inComment, rawClose) && Crosses(inComment, rawClose)
    ensures Found(src, lo, hi, i, rawBefore.Some?, inDirective, headBefore, rawBefore.None?, Punct([], headBefore))
  {
    i, rawClose := lo, rawBefore;
    if rawClose.Some? {
      var close := rawClose.value;
      RawContinues(src, lo, hi, close, lo);
      var p := FindIn(src, close, lo, hi);
      if p.Some? {
        i, rawClose := p.value + |close|, None;
      } else {
        i := hi;
      }
      NoPunct(src, lo, lo, i, headBefore);
    } else {
      AtLineEnd(src, lo, hi, lo, inComment);
    }
  }

  // The loop of scan_lines over the bytes of one line.
  method ScanLine(
      src: Bytes, lo: nat, hi: nat, commentBefore: bool, rawBefore: Option<Bytes>, inDirective: bool, headBefore: nat)
      returns (inComment: bool, rawClose: Option<Bytes>, blank: bool, found: Punct)
    requires IsLine(src, lo, hi) && Before(src, lo) == LineMode(commentBefore, rawBefore)
    requires Crosses(commentBefore, rawBefore)
    ensures LineEnds(src, hi, inComment, rawClose) && Crosses(inComment, rawClose)
    ensures Found(src, lo, hi, hi, rawBefore.Some?, inDirective, headBefore, blank, found)
  {
    var i;
    inComment, blank, found := commentBefore, rawBefore.None?, Punct([], headBefore);
    i, rawClose := StartLine(src, lo, hi, commentBefore, rawBefore, inDirective, headBefore);
    while i < hi
      invariant lo <= i && InLine(src, lo, hi, i, inComment, rawClose)
      invariant Crosses(inComment, rawClose)
      invariant Found(src, lo, hi, i, rawBefore.Some?, inDirective, headBefore, blank, found)
      decreases hi - i
    {
      if inComment {
        var j;
        j, inComment := CommentByte(src, lo, hi, i);
        BlankToken(src, lo, hi, i, j, rawBefore.Some?, inDirective, headBefore, blank, found);
        i := j;
      } else {
        i, inComment, rawClose, blank, found :=
          CodeToken(src, lo, hi, i, rawBefore.Some?, inDirective, headBefore, blank, found);
      }
    }
  }
}
