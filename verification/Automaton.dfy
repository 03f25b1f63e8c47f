/** C text read one byte at a time, after sections 5.9 and 5.13.5 of ISO/IEC 14882:2017: which bytes are code. */
module Automaton {
  import opened Options
  import opened PreprocText

  // What the next byte is part of. A string or char literal ends at its line.
  datatype Mode =
    | Code
    | LineComment
    | BlockOpen | Block | BlockEnd        // the '*' of the opener, the text, the '/' of the end
    | Quote(quote: char, escaped: bool)
    | Number
    | RawHead(close: Bytes, left: nat)    // delimiter and '(' still to come
    | Raw(close: Bytes)
    | RawEnd(left: nat)                   // bytes of the close still to come

  predicate NextIs(src: Bytes, i: nat, b: char) {
    i + 1 < |src| && src[i + 1] == b
  }

  // Byte i, read as code.
  ghost function CodeStep(src: Bytes, i: nat): Mode
    requires i < |src|
  {
    var b := src[i];
    var raw := if b == '"' then RawStringOpen(src, 0, |src|, i) else None;
    if raw.Some? then RawHead(raw.value.close, raw.value.body - i - 1)
    else if b == '/' && NextIs(src, i, '/') then LineComment
    else if b == '/' && NextIs(src, i, '*') then BlockOpen
    else if b == '"' || b == '\'' then Quote(b, false)
    else if IsDigit(b) && (i == 0 || !IsIdentByte(src[i - 1])) then Number
    else Code
  }

  ghost function Step(src: Bytes, i: nat, mode: Mode): Mode
    requires i < |src|
  {
    var b := src[i];
    match mode
    case Code => CodeStep(src, i)
    case LineComment => if b == '\n' then Code else LineComment
    case BlockOpen => Block
    case Block => if b == '*' && NextIs(src, i, '/') then BlockEnd else Block
    case BlockEnd => Code
    case Quote(q, escaped) =>
      if escaped then Quote(q, false)
      else if b == '\n' || b == q then Code
      else Quote(q, b == '\\' && i + 1 < |src| && src[i + 1] != '\n')
    case Number => if i > 0 && NumberTakes(src, |src|, i) then Number else CodeStep(src, i)
    case RawHead(close, left) => if left <= 1 then Raw(close) else RawHead(close, left - 1)
    case Raw(close) => if OccursAt(src, close, i) then RawEnd(if close == "" then 0 else |close| - 1) else Raw(close)
    case RawEnd(left) => if left <= 1 then Code else RawEnd(left - 1)
  }

  // The mode byte i is read in.
  ghost function Before(src: Bytes, i: nat): Mode
    requires i <= |src|
  {
    if i == 0 then Code else Step(src, i - 1, Before(src, i - 1))
  }

  // Byte i is code: no part of a comment, a literal or a number.
  ghost predicate CodeByte(src: Bytes, i: nat)
    requires i < |src|
  {
    Before(src, i) == Code || (Before(src, i) == Number && !(i > 0 && NumberTakes(src, |src|, i)))
  }

  // Byte i is white space or part of a comment.
  ghost predicate BlankByte(src: Bytes, i: nat)
    requires i < |src|
  {
    match Before(src, i)
    case LineComment | BlockOpen | Block | BlockEnd => true
    case Code | Number =>
      CodeByte(src, i) && (IsSpace(src[i]) || (src[i] == '/' && (NextIs(src, i, '/') || NextIs(src, i, '*'))))
    case _ => false
  }

  // The close of a raw string is its first occurrence in the rest of the source: from
  // the body on, the text stays raw up to there, and to the end if there is none.
  lemma {:induction false} RawUntilClose(src: Bytes, close: Bytes, from: nat, i: nat)
    requires from <= i <= |src| && Before(src, from) == Raw(close)
    requires forall q :: from <= q < i ==> !OccursAt(src, close, q)
    ensures Before(src, i) == Raw(close)
    decreases i - from
  {
    if from < i {
      RawUntilClose(src, close, from, i - 1);
    }
  }

  lemma {:induction false} RawEndRuns(src: Bytes, i: nat, left: nat, k: nat)
    requires i + left <= |src| && left > 0 && Before(src, i) == RawEnd(left) && k <= left
    ensures Before(src, i + k) == if k == left then Code else RawEnd(left - k)
    decreases k
  {
    if k > 0 {
      RawEndRuns(src, i, left, k - 1);
    }
  }

  lemma {:induction false} RawHeadRuns(src: Bytes, close: Bytes, i: nat, left: nat, k: nat)
    requires i + left <= |src| && left > 0 && Before(src, i) == RawHead(close, left) && k <= left
    ensures Before(src, i + k) == if k == left then Raw(close) else RawHead(close, left - k)
    decreases k
  {
    if k > 0 {
      RawHeadRuns(src, close, i, left, k - 1);
    }
  }

  lemma RawStringCloses(src: Bytes, close: Bytes, body: nat)
    requires body <= |src| && |close| >= 2 && Before(src, body) == Raw(close)
    ensures
      match FindIn(src, close, body, |src|)
      case None => forall i :: body <= i <= |src| ==> Before(src, i) == Raw(close)
      case Some(p) =>
        && (forall i :: body <= i <= p ==> Before(src, i) == Raw(close))
        && Before(src, p + |close|) == Code
  {
    forall q: nat | body <= q && OccursAt(src, close, q) ensures q + |close| <= |src| {
      OccursBytes(src, close, q, |close| - 1);
    }
    match FindIn(src, close, body, |src|)
    case None =>
      forall i: nat | body <= i <= |src| ensures Before(src, i) == Raw(close) {
        RawUntilClose(src, close, body, i);
      }
    case Some(p) =>
      forall i: nat | body <= i <= p ensures Before(src, i) == Raw(close) {
        RawUntilClose(src, close, body, i);
      }
      OccursBytes(src, close, p, |close| - 1);
      RawEndRuns(src, p + 1, |close| - 1, |close| - 1);
  }
}
