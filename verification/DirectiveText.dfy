// crates/ecp-analyzer/src/preproc_fallback.rs: what the text of a directive, or the code
// before a brace, says.
module DirectiveText {
  import opened Options
  import opened PreprocText
  import opened Lexer

  function TrimStart(text: Bytes): Bytes {
    if text != "" && IsSpace(text[0]) then TrimStart(text[1..]) else text
  }

  function TrimEnd(text: Bytes): Bytes {
    if text != "" && IsSpace(text[|text| - 1]) then TrimEnd(text[..|text| - 1]) else text
  }

  function Trim(text: Bytes): Bytes {
    TrimEnd(TrimStart(text))
  }

  predicate CommentAt(text: Bytes, i: nat) {
    i + 1 < |text| && text[i] == '/' && (text[i + 1] == '/' || text[i + 1] == '*')
  }

  // Where the comment at i ends: before its line end, or past its close.
  function CommentEnd(text: Bytes, i: nat): (end: nat)
    requires CommentAt(text, i)
    ensures i < end <= |text|
  {
    if text[i + 1] == '/' then LineEnd(text, i)
    else
      match FindIn(text, "*/", i + 2, |text|)
      case None => |text|
      case Some(p) => p + 2
  }

  // text[i..] without its comments; a block comment leaves a space.
  function Uncommented(text: Bytes, i: nat): (out: Bytes)
    requires i <= |text|
    decreases |text| - i
  {
    if i == |text| then ""
    else if CommentAt(text, i) then
      (if text[i + 1] == '*' then " " else "") + Uncommented(text, CommentEnd(text, i))
    else [text[i]] + Uncommented(text, i + 1)
  }

  function StripComments(text: Bytes): Bytes {
    Trim(Uncommented(text, 0))
  }

  // What the byte or comment at i leaves, and where the next starts.
  function Piece(text: Bytes, i: nat): (Bytes, nat)
    requires i < |text|
  {
    if CommentAt(text, i) then (if text[i + 1] == '*' then " " else "", CommentEnd(text, i))
    else ([text[i]], i + 1)
  }

  lemma PieceStep(text: Bytes, i: nat, out: Bytes)
    requires i < |text|
    ensures
      var (piece, next) := Piece(text, i);
      i < next <= |text| && (out + piece) + Uncommented(text, next) == out + Uncommented(text, i)
  {
  }

  // strip_comments.
  method StripCommentsLoop(text: Bytes) returns (out: Bytes)
    ensures out == StripComments(text)
  {
    out := "";
    var i := 0;
    while i < |text|
      invariant i <= |text| && out + Uncommented(text, i) == Uncommented(text, 0)
      decreases |text| - i
    {
      PieceStep(text, i, out);
      if CommentAt(text, i) {
        if text[i + 1] == '*' {
          out := out + " ";
        }
        i := CommentEnd(text, i);
      } else {
        out := out + [text[i]];
        i := i + 1;
      }
    }
    assert out == Uncommented(text, 0);
    out := Trim(out);
  }

  ghost predicate NoComment(text: Bytes) {
    forall i: nat :: i < |text| ==> !CommentAt(text, i)
  }

  // No comment is left, and none appears where two pieces now meet ...
  lemma {:induction false} UncommentedHasNone(text: Bytes, i: nat)
    requires i <= |text|
    ensures NoComment(Uncommented(text, i))
    ensures
      var out := Uncommented(text, i);
      out != "" ==> if CommentAt(text, i) then out[0] in {' ', '\n'} else i < |text| && out[0] == text[i]
    decreases |text| - i
  {
    var out := Uncommented(text, i);
    if i < |text| {
      var next := if CommentAt(text, i) then CommentEnd(text, i) else i + 1;
      UncommentedHasNone(text, next);
      var rest := Uncommented(text, next);
      forall k: nat | k < |out| ensures !CommentAt(out, k) {
        if out != rest && k > 0 {
          assert out[k..] == rest[k - 1..];
          assert !CommentAt(rest, k - 1);
        }
      }
    }
  }

  lemma {:induction false} UncommentedKeeps(text: Bytes, i: nat)
    requires i <= |text| && NoComment(text)
    ensures Uncommented(text, i) == text[i..]
    decreases |text| - i
  {
    if i < |text| {
      UncommentedKeeps(text, i + 1);
    }
  }

  lemma {:induction false} TrimStartKeeps(text: Bytes)
    requires NoComment(text)
    ensures NoComment(TrimStart(text))
    ensures TrimStart(text) != "" ==> !IsSpace(TrimStart(text)[0])
  {
    if text != "" && IsSpace(text[0]) {
      forall i: nat | i < |text[1..]| ensures !CommentAt(text[1..], i) {
        assert !CommentAt(text, i + 1);
      }
      TrimStartKeeps(text[1..]);
    }
  }

  lemma {:induction false} TrimEndKeeps(text: Bytes)
    requires NoComment(text)
    ensures NoComment(TrimEnd(text)) && TrimEnd(TrimEnd(text)) == TrimEnd(text)
    ensures TrimEnd(text) != "" ==> text != "" && TrimEnd(text)[0] == text[0]
  {
    if text != "" && IsSpace(text[|text| - 1]) {
      var shorter := text[..|text| - 1];
      forall i: nat | i < |shorter| ensures !CommentAt(shorter, i) {
        assert !CommentAt(text, i);
      }
      TrimEndKeeps(shorter);
    }
  }

  // ... so stripping twice is stripping once.
  lemma StripsOnce(text: Bytes)
    ensures NoComment(StripComments(text)) && StripComments(StripComments(text)) == StripComments(text)
  {
    UncommentedHasNone(text, 0);
    TrimStartKeeps(Uncommented(text, 0));
    TrimEndKeeps(TrimStart(Uncommented(text, 0)));
    UncommentedKeeps(StripComments(text), 0);
  }

  function IdentLen(text: Bytes): (len: nat)
    ensures len <= |text|
  {
    if text == "" || !IsIdentByte(text[0]) then 0 else 1 + IdentLen(text[1..])
  }

  // split_ident.
  function SplitIdent(text: Bytes): Option<(Bytes, Bytes)> {
    var len := IdentLen(text);
    if len > 0 && !IsDigit(text[0]) then Some((text[..len], text[len..])) else None
  }

  function StripPrefix(text: Bytes, prefix: Bytes): Option<Bytes> {
    if prefix <= text then Some(text[|prefix|..]) else None
  }

  predicate EndsWith(text: Bytes, suffix: Bytes) {
    |suffix| <= |text| && text[|text| - |suffix|..] == suffix
  }

  function StripSuffix(text: Bytes, suffix: Bytes): Option<Bytes> {
    if EndsWith(text, suffix) then Some(text[..|text| - |suffix|]) else None
  }

  // What is left of "! defined ( X )" after the word "defined".
  function DefinedOperand(tail: Bytes): Option<Bytes> {
    if tail != "" && IsIdentByte(tail[0]) then None
    else
      var trimmed := Trim(tail);
      match StripPrefix(trimmed, "(")
      case None => Some(trimmed)
      case Some(inner) =>
        match StripSuffix(inner, ")")
        case None => None
        case Some(name) => Some(Trim(name))
  }

  function NegatedOperand(cond: Bytes): Option<Bytes> {
    match StripPrefix(cond, "!")
    case None => None
    case Some(tail) =>
      match StripPrefix(TrimStart(tail), "defined")
      case None => None
      case Some(tail) => DefinedOperand(tail)
  }

  // guarded_name.
  function GuardedName(word: Bytes, rest: Bytes): Option<Bytes> {
    var cond := StripComments(rest);
    var name := if word == "ifndef" then Some(cond) else if word == "if" then NegatedOperand(cond) else None;
    match name
    case None => None
    case Some(name) =>
      match SplitIdent(name)
      case Some((ident, after)) => if after == "" then Some(ident) else None
      case None => None
  }

  const GUARD_SUFFIXES: seq<Bytes> := ["_H", "_HPP", "_HXX", "_HH", "_GUARD", "_INCLUDED"]

  function Upper(b: char): char {
    if 'a' <= b <= 'z' then b - 'a' + 'A' else b
  }

  function UpperAll(text: Bytes): Bytes {
    seq(|text|, i requires 0 <= i < |text| => Upper(text[i]))
  }

  function WithoutUnderscores(name: Bytes): Bytes {
    if name != "" && name[|name| - 1] == '_' then WithoutUnderscores(name[..|name| - 1]) else name
  }

  // is_guard_spelling.
  predicate IsGuardSpelling(name: Bytes) {
    exists k :: 0 <= k < |GUARD_SUFFIXES| && EndsWith(UpperAll(WithoutUnderscores(name)), GUARD_SUFFIXES[k])
  }

  // defines_guard: whether the value is 1, if this defines `name` as a guard.
  function DefinesGuard(rest: Bytes, name: Bytes): Option<bool> {
    match SplitIdent(StripComments(rest))
    case None => None
    case Some((ident, value)) =>
      if ident == name && IsGuardSpelling(ident) && Trim(value) in {"", "1"} then Some(Trim(value) == "1") else None
  }

  function AlphaEnd(src: Bytes, from: nat, hi: nat): (to: nat)
    requires from <= hi <= |src|
    ensures from <= to <= hi
    decreases hi - from
  {
    if from < hi && IsAlpha(src[from]) then AlphaEnd(src, from + 1, hi) else from
  }

  lemma {:induction false} FirstSolidIs(src: Bytes, lo: nat, at: nat, hi: nat)
    requires lo <= at <= hi <= |src| && (at == hi || !IsSpace(src[at])) && forall k :: lo <= k < at ==> IsSpace(src[k])
    ensures FirstSolid(src, lo, hi) == at
    decreases hi - lo
  {
    if lo < at {
      FirstSolidIs(src, lo + 1, at, hi);
    }
  }

  lemma {:induction false} AlphaEndIs(src: Bytes, from: nat, to: nat, hi: nat)
    requires from <= to <= hi <= |src| && (to == hi || !IsAlpha(src[to]))
    requires forall k :: from <= k < to ==> IsAlpha(src[k])
    ensures AlphaEnd(src, from, hi) == to
    decreases hi - from
  {
    if from < to {
      AlphaEndIs(src, from + 1, to, hi);
    }
  }

  lemma {:induction false} AlphaEndStops(src: Bytes, from: nat, hi: nat)
    requires from <= hi <= |src|
    ensures forall k :: from <= k < AlphaEnd(src, from, hi) ==> IsAlpha(src[k])
    ensures AlphaEnd(src, from, hi) < hi ==> !IsAlpha(src[AlphaEnd(src, from, hi)])
    decreases hi - from
  {
    if from < hi && IsAlpha(src[from]) {
      AlphaEndStops(src, from + 1, hi);
    }
  }

  // The '#' of a directive lies in its line.
  predicate DirectiveFits(src: Bytes, line: SrcLine) {
    line.end <= |src| && (line.directive.Some? ==> line.directive.value <= line.end)
  }

  // directive_word: the word, and the text after it to the line end.
  function DirectiveWord(src: Bytes, line: SrcLine): (Bytes, Bytes)
    requires DirectiveFits(src, line) && line.directive.Some?
  {
    var from := FirstSolid(src, line.directive.value, line.end);
    var to := AlphaEnd(src, from, line.end);
    (src[from..to], src[to..line.end])
  }

  predicate WordAt(text: Bytes, word: Bytes, i: nat) {
    && i + |word| <= |text| && text[i..i + |word|] == word
    && (i == 0 || !IsIdentByte(text[i - 1]))
    && (i + |word| == |text| || !IsIdentByte(text[i + |word|]))
  }

  predicate HasWord(text: Bytes, word: Bytes) {
    exists i :: 0 <= i <= |text| && WordAt(text, word, i)
  }

  predicate EndsWithWord(text: Bytes, word: Bytes) {
    EndsWith(text, word) && (|text| == |word| || !IsIdentByte(text[|text| - |word| - 1]))
  }

  // What a line of a head says, directives left out.
  function CodeOfLine(line: Bytes): Bytes {
    if "#" <= TrimStart(line) then "" else line + "\n"
  }

  // split at line ends: at least one line, and one more for each line end.
  function SplitLines(text: Bytes): (lines: seq<Bytes>)
    ensures lines != []
    decreases |text|
  {
    var end := LineEnd(text, 0);
    [text[..end]] + if end == |text| then [] else SplitLines(text[end + 1..])
  }

  // A text by its lines.
  function Joined(lines: seq<Bytes>): Bytes
    requires lines != []
  {
    if |lines| == 1 then lines[0] else lines[0] + "\n" + Joined(lines[1..])
  }

  ghost predicate AreLines(lines: seq<Bytes>) {
    lines != [] && forall k :: 0 <= k < |lines| ==> '\n' !in lines[k]
  }

  lemma {:induction false} LineEndIs(text: Bytes, from: nat, end: nat)
    requires from <= end <= |text| && (end == |text| || text[end] == '\n')
    requires forall k :: from <= k < end ==> text[k] != '\n'
    ensures LineEnd(text, from) == end
    decreases end - from
  {
    if from < end {
      LineEndIs(text, from + 1, end);
    }
  }

  // Splitting joined lines gives them back, and joining split ones.
  lemma {:induction false} SplitUndoesJoined(lines: seq<Bytes>)
    requires AreLines(lines)
    ensures SplitLines(Joined(lines)) == lines
    decreases |lines|
  {
    var text := Joined(lines);
    assert text[..|lines[0]|] == lines[0];
    LineEndIs(text, 0, |lines[0]|);
    if |lines| > 1 {
      assert text[|lines[0]| + 1..] == Joined(lines[1..]);
      SplitUndoesJoined(lines[1..]);
      assert lines == [lines[0]] + lines[1..];
    }
  }

  lemma {:induction false} JoinedUndoesSplit(text: Bytes)
    ensures AreLines(SplitLines(text)) && Joined(SplitLines(text)) == text
    decreases |text|
  {
    var end := LineEnd(text, 0);
    if end < |text| {
      var lines, rest := SplitLines(text), text[end + 1..];
      JoinedUndoesSplit(rest);
      assert lines[1..] == SplitLines(rest) && lines[0] == text[..end];
      assert text[..end] + "\n" + rest == text;
      assert forall k :: 1 <= k < |lines| ==> lines[k] == SplitLines(rest)[k - 1];
    } else {
      assert text[..end] == text;
    }
  }

  function CodeOf(lines: seq<Bytes>): Bytes {
    if lines == [] then "" else CodeOfLine(lines[0]) + CodeOf(lines[1..])
  }

  // opens_file_scope_block, for the code that heads a brace.
  predicate HeadsFileScope(span: Bytes) {
    if FindIn(span, "namespace", 0, |span|).None? && FindIn(span, "extern", 0, |span|).None? then false
    else
      var head := StripComments(CodeOf(SplitLines(span)));
      if EndsWith(head, "\"C\"") then EndsWithWord(TrimEnd(head[..|head| - 3]), "extern")
      else if EndsWith(head, "\"C++\"") then EndsWithWord(TrimEnd(head[..|head| - 5]), "extern")
      else HasWord(head, "namespace")
  }
}
