// preproc_fallback.rs: which code before a brace makes its block one of file scope, told by its text.
module HeadText {
  import opened Options
  import opened PreprocText
  import opened Lexer
  import opened DirectiveText
  import opened Spelling

  ghost predicate IsHashLine(line: Bytes) {
    exists b, rest :: AllBlank(b) && line == b + "#" + rest
  }

  // The code of a text: its lines that are no directives.
  ghost function CodeLines(lines: seq<Bytes>): Bytes {
    if lines == [] then "" else (if IsHashLine(lines[0]) then "" else lines[0] + "\n") + CodeLines(lines[1..])
  }

  lemma HashLineIff(line: Bytes)
    ensures "#" <= TrimStart(line) <==> IsHashLine(line)
  {
    var b := TrimStartCuts(line);
    if "#" <= TrimStart(line) {
      assert line == b + "#" + TrimStart(line)[1..];
    }
    if IsHashLine(line) {
      var b', rest :| AllBlank(b') && line == b' + "#" + rest;
      assert line == b' + ("#" + rest);
      TrimStartIs(b', "#" + rest);
    }
  }

  lemma {:induction false} CodeOfIs(lines: seq<Bytes>)
    ensures CodeOf(lines) == CodeLines(lines)
  {
    if lines != [] {
      HashLineIff(lines[0]);
      CodeOfIs(lines[1..]);
    }
  }

  // The whole word stands somewhere in the text.
  ghost predicate Mentions(text: Bytes, word: Bytes) {
    exists a, b :: text == a + word + b && Apart(a, b)
  }

  ghost predicate Apart(a: Bytes, b: Bytes) {
    (a == "" || !IsIdentByte(a[|a| - 1])) && (b == "" || !IsIdentByte(b[0]))
  }

  // The text ends with this literal, blanks aside; and with `extern` before it.
  ghost predicate EndsWithLiteral(text: Bytes, literal: Bytes) {
    exists a, b :: text == a + literal + b && AllBlank(b)
  }

  ghost predicate EndsWithLinkage(text: Bytes, literal: Bytes) {
    exists a, b, c :: text == a + "extern" + b + literal + c && AllBlank(b) && AllBlank(c) && Apart(a, "")
  }

  // What stands in the middle of a trimmed text stood in the text, and the other way round.
  lemma WithinTrim(u: Bytes, b: Bytes, t: Bytes, c: Bytes, a: Bytes, word: Bytes, rest: Bytes)
    requires u == b + t + c && AllBlank(b) && AllBlank(c) && u == a + word + rest
    requires word != "" && !IsSpace(word[0]) && !IsSpace(word[|word| - 1])
    ensures |b| <= |a| && |c| <= |rest| && t == a[|b|..] + word + rest[..|rest| - |c|]
  {
    assert u[|a|] == word[0];
    assert forall k :: 0 <= k < |b| ==> u[k] == b[k];
    var at := |u| - |rest| - 1;
    assert u[at] == word[|word| - 1];
    var from := |b| + |t|;
    assert forall k :: from <= k < |u| ==> u[k] == c[k - from];
    assert t == u[|b|..|u| - |c|];
  }

  lemma HasWordIff(text: Bytes, word: Bytes)
    requires word != ""
    ensures HasWord(text, word) <==> Mentions(text, word)
  {
    if HasWord(text, word) {
      var i :| 0 <= i <= |text| && WordAt(text, word, i);
      assert text == text[..i] + word + text[i + |word|..];
      assert Apart(text[..i], text[i + |word|..]);
    }
    if Mentions(text, word) {
      var a, b :| text == a + word + b && Apart(a, b);
      assert text[|a|..|a| + |word|] == word && WordAt(text, word, |a|);
    }
  }

  lemma MentionsTrimmed(u: Bytes, word: Bytes)
    requires IsSolidToken(word)
    ensures Mentions(Trim(u), word) <==> Mentions(u, word)
  {
    var b, c := TrimCuts(u);
    var t := Trim(u);
    if Mentions(t, word) {
      var x, y :| t == x + word + y && Apart(x, y);
      assert u == (b + x) + word + (y + c) && Apart(b + x, y + c);
    }
    if Mentions(u, word) {
      var x, y :| u == x + word + y && Apart(x, y);
      WithinTrim(u, b, t, c, x, word, y);
      assert Apart(x[|b|..], y[..|y| - |c|]);
    }
  }

  lemma EndsTrimmed(u: Bytes, literal: Bytes)
    requires IsSolidToken(literal)
    ensures EndsWith(Trim(u), literal) <==> EndsWithLiteral(u, literal)
  {
    var b, c := TrimCuts(u);
    var t := Trim(u);
    if EndsWith(t, literal) {
      assert u == (b + t[..|t| - |literal|]) + literal + c;
    }
    if EndsWithLiteral(u, literal) {
      var x, y :| u == x + literal + y && AllBlank(y);
      assert u == "" + (x + literal) + y;
      WithinTrim(u, b, t, c, x, literal, y);
      EndsHere(t, x[|b|..], literal, y[..|y| - |c|]);
    }
  }

  // A text that does not end with a blank ends with the literal when only blanks follow it.
  lemma EndsHere(t: Bytes, a: Bytes, literal: Bytes, rest: Bytes)
    requires t == a + literal + rest && AllBlank(rest) && (t != "" ==> !IsSpace(t[|t| - 1]))
    ensures rest == "" && EndsWith(t, literal)
  {
    var at := |a| + |literal|;
    assert forall i :: at <= i < |t| ==> t[i] == rest[i - at];
  }

  // The linkage of a head that ends with the literal.
  lemma LinkageTrimmed(u: Bytes, literal: Bytes)
    requires IsSolidToken(literal) && EndsWith(Trim(u), literal)
    ensures EndsWithWord(TrimEnd(Trim(u)[..|Trim(u)| - |literal|]), "extern") <==> EndsWithLinkage(u, literal)
  {
    if EndsWithWord(TrimEnd(Trim(u)[..|Trim(u)| - |literal|]), "extern") {
      LinkageThere(u, literal);
    }
    if EndsWithLinkage(u, literal) {
      LinkageFound(u, literal);
    }
  }

  lemma LinkageThere(u: Bytes, literal: Bytes)
    requires EndsWith(Trim(u), literal)
    requires EndsWithWord(TrimEnd(Trim(u)[..|Trim(u)| - |literal|]), "extern")
    ensures EndsWithLinkage(u, literal)
  {
    var b, c := TrimCuts(u);
    var before := Trim(u)[..|Trim(u)| - |literal|];
    assert u == b + (before + literal) + c;
    var a, d := ExternEnds(before);
    LinkageJoins(u, b, a, d, literal, c);
  }

  lemma ExternEnds(before: Bytes) returns (a: Bytes, d: Bytes)
    requires EndsWithWord(TrimEnd(before), "extern")
    ensures before == a + "extern" + d && AllBlank(d) && Apart(a, "")
  {
    d := TrimEndCuts(before);
    a := TrimEnd(before)[..|TrimEnd(before)| - 6];
  }

  lemma LinkageJoins(u: Bytes, b: Bytes, a: Bytes, d: Bytes, literal: Bytes, c: Bytes)
    requires u == b + (a + "extern" + d + literal) + c && AllBlank(b) && AllBlank(d) && AllBlank(c) && Apart(a, "")
    ensures EndsWithLinkage(u, literal)
  {
    assert Apart(b + a, "");
    assert u == (b + a) + "extern" + d + literal + c;
  }

  lemma LinkageFound(u: Bytes, literal: Bytes)
    requires IsSolidToken(literal) && EndsWith(Trim(u), literal) && EndsWithLinkage(u, literal)
    ensures EndsWithWord(TrimEnd(Trim(u)[..|Trim(u)| - |literal|]), "extern")
  {
    var b, c := TrimCuts(u);
    var t := Trim(u);
    var before := t[..|t| - |literal|];
    var x, y, z :| u == x + "extern" + y + literal + z && AllBlank(y) && AllBlank(z) && Apart(x, "");
    var head := x + "extern" + y;
    WithinTrim(u, b, t, c, head, literal, z);
    EndsHere(t, head[|b|..], literal, z[..|z| - |c|]);
    LinkageStarts(u, b, t, c, x, y, literal + z);
    LinkageBefore(t, head, x, y, literal, z[..|z| - |c|], |b|);
    EndsWithExtern(before, x[|b|..], y);
  }

  lemma LinkageBefore(t: Bytes, head: Bytes, x: Bytes, y: Bytes, literal: Bytes, rest: Bytes, cut: nat)
    requires head == x + "extern" + y && cut <= |x| && t == head[cut..] + literal + rest && rest == ""
    ensures t[..|t| - |literal|] == x[cut..] + "extern" + y
  {
    assert head[cut..] == x[cut..] + "extern" + y;
    assert t == head[cut..] + literal;
  }

  lemma LinkageStarts(u: Bytes, b: Bytes, t: Bytes, c: Bytes, x: Bytes, y: Bytes, rest: Bytes)
    requires u == b + t + c && AllBlank(b) && AllBlank(c) && u == x + "extern" + y + rest
    ensures |b| <= |x|
  {
    assert u == x + "extern" + (y + rest);
    WithinTrim(u, b, t, c, x, "extern", y + rest);
  }

  lemma EndsWithExtern(before: Bytes, a: Bytes, y: Bytes)
    requires before == a + "extern" + y && AllBlank(y) && Apart(a, "")
    ensures EndsWithWord(TrimEnd(before), "extern")
  {
    TrimEndIs(a + "extern", y);
    assert TrimEnd(before) == a + "extern";
  }

  // A token that stands in the code of a head stands in the head: neither a comment nor a
  // directive left out makes two pieces run together.
  ghost predicate StandsIn(token: Bytes, text: Bytes) {
    exists a, rest :: text == a + token + rest
  }

  lemma {:induction false} StandsBehind(text: Bytes, i: nat, token: Bytes, a: Bytes, rest: Bytes)
    requires i <= |text| && IsSolidToken(token) && Uncommented(text, i) == a + token + rest
    ensures StandsIn(token, text)
    decreases |text| - i
  {
    assert Uncommented(text, i) != "" && i < |text|;
    if CommentAt(text, i) {
      var e := CommentEnd(text, i);
      var b := StandsPastComment(text, i, token, a, rest);
      StandsBehind(text, e, token, b, rest);
    } else if a == "" {
      assert a + token + rest == token + rest;
      TokenBefore(text, i, token, rest);
      assert text == text[..i] + token + text[i + |token|..];
    } else {
      SolidLeaves(text, i);
      StandsPast(Uncommented(text, i), [text[i]], Uncommented(text, i + 1), a, token, rest);
      StandsBehind(text, i + 1, token, a[1..], rest);
    }
  }

  lemma StandsPast(u: Bytes, first: Bytes, after: Bytes, a: Bytes, token: Bytes, rest: Bytes)
    requires u == first + after == a + token + rest && |first| == 1 && a != ""
    ensures after == a[1..] + token + rest
  {
    assert u[1..] == after && u[1..] == a[1..] + token + rest;
  }

  lemma StandsPastComment(text: Bytes, i: nat, token: Bytes, a: Bytes, rest: Bytes) returns (b: Bytes)
    requires CommentAt(text, i) && IsSolidToken(token) && Uncommented(text, i) == a + token + rest
    ensures Uncommented(text, CommentEnd(text, i)) == b + token + rest
  {
    CommentLeaves(text, i);
    var u, after := Uncommented(text, i), Uncommented(text, CommentEnd(text, i));
    if text[i + 1] == '*' {
      assert u[0] == ' ' && a != "";
      StandsPast(u, " ", after, a, token, rest);
      b := a[1..];
    } else {
      assert u == after;
      b := a;
    }
  }

  lemma {:induction false} CodeStandsInLine(lines: seq<Bytes>, token: Bytes, a: Bytes, rest: Bytes) returns (k: nat)
    requires IsSolidToken(token) && CodeLines(lines) == a + token + rest
    ensures k < |lines| && StandsIn(token, lines[k])
  {
    var line, code := lines[0], CodeLines(lines[1..]);
    if IsHashLine(line) {
      assert CodeLines(lines) == code;
      k := CodeStandsInLine(lines[1..], token, a, rest);
      k := k + 1;
    } else if |line| < |a| {
      assert CodeLines(lines)[|line| + 1..] == code == a[|line| + 1..] + token + rest;
      k := CodeStandsInLine(lines[1..], token, a[|line| + 1..], rest);
      k := k + 1;
    } else {
      var u := CodeLines(lines);
      assert u[|line|] == '\n' && IsSpace('\n');
      assert forall i :: |a| <= i < |a| + |token| ==> u[i] == token[i - |a|] && !IsSpace(u[i]);
      assert line == CodeLines(lines)[..|line|] == a + token + line[|a| + |token|..];
      k := 0;
    }
  }

  lemma {:induction false} LineStandsIn(lines: seq<Bytes>, k: nat, token: Bytes)
    requires k < |lines| && StandsIn(token, lines[k])
    ensures StandsIn(token, Joined(lines))
  {
    var text := Joined(lines);
    if k == 0 {
      var a, b :| lines[0] == a + token + b;
      assert text == a + token + (b + text[|lines[0]|..]);
    } else {
      LineStandsIn(lines[1..], k - 1, token);
      var a, b :| Joined(lines[1..]) == a + token + b;
      assert text == (lines[0] + "\n" + a) + token + b;
    }
  }

  lemma StandsFound(span: Bytes, token: Bytes)
    requires StandsIn(token, span)
    ensures FindIn(span, token, 0, |span|).Some?
  {
    var a, rest :| span == a + token + rest;
    OccursIs(span, token, |a|);
  }

  lemma CodeStandsInHead(lines: seq<Bytes>, token: Bytes)
    requires lines != [] && IsSolidToken(token) && StandsIn(token, Uncommented(CodeLines(lines), 0))
    ensures FindIn(Joined(lines), token, 0, |Joined(lines)|).Some?
  {
    var code := CodeLines(lines);
    var a, rest :| Uncommented(code, 0) == a + token + rest;
    StandsBehind(code, 0, token, a, rest);
    var b, tail :| code == b + token + tail;
    var k := CodeStandsInLine(lines, token, b, tail);
    LineStandsIn(lines, k, token);
    StandsFound(Joined(lines), token);
  }

  // What the code says, if it opens a block of file scope.
  ghost predicate OpensFileScope(u: Bytes) {
    if EndsWithLiteral(u, "\"C\"") then EndsWithLinkage(u, "\"C\"")
    else if EndsWithLiteral(u, "\"C++\"") then EndsWithLinkage(u, "\"C++\"")
    else Mentions(u, "namespace")
  }

  lemma OpensSays(u: Bytes)
    requires OpensFileScope(u)
    ensures StandsIn("namespace", u) || StandsIn("extern", u)
  {
    if EndsWithLiteral(u, "\"C\"") {
      LinkageStands(u, "\"C\"");
    } else if EndsWithLiteral(u, "\"C++\"") {
      LinkageStands(u, "\"C++\"");
    } else {
      var a, b :| u == a + "namespace" + b && Apart(a, b);
    }
  }

  lemma LinkageStands(u: Bytes, literal: Bytes)
    requires EndsWithLinkage(u, literal)
    ensures StandsIn("extern", u)
  {
    var a, b, c :| u == a + "extern" + b + literal + c && AllBlank(b) && AllBlank(c) && Apart(a, "");
    assert u == a + "extern" + (b + literal + c);
  }

  // The tests of the code, trimmed.
  predicate TestsHead(head: Bytes) {
    if EndsWith(head, "\"C\"") then EndsWithWord(TrimEnd(head[..|head| - 3]), "extern")
    else if EndsWith(head, "\"C++\"") then EndsWithWord(TrimEnd(head[..|head| - 5]), "extern")
    else HasWord(head, "namespace")
  }

  lemma TestsIff(u: Bytes, head: Bytes)
    requires head == Trim(u)
    ensures TestsHead(head) <==> OpensFileScope(u)
  {
    EndsTrimmed(u, "\"C\"");
    EndsTrimmed(u, "\"C++\"");
    if EndsWithLiteral(u, "\"C\"") {
      LinkageTrimmed(u, "\"C\"");
    } else if EndsWithLiteral(u, "\"C++\"") {
      LinkageTrimmed(u, "\"C++\"");
    } else {
      MentionsTrimmed(u, "namespace");
      HasWordIff(head, "namespace");
    }
  }

  // The words without one of which a head is no such head.
  ghost predicate Speaks(text: Bytes) {
    FindIn(text, "namespace", 0, |text|).Some? || FindIn(text, "extern", 0, |text|).Some?
  }

  lemma HeadTests(text: Bytes, code: Bytes)
    requires code == CodeOf(SplitLines(text))
    ensures HeadsFileScope(text) <==> Speaks(text) && TestsHead(Trim(Uncommented(code, 0)))
  {
  }

  lemma OpensSpeaks(lines: seq<Bytes>, text: Bytes, u: Bytes)
    requires AreLines(lines) && text == Joined(lines) && u == Uncommented(CodeLines(lines), 0) && OpensFileScope(u)
    ensures Speaks(text)
  {
    OpensSays(u);
    if StandsIn("namespace", u) {
      CodeStandsInHead(lines, "namespace");
    } else {
      CodeStandsInHead(lines, "extern");
    }
  }

  // The head of a brace opens a block of file scope exactly if its code, directives and
  // comments left out, ends with `extern "C"` or `extern "C++"`, or ends with no such
  // literal and has the word `namespace` somewhere. A head that ends with the literal
  // alone is none, whatever stands before.
  lemma HeadsIff(lines: seq<Bytes>)
    requires AreLines(lines)
    ensures HeadsFileScope(Joined(lines)) <==> OpensFileScope(Uncommented(CodeLines(lines), 0))
  {
    var text, code := Joined(lines), CodeLines(lines);
    SplitUndoesJoined(lines);
    CodeOfIs(lines);
    HeadIffOpens(lines, text, code, Uncommented(code, 0));
  }

  lemma HeadIffOpens(lines: seq<Bytes>, text: Bytes, code: Bytes, u: Bytes)
    requires AreLines(lines) && text == Joined(lines) && code == CodeLines(lines) && u == Uncommented(code, 0)
    requires code == CodeOf(SplitLines(text))
    ensures HeadsFileScope(text) <==> OpensFileScope(u)
  {
    HeadTests(text, code);
    TestsIff(u, Trim(u));
    if OpensFileScope(u) {
      OpensSpeaks(lines, text, u);
    }
  }

  lemma HeadOfText(span: Bytes)
    ensures HeadsFileScope(span) <==> OpensFileScope(Uncommented(CodeLines(SplitLines(span)), 0))
  {
    JoinedUndoesSplit(span);
    HeadsIff(SplitLines(span));
  }
}
