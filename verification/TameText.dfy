// preproc_fallback.rs: what a scan finds in text given by lines without comments, literals and splices.
module TameText {
  import opened Options
  import opened PreprocText
  import opened Automaton
  import opened Tokens
  import opened Lexer
  import opened Nesting
  import opened DirectiveText
  import opened BraceDepth
  import opened Stretches
  import opened LaterText
  import opened Exchange

  function StartOf(lines: seq<Bytes>, k: nat): nat
    requires k <= |lines|
  {
    if k == 0 then 0 else |lines[0]| + 1 + StartOf(lines[1..], k - 1)
  }

  lemma {:induction false} StartStep(lines: seq<Bytes>, k: nat)
    requires k < |lines|
    ensures StartOf(lines, k + 1) == StartOf(lines, k) + |lines[k]| + 1
  {
    if k > 0 {
      StartStep(lines[1..], k - 1);
    }
  }

  lemma {:induction false} JoinedConcat(a: seq<Bytes>, b: seq<Bytes>)
    requires b != []
    ensures Joined(a + [""]) + Joined(b) == Joined(a + b)
  {
    if a == [] {
      assert a + [""] == [""] && a + b == b;
    } else {
      JoinedConcat(a[1..], b);
      assert (a + [""])[1..] == a[1..] + [""] && (a + b)[1..] == a[1..] + b;
      var rest := Joined(a[1..] + [""]);
      assert (a[0] + "\n" + rest) + Joined(b) == a[0] + "\n" + (rest + Joined(b));
    }
  }

  // A line without a comment, a literal or a splice, that starts with no space.
  predicate IsTame(b: char) {
    b != '"' && b != '\'' && b != '/' && b != '\\' && b != '\r'
  }

  predicate TameLine(line: Bytes) {
    (forall i :: 0 <= i < |line| ==> IsTame(line[i]) && line[i] != '\n') && (line != "" ==> !IsSpace(line[0]))
  }

  ghost predicate TameLines(lines: seq<Bytes>) {
    lines != [] && forall k :: 0 <= k < |lines| ==> TameLine(lines[k])
  }

  ghost predicate Tame(src: Bytes) {
    forall i {:trigger src[i]} :: 0 <= i < |src| ==> IsTame(src[i])
  }

  lemma {:induction false} JoinedIsTame(lines: seq<Bytes>)
    requires TameLines(lines)
    ensures Tame(Joined(lines))
  {
    if |lines| > 1 {
      JoinedIsTame(lines[1..]);
    }
  }

  // Bytes [i, i + |line|) are a line of the text.
  ghost predicate LineAt(text: Bytes, i: nat, line: Bytes) {
    i + |line| <= |text| && text[i..i + |line|] == line && (i + |line| == |text| || text[i + |line|] == '\n')
  }

  // Line k of the text; it is the last one exactly if the text ends with it.
  ghost predicate IsLineOf(text: Bytes, lines: seq<Bytes>, k: nat, start: nat)
    requires k < |lines|
  {
    && LineAt(text, start, lines[k]) && (start + |lines[k]| == |text| <==> k + 1 == |lines|)
    && (k > 0 ==> start > 0 && text[start - 1] == '\n')
  }

  lemma {:induction false} JoinedLine(lines: seq<Bytes>, k: nat)
    requires k < |lines|
    ensures IsLineOf(Joined(lines), lines, k, StartOf(lines, k))
  {
    FirstLine(lines);
    if k > 0 {
      JoinedLine(lines[1..], k - 1);
      LineFurtherOn(Joined(lines), lines, k, StartOf(lines[1..], k - 1));
    }
  }

  lemma FirstLine(lines: seq<Bytes>)
    requires lines != []
    ensures IsLineOf(Joined(lines), lines, 0, 0)
    ensures |lines| > 1 ==>
              var d := |lines[0]| + 1;
              d <= |Joined(lines)| && Joined(lines)[d..] == Joined(lines[1..]) && Joined(lines)[d - 1] == '\n'
  {
    if |lines| > 1 {
      assert Joined(lines)[|lines[0]|] == '\n';
    }
  }

  lemma LineFurtherOn(text: Bytes, lines: seq<Bytes>, k: nat, from: nat)
    requires 0 < k < |lines| && |lines[0]| + 1 <= |text| && text[|lines[0]|] == '\n'
    requires IsLineOf(text[|lines[0]| + 1..], lines[1..], k - 1, from) && (k == 1 ==> from == 0)
    ensures IsLineOf(text, lines, k, |lines[0]| + 1 + from)
  {
    var d := |lines[0]| + 1;
    assert text[d + from..d + from + |lines[k]|] == text[d..][from..from + |lines[k]|];
    assert k > 1 ==> text[d + from - 1] == text[d..][from - 1];
  }

  // Tame text is code and numbers, and only some bytes can be in a number.
  lemma {:induction false} TameIsCode(src: Bytes, i: nat)
    requires Tame(src) && i <= |src|
    ensures Before(src, i) == Code || Before(src, i) == Number
    ensures i == 0 || src[i - 1] == '\n' ==> Before(src, i) == Code
    ensures i < |src| && !IsIdentByte(src[i]) && src[i] != '.' && src[i] != '+' && src[i] != '-' ==> CodeByte(src, i)
  {
    if i > 0 {
      TameIsCode(src, i - 1);
    }
  }

  lemma LineIsLine(src: Bytes, start: nat, line: Bytes)
    requires LineAt(src, start, line) && TameLine(line) && (start == 0 || src[start - 1] == '\n')
    ensures IsLine(src, start, start + |line|)
    ensures line != "" ==> src[start] == line[0]
  {
    forall k | start <= k < start + |line| ensures src[k] != '\n' {
      assert src[start..start + |line|][k - start] == line[k - start];
    }
    assert line != "" ==> src[start..start + |line|][0] == line[0];
  }

  // What a scan records of a tame line, and where it starts the next one.
  ghost predicate RecordedAs(scan: Scan, k: nat, start: nat, line: Bytes)
    requires k < |scan.lines|
  {
    var directive := line != "" && line[0] == '#';
    && scan.lines[k].start == start && scan.lines[k].end == start + |line| && !scan.lines[k].spliced
    && scan.lines[k].directive == (if directive then Some(start + 1) else None)
    && scan.lines[k].inDirective == directive
  }

  lemma LineIs(scan: Scan, k: nat, start: nat, line: Bytes)
    requires IsScan(scan) && Tame(scan.src) && k < |scan.lines|
    requires scan.lines[k].start == start && !scan.lines[k].spliced
    requires LineAt(scan.src, start, line) && TameLine(line) && (start == 0 || scan.src[start - 1] == '\n')
    ensures RecordedAs(scan, k, start, line)
    ensures start + |line| < |scan.src| ==>
              k + 1 < |scan.lines| && scan.lines[k + 1].start == start + |line| + 1 && !scan.lines[k + 1].spliced
    ensures start + |line| == |scan.src| ==> |scan.lines| == k + 1
  {
    assert LineIsExact(scan.src, scan.lines, k);
    LineIsLine(scan.src, start, line);
    OneEnd(scan.src, start, start + |line|, scan.lines[k].end);
    TameIsCode(scan.src, start);
    if k + 1 < |scan.lines| {
      StartIs(scan.src, scan.lines, k + 1);
    }
  }

  // A scan of tame lines finds them.
  lemma {:induction false} ScanOfLines(scan: Scan, lines: seq<Bytes>, k: nat)
    requires IsScan(scan) && TameLines(lines) && scan.src == Joined(lines) && k < |lines|
    ensures k < |scan.lines| && RecordedAs(scan, k, StartOf(lines, k), lines[k])
    ensures k + 1 == |lines| ==> |scan.lines| == |lines|
    ensures k + 1 < |lines| ==>
              k + 1 < |scan.lines| && scan.lines[k + 1].start == StartOf(lines, k + 1) && !scan.lines[k + 1].spliced
  {
    if k == 0 {
      StartIs(scan.src, scan.lines, 0);
    } else {
      ScanOfLines(scan, lines, k - 1);
    }
    JoinedIsTame(lines);
    JoinedLine(lines, k);
    StartStep(lines, k);
    LineIs(scan, k, StartOf(lines, k), lines[k]);
  }

  // A word of letters, and what follows it.
  predicate IsWord(word: Bytes, rest: Bytes) {
    word != "" && (forall k :: 0 <= k < |word| ==> IsAlpha(word[k])) && (rest == "" || !IsAlpha(rest[0]))
  }

  // The word of a directive line.
  lemma WordIs(src: Bytes, line: SrcLine, text: Bytes, word: Bytes, rest: Bytes)
    requires DirectiveFits(src, line) && line.directive == Some(line.start + 1) && line.start < line.end
    requires src[line.start..line.end] == text == "#" + word + rest
    requires IsWord(word, rest)
    ensures DirectiveWord(src, line).0 == word
  {
    var from := line.start + 1;
    var to := from + |word|;
    forall k | from <= k < to ensures src[k] == word[k - from] {
      assert src[line.start..line.end][k - line.start] == text[k - line.start];
    }
    assert rest != "" ==> src[to] == text[to - line.start] == rest[0];
    AlphaEndIs(src, from, to, line.end);
    assert src[from..to] == word;
  }

  lemma DirectiveCond(scan: Scan, k: nat, start: nat, line: Bytes, word: Bytes, rest: Bytes, cond: Cond)
    requires IsScan(scan) && k < |scan.lines| && RecordedAs(scan, k, start, line) && LineAt(scan.src, start, line)
    requires line == "#" + word + rest
    requires IsWord(word, rest)
    requires (word == "if" && cond == If) || (word == "else" && cond == Else) || (word == "endif" && cond == Endif)
    ensures CondsIn(scan)[k] == cond
  {
    LinesFit(scan.src, scan.lines);
    WordIs(scan.src, scan.lines[k], line, word, rest);
  }

  // The text of line k, and what the scan records of it.
  lemma LineOf(scan: Scan, lines: seq<Bytes>, k: nat)
    requires IsScan(scan) && TameLines(lines) && scan.src == Joined(lines) && k < |lines|
    ensures |scan.lines| == |lines| && LineAt(scan.src, StartOf(lines, k), lines[k])
    ensures RecordedAs(scan, k, StartOf(lines, k), lines[k])
    ensures k > 0 ==> 0 < StartOf(lines, k) <= |scan.src| && scan.src[StartOf(lines, k) - 1] == '\n'
    ensures StartOf(lines, k) + |lines[k]| == |scan.src| <==> k + 1 == |lines|
  {
    ScanOfLines(scan, lines, |lines| - 1);
    ScanOfLines(scan, lines, k);
    JoinedLine(lines, k);
  }

  lemma LineCond(scan: Scan, lines: seq<Bytes>, k: nat, word: Bytes, rest: Bytes, cond: Cond)
    requires IsScan(scan) && TameLines(lines) && scan.src == Joined(lines) && k < |lines|
    requires lines[k] == "#" + word + rest
    requires IsWord(word, rest)
    requires (word == "if" && cond == If) || (word == "else" && cond == Else) || (word == "endif" && cond == Endif)
    ensures |scan.lines| == |lines| && CondsIn(scan)[k] == cond
  {
    LineOf(scan, lines, k);
    DirectiveCond(scan, k, StartOf(lines, k), lines[k], word, rest, cond);
  }

  lemma PlainCond(scan: Scan, lines: seq<Bytes>, k: nat)
    requires IsScan(scan) && TameLines(lines) && scan.src == Joined(lines) && k < |lines|
    requires lines[k] == "" || lines[k][0] != '#'
    ensures |scan.lines| == |lines| && CondsIn(scan)[k] == Plain
  {
    LineOf(scan, lines, k);
  }

  ghost predicate NoPunctIn(line: Bytes) {
    forall i :: 0 <= i < |line| ==> !IsPunct(line[i])
  }

  // Before the brace alone on the last line no ';', '{' or '}' stands in code.
  lemma {:induction false} NoBraces(scan: Scan, lines: seq<Bytes>, n: nat)
    requires IsScan(scan) && TameLines(lines) && scan.src == Joined(lines) && n <= |lines|
    requires forall k :: 0 <= k < n ==> NoPunctIn(lines[k])
    ensures n <= |scan.lines| && BracesOf(scan.src, scan.lines, n) == Punct([], 0)
  {
    if n > 0 {
      NoBraces(scan, lines, n - 1);
      NoBraceHere(scan, lines, n - 1);
    }
  }

  lemma NoBraceHere(scan: Scan, lines: seq<Bytes>, k: nat)
    requires IsScan(scan) && TameLines(lines) && scan.src == Joined(lines) && k < |lines| && NoPunctIn(lines[k])
    ensures k < |scan.lines| && (BracesOf(scan.src, scan.lines, k) == Punct([], 0) ==>
                                   BracesOf(scan.src, scan.lines, k + 1) == Punct([], 0))
  {
    LineOf(scan, lines, k);
    BracesNext(scan.src, scan.lines, k);
    NoneInLine(scan.src, StartOf(lines, k), lines[k]);
  }

  lemma NoneInLine(src: Bytes, start: nat, line: Bytes)
    requires LineAt(src, start, line) && NoPunctIn(line)
    ensures PunctIn(src, start, start + |line|, 0) == Punct([], 0)
  {
    forall i | start <= i < start + |line| ensures !IsPunct(src[i]) {
      assert src[start..start + |line|][i - start] == line[i - start];
    }
    NoPunct(src, start, start, start + |line|, 0);
  }

  // A brace alone on its line.
  lemma OneBrace(src: Bytes, at: nat)
    requires Tame(src) && at < |src| && src[at] == '{'
    ensures PunctIn(src, at, at + 1, 0) == Punct([Brace(at, true, 0)], at + 1)
  {
    TameIsCode(src, at);
    PunctStep(src, at, at, 0);
  }

  lemma LastBrace(scan: Scan, lines: seq<Bytes>)
    requires IsScan(scan) && TameLines(lines) && scan.src == Joined(lines) && lines[|lines| - 1] == "{"
    requires forall k :: 0 <= k < |lines| - 1 ==> NoPunctIn(lines[k])
    ensures
      var last := |lines| - 1;
      var at := StartOf(lines, last);
      && scan.braces == [Brace(at, true, 0)] && |scan.lines| == |lines| && OnLine(scan.lines[last], at)
      && at < |scan.src|
  {
    var last := |lines| - 1;
    var at := StartOf(lines, last);
    NoBraces(scan, lines, last);
    ScanOfLines(scan, lines, last);
    JoinedLine(lines, last);
    JoinedIsTame(lines);
    BracesNext(scan.src, scan.lines, last);
    assert scan.src[at..at + 1][0] == '{';
    OneBrace(scan.src, at);
  }

  // Of a source that ends with its one brace, in no later branch, that brace counts, with
  // all that stands before it at its head.
  lemma LastCounted(scan: Scan, head: seq<Bytes>)
    requires EndsWithBrace(scan, head)
    ensures |scan.src| > 0 && scan.src[|scan.src| - 1] == '{'
    ensures CountedIn(scan) == [Brace(|scan.src| - 1, true, 0)]
    ensures Counts(scan.src, CountedIn(scan)[0]) <==> !HeadsFileScope(Joined(head + [""]))
  {
    var at := StartOf(head + ["{"], |head|);
    LastBrace(scan, head + ["{"]);
    HeadOfLast(head);
    OneCounted(scan, |head|, Brace(at, true, 0));
    LastCounts(scan.src, at, Joined(head + [""]));
  }

  // A brace outside later branches, the only one, is counted.
  lemma OneCounted(scan: Scan, n: nat, brace: Brace)
    requires IsScan(scan) && scan.braces == [brace]
    requires n < |scan.lines| && OnLine(scan.lines[n], brace.at) && !SkippedAfter([], scan, n)
    ensures CountedIn(scan) == [brace]
  {
    DroppedIsSkipped(scan, n, brace.at);
    assert [brace][..0] == [] && Counted([brace], DroppedIn(scan)) == [brace];
  }

  // Tame lines without ';', '{' or '}', and a brace alone on the line after them that no
  // conditional before it skips.
  ghost predicate EndsWithBrace(scan: Scan, head: seq<Bytes>) {
    && IsScan(scan) && head != [] && TameLines(head + ["{"]) && scan.src == Joined(head + ["{"])
    && (forall k :: 0 <= k < |head| ==> NoPunctIn(head[k]))
    && |scan.lines| == |head| + 1 && !SkippedAfter([], scan, |head|)
  }

  // For all such sources: an exchange in a later branch keeps the depth of the brace exactly
  // if the text before it heads a file-scope block both times or neither.
  lemma HeadsDecide(
      a: Scan, x: Scan, y: Scan, b: Scan, one: Scan, other: Scan, head: seq<Bytes>, otherHead: seq<Bytes>)
    requires Exchanged(a, x, y, b, one, other) && EndsWithBrace(one, head) && EndsWithBrace(other, otherHead)
    ensures DepthsIn(other) == MovedDepths(DepthsIn(one), BByte(a, x), BByte(a, y)) <==>
              (HeadsFileScope(Joined(head + [""])) <==> HeadsFileScope(Joined(otherHead + [""])))
  {
    ExchangeKeepsDepths(a, x, y, b, one, other);
    LastCounted(one, head);
    LastCounted(other, otherHead);
    LastByte(a.src, x.src, b.src);
  }

  // What ends with a brace does not end with whole lines.
  lemma LastByte(a: Bytes, x: Bytes, b: Bytes)
    requires (a == "" || a[|a| - 1] == '\n') && (x == "" || x[|x| - 1] == '\n')
    ensures
      var text := a + x + b;
      b != "" || text == "" || text[|text| - 1] == '\n'
  {
    if b == "" {
      assert a + x + b == a + x;
    }
  }

  lemma {:induction false} JoinedLacks(lines: seq<Bytes>, b: char)
    requires lines != [] && b != '\n' && forall k :: 0 <= k < |lines| ==> b !in lines[k]
    ensures b !in Joined(lines)
  {
    if |lines| > 1 {
      JoinedLacks(lines[1..], b);
    }
  }

  // What stands before the last line, a brace, heads it.
  lemma HeadOfLast(head: seq<Bytes>)
    requires head != []
    ensures
      var lines := head + ["{"];
      var at := StartOf(lines, |head|);
      && at + 1 == |Joined(lines)| && Joined(lines)[at] == '{'
      && Joined(lines)[0..at] == Joined(head + [""])
  {
    JoinedConcat(head, ["{"]);
    JoinedLine(head + ["{"], |head|);
    assert Joined(["{"])[0] == '{';
  }

  lemma LastCounts(src: Bytes, at: nat, head: Bytes)
    requires at <= |src| && src[0..at] == head
    ensures Counts(src, Brace(at, true, 0)) <==> !HeadsFileScope(head)
  {
  }

  // Joined lines with an empty one at their end are whole lines.
  lemma TameIsWhole(lines: seq<Bytes>)
    requires TameLines(lines + [""])
    ensures WholeLines(Joined(lines + [""]))
  {
    var src := Joined(lines + [""]);
    JoinedIsTame(lines + [""]);
    JoinedLine(lines + [""], |lines|);
    TameIsCode(src, |src|);
  }
}
