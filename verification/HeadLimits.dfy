// crates/ecp-analyzer/src/preproc_fallback.rs: a source in which a later branch changes a
// depth outside it. The code that heads the brace after the #endif is read from the start
// of the source, later branch and all: `namespace` there makes the brace one of file scope.
module HeadLimits {
  import opened Options
  import opened PreprocText
  import opened Automaton
  import opened Tokens
  import opened Lexer
  import opened Nesting
  import opened DirectiveText
  import opened BraceDepth
  import opened Stretches
  import opened LaterText
  import opened Exchange
  import opened TameText

  const OPENING: seq<Bytes> := ["#if A", "#else"]
  const LATER: seq<Bytes> := ["namespace"]
  const CLOSING: seq<Bytes> := ["#endif", "{"]

  lemma NamespaceStays()
    ensures StripComments("namespace\n\n") == "namespace"
  {
    UncommentedKeeps("namespace\n\n", 0);
    assert TrimEnd("namespace") == "namespace";
    assert "namespace\n"[..9] == "namespace" && "namespace\n\n"[..10] == "namespace\n";
    assert TrimEnd("namespace\n\n") == TrimEnd("namespace\n") == "namespace";
  }

  lemma HasItself(word: Bytes)
    ensures HasWord(word, word)
  {
    assert word[0..0 + |word|] == word && WordAt(word, word, 0);
  }

  lemma AllTame()
    ensures TameLine("#if A") && TameLine("#else") && TameLine("namespace")
    ensures TameLine("#endif") && TameLine("{") && TameLine("")
    ensures NoPunctIn("#if A") && NoPunctIn("#else") && NoPunctIn("namespace") && NoPunctIn("#endif")
  {
  }

  // What heads the brace in either source.
  const HEAD_WITH: seq<Bytes> := ["#if A", "#else", "namespace", "#endif"]
  const HEAD_WITHOUT: seq<Bytes> := ["#if A", "#else", "#endif"]

  lemma HeadCode(lines: seq<Bytes>)
    requires lines == HEAD_WITH + [""]
    ensures CodeOf(lines) == "namespace\n\n"
  {
    CodeOfCons("", []);
    CodeOfCons("#endif", [""]);
    CodeOfCons("namespace", ["#endif", ""]);
    CodeOfCons("#else", ["namespace", "#endif", ""]);
    CodeOfCons("#if A", ["#else", "namespace", "#endif", ""]);
    assert lines == ["#if A"] + (["#else"] + (["namespace"] + (["#endif"] + ([""] + []))));
    assert CodeOfLine("#if A") == CodeOfLine("#else") == CodeOfLine("#endif") == "";
    assert CodeOfLine("namespace") == "namespace\n" && CodeOfLine("") == "\n";
    assert [""] + [] == [""] && ["#endif"] + [""] == ["#endif", ""];
    assert ["namespace"] + ["#endif", ""] == ["namespace", "#endif", ""];
    assert ["#else"] + ["namespace", "#endif", ""] == ["#else", "namespace", "#endif", ""];
    assert CodeOf([""]) == "\n" && CodeOf(["#endif", ""]) == "\n";
    assert CodeOf(["namespace", "#endif", ""]) == "namespace\n" + "\n";
  }

  lemma CodeOfCons(line: Bytes, rest: seq<Bytes>)
    ensures CodeOf([line] + rest) == CodeOfLine(line) + CodeOf(rest)
  {
    assert ([line] + rest)[1..] == rest;
  }

  lemma NamespaceIsFound(lines: seq<Bytes>)
    requires |lines| > 2 && lines[2] == "namespace"
    ensures FindIn(Joined(lines), "namespace", 0, |Joined(lines)|).Some?
  {
    JoinedLine(lines, 2);
    OccursIs(Joined(lines), "namespace", StartOf(lines, 2));
  }

  lemma WithIsFileScope(lines: seq<Bytes>)
    requires lines == HEAD_WITH + [""]
    ensures HeadsFileScope(Joined(lines))
  {
    AllTame();
    NamespaceIsFound(lines);
    SplitUndoesJoined(lines);
    HeadCode(lines);
    NamespaceStays();
    HasItself("namespace");
  }

  // Neither word can occur without its letters.
  lemma NoWordNoScope(text: Bytes)
    requires 'p' !in text && 'x' !in text
    ensures !HeadsFileScope(text)
  {
    var inner, outer := FindIn(text, "namespace", 0, |text|), FindIn(text, "extern", 0, |text|);
    assert "namespace"[5] == 'p' && "extern"[1] == 'x';
    if inner.Some? {
      OccursBytes(text, "namespace", inner.value, 5);
    }
    if outer.Some? {
      OccursBytes(text, "extern", outer.value, 1);
    }
    assert inner.None? && outer.None?;
  }

  lemma WithoutIsNot(lines: seq<Bytes>)
    requires lines == HEAD_WITHOUT + [""]
    ensures !HeadsFileScope(Joined(lines))
  {
    JoinedLacks(lines, 'p');
    JoinedLacks(lines, 'x');
    NoWordNoScope(Joined(lines));
  }

  lemma WithEnds(one: Scan)
    requires IsScan(one) && one.src == Joined(OPENING + LATER + CLOSING)
    ensures EndsWithBrace(one, HEAD_WITH)
  {
    assert OPENING + LATER + CLOSING == HEAD_WITH + ["{"];
    WithConds(one, HEAD_WITH + ["{"]);
    NoPunctInHeads();
  }

  lemma WithoutEnds(other: Scan)
    requires IsScan(other) && other.src == Joined(OPENING + CLOSING)
    ensures EndsWithBrace(other, HEAD_WITHOUT)
  {
    assert OPENING + CLOSING == HEAD_WITHOUT + ["{"];
    WithoutConds(other, HEAD_WITHOUT + ["{"]);
    NoPunctInHeads();
  }

  lemma NoPunctInHeads()
    ensures forall k :: 0 <= k < |HEAD_WITH| ==> NoPunctIn(HEAD_WITH[k])
    ensures forall k :: 0 <= k < |HEAD_WITHOUT| ==> NoPunctIn(HEAD_WITHOUT[k])
  {
    AllTame();
  }

  lemma AreWords()
    ensures IsWord("if", " A") && IsWord("else", "") && IsWord("endif", "")
    ensures "#if A" == "#" + "if" + " A" && "#else" == "#" + "else" + "" && "#endif" == "#" + "endif" + ""
  {
  }

  lemma IfLine(scan: Scan, lines: seq<Bytes>, k: nat)
    requires IsScan(scan) && TameLines(lines) && scan.src == Joined(lines) && k < |lines| && lines[k] == "#if A"
    ensures |scan.lines| == |lines| && CondsIn(scan)[k] == If
  {
    AreWords();
    LineCond(scan, lines, k, "if", " A", If);
  }

  lemma ElseLine(scan: Scan, lines: seq<Bytes>, k: nat)
    requires IsScan(scan) && TameLines(lines) && scan.src == Joined(lines) && k < |lines| && lines[k] == "#else"
    ensures |scan.lines| == |lines| && CondsIn(scan)[k] == Else
  {
    AreWords();
    LineCond(scan, lines, k, "else", "", Else);
  }

  lemma EndifLine(scan: Scan, lines: seq<Bytes>, k: nat)
    requires IsScan(scan) && TameLines(lines) && scan.src == Joined(lines) && k < |lines| && lines[k] == "#endif"
    ensures |scan.lines| == |lines| && CondsIn(scan)[k] == Endif
  {
    AreWords();
    LineCond(scan, lines, k, "endif", "", Endif);
  }

  lemma WithConds(one: Scan, lines: seq<Bytes>)
    requires IsScan(one) && lines == HEAD_WITH + ["{"] && one.src == Joined(lines)
    ensures TameLines(lines) && |one.lines| == 5 && !SkippedAfter([], one, 4)
  {
    WithCondList(one, lines);
    assert CondsIn(one)[..5] == CondsIn(one);
    WithBranches();
  }

  lemma WithCondList(one: Scan, lines: seq<Bytes>)
    requires IsScan(one) && lines == HEAD_WITH + ["{"] && one.src == Joined(lines)
    ensures TameLines(lines) && |one.lines| == 5 && CondsIn(one) == [If, Else, Plain, Endif, Plain]
  {
    WithLines(lines);
    IfLine(one, lines, 0);
    ElseLine(one, lines, 1);
    PlainCond(one, lines, 2);
    EndifLine(one, lines, 3);
    PlainCond(one, lines, 4);
  }

  lemma WithLines(lines: seq<Bytes>)
    requires lines == HEAD_WITH + ["{"]
    ensures TameLines(lines) && |lines| == 5
    ensures lines[0] == "#if A" && lines[1] == "#else" && lines[2][0] == 'n'
    ensures lines[3] == "#endif" && lines[4][0] == '{'
  {
    AllTame();
  }

  lemma WithoutLines(lines: seq<Bytes>)
    requires lines == HEAD_WITHOUT + ["{"]
    ensures TameLines(lines) && |lines| == 4
    ensures lines[0] == "#if A" && lines[1] == "#else" && lines[2] == "#endif" && lines[3][0] == '{'
  {
    AllTame();
  }

  lemma WithoutConds(other: Scan, lines: seq<Bytes>)
    requires IsScan(other) && lines == HEAD_WITHOUT + ["{"] && other.src == Joined(lines)
    ensures TameLines(lines) && |other.lines| == 4 && !SkippedAfter([], other, 3)
  {
    WithoutLines(lines);
    IfLine(other, lines, 0);
    ElseLine(other, lines, 1);
    EndifLine(other, lines, 2);
    PlainCond(other, lines, 3);
    assert CondsIn(other)[..4] == [If, Else, Endif, Plain];
    WithoutBranches();
  }

  lemma FoldStep(branches: seq<bool>, conds: seq<Cond>, cond: Cond)
    ensures Fold(branches, conds + [cond]) == NextBranches(Fold(branches, conds), cond)
  {
    assert (conds + [cond])[..|conds|] == conds;
  }

  lemma LaterBranch()
    ensures Fold([], [If, Else]) == [true]
  {
    FoldStep([], [], If);
    FoldStep([], [If], Else);
    assert [] + [If] == [If] && [If] + [Else] == [If, Else];
  }

  lemma WithBranches()
    ensures Fold([], [If, Else, Plain, Endif, Plain]) == []
  {
    LaterBranch();
    FoldStep([], [If, Else], Plain);
    FoldStep([], [If, Else, Plain], Endif);
    FoldStep([], [If, Else, Plain, Endif], Plain);
    assert [If, Else] + [Plain] == [If, Else, Plain] && [If, Else, Plain] + [Endif] == [If, Else, Plain, Endif];
    assert [If, Else, Plain, Endif] + [Plain] == [If, Else, Plain, Endif, Plain];
  }

  lemma WithoutBranches()
    ensures Fold([], [If, Else, Endif, Plain]) == []
  {
    LaterBranch();
    FoldStep([], [If, Else], Endif);
    FoldStep([], [If, Else, Endif], Plain);
    assert [If, Else] + [Endif] == [If, Else, Endif] && [If, Else, Endif] + [Plain] == [If, Else, Endif, Plain];
  }

  // The opening ends in the second branch, and the line that stands there opens nothing.
  lemma OpeningIsLater(a: Scan)
    requires IsScan(a) && a.src == Joined(OPENING + [""])
    ensures WholeLines(a.src) && |a.lines| == 3 && Skipped(CondsIn(a), 2)
  {
    var lines := OPENING + [""];
    AllTame();
    IfLine(a, lines, 0);
    ElseLine(a, lines, 1);
    TameIsWhole(OPENING);
    assert CondsIn(a)[..2] == [If, Else];
    LaterBranch();
    SkippedIsFold(CondsIn(a), 2);
  }

  lemma LaterIsContained(x: Scan)
    requires IsScan(x) && x.src == Joined(LATER + [""])
    ensures WholeLines(x.src) && Contained(BodyConds(x))
  {
    AllTame();
    PlainCond(x, LATER + [""], 0);
    TameIsWhole(LATER);
    assert BodyConds(x) == [Plain];
    assert Balance(Marks([Plain]), 0, 0) == 0 && Balance(Marks([Plain]), 0, 1) == 0;
  }

  lemma NothingIsContained(y: Scan)
    requires IsScan(y) && y.src == Joined([""])
    ensures WholeLines(y.src) && Contained(BodyConds(y))
  {
    AllTame();
    PlainCond(y, [""], 0);
    assert BodyConds(y) == [];
  }

  // The exchange of one later line for none moves the depth of the brace after it.
  lemma LaterTextReachesOut(a: Scan, x: Scan, y: Scan, b: Scan, one: Scan, other: Scan)
    requires IsScan(a) && IsScan(x) && IsScan(y) && IsScan(b) && IsScan(one) && IsScan(other)
    requires a.src == Joined(OPENING + [""]) && x.src == Joined(LATER + [""]) && y.src == Joined([""])
    requires b.src == Joined(CLOSING)
    requires one.src == Joined(OPENING + LATER + CLOSING) && other.src == Joined(OPENING + CLOSING)
    ensures Exchanged(a, x, y, b, one, other)
    ensures DepthsIn(other) != MovedDepths(DepthsIn(one), BByte(a, x), BByte(a, y))
    ensures !HeadedAlike(one, BByte(a, x), other)
  {
    OpeningIsLater(a);
    LaterIsContained(x);
    NothingIsContained(y);
    TextsJoin();
    WithEnds(one);
    WithoutEnds(other);
    HeadsDecide(a, x, y, b, one, other, HEAD_WITH, HEAD_WITHOUT);
    WithIsFileScope(HEAD_WITH + [""]);
    WithoutIsNot(HEAD_WITHOUT + [""]);
    ExchangeKeepsDepths(a, x, y, b, one, other);
  }

  lemma TextsJoin()
    ensures Joined(OPENING + [""]) + Joined(LATER + [""]) + Joined(CLOSING) == Joined(OPENING + LATER + CLOSING)
    ensures Joined(OPENING + [""]) + Joined([""]) + Joined(CLOSING) == Joined(OPENING + CLOSING)
  {
    JoinedConcat(OPENING, CLOSING);
    JoinedConcat(LATER, CLOSING);
    JoinedConcat(OPENING, LATER + CLOSING);
    assert OPENING + (LATER + CLOSING) == OPENING + LATER + CLOSING;
    var a, x, b := Joined(OPENING + [""]), Joined(LATER + [""]), Joined(CLOSING);
    assert a + x + b == a + (x + b);
  }
}
