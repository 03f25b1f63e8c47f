// preproc_fallback.rs: the guard rows of a source, told by the text of its directives.
module GuardLines {
  import opened Options
  import opened PreprocText
  import opened Automaton
  import opened Tokens
  import opened Lexer
  import opened Nesting
  import opened DirectiveText
  import opened BraceDepth
  import opened Guards
  import opened Stretches
  import opened LaterText
  import opened Spelling
  import opened Conditionals
  import opened GuardText
  import opened TameText
  import opened TameConditionals

  // No conditional is open before line p.
  ghost predicate NothingOpen(src: Bytes, lines: seq<SrcLine>, p: nat)
    requires p <= |lines|
  {
    forall o: nat :: o < p ==> !OpenAt(TextMarks(src, lines), o, p)
  }

  // Line p, not continued, tests at file level that x is undefined.
  ghost predicate TestsLine(src: Bytes, lines: seq<SrcLine>, p: nat, x: Bytes)
    requires p < |lines|
  {
    && !Continued(lines, p) && NothingOpen(src, lines, p)
    && exists word, rest :: Says(src, lines[p], word, rest) && Letters(word) && TestsUndefined(word, rest, x)
  }

  // Line k, not continued, defines x like a guard.
  ghost predicate DefinesLine(src: Bytes, lines: seq<SrcLine>, k: nat, x: Bytes, asOne: bool)
    requires k < |lines|
  {
    !Continued(lines, k) && exists rest :: Says(src, lines[k], "define", rest) && Defines(rest, x, asOne)
  }

  // Line k defines as a guard what the significant line before it tests.
  ghost predicate GuardLine(src: Bytes, lines: seq<SrcLine>, k: nat, asOne: bool)
    requires k < |lines|
  {
    exists p, x :: LastSignificant(lines, k) == Some(p) && TestsLine(src, lines, p, x) &&
                   DefinesLine(src, lines, k, x, asOne)
  }

  // The next significant line after line k ends the conditional.
  ghost predicate EndsNext(src: Bytes, lines: seq<SrcLine>, k: nat) {
    exists q :: k < q < |lines| && LastSignificant(lines, q) == Some(k) && Closes(src, lines[q])
  }

  // A line joined to the one above opens no directive.
  lemma SplicedIsPlain(src: Bytes, lines: seq<SrcLine>, k: nat)
    requires LinesExact(src, lines) && k < |lines|
    ensures DirectiveFits(src, lines[k])
    ensures lines[k].spliced ==> lines[k].directive.None?
    ensures DirectiveOf(src, lines[k]) == CondOf(src, lines[k])
  {
    assert LineIsExact(src, lines, k);
  }

  lemma DirectivesAreConds(src: Bytes, lines: seq<SrcLine>)
    requires LinesExact(src, lines)
    ensures AllFit(src, lines) && Directives(src, lines) == Conds(src, lines)
  {
    LinesFit(src, lines);
    forall k: nat | k < |lines| ensures Directives(src, lines)[k] == Conds(src, lines)[k] {
      SplicedIsPlain(src, lines, k);
    }
  }

  lemma DepthIsNothingOpen(src: Bytes, lines: seq<SrcLine>, p: nat)
    requires LinesExact(src, lines) && p <= |lines| && AllFit(src, lines)
    ensures CondDepth(src, lines, p) == 0 <==> NothingOpen(src, lines, p)
  {
    DirectivesAreConds(src, lines);
    MarksAreText(src, lines);
    var stack := Stack(TextMarks(src, lines), p);
    forall o: nat ensures o in stack <==> OpenAt(TextMarks(src, lines), o, p) {
      StackIsOpen(TextMarks(src, lines), p, o);
    }
    assert stack != [] ==> stack[0] in stack;
  }

  lemma TestsIff(src: Bytes, lines: seq<SrcLine>, p: nat, x: Bytes)
    requires LinesExact(src, lines) && AllFit(src, lines) && p < |lines|
    ensures Tests(src, lines, p) == Some(x) <==> TestsLine(src, lines, p, x)
  {
    DepthIsNothingOpen(src, lines, p);
    SplicedIsPlain(src, lines, p);
    AreLetters();
    if lines[p].directive.Some? {
      var (word, rest) := DirectiveWord(src, lines[p]);
      GuardedNameIff(word, rest, x);
      if Tests(src, lines, p) == Some(x) {
        SaysIff(src, lines[p], word, rest);
      }
    }
    if TestsLine(src, lines, p, x) {
      var word, rest :| Says(src, lines[p], word, rest) && Letters(word) && TestsUndefined(word, rest, x);
      SaysIff(src, lines[p], word, rest);
    }
  }

  lemma DefinesLineIff(src: Bytes, lines: seq<SrcLine>, k: nat, x: Bytes, asOne: bool)
    requires LinesExact(src, lines) && AllFit(src, lines) && k < |lines|
    ensures DefinesLine(src, lines, k, x, asOne) <==>
              && IsDirective(src, lines[k], "define") && !Continued(lines, k)
              && DefinesGuard(DirectiveWord(src, lines[k]).1, x) == Some(asOne)
  {
    SplicedIsPlain(src, lines, k);
    AreLetters();
    if lines[k].directive.Some? {
      var rest := DirectiveWord(src, lines[k]).1;
      SaysIff(src, lines[k], "define", rest);
      DefinesIff(rest, x, asOne);
      if rest :| Says(src, lines[k], "define", rest) && Defines(rest, x, asOne) {
        SaysIff(src, lines[k], "define", rest);
      }
    }
  }

  lemma GuardIff(src: Bytes, lines: seq<SrcLine>, k: nat, asOne: bool)
    requires LinesExact(src, lines) && AllFit(src, lines) && k < |lines|
    ensures Guard(src, lines, k) == Some(asOne) <==> GuardLine(src, lines, k, asOne)
  {
    if Guard(src, lines, k) == Some(asOne) {
      var p := LastSignificant(lines, k).value;
      var x := Tests(src, lines, p).value;
      TestsIff(src, lines, p, x);
      DefinesLineIff(src, lines, k, x, asOne);
    }
    if GuardLine(src, lines, k, asOne) {
      var p, x :| LastSignificant(lines, k) == Some(p) && TestsLine(src, lines, p, x) &&
                  DefinesLine(src, lines, k, x, asOne);
      TestsIff(src, lines, p, x);
      DefinesLineIff(src, lines, k, x, asOne);
    }
  }

  // The rows preproc_rows calls guards: a definition of the name that the line before it
  // tests, unless it is defined as 1 in a group that holds nothing else.
  lemma GuardRowsAreText(src: Bytes, lines: seq<SrcLine>, row: nat)
    requires LinesExact(src, lines) && AllFit(src, lines)
    ensures row in GuardRows(lines, Parts(src, lines), |lines|, |lines|) <==>
              && row < |lines|
              && (GuardLine(src, lines, row, false) || (GuardLine(src, lines, row, true) && !EndsNext(src, lines, row)))
  {
    var parts := Parts(src, lines);
    forall k: nat | k < |lines| ensures lines[k].row == k {
      assert LineIsExact(src, lines, k);
    }
    GuardRowsExact(lines, parts, |lines|);
    if row < |lines| {
      GuardIff(src, lines, row, false);
      GuardIff(src, lines, row, true);
      EmptyIsEndsNext(src, lines, row);
    }
  }

  lemma EmptyIsEndsNext(src: Bytes, lines: seq<SrcLine>, k: nat)
    requires LinesExact(src, lines) && AllFit(src, lines) && k < |lines|
    ensures Empty(lines, Parts(src, lines), k, |lines|) <==>
              Guard(src, lines, k) == Some(true) && EndsNext(src, lines, k)
  {
    var parts := Parts(src, lines);
    AreLetters();
    forall q: nat | q < |lines| ensures parts[q].ends <==> Closes(src, lines[q]) {
      SplicedIsPlain(src, lines, q);
      SaysWordIff(src, lines[q], "endif");
    }
    if EndsNext(src, lines, k) {
      var q :| k < q < |lines| && LastSignificant(lines, q) == Some(k) && Closes(src, lines[q]);
      assert EndedAt(lines, parts, k, q);
    }
  }

  // A header that opens with a test and a definition of its guard: the second line is a
  // guard row, at once when it has no value, and as 1 when code follows it.
  lemma OpeningGuard(
      scan: Scan, lines: seq<Bytes>, word: Bytes, test: Bytes, def: Bytes, x: Bytes, asOne: bool)
    requires AreScanned(scan, lines) && |lines| >= 2
    requires lines[0] == "#" + word + test && IsWord(word, test) && TestsUndefined(word, test, x)
    requires lines[1] == "#" + "define" + def && IsWord("define", def) && Defines(def, x, asOne)
    requires asOne ==> |lines| > 2 && lines[2] != "" && lines[2][0] != '#'
    ensures IsGuardRow(scan, 1)
  {
    OpeningLines(scan, lines);
    FirstTests(scan, lines, word, test, x);
    SecondDefines(scan, lines, def, x, asOne);
    OpeningRow(scan, lines, x, asOne);
  }

  ghost predicate AreScanned(scan: Scan, lines: seq<Bytes>) {
    IsScan(scan) && TameLines(lines) && scan.src == Joined(lines)
  }

  ghost predicate IsGuardRow(scan: Scan, row: nat) {
    && AllFit(scan.src, scan.lines)
    && row in GuardRows(scan.lines, Parts(scan.src, scan.lines), |scan.lines|, |scan.lines|)
  }

  lemma FirstTests(scan: Scan, lines: seq<Bytes>, word: Bytes, test: Bytes, x: Bytes)
    requires AreScanned(scan, lines) && |scan.lines| == |lines| && !Continued(scan.lines, 0)
    requires lines[0] == "#" + word + test && IsWord(word, test) && TestsUndefined(word, test, x)
    ensures TestsLine(scan.src, scan.lines, 0, x)
  {
    TameSays(scan, lines, 0, word, test);
    assert Letters(word);
  }

  lemma SecondDefines(scan: Scan, lines: seq<Bytes>, def: Bytes, x: Bytes, asOne: bool)
    requires AreScanned(scan, lines) && |scan.lines| == |lines| >= 2 && !Continued(scan.lines, 1)
    requires lines[1] == "#" + "define" + def && IsWord("define", def) && Defines(def, x, asOne)
    ensures DefinesLine(scan.src, scan.lines, 1, x, asOne)
  {
    TameSays(scan, lines, 1, "define", def);
  }

  lemma OpeningRow(scan: Scan, lines: seq<Bytes>, x: Bytes, asOne: bool)
    requires AreScanned(scan, lines) && |scan.lines| == |lines| >= 2 && LastSignificant(scan.lines, 1) == Some(0)
    requires TestsLine(scan.src, scan.lines, 0, x) && DefinesLine(scan.src, scan.lines, 1, x, asOne)
    requires asOne ==> |lines| > 2 && lines[2] != "" && lines[2][0] != '#'
    ensures IsGuardRow(scan, 1)
  {
    LinesFit(scan.src, scan.lines);
    assert GuardLine(scan.src, scan.lines, 1, asOne);
    if asOne {
      CodeFollows(scan, lines);
    }
    GuardRowsAreText(scan.src, scan.lines, 1);
  }

  lemma OpeningLines(scan: Scan, lines: seq<Bytes>)
    requires IsScan(scan) && TameLines(lines) && scan.src == Joined(lines) && |lines| >= 2
    requires lines[0] != "" && lines[0][0] == '#' && lines[1] != "" && lines[1][0] == '#'
    ensures |scan.lines| == |lines| && LastSignificant(scan.lines, 1) == Some(0)
    ensures LastSignificant(scan.lines, 2) == Some(1)
    ensures !Continued(scan.lines, 0) && !Continued(scan.lines, 1)
  {
    LineOf(scan, lines, 0);
    LineOf(scan, lines, 1);
    if |lines| > 2 {
      LineOf(scan, lines, 2);
    }
  }

  // A line of code is significant.
  lemma CodeFollows(scan: Scan, lines: seq<Bytes>)
    requires IsScan(scan) && TameLines(lines) && scan.src == Joined(lines) && |lines| > 2
    requires lines[2] != "" && lines[2][0] != '#'
    ensures !EndsNext(scan.src, scan.lines, 1)
  {
    LineOf(scan, lines, 2);
    NotBlank(scan, lines, 2);
    forall q: nat | 3 <= q < |scan.lines| ensures LastSignificant(scan.lines, q) != Some(1) {
      SinceThen(scan.lines, 2, q);
    }
  }

  lemma {:induction false} SinceThen(lines: seq<SrcLine>, k: nat, q: nat)
    requires k < q <= |lines| && Significant(lines[k])
    ensures LastSignificant(lines, q).Some? && LastSignificant(lines, q).value >= k
    decreases q
  {
    if q > k + 1 {
      SinceThen(lines, k, q - 1);
    }
  }

  lemma NotBlank(scan: Scan, lines: seq<Bytes>, k: nat)
    requires IsScan(scan) && TameLines(lines) && scan.src == Joined(lines) && k < |lines| && lines[k] != ""
    ensures k < |scan.lines| && !scan.lines[k].blank
  {
    LineOf(scan, lines, k);
    JoinedIsTame(lines);
    var start := StartOf(lines, k);
    TameIsCode(scan.src, start);
    assert scan.src[start..start + |lines[k]|][0] == lines[k][0];
    assert !BlankByte(scan.src, start);
    assert LineIsExact(scan.src, scan.lines, k);
  }

  // The spellings with single blanks, of every identifier.
  lemma PlainSpellings(x: Bytes)
    requires IsIdentifier(x)
    ensures TestsUndefined("ifndef", " " + x, x) && TestsUndefined("if", " !defined " + x, x)
    ensures TestsUndefined("if", " !defined(" + x + ")", x)
    ensures SpeltLikeGuard(x) ==> Defines(" " + x, x, false) && Defines(" " + x + " 1", x, true)
  {
    AreFormTokens(x);
    IdentifierIsToken(x);
    SpeltAlone(x);
    SpeltWithValue(x);
    SpeltNegated(x);
  }

  // Text without comments, given by its blanks and tokens.
  lemma PlainIsSpelt(text: Bytes, tokens: seq<Bytes>)
    requires '/' !in text && AreTokens(tokens) && SpellsPlain(text, "", tokens)
    ensures IsSpelt(text, tokens)
  {
    assert text[0..0 + |text|] == text;
    TokenLeaves(text, 0, text);
    assert Uncommented(text, |text|) == "" && text + "" == text;
    SpellsIff(text, 0, "", tokens);
  }

  lemma SpeltAlone(x: Bytes)
    requires IsIdentifier(x) && IsSolidToken(x)
    ensures IsSpelt(" " + x, [x])
  {
    assert [x][1..] == [] && x + "" == x;
    TokenStep(" " + x, "", [x], " ", x, "");
    PlainIsSpelt(" " + x, [x]);
  }

  lemma SpeltWithValue(x: Bytes)
    requires IsIdentifier(x) && IsSolidToken(x)
    ensures IsSpelt(" " + x + " 1", [x, "1"])
  {
    assert [x, "1"][1..] == ["1"] && ["1"][1..] == [];
    assert " 1" == " " + ("1" + "") && " " + x + " 1" == " " + (x + " 1");
    TokenStep(" 1", x, ["1"], " ", "1", "");
    TokenStep(" " + x + " 1", "", [x, "1"], " ", x, " 1");
    assert IsSolidToken("1");
    PlainIsSpelt(" " + x + " 1", [x, "1"]);
  }

  lemma SpeltNegated(x: Bytes)
    requires IsIdentifier(x) && AreTokens(BareTokens(x)) && AreTokens(ParenTokens(x))
    ensures IsSpelt(" !defined " + x, BareTokens(x)) && IsSpelt(" !defined(" + x + ")", ParenTokens(x))
  {
    SpeltBareForm(x);
    SpeltParenForm(x);
  }

  lemma SpeltBareForm(x: Bytes)
    requires IsIdentifier(x) && AreTokens(BareTokens(x))
    ensures IsSpelt(" !defined " + x, BareTokens(x))
  {
    var bare := "!" + ("" + ("defined" + (" " + x)));
    assert " !defined " + x == " " + bare + "";
    TrimIs(" ", bare, "");
    BareSpells(" " + bare + "", " ", "", " ", x, "");
    PlainIsSpelt(" " + bare + "", BareTokens(x));
  }

  lemma SpeltParenForm(x: Bytes)
    requires IsIdentifier(x) && AreTokens(ParenTokens(x))
    ensures IsSpelt(" !defined(" + x + ")", ParenTokens(x))
  {
    var paren := "!" + ("" + ("defined" + ("" + ("(" + ("" + x + "") + ")"))));
    assert " !defined(" + x + ")" == " " + paren + "";
    TrimIs(" ", paren, "");
    ParenSpells(" " + paren + "", " ", "", "", "", x, "", "");
    PlainIsSpelt(" " + paren + "", ParenTokens(x));
  }

  // A plain header: for every name spelt like a guard, the row of its definition.
  lemma PlainHeader(scan: Scan, lines: seq<Bytes>, x: Bytes, asOne: bool)
    requires IsIdentifier(x) && SpeltLikeGuard(x)
    requires AreScanned(scan, lines) && |lines| > 2 && lines[2] != "" && lines[2][0] != '#'
    requires lines[0] == "#ifndef " + x && lines[1] == if asOne then "#define " + x + " 1" else "#define " + x
    ensures IsGuardRow(scan, 1)
  {
    var test := PlainTest(x);
    var def := PlainDefinition(x, asOne);
    OpeningLines(scan, lines);
    FirstTests(scan, lines, "ifndef", test, x);
    SecondDefines(scan, lines, def, x, asOne);
    OpeningRow(scan, lines, x, asOne);
  }

  lemma PlainTest(x: Bytes) returns (test: Bytes)
    requires IsIdentifier(x)
    ensures "#ifndef " + x == "#" + "ifndef" + test && IsWord("ifndef", test) && TestsUndefined("ifndef", test, x)
  {
    PlainSpellings(x);
    test := " " + x;
    assert "#ifndef " + x == "#" + "ifndef" + test;
  }

  lemma PlainDefinition(x: Bytes, asOne: bool) returns (def: Bytes)
    requires IsIdentifier(x) && SpeltLikeGuard(x)
    ensures IsWord("define", def) && Defines(def, x, asOne)
    ensures (if asOne then "#define " + x + " 1" else "#define " + x) == "#" + "define" + def
  {
    PlainSpellings(x);
    if asOne {
      def := " " + x + " 1";
      assert "#define " + x + " 1" == "#" + "define" + def;
    } else {
      def := " " + x;
      assert "#define " + x == "#" + "define" + def;
    }
  }
}
