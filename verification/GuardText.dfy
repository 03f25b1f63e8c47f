// preproc_fallback.rs: which texts the guard tests and definitions of a preprocessor scan recognise.
module GuardText {
  import opened Options
  import opened PreprocText
  import opened DirectiveText
  import opened Spelling

  // The condition of an #ifndef is one identifier.
  lemma IfndefIff(rest: Bytes, x: Bytes)
    ensures GuardedName("ifndef", rest) == Some(x) <==> IsIdentifier(x) && IsSpelt(rest, [x])
  {
    var u := Uncommented(rest, 0);
    SplitIdentIs(Trim(u), x, "");
    assert x + "" == x;
    if IsIdentifier(x) {
      IdentifierIsToken(x);
      SpellsIff(rest, 0, "", [x]);
      if Trim(u) == x {
        var b, c := TrimCuts(u);
        assert PlainStep(u, "", [x], b, c);
      }
      if SpellsPlain(u, "", [x]) {
        var b, c :| PlainStep(u, "", [x], b, c) && SpellsPlain(c, x, [x][1..]);
        TrimIs(b, x, c);
      }
    }
  }

  // What a condition spelt with blanks looks like once trimmed.
  ghost predicate BareForm(cond: Bytes, b1: Bytes, b2: Bytes, x: Bytes) {
    AllBlank(b1) && AllBlank(b2) && b2 != "" && cond == "!" + (b1 + ("defined" + (b2 + x)))
  }

  ghost predicate ParenForm(cond: Bytes, b1: Bytes, b2: Bytes, b3: Bytes, b4: Bytes, x: Bytes) {
    && AllBlank(b1) && AllBlank(b2) && AllBlank(b3) && AllBlank(b4)
    && cond == "!" + (b1 + ("defined" + (b2 + ("(" + (b3 + x + b4) + ")"))))
  }

  // The operand of "defined" with a '!' before it.
  lemma NegatedIs(cond: Bytes, b1: Bytes, tail: Bytes)
    requires AllBlank(b1) && cond == "!" + (b1 + ("defined" + tail))
    ensures NegatedOperand(cond) == DefinedOperand(tail)
  {
    assert cond[1..] == b1 + ("defined" + tail);
    TrimStartIs(b1, "defined" + tail);
    assert ("defined" + tail)[7..] == tail;
  }

  lemma NegatedForm(cond: Bytes) returns (b1: Bytes, tail: Bytes)
    requires NegatedOperand(cond).Some?
    ensures AllBlank(b1) && cond == "!" + (b1 + ("defined" + tail)) && NegatedOperand(cond) == DefinedOperand(tail)
  {
    b1 := TrimStartCuts(cond[1..]);
    var t := TrimStart(cond[1..]);
    tail := t[7..];
    assert cond == "!" + cond[1..] && t == "defined" + tail;
  }

  lemma BareIs(b2: Bytes, x: Bytes)
    requires AllBlank(b2) && b2 != "" && IsIdentifier(x)
    ensures DefinedOperand(b2 + x) == Some(x)
  {
    TrimIs(b2, x, "");
    assert b2 + x + "" == b2 + x;
    assert StripPrefix(x, "(").None?;
  }

  lemma ParenIs(b2: Bytes, b3: Bytes, x: Bytes, b4: Bytes)
    requires AllBlank(b2) && AllBlank(b3) && AllBlank(b4) && IsIdentifier(x)
    ensures DefinedOperand(b2 + ("(" + (b3 + x + b4) + ")")) == Some(x)
  {
    var inner := "(" + (b3 + x + b4) + ")";
    TrimIs(b2, inner, "");
    assert b2 + inner + "" == b2 + inner;
    assert inner[1..] == (b3 + x + b4) + ")";
    assert inner[1..][..|inner[1..]| - 1] == b3 + x + b4;
    TrimIs(b3, x, b4);
  }

  // ... and the other way round.
  lemma DefinedForm(tail: Bytes, x: Bytes) returns (paren: bool, b2: Bytes, b3: Bytes, b4: Bytes, b5: Bytes)
    requires IsIdentifier(x) && DefinedOperand(tail) == Some(x)
    ensures AllBlank(b2) && AllBlank(b3) && AllBlank(b4) && AllBlank(b5)
    ensures if paren then tail == b2 + ("(" + (b3 + x + b4) + ")") + b5 else b2 != "" && tail == b2 + x + b5
  {
    b2, b5 := TrimCuts(tail);
    b3, b4 := "", "";
    var trimmed := Trim(tail);
    paren := StripPrefix(trimmed, "(").Some?;
    if paren {
      var inner := trimmed[1..];
      var name := inner[..|inner| - 1];
      assert inner == name + ")" && trimmed == "(" + inner;
      b3, b4 := TrimCuts(name);
      assert trimmed == "(" + (b3 + x + b4) + ")";
    }
  }

  // An #if recognised, without its comments.
  lemma NegatedIff(cond: Bytes, x: Bytes)
    requires IsIdentifier(x) && (cond != "" ==> !IsSpace(cond[|cond| - 1]))
    ensures NegatedOperand(cond) == Some(x) <==>
              || (exists b1, b2 :: BareForm(cond, b1, b2, x))
              || (exists b1, b2, b3, b4 :: ParenForm(cond, b1, b2, b3, b4, x))
  {
    if NegatedOperand(cond) == Some(x) {
      var b1, tail := NegatedForm(cond);
      var paren, b2, b3, b4, b5 := DefinedForm(tail, x);
      if paren {
        assert tail == b2 + ("(" + (b3 + x + b4) + ")");
        assert ParenForm(cond, b1, b2, b3, b4, x);
      } else {
        assert tail == b2 + x;
        assert BareForm(cond, b1, b2, x);
      }
    }
    if b1, b2 :| BareForm(cond, b1, b2, x) {
      NegatedIs(cond, b1, b2 + x);
      BareIs(b2, x);
    }
    if b1, b2, b3, b4 :| ParenForm(cond, b1, b2, b3, b4, x) {
      NegatedIs(cond, b1, b2 + ("(" + (b3 + x + b4) + ")"));
      ParenIs(b2, b3, x, b4);
    }
  }

  // The tokens of the two forms.
  function BareTokens(x: Bytes): seq<Bytes> {
    ["!", "defined", x]
  }

  function ParenTokens(x: Bytes): seq<Bytes> {
    ["!", "defined", "(", x, ")"]
  }

  lemma AreFormTokens(x: Bytes)
    requires IsIdentifier(x)
    ensures AreTokens(BareTokens(x)) && AreTokens(ParenTokens(x))
  {
    assert IsSolidToken("!") && IsSolidToken("defined") && IsSolidToken("(") && IsSolidToken(")") && IsSolidToken(x);
  }

  // One more token, after blanks.
  lemma TokenStep(text: Bytes, before: Bytes, tokens: seq<Bytes>, b: Bytes, token: Bytes, rest: Bytes)
    requires tokens != [] && tokens[0] == token && AllBlank(b) && text == b + (token + rest)
    requires (RunsOn(before, token) ==> b != "") && SpellsPlain(rest, token, tokens[1..])
    ensures SpellsPlain(text, before, tokens)
  {
    assert PlainStep(text, before, tokens, b, rest);
  }

  lemma BareSpells(u: Bytes, b0: Bytes, b1: Bytes, b2: Bytes, x: Bytes, b3: Bytes)
    requires IsIdentifier(x) && AllBlank(b0) && AllBlank(b3) && BareForm(Trim(u), b1, b2, x) && u == b0 + Trim(u) + b3
    ensures SpellsPlain(u, "", BareTokens(x))
  {
    var t2 := b2 + (x + b3);
    var t1 := b1 + ("defined" + t2);
    assert Trim(u) + b3 == "!" + t1;
    assert u == b0 + ("!" + t1);
    assert BareTokens(x)[1..] == ["defined", x] && ["defined", x][1..] == [x] && [x][1..] == [];
    TokenStep(t2, "defined", [x], b2, x, b3);
    TokenStep(t1, "!", ["defined", x], b1, "defined", t2);
    TokenStep(u, "", BareTokens(x), b0, "!", t1);
  }

  lemma ParenSpells(
      u: Bytes, b0: Bytes, b1: Bytes, b2: Bytes, b3: Bytes, x: Bytes, b4: Bytes, b5: Bytes)
    requires IsIdentifier(x) && AllBlank(b0) && AllBlank(b5)
    requires ParenForm(Trim(u), b1, b2, b3, b4, x) && u == b0 + Trim(u) + b5
    ensures SpellsPlain(u, "", ParenTokens(x))
  {
    var t4 := b4 + (")" + b5);
    var t3 := b3 + (x + t4);
    var t2 := b2 + ("(" + t3);
    var t1 := b1 + ("defined" + t2);
    assert ("(" + (b3 + x + b4) + ")") + b5 == "(" + t3;
    assert Trim(u) + b5 == "!" + t1;
    assert u == b0 + ("!" + t1);
    var tokens := ParenTokens(x);
    assert tokens[1..] == ["defined", "(", x, ")"] && ["defined", "(", x, ")"][1..] == ["(", x, ")"];
    assert ["(", x, ")"][1..] == [x, ")"] && [x, ")"][1..] == [")"] && [")"][1..] == [];
    TokenStep(t4, x, [")"], b4, ")", b5);
    TokenStep(t3, "(", [x, ")"], b3, x, t4);
    TokenStep(t2, "defined", ["(", x, ")"], b2, "(", t3);
    TokenStep(t1, "!", ["defined", "(", x, ")"], b1, "defined", t2);
    TokenStep(u, "", tokens, b0, "!", t1);
  }

  // The blanks before the next token, and what follows it.
  lemma NextToken(text: Bytes, before: Bytes, tokens: seq<Bytes>) returns (b: Bytes, rest: Bytes)
    requires tokens != [] && SpellsPlain(text, before, tokens)
    ensures AllBlank(b) && text == b + (tokens[0] + rest) && (RunsOn(before, tokens[0]) ==> b != "")
    ensures SpellsPlain(rest, tokens[0], tokens[1..])
  {
    b, rest :| PlainStep(text, before, tokens, b, rest) && SpellsPlain(rest, tokens[0], tokens[1..]);
    assert b + tokens[0] + rest == b + (tokens[0] + rest);
  }

  lemma SpeltBare(u: Bytes, x: Bytes) returns (b1: Bytes, b2: Bytes)
    requires IsIdentifier(x) && SpellsPlain(u, "", BareTokens(x))
    ensures BareForm(Trim(u), b1, b2, x)
  {
    assert BareTokens(x)[1..] == ["defined", x] && ["defined", x][1..] == [x] && [x][1..] == [];
    var b0, t1 := NextToken(u, "", BareTokens(x));
    var t2, b3;
    b1, t2 := NextToken(t1, "!", ["defined", x]);
    b2, b3 := NextToken(t2, "defined", [x]);
    var core := "!" + (b1 + ("defined" + (b2 + x)));
    assert u == b0 + core + b3;
    assert core[|core| - 1] == x[|x| - 1];
    TrimIs(b0, core, b3);
  }

  lemma SpeltParen(u: Bytes, x: Bytes) returns (b1: Bytes, b2: Bytes, b3: Bytes, b4: Bytes)
    requires IsIdentifier(x) && SpellsPlain(u, "", ParenTokens(x))
    ensures ParenForm(Trim(u), b1, b2, b3, b4, x)
  {
    var tokens := ParenTokens(x);
    assert tokens[1..] == ["defined", "(", x, ")"] && ["defined", "(", x, ")"][1..] == ["(", x, ")"];
    assert ["(", x, ")"][1..] == [x, ")"] && [x, ")"][1..] == [")"] && [")"][1..] == [];
    var b0, t1 := NextToken(u, "", tokens);
    var t2, t3, t4, b5;
    b1, t2 := NextToken(t1, "!", ["defined", "(", x, ")"]);
    b2, t3 := NextToken(t2, "defined", ["(", x, ")"]);
    b3, t4 := NextToken(t3, "(", [x, ")"]);
    b4, b5 := NextToken(t4, x, [")"]);
    var core := "!" + (b1 + ("defined" + (b2 + ("(" + (b3 + x + b4) + ")"))));
    assert u == b0 + core + b5;
    TrimsTo(u, b0, core, b5);
  }

  lemma TrimsTo(u: Bytes, b: Bytes, core: Bytes, c: Bytes)
    requires u == b + core + c && AllBlank(b) && AllBlank(c)
    requires |core| > 1 && core[0] == '!' && core[|core| - 1] == ')'
    ensures Trim(u) == core
  {
    TrimIs(b, core, c);
  }

  // The condition of an #if tests x exactly if it is `!defined x` or `!defined(x)`, with any
  // blanks and comments between the tokens.
  lemma IfIff(rest: Bytes, x: Bytes)
    ensures GuardedName("if", rest) == Some(x) <==>
              IsIdentifier(x) && (IsSpelt(rest, BareTokens(x)) || IsSpelt(rest, ParenTokens(x)))
  {
    var u := Uncommented(rest, 0);
    var b0, b9 := TrimCuts(u);
    var name := NegatedOperand(Trim(u));
    if name.Some? {
      SplitIdentIs(name.value, x, "");
      assert x + "" == x;
    }
    if IsIdentifier(x) {
      AreFormTokens(x);
      SpellsIff(rest, 0, "", BareTokens(x));
      SpellsIff(rest, 0, "", ParenTokens(x));
      NegatedIff(Trim(u), x);
      SplitIdentIs(x, x, "");
      FormsAreSpelt(u, x);
    }
  }

  lemma FormsAreSpelt(u: Bytes, x: Bytes)
    requires IsIdentifier(x)
    ensures (exists b1, b2 :: BareForm(Trim(u), b1, b2, x)) <==> SpellsPlain(u, "", BareTokens(x))
    ensures (exists b1, b2, b3, b4 :: ParenForm(Trim(u), b1, b2, b3, b4, x)) <==> SpellsPlain(u, "", ParenTokens(x))
  {
    var b0, b9 := TrimCuts(u);
    if b1, b2 :| BareForm(Trim(u), b1, b2, x) {
      BareSpells(u, b0, b1, b2, x, b9);
    }
    if b1, b2, b3, b4 :| ParenForm(Trim(u), b1, b2, b3, b4, x) {
      ParenSpells(u, b0, b1, b2, b3, x, b4, b9);
    }
    if SpellsPlain(u, "", BareTokens(x)) {
      var b1, b2 := SpeltBare(u, x);
    }
    if SpellsPlain(u, "", ParenTokens(x)) {
      var b1, b2, b3, b4 := SpeltParen(u, x);
    }
  }

  // The directive tests that x is undefined.
  ghost predicate TestsUndefined(word: Bytes, rest: Bytes, x: Bytes) {
    && IsIdentifier(x)
    && (|| (word == "ifndef" && IsSpelt(rest, [x]))
        || (word == "if" && (IsSpelt(rest, BareTokens(x)) || IsSpelt(rest, ParenTokens(x)))))
  }

  // What the scan recognises, and nothing else.
  lemma GuardedNameIff(word: Bytes, rest: Bytes, x: Bytes)
    ensures GuardedName(word, rest) == Some(x) <==> TestsUndefined(word, rest, x)
  {
    IfndefIff(rest, x);
    IfIff(rest, x);
  }

  // The endings of a guard's name; letters in any case.
  predicate IsEnding(ending: Bytes) {
    || SameLetters(ending, "_H") || SameLetters(ending, "_HPP") || SameLetters(ending, "_HXX")
    || SameLetters(ending, "_HH") || SameLetters(ending, "_GUARD") || SameLetters(ending, "_INCLUDED")
  }

  predicate SameLetters(text: Bytes, upper: Bytes) {
    |text| == |upper| && forall i :: 0 <= i < |upper| ==> text[i] == upper[i] || IsSmall(text[i], upper[i])
  }

  predicate IsSmall(small: char, upper: char) {
    'a' <= small <= 'z' && 'A' <= upper <= 'Z' && small as int - 'a' as int == upper as int - 'A' as int
  }

  ghost predicate Underscores(text: Bytes) {
    forall i :: 0 <= i < |text| ==> text[i] == '_'
  }

  // A name spelt like a guard: a stem, an ending, and any underscores.
  ghost predicate SpeltLikeGuard(x: Bytes) {
    exists stem, ending, tail :: x == stem + ending + tail && IsEnding(ending) && Underscores(tail)
  }

  lemma {:induction false} UnderscoresCut(name: Bytes) returns (tail: Bytes)
    ensures Underscores(tail) && name == WithoutUnderscores(name) + tail
    ensures
      var cut := WithoutUnderscores(name);
      cut != "" ==> cut[|cut| - 1] != '_'
  {
    if name != "" && name[|name| - 1] == '_' {
      tail := UnderscoresCut(name[..|name| - 1]);
      tail := tail + "_";
    } else {
      tail := "";
    }
  }

  lemma {:induction false} UnderscoresAre(name: Bytes, tail: Bytes)
    requires Underscores(tail) && (name != "" ==> name[|name| - 1] != '_')
    ensures WithoutUnderscores(name + tail) == name
  {
    if tail != "" {
      assert (name + tail)[..|name + tail| - 1] == name + tail[..|tail| - 1];
      UnderscoresAre(name, tail[..|tail| - 1]);
    } else {
      assert name + tail == name;
    }
  }

  lemma UpperIs(text: Bytes, upper: Bytes)
    requires forall i :: 0 <= i < |upper| ==> upper[i] == '_' || 'A' <= upper[i] <= 'Z'
    ensures UpperAll(text) == upper <==> SameLetters(text, upper)
  {
    if UpperAll(text) == upper {
      forall i | 0 <= i < |upper| ensures text[i] == upper[i] || IsSmall(text[i], upper[i]) {
        assert UpperAll(text)[i] == upper[i];
      }
    }
    if SameLetters(text, upper) {
      forall i | 0 <= i < |upper| ensures UpperAll(text)[i] == upper[i] {}
    }
  }

  lemma EndingIs(ending: Bytes)
    ensures IsEnding(ending) <==> UpperAll(ending) in GUARD_SUFFIXES
    ensures IsEnding(ending) ==> ending != "" && ending[|ending| - 1] != '_'
  {
    forall k | 0 <= k < |GUARD_SUFFIXES| ensures UpperAll(ending) == GUARD_SUFFIXES[k] <==>
                                                   SameLetters(ending, GUARD_SUFFIXES[k])
    {
      UpperIs(ending, GUARD_SUFFIXES[k]);
    }
    assert IsEnding(ending) <==> exists k :: 0 <= k < |GUARD_SUFFIXES| && SameLetters(ending, GUARD_SUFFIXES[k]) by {
      var g := GUARD_SUFFIXES;
      assert g[0] == "_H" && g[1] == "_HPP" && g[2] == "_HXX";
      assert g[3] == "_HH" && g[4] == "_GUARD" && g[5] == "_INCLUDED";
    }
  }

  lemma EndsWithIs(text: Bytes, suffix: Bytes)
    ensures EndsWith(UpperAll(text), suffix) <==>
              |suffix| <= |text| && UpperAll(text[|text| - |suffix|..]) == suffix
  {
    if |suffix| <= |text| {
      assert UpperAll(text)[|text| - |suffix|..] == UpperAll(text[|text| - |suffix|..]);
    }
  }

  lemma GuardSpellingIff(x: Bytes)
    ensures IsGuardSpelling(x) <==> SpeltLikeGuard(x)
  {
    if IsGuardSpelling(x) {
      GuardIsSpelt(x);
    }
    if SpeltLikeGuard(x) {
      SpeltIsGuard(x);
    }
  }

  lemma GuardIsSpelt(x: Bytes)
    requires IsGuardSpelling(x)
    ensures SpeltLikeGuard(x)
  {
    var cut := WithoutUnderscores(x);
    var tail := UnderscoresCut(x);
    var k :| 0 <= k < |GUARD_SUFFIXES| && EndsWith(UpperAll(cut), GUARD_SUFFIXES[k]);
    var stem, ending := EndingOf(cut, GUARD_SUFFIXES[k]);
    assert x == stem + ending + tail;
  }

  lemma EndingOf(name: Bytes, suffix: Bytes) returns (stem: Bytes, ending: Bytes)
    requires suffix in GUARD_SUFFIXES && EndsWith(UpperAll(name), suffix)
    ensures name == stem + ending && IsEnding(ending)
  {
    EndsWithIs(name, suffix);
    stem, ending := name[..|name| - |suffix|], name[|name| - |suffix|..];
    EndingIs(ending);
  }

  lemma SpeltIsGuard(x: Bytes)
    requires SpeltLikeGuard(x)
    ensures IsGuardSpelling(x)
  {
    var stem, ending, end :| x == stem + ending + end && IsEnding(ending) && Underscores(end);
    EndingIs(ending);
    UnderscoresAre(stem + ending, end);
    var k :| 0 <= k < |GUARD_SUFFIXES| && GUARD_SUFFIXES[k] == UpperAll(ending);
    assert (stem + ending)[|stem|..] == ending;
    EndsWithIs(stem + ending, GUARD_SUFFIXES[k]);
  }

  // The rest of a #define that defines x, as 1 or as nothing.
  ghost predicate Defines(rest: Bytes, x: Bytes, asOne: bool) {
    IsIdentifier(x) && SpeltLikeGuard(x) && IsSpelt(rest, if asOne then [x, "1"] else [x])
  }

  lemma DefinesIff(rest: Bytes, x: Bytes, asOne: bool)
    ensures DefinesGuard(rest, x) == Some(asOne) <==> Defines(rest, x, asOne)
  {
    var u := Uncommented(rest, 0);
    GuardSpellingIff(x);
    ValueIff(u, x);
    if IsIdentifier(x) {
      IdentifierIsToken(x);
      SpellsIff(rest, 0, "", [x]);
      assert IsSolidToken("1");
      SpellsIff(rest, 0, "", [x, "1"]);
    }
  }

  // A definition of x, trimmed: x and its value.
  ghost predicate ValueOf(def: Bytes, x: Bytes, value: Bytes) {
    SplitIdent(def).Some? && SplitIdent(def).value.0 == x && Trim(SplitIdent(def).value.1) == value
  }

  lemma ValueIff(u: Bytes, x: Bytes)
    ensures ValueOf(Trim(u), x, "") <==> IsIdentifier(x) && SpellsPlain(u, "", [x])
    ensures ValueOf(Trim(u), x, "1") <==> IsIdentifier(x) && SpellsPlain(u, "", [x, "1"])
  {
    var b0, b9 := TrimCuts(u);
    var def := Trim(u);
    if SplitIdent(def).Some? && SplitIdent(def).value.0 == x {
      var value := SplitIdent(def).value.1;
      SplitIdentIs(def, x, value);
      ValueSpells(u, b0, x, value, b9);
    }
    if IsIdentifier(x) && SpellsPlain(u, "", [x]) {
      NoValueIs(u, x);
    }
    if IsIdentifier(x) && SpellsPlain(u, "", [x, "1"]) {
      OneIs(u, x);
    }
  }

  lemma NoValueIs(u: Bytes, x: Bytes)
    requires IsIdentifier(x) && SpellsPlain(u, "", [x])
    ensures ValueOf(Trim(u), x, "")
  {
    var b, rest := NextToken(u, "", [x]);
    assert u == b + x + rest && x + "" == x;
    TrimIs(b, x, rest);
    SplitIdentIs(x, x, "");
  }

  lemma OneIs(u: Bytes, x: Bytes)
    requires IsIdentifier(x) && SpellsPlain(u, "", [x, "1"])
    ensures ValueOf(Trim(u), x, "1")
  {
    assert [x, "1"][1..] == ["1"] && ["1"][1..] == [];
    var b, t := NextToken(u, "", [x, "1"]);
    var b1, rest := NextToken(t, x, ["1"]);
    assert u == b + (x + (b1 + "1")) + rest;
    TrimIs(b, x + (b1 + "1"), rest);
    SplitIdentIs(Trim(u), x, b1 + "1");
    assert b1 + "1" + "" == b1 + "1";
    TrimIs(b1, "1", "");
  }

  lemma ValueSpells(u: Bytes, b0: Bytes, x: Bytes, value: Bytes, b9: Bytes)
    requires IsIdentifier(x) && AllBlank(b0) && AllBlank(b9) && u == b0 + (x + value) + b9
    requires value == "" || !IsIdentByte(value[0])
    ensures Trim(value) == "" ==> SpellsPlain(u, "", [x])
    ensures Trim(value) == "1" ==> SpellsPlain(u, "", [x, "1"])
  {
    var b1, b2 := TrimCuts(value);
    assert u == b0 + (x + (value + b9));
    assert [x][1..] == [] && [x, "1"][1..] == ["1"] && ["1"][1..] == [];
    if Trim(value) == "" {
      TokenStep(u, "", [x], b0, x, value + b9);
    }
    if Trim(value) == "1" {
      assert value == b1 + "1" + b2;
      assert value + b9 == b1 + ("1" + (b2 + b9));
      TokenStep(value + b9, x, ["1"], b1, "1", b2 + b9);
      TokenStep(u, "", [x, "1"], b0, x, value + b9);
    }
  }
}
