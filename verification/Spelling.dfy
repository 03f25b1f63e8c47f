// preproc_fallback.rs: text given by its tokens, with any blanks and comments between them.
module Spelling {
  import opened Options
  import opened PreprocText
  import opened Lexer
  import opened DirectiveText

  ghost predicate AllBlank(text: Bytes) {
    forall i :: 0 <= i < |text| ==> IsSpace(text[i])
  }

  // A comment from i to e: to its line end, or past the first close after its opener, or,
  // when it is not closed, to the end of the text.
  ghost predicate IsComment(text: Bytes, i: nat, e: nat) {
    && i + 2 <= e <= |text| && text[i] == '/'
    && (|| (text[i + 1] == '/' && (forall k :: i <= k < e ==> text[k] != '\n') && (e == |text| || text[e] == '\n'))
        || (text[i + 1] == '*' && i + 4 <= e && ClosesAt(text, e - 2) &&
            forall k: nat :: i + 2 <= k < e - 2 ==> !ClosesAt(text, k))
        || (text[i + 1] == '*' && e == |text| && forall k: nat :: i + 2 <= k ==> !ClosesAt(text, k)))
  }

  predicate ClosesAt(text: Bytes, k: nat) {
    k + 1 < |text| && text[k] == '*' && text[k + 1] == '/'
  }

  // Blanks and comments from i to j.
  ghost predicate IsGap(text: Bytes, i: nat, j: nat)
    decreases |text| - i
  {
    || i == j <= |text|
    || (i < j <= |text| && IsSpace(text[i]) && IsGap(text, i + 1, j))
    || exists e :: i < e <= j && IsComment(text, i, e) && IsGap(text, e, j)
  }

  predicate TokenAt(text: Bytes, i: nat, token: Bytes) {
    i + |token| <= |text| && text[i..i + |token|] == token
  }

  // Two identifiers would run together.
  predicate RunsOn(before: Bytes, token: Bytes) {
    before != "" && token != "" && IsIdentByte(before[|before| - 1]) && IsIdentByte(token[0])
  }

  // From i on the text is these tokens, with gaps before, between and after them.
  ghost predicate Spells(text: Bytes, i: nat, before: Bytes, tokens: seq<Bytes>)
    decreases |tokens|
  {
    if tokens == [] then IsGap(text, i, |text|)
    else
      exists j :: && i <= j && IsGap(text, i, j) && TokenAt(text, j, tokens[0])
                  && (RunsOn(before, tokens[0]) ==> i < j)
                  && Spells(text, j + |tokens[0]|, tokens[0], tokens[1..])
  }

  ghost predicate IsSpelt(text: Bytes, tokens: seq<Bytes>) {
    Spells(text, 0, "", tokens)
  }

  // The same of text without comments.
  ghost predicate SpellsPlain(text: Bytes, before: Bytes, tokens: seq<Bytes>)
    decreases |tokens|
  {
    if tokens == [] then AllBlank(text)
    else exists b, rest :: PlainStep(text, before, tokens, b, rest) && SpellsPlain(rest, tokens[0], tokens[1..])
  }

  ghost predicate PlainStep(text: Bytes, before: Bytes, tokens: seq<Bytes>, b: Bytes, rest: Bytes)
    requires tokens != []
  {
    AllBlank(b) && text == b + tokens[0] + rest && (RunsOn(before, tokens[0]) ==> b != "")
  }

  // A token without blanks that starts no comment.
  predicate IsSolidToken(token: Bytes) {
    token != "" && forall i :: 0 <= i < |token| ==> !IsSpace(token[i]) && token[i] != '/'
  }

  ghost predicate AreTokens(tokens: seq<Bytes>) {
    forall i :: 0 <= i < |tokens| ==> IsSolidToken(tokens[i])
  }

  // CommentEnd finds the end of the comment.
  lemma CloseFound(text: Bytes, i: nat)
    requires i + 2 <= |text|
    ensures
      match FindIn(text, "*/", i + 2, |text|)
      case None => forall k: nat :: i + 2 <= k ==> !ClosesAt(text, k)
      case Some(p) => ClosesAt(text, p) && forall k: nat :: i + 2 <= k < p ==> !ClosesAt(text, k)
  {
    forall k: nat ensures ClosesAt(text, k) <==> OccursAt(text, "*/", k) {
      CloseIsOccurrence(text, k);
    }
  }

  lemma CloseIsOccurrence(text: Bytes, k: nat)
    ensures ClosesAt(text, k) <==> OccursAt(text, "*/", k)
  {
    var close := "*/";
    assert close[1..] == "/" && close[1..][1..] == "";
    assert OccursAt(text, close[1..], k + 1) <==> k + 1 < |text| && text[k + 1] == '/';
  }

  lemma CommentIs(text: Bytes, i: nat, e: nat)
    ensures IsComment(text, i, e) <==> CommentAt(text, i) && e == CommentEnd(text, i)
  {
    if CommentAt(text, i) {
      if text[i + 1] == '*' {
        CloseFound(text, i);
      }
    }
  }

  lemma SolidLeaves(text: Bytes, i: nat)
    requires i < |text| && !CommentAt(text, i)
    ensures Uncommented(text, i) == [text[i]] + Uncommented(text, i + 1)
  {
  }

  lemma CommentLeaves(text: Bytes, i: nat)
    requires CommentAt(text, i)
    ensures Uncommented(text, i) == (if text[i + 1] == '*' then " " else "") + Uncommented(text, CommentEnd(text, i))
  {
  }

  lemma Regroup(whole: Bytes, a: Bytes, rest: Bytes, b: Bytes, c: Bytes)
    requires whole == a + rest && rest == b + c
    ensures whole == (a + b) + c
  {
  }

  // What a gap leaves of itself: blanks, and some if it stands before a token.
  lemma {:induction false} GapLeaves(text: Bytes, i: nat, j: nat) returns (b: Bytes)
    requires i <= j && IsGap(text, i, j)
    ensures j <= |text| && AllBlank(b) && Uncommented(text, i) == b + Uncommented(text, j)
    ensures i < j < |text| && !IsSpace(text[j]) ==> b != ""
    decreases |text| - i
  {
    if i == j {
      b := "";
    } else if IsSpace(text[i]) && IsGap(text, i + 1, j) {
      var rest := GapLeaves(text, i + 1, j);
      SolidLeaves(text, i);
      Regroup(Uncommented(text, i), [text[i]], Uncommented(text, i + 1), rest, Uncommented(text, j));
      b := [text[i]] + rest;
    } else {
      b := CommentGapLeaves(text, i, j);
    }
  }

  lemma {:induction false} CommentGapLeaves(text: Bytes, i: nat, j: nat) returns (b: Bytes)
    requires i < j && exists e :: i < e <= j && IsComment(text, i, e) && IsGap(text, e, j)
    ensures j <= |text| && AllBlank(b) && Uncommented(text, i) == b + Uncommented(text, j)
    ensures j < |text| && !IsSpace(text[j]) ==> b != ""
    decreases |text| - i, 0
  {
    var e: nat :| i < e <= j && IsComment(text, i, e) && IsGap(text, e, j);
    CommentIs(text, i, e);
    var rest := GapLeaves(text, e, j);
    CommentLeaves(text, i);
    var here := if text[i + 1] == '*' then " " else "";
    Regroup(Uncommented(text, i), here, Uncommented(text, e), rest, Uncommented(text, j));
    b := here + rest;
  }

  lemma {:induction false} TokenLeaves(text: Bytes, i: nat, token: Bytes)
    requires TokenAt(text, i, token) && forall k :: 0 <= k < |token| ==> token[k] != '/'
    ensures Uncommented(text, i) == token + Uncommented(text, i + |token|)
    decreases |token|
  {
    if token != "" {
      TokenTail(text, i, token);
      TokenLeaves(text, i + 1, token[1..]);
      SolidLeaves(text, i);
      Regroup(Uncommented(text, i), [text[i]], Uncommented(text, i + 1), token[1..], Uncommented(text, i + |token|));
      assert [text[i]] + token[1..] == token;
    }
  }

  lemma TokenTail(text: Bytes, i: nat, token: Bytes)
    requires token != ""
    ensures TokenAt(text, i, token) <==> i < |text| && text[i] == token[0] && TokenAt(text, i + 1, token[1..])
  {
    if i + |token| <= |text| {
      assert text[i..i + |token|] == [text[i]] + text[i + 1..i + |token|];
      assert token == [token[0]] + token[1..];
    }
  }

  // A gap as long as possible, before what is left of the text.
  lemma {:induction false} GapBefore(text: Bytes, i: nat, b: Bytes, rest: Bytes) returns (j: nat)
    requires i <= |text| && Uncommented(text, i) == b + rest && AllBlank(b) && (rest == "" || !IsSpace(rest[0]))
    ensures i <= j <= |text| && IsGap(text, i, j) && Uncommented(text, j) == rest
    ensures rest == "" ==> j == |text|
    ensures rest != "" ==> j < |text| && text[j] == rest[0] && !CommentAt(text, j)
    ensures b != "" ==> i < j
    decreases |text| - i
  {
    if i == |text| {
      j := i;
    } else if CommentAt(text, i) {
      var e := CommentEnd(text, i);
      CommentIs(text, i, e);
      var b' := BlanksPastComment(text, i, b, rest);
      j := GapBefore(text, e, b', rest);
      assert IsComment(text, i, e) && IsGap(text, e, j);
    } else {
      SolidLeaves(text, i);
      BlanksPast(Uncommented(text, i), [text[i]], Uncommented(text, i + 1), b, rest);
      if b == "" {
        j := i;
      } else {
        j := GapBefore(text, i + 1, b[1..], rest);
      }
    }
  }

  lemma BlanksPast(u: Bytes, first: Bytes, after: Bytes, b: Bytes, rest: Bytes)
    requires u == first + after == b + rest && |first| == 1
    ensures if b == "" then u == rest && rest != "" && rest[0] == first[0]
            else b[0] == first[0] && after == b[1..] + rest
  {
    assert u[0] == first[0] && u[1..] == after;
    assert b != "" ==> u[0] == b[0] && u[1..] == b[1..] + rest;
  }

  lemma BlanksPastComment(text: Bytes, i: nat, b: Bytes, rest: Bytes) returns (b': Bytes)
    requires CommentAt(text, i) && Uncommented(text, i) == b + rest
    requires AllBlank(b) && (rest == "" || !IsSpace(rest[0]))
    ensures AllBlank(b') && Uncommented(text, CommentEnd(text, i)) == b' + rest
  {
    CommentLeaves(text, i);
    var u, after := Uncommented(text, i), Uncommented(text, CommentEnd(text, i));
    if text[i + 1] == '*' {
      BlanksPast(u, " ", after, b, rest);
      b' := b[1..];
    } else {
      assert u == after;
      b' := b;
    }
  }

  lemma {:induction false} TokenBefore(text: Bytes, i: nat, token: Bytes, rest: Bytes)
    requires i <= |text| && Uncommented(text, i) == token + rest && IsSolidToken(token) && !CommentAt(text, i)
    ensures TokenAt(text, i, token) && Uncommented(text, i + |token|) == rest
    decreases |token|
  {
    assert i < |text|;
    SolidLeaves(text, i);
    var u := Uncommented(text, i);
    assert u[0] == text[i] == token[0] && u[1..] == Uncommented(text, i + 1) == token[1..] + rest;
    if |token| > 1 {
      NoCommentBefore(text, i + 1, token[1..] + rest);
      TokenBefore(text, i + 1, token[1..], rest);
    } else {
      assert token[1..] + rest == rest;
    }
    TokenTail(text, i, token);
  }

  // What starts with neither a blank nor a '/' starts with no comment either.
  lemma NoCommentBefore(text: Bytes, i: nat, u: Bytes)
    requires i <= |text| && Uncommented(text, i) == u && u != "" && !IsSpace(u[0])
    ensures !CommentAt(text, i)
  {
    if CommentAt(text, i) {
      UncommentedHasNone(text, i);
    }
  }

  // Tokens with gaps are, without the comments, tokens with blanks.
  lemma {:induction false} SpellsIff(text: Bytes, i: nat, before: Bytes, tokens: seq<Bytes>)
    requires i <= |text| && AreTokens(tokens)
    ensures Spells(text, i, before, tokens) <==> SpellsPlain(Uncommented(text, i), before, tokens)
    decreases |tokens|
  {
    if tokens == [] {
      LastGapIff(text, i);
    } else {
      if Spells(text, i, before, tokens) {
        SpellsThenPlain(text, i, before, tokens);
      }
      if SpellsPlain(Uncommented(text, i), before, tokens) {
        PlainThenSpells(text, i, before, tokens);
      }
    }
  }

  lemma LastGapIff(text: Bytes, i: nat)
    requires i <= |text|
    ensures IsGap(text, i, |text|) <==> AllBlank(Uncommented(text, i))
  {
    if IsGap(text, i, |text|) {
      var b := GapLeaves(text, i, |text|);
      assert Uncommented(text, i) == b;
    }
    if AllBlank(Uncommented(text, i)) {
      var u := Uncommented(text, i);
      assert u == u + "";
      var j := GapBefore(text, i, u, "");
    }
  }

  lemma {:induction false} SpellsThenPlain(text: Bytes, i: nat, before: Bytes, tokens: seq<Bytes>)
    requires i <= |text| && AreTokens(tokens) && tokens != [] && Spells(text, i, before, tokens)
    ensures SpellsPlain(Uncommented(text, i), before, tokens)
    decreases |tokens|, 0
  {
    var token := tokens[0];
    var j :| && i <= j && IsGap(text, i, j) && TokenAt(text, j, token) && (RunsOn(before, token) ==> i < j)
             && Spells(text, j + |token|, token, tokens[1..]);
    SpellsIff(text, j + |token|, token, tokens[1..]);
    var b := StepLeaves(text, i, j, before, tokens);
  }

  lemma StepLeaves(text: Bytes, i: nat, j: nat, before: Bytes, tokens: seq<Bytes>) returns (b: Bytes)
    requires tokens != [] && IsSolidToken(tokens[0]) && i <= j && IsGap(text, i, j) && TokenAt(text, j, tokens[0])
    requires RunsOn(before, tokens[0]) ==> i < j
    ensures PlainStep(Uncommented(text, i), before, tokens, b, Uncommented(text, j + |tokens[0]|))
  {
    var token := tokens[0];
    b := GapLeaves(text, i, j);
    TokenTail(text, j, token);
    TokenLeaves(text, j, token);
    Regroup(Uncommented(text, i), b, Uncommented(text, j), token, Uncommented(text, j + |token|));
  }

  lemma {:induction false} PlainThenSpells(text: Bytes, i: nat, before: Bytes, tokens: seq<Bytes>)
    requires i <= |text| && AreTokens(tokens) && tokens != [] && SpellsPlain(Uncommented(text, i), before, tokens)
    ensures Spells(text, i, before, tokens)
    decreases |tokens|, 0
  {
    var token := tokens[0];
    var b, rest :| PlainStep(Uncommented(text, i), before, tokens, b, rest) && SpellsPlain(rest, token, tokens[1..]);
    var j := StepBefore(text, i, before, tokens, b, rest);
    SpellsIff(text, j + |token|, token, tokens[1..]);
  }

  lemma StepBefore(text: Bytes, i: nat, before: Bytes, tokens: seq<Bytes>, b: Bytes, rest: Bytes) returns (j: nat)
    requires i <= |text| && tokens != [] && IsSolidToken(tokens[0])
    requires PlainStep(Uncommented(text, i), before, tokens, b, rest)
    ensures i <= j && IsGap(text, i, j) && TokenAt(text, j, tokens[0]) && (RunsOn(before, tokens[0]) ==> i < j)
    ensures Uncommented(text, j + |tokens[0]|) == rest
  {
    var token := tokens[0];
    assert b + token + rest == b + (token + rest);
    j := GapBefore(text, i, b, token + rest);
    TokenBefore(text, j, token, rest);
  }

  // A text trimmed: the blanks at either end gone, and nothing else.
  lemma {:induction false} TrimStartCuts(text: Bytes) returns (b: Bytes)
    ensures AllBlank(b) && text == b + TrimStart(text) && (TrimStart(text) != "" ==> !IsSpace(TrimStart(text)[0]))
  {
    if text != "" && IsSpace(text[0]) {
      var rest := TrimStartCuts(text[1..]);
      b := [text[0]] + rest;
      assert text == [text[0]] + text[1..];
      assert TrimStart(text) == TrimStart(text[1..]);
    } else {
      b := "";
    }
  }

  lemma {:induction false} TrimEndCuts(text: Bytes) returns (b: Bytes)
    ensures AllBlank(b) && text == TrimEnd(text) + b
    ensures TrimEnd(text) != "" ==> !IsSpace(TrimEnd(text)[|TrimEnd(text)| - 1]) && TrimEnd(text)[0] == text[0]
  {
    if text != "" && IsSpace(text[|text| - 1]) {
      b := TrimEndCuts(text[..|text| - 1]);
      b := b + [text[|text| - 1]];
    } else {
      b := "";
    }
  }

  lemma TrimCuts(text: Bytes) returns (b: Bytes, c: Bytes)
    ensures AllBlank(b) && AllBlank(c) && text == b + Trim(text) + c
    ensures Trim(text) != "" ==> !IsSpace(Trim(text)[0]) && !IsSpace(Trim(text)[|Trim(text)| - 1])
  {
    b := TrimStartCuts(text);
    c := TrimEndCuts(TrimStart(text));
    assert text == b + (Trim(text) + c);
  }

  lemma {:induction false} TrimStartIs(b: Bytes, text: Bytes)
    requires AllBlank(b) && (text != "" ==> !IsSpace(text[0]))
    ensures TrimStart(b + text) == text
  {
    if b != "" {
      assert (b + text)[1..] == b[1..] + text;
      TrimStartIs(b[1..], text);
    } else {
      assert b + text == text;
    }
  }

  lemma {:induction false} TrimEndIs(text: Bytes, c: Bytes)
    requires AllBlank(c) && (text != "" ==> !IsSpace(text[|text| - 1]))
    ensures TrimEnd(text + c) == text
  {
    if c != "" {
      assert (text + c)[..|text + c| - 1] == text + c[..|c| - 1];
      TrimEndIs(text, c[..|c| - 1]);
    } else {
      assert text + c == text;
    }
  }

  lemma TrimIs(b: Bytes, text: Bytes, c: Bytes)
    requires AllBlank(b) && AllBlank(c) && text != "" && !IsSpace(text[0]) && !IsSpace(text[|text| - 1])
    ensures Trim(b + text + c) == text
  {
    assert b + text + c == b + (text + c);
    TrimStartIs(b, text + c);
    TrimEndIs(text, c);
  }

  // An identifier.
  ghost predicate IsIdentifier(x: Bytes) {
    x != "" && !IsDigit(x[0]) && forall i :: 0 <= i < |x| ==> IsIdentByte(x[i])
  }

  lemma IdentifierIsToken(x: Bytes)
    requires IsIdentifier(x)
    ensures IsSolidToken(x)
  {
  }

  lemma {:induction false} IdentLenIs(x: Bytes, rest: Bytes)
    requires (forall i :: 0 <= i < |x| ==> IsIdentByte(x[i])) && (rest == "" || !IsIdentByte(rest[0]))
    ensures IdentLen(x + rest) == |x|
  {
    if x != "" {
      assert (x + rest)[1..] == x[1..] + rest;
      IdentLenIs(x[1..], rest);
    } else {
      assert x + rest == rest;
    }
  }

  lemma {:induction false} IdentLenBytes(text: Bytes)
    ensures forall i :: 0 <= i < IdentLen(text) ==> IsIdentByte(text[i])
    ensures IdentLen(text) < |text| ==> !IsIdentByte(text[IdentLen(text)])
  {
    if text != "" && IsIdentByte(text[0]) {
      IdentLenBytes(text[1..]);
    }
  }

  // The identifier a text starts with.
  lemma SplitIdentIs(text: Bytes, x: Bytes, rest: Bytes)
    ensures SplitIdent(text) == Some((x, rest)) <==>
              IsIdentifier(x) && text == x + rest && (rest == "" || !IsIdentByte(rest[0]))
  {
    IdentLenBytes(text);
    if IsIdentifier(x) && text == x + rest && (rest == "" || !IsIdentByte(rest[0])) {
      IdentLenIs(x, rest);
    }
    if SplitIdent(text) == Some((x, rest)) {
      assert text == text[..IdentLen(text)] + text[IdentLen(text)..];
    }
  }
}
