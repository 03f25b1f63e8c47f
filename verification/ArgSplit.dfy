// crates/ecp-analyzer/src/route_detector.rs: the argument splitter of spring_path_args,
// against a printer of argument lists.
module ArgSplit {
  import opened Options

  predicate IsOpen(c: char) {
    c in {'(', '[', '{'}
  }

  predicate IsClose(c: char) {
    c in {')', ']', '}'}
  }

  predicate IsQuote(c: char) {
    c in {'"', '\''}
  }

  // The next state in a literal that `q` opened: the quote still open, if any, and
  // whether the next character is escaped.
  function InQuote(q: char, escaped: bool, c: char): (Option<char>, bool) {
    if escaped then (Some(q), false)
    else if c == '\\' then (Some(q), true)
    else if c == q then (None, false)
    else (Some(q), false)
  }

  // The parts from character i on; the current one began at `start`.
  function PartsFrom(text: string, i: nat, depth: nat, quote: Option<char>, escaped: bool, start: nat): seq<string>
    requires start <= i <= |text|
    decreases |text| - i
  {
    if i == |text| then if start < |text| then [text[start..]] else []
    else
      var c := text[i];
      if quote.Some? then
        var (quote', escaped') := InQuote(quote.value, escaped, c);
        PartsFrom(text, i + 1, depth, quote', escaped', start)
      else if IsQuote(c) then PartsFrom(text, i + 1, depth, Some(c), escaped, start)
      else if IsOpen(c) then PartsFrom(text, i + 1, depth + 1, None, escaped, start)
      else if IsClose(c) && depth == 0 then [text[start..i]]
      else if IsClose(c) then PartsFrom(text, i + 1, depth - 1, None, escaped, start)
      else if c == ',' && depth == 0 then [text[start..i]] + PartsFrom(text, i + 1, depth, None, escaped, i + 1)
      else PartsFrom(text, i + 1, depth, None, escaped, start)
  }

  function Parts(text: string): seq<string> {
    PartsFrom(text, 0, 0, None, false, 0)
  }

  // The loop of spring_path_args over the text after the first '('.
  method SplitArgs(text: string) returns (parts: seq<string>)
    ensures parts == Parts(text)
  {
    parts := [];
    var depth: nat, start, i := 0, 0, 0;
    var quote: Option<char>, escaped := None, false;
    while i < |text|
      invariant start <= i <= |text|
      invariant parts + PartsFrom(text, i, depth, quote, escaped, start) == Parts(text)
      decreases |text| - i
    {
      var c := text[i];
      if quote.Some? {
        if escaped {
          escaped := false;
        } else if c == '\\' {
          escaped := true;
        } else if c == quote.value {
          quote := None;
        }
      } else if IsQuote(c) {
        quote := Some(c);
      } else if IsOpen(c) {
        depth := depth + 1;
      } else if IsClose(c) && depth == 0 {
        parts := parts + [text[start..i]];
        start := |text|;
        break;
      } else if IsClose(c) {
        depth := depth - 1;
      } else if c == ',' && depth == 0 {
        ghost var rest := PartsFrom(text, i + 1, depth, None, escaped, i + 1);
        assert parts + ([text[start..i]] + rest) == (parts + [text[start..i]]) + rest;
        parts := parts + [text[start..i]];
        start := i + 1;
      }
      i := i + 1;
    }
    if start < |text| {
      parts := parts + [text[start..]];
    }
  }

  datatype QuotedChar = Bare(c: char) | Escaped(c: char)

  // An argument, piece by piece: characters, closed literals and balanced groups.
  datatype Piece =
    | Plain(c: char)
    | Quoted(quote: char, body: seq<QuotedChar>)
    | Group(open: char, inner: seq<Piece>, close: char)

  // A comma is a plain character inside a group only.
  predicate IsPiece(piece: Piece, inGroup: bool) {
    match piece
    case Plain(c) => !IsQuote(c) && !IsOpen(c) && !IsClose(c) && (c == ',' ==> inGroup)
    case Quoted(quote, body) =>
      IsQuote(quote) && forall k :: 0 <= k < |body| && body[k].Bare? ==> body[k].c != quote && body[k].c != '\\'
    case Group(open, inner, close) => IsOpen(open) && IsClose(close) && ArePieces(inner, true)
  }

  predicate ArePieces(pieces: seq<Piece>, inGroup: bool) {
    forall k :: 0 <= k < |pieces| ==> IsPiece(pieces[k], inGroup)
  }

  function BodyText(body: seq<QuotedChar>): string {
    if body == [] then ""
    else (if body[0].Bare? then [body[0].c] else ['\\', body[0].c]) + BodyText(body[1..])
  }

  function PieceText(piece: Piece): string {
    match piece
    case Plain(c) => [c]
    case Quoted(quote, body) => [quote] + BodyText(body) + [quote]
    case Group(open, inner, close) => [open] + Text(inner) + [close]
  }

  function Text(pieces: seq<Piece>): string {
    if pieces == [] then "" else PieceText(pieces[0]) + Text(pieces[1..])
  }

  type Argument = seq<Piece>

  function Joined(parts: seq<string>): string {
    if parts == [] then ""
    else if |parts| == 1 then parts[0]
    else parts[0] + "," + Joined(parts[1..])
  }

  function Texts(args: seq<Argument>): seq<string> {
    seq(|args|, k requires 0 <= k < |args| => Text(args[k]))
  }

  ghost predicate HasAt(text: string, i: nat, s: string) {
    i + |s| <= |text| && text[i..i + |s|] == s
  }

  lemma HasParts(text: string, i: nat, a: string, b: string)
    requires HasAt(text, i, a + b)
    ensures HasAt(text, i, a) && HasAt(text, i + |a|, b)
  {
    var both := text[i..i + |a + b|];
    assert text[i..i + |a|] == both[..|a|];
    assert text[i + |a|..i + |a| + |b|] == both[|a|..];
  }

  lemma HasFirst(text: string, i: nat, s: string)
    requires HasAt(text, i, s) && s != ""
    ensures text[i] == s[0]
  {
    assert text[i] == text[i..i + |s|][0];
  }

  // A closed literal leaves the splitter where it was.
  lemma {:induction false} PastBody(text: string, i: nat, depth: nat, quote: char, body: seq<QuotedChar>, start: nat)
    requires start <= i && HasAt(text, i, BodyText(body) + [quote]) && IsPiece(Quoted(quote, body), true)
    ensures
      var next := i + |BodyText(body)| + 1;
      next <= |text| &&
      PartsFrom(text, i, depth, Some(quote), false, start) == PartsFrom(text, next, depth, None, false, start)
    decreases body
  {
    if body == [] {
      HasFirst(text, i, [quote]);
      assert BodyText(body) + [quote] == [quote];
    } else {
      var first := if body[0].Bare? then [body[0].c] else ['\\', body[0].c];
      assert BodyText(body) + [quote] == first + (BodyText(body[1..]) + [quote]);
      HasParts(text, i, first, BodyText(body[1..]) + [quote]);
      PastOne(text, i, depth, quote, body[0], first, start);
      PastBody(text, i + |first|, depth, quote, body[1..], start);
    }
  }

  // One character of a literal, escaped or not.
  lemma PastOne(text: string, i: nat, depth: nat, quote: char, b: QuotedChar, first: string, start: nat)
    requires start <= i && (b.Bare? ==> b.c != quote && b.c != '\\')
    requires first == (if b.Bare? then [b.c] else ['\\', b.c]) && HasAt(text, i, first)
    ensures i + |first| <= |text|
    ensures PartsFrom(text, i, depth, Some(quote), false, start) ==
              PartsFrom(text, i + |first|, depth, Some(quote), false, start)
  {
    HasFirst(text, i, first);
  }

  lemma GroupText(text: string, i: nat, group: Piece)
    requires group.Group? && HasAt(text, i, PieceText(group))
    ensures
      var end := i + 1 + |Text(group.inner)|;
      && |PieceText(group)| == |Text(group.inner)| + 2
      && end < |text| && text[i] == group.open && HasAt(text, i + 1, Text(group.inner)) && text[end] == group.close
  {
    var rest := Text(group.inner) + [group.close];
    assert PieceText(group) == [group.open] + rest;
    HasParts(text, i, [group.open], rest);
    HasFirst(text, i, [group.open]);
    HasParts(text, i + 1, Text(group.inner), [group.close]);
    HasFirst(text, i + 1 + |Text(group.inner)|, [group.close]);
  }

  // So does every piece, ...
  lemma {:induction false} PastPiece(text: string, i: nat, depth: nat, piece: Piece, start: nat)
    requires start <= i && HasAt(text, i, PieceText(piece)) && IsPiece(piece, depth > 0)
    ensures
      PartsFrom(text, i, depth, None, false, start) ==
      PartsFrom(text, i + |PieceText(piece)|, depth, None, false, start)
    decreases piece, 0
  {
    HasFirst(text, i, PieceText(piece));
    match piece
    case Plain(c) =>
    case Quoted(quote, body) =>
      assert PieceText(piece) == [quote] + (BodyText(body) + [quote]);
      HasParts(text, i, [quote], BodyText(body) + [quote]);
      PastBody(text, i + 1, depth, quote, body, start);
    case Group(open, inner, close) =>
      GroupText(text, i, piece);
      PastPieces(text, i + 1, depth + 1, inner, start);
  }

  // ... and every argument.
  lemma {:induction false} PastPieces(text: string, i: nat, depth: nat, pieces: seq<Piece>, start: nat)
    requires start <= i && HasAt(text, i, Text(pieces)) && ArePieces(pieces, depth > 0)
    ensures
      PartsFrom(text, i, depth, None, false, start) == PartsFrom(text, i + |Text(pieces)|, depth, None, false, start)
    decreases pieces, 1
  {
    if pieces != [] {
      HasParts(text, i, PieceText(pieces[0]), Text(pieces[1..]));
      PastPiece(text, i, depth, pieces[0], start);
      PastPieces(text, i + |PieceText(pieces[0])|, depth, pieces[1..], start);
    }
  }

  // What stands after the first of the arguments.
  function AfterFirst(args: seq<Argument>): string
    requires args != []
  {
    if |args| == 1 then ")" else "," + (Joined(Texts(args[1..])) + ")")
  }

  lemma FirstArgument(args: seq<Argument>)
    requires args != []
    ensures Joined(Texts(args)) + ")" == Text(args[0]) + AfterFirst(args)
    ensures Texts(args) == [Text(args[0])] + Texts(args[1..])
  {
    assert Texts(args)[1..] == Texts(args[1..]);
  }

  // A comma outside brackets ends the part, and so does the closing bracket.
  lemma PartEnds(text: string, end: nat, start: nat)
    requires start <= end < |text|
    ensures text[end] == ')' ==> PartsFrom(text, end, 0, None, false, start) == [text[start..end]]
    ensures text[end] == ',' ==>
              PartsFrom(text, end, 0, None, false, start) ==
              [text[start..end]] + PartsFrom(text, end + 1, 0, None, false, end + 1)
  {
  }

  lemma {:induction false} SplitsFrom(text: string, i: nat, args: seq<Argument>)
    requires args != [] && forall k :: 0 <= k < |args| ==> ArePieces(args[k], false)
    requires HasAt(text, i, Joined(Texts(args)) + ")")
    ensures PartsFrom(text, i, 0, None, false, i) == Texts(args)
    decreases args
  {
    FirstSplits(text, i, args);
    FirstArgument(args);
    if |args| > 1 {
      SplitsFrom(text, i + |Text(args[0])| + 1, args[1..]);
    } else {
      assert Texts(args[1..]) == [];
    }
  }

  lemma FirstSplits(text: string, i: nat, args: seq<Argument>)
    requires args != [] && ArePieces(args[0], false) && HasAt(text, i, Joined(Texts(args)) + ")")
    ensures
      var next := i + |Text(args[0])| + 1;
      && next <= |text|
      && (|args| > 1 ==> HasAt(text, next, Joined(Texts(args[1..])) + ")"))
      && PartsFrom(text, i, 0, None, false, i) ==
         [Text(args[0])] + if |args| == 1 then [] else PartsFrom(text, next, 0, None, false, next)
  {
    var end := i + |Text(args[0])|;
    FirstArgument(args);
    HasParts(text, i, Text(args[0]), AfterFirst(args));
    HasFirst(text, end, AfterFirst(args));
    PastPieces(text, i, 0, args[0], i);
    PartEnds(text, end, i);
    if |args| > 1 {
      HasParts(text, end, ",", Joined(Texts(args[1..])) + ")");
    }
  }

  // A list of arguments, joined by commas, closed, and followed by anything, splits into
  // those arguments again, except the empty list.
  lemma SplitUndoesJoin(args: seq<Argument>, after: string)
    requires forall k :: 0 <= k < |args| ==> ArePieces(args[k], false)
    ensures Parts(Joined(Texts(args)) + ")" + after) == Texts(args) <==> args != []
  {
    var text := Joined(Texts(args)) + ")" + after;
    if args == [] {
      assert text[0] == ')';
      assert Parts(text) == [""];
    } else {
      assert HasAt(text, 0, Joined(Texts(args)) + ")");
      SplitsFrom(text, 0, args);
    }
  }

  lemma JoinedOneMore(text: string, start: nat, i: nat, rest: seq<string>)
    requires start <= i < |text| && text[i] == ','
    requires i + 1 + |Joined(rest)| <= |text| && Joined(rest) == text[i + 1..i + 1 + |Joined(rest)|]
    ensures
      var joined := Joined([text[start..i]] + rest);
      start + |joined| <= |text| && joined == text[start..start + |joined|]
  {
    assert ([text[start..i]] + rest)[1..] == rest;
    if rest != [] {
      var end := i + 1 + |Joined(rest)|;
      assert text[start..i] + "," + text[i + 1..end] == text[start..end];
    }
  }

  // A ',' or a closing bracket outside literals and groups ends a part; any other
  // character only moves the splitter on.
  predicate EndsPart(c: char, depth: nat, quote: Option<char>) {
    quote.None? && depth == 0 && (IsClose(c) || c == ',')
  }

  function StateAfter(c: char, depth: nat, quote: Option<char>, escaped: bool): (nat, Option<char>, bool)
    requires !EndsPart(c, depth, quote)
  {
    if quote.Some? then
      var (quote', escaped') := InQuote(quote.value, escaped, c);
      (depth, quote', escaped')
    else if IsQuote(c) then (depth, Some(c), escaped)
    else if IsOpen(c) then (depth + 1, None, escaped)
    else if IsClose(c) then (depth - 1, None, escaped)
    else (depth, None, escaped)
  }

  lemma MovesOn(text: string, i: nat, depth: nat, quote: Option<char>, escaped: bool, start: nat)
    requires start <= i < |text| && !EndsPart(text[i], depth, quote)
    ensures
      var (depth', quote', escaped') := StateAfter(text[i], depth, quote, escaped);
      PartsFrom(text, i, depth, quote, escaped, start) == PartsFrom(text, i + 1, depth', quote', escaped', start)
  {
  }

  lemma Ends(text: string, i: nat, escaped: bool, start: nat)
    requires start <= i < |text| && EndsPart(text[i], 0, None)
    ensures
      PartsFrom(text, i, 0, None, escaped, start) ==
      [text[start..i]] + if text[i] == ',' then PartsFrom(text, i + 1, 0, None, escaped, i + 1) else []
  {
  }

  // Whatever the text, the parts joined again are the text up to where it ends.
  lemma {:induction false} JoinedIsPrefix(
      text: string, i: nat, depth: nat, quote: Option<char>, escaped: bool, start: nat)
    requires start <= i <= |text|
    ensures
      var joined := Joined(PartsFrom(text, i, depth, quote, escaped, start));
      start + |joined| <= |text| && joined == text[start..start + |joined|]
    decreases |text| - i
  {
    if i < |text| && EndsPart(text[i], depth, quote) {
      Ends(text, i, escaped, start);
      if text[i] == ',' {
        JoinedIsPrefix(text, i + 1, 0, None, escaped, i + 1);
        JoinedOneMore(text, start, i, PartsFrom(text, i + 1, 0, None, escaped, i + 1));
      }
    } else if i < |text| {
      MovesOn(text, i, depth, quote, escaped, start);
      var (depth', quote', escaped') := StateAfter(text[i], depth, quote, escaped);
      JoinedIsPrefix(text, i + 1, depth', quote', escaped', start);
    }
  }

  // A part that ends before the text does: closed after it, the rest of it read alone is
  // one part, the same.
  lemma {:induction false} FirstAlone(
      text: string, i: nat, depth: nat, quote: Option<char>, escaped: bool, start: nat)
    requires start <= i <= |text| && (quote.None? ==> !escaped)
    ensures
      var parts := PartsFrom(text, i, depth, quote, escaped, start);
      parts != [] ==>
        && i <= start + |parts[0]| <= |text| && (|parts| > 1 ==> start + |parts[0]| < |text|)
        && (start + |parts[0]| < |text| ==>
              PartsFrom(parts[0] + ")", i - start, depth, quote, escaped, 0) == [parts[0]])
    decreases |text| - i
  {
    if i < |text| {
      var parts := PartsFrom(text, i, depth, quote, escaped, start);
      if EndsPart(text[i], depth, quote) {
        Ends(text, i, escaped, start);
        Ends(parts[0] + ")", i - start, escaped, 0);
      } else {
        MovesOn(text, i, depth, quote, escaped, start);
        var (depth', quote', escaped') := StateAfter(text[i], depth, quote, escaped);
        FirstAlone(text, i + 1, depth', quote', escaped', start);
        if parts != [] && start + |parts[0]| < |text| {
          JoinedIsPrefix(text, i, depth, quote, escaped, start);
          FirstIsText(parts, text, start);
          MovesOn(parts[0] + ")", i - start, depth, quote, escaped, 0);
        }
      }
    }
  }

  lemma FirstIsText(parts: seq<string>, text: string, start: nat)
    requires parts != [] && start + |Joined(parts)| <= |text| && Joined(parts) == text[start..start + |Joined(parts)|]
    ensures start + |parts[0]| <= |text| && forall k :: 0 <= k < |parts[0]| ==> parts[0][k] == text[start + k]
  {
    forall k | 0 <= k < |parts[0]| ensures start + k < |text| && parts[0][k] == text[start + k] {
      assert Joined(parts)[k] == parts[0][k];
    }
  }

  // Every part but an unfinished last one is balanced, its literals closed: alone, it is
  // split into itself.
  lemma {:induction false} LaterAlone(
      text: string, i: nat, depth: nat, quote: Option<char>, escaped: bool, start: nat, k: nat)
    requires start <= i <= |text| && (quote.None? ==> !escaped)
    requires
      var parts := PartsFrom(text, i, depth, quote, escaped, start);
      0 < k < |parts| && (k + 1 < |parts| || start + |Joined(parts)| < |text|)
    ensures
      var part := PartsFrom(text, i, depth, quote, escaped, start)[k];
      Parts(part + ")") == [part]
    decreases |text| - i
  {
    if EndsPart(text[i], depth, quote) {
      Ends(text, i, escaped, start);
      var rest := PartsFrom(text, i + 1, 0, None, false, i + 1);
      assert |Joined([text[start..i]] + rest)| == i - start + 1 + |Joined(rest)| by {
        assert ([text[start..i]] + rest)[1..] == rest;
      }
      if k == 1 {
        FirstAlone(text, i + 1, 0, None, false, i + 1);
      } else {
        LaterAlone(text, i + 1, 0, None, false, i + 1, k - 1);
      }
    } else {
      MovesOn(text, i, depth, quote, escaped, start);
      var (depth', quote', escaped') := StateAfter(text[i], depth, quote, escaped);
      LaterAlone(text, i + 1, depth', quote', escaped', start, k);
    }
  }

  lemma PartsAreWhole(text: string, k: nat)
    requires k < |Parts(text)| && (k + 1 < |Parts(text)| || |Joined(Parts(text))| < |text|)
    ensures Parts(Parts(text)[k] + ")") == [Parts(text)[k]]
  {
    if k == 0 {
      FirstAlone(text, 0, 0, None, false, 0);
    } else {
      LaterAlone(text, 0, 0, None, false, 0, k);
    }
  }
}
