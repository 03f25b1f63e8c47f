// crates/ecp-cli/src/background.rs: shell_quote, against a reader of shell words.
module ShellWords {
  import opened Options

  // s.replace('\'', r"'\''").
  function Escaped(s: string): string {
    if s == "" then ""
    else (if s[0] == '\'' then "'\\''" else [s[0]]) + Escaped(s[1..])
  }

  // shell_quote.
  function ShellQuote(s: string): string {
    "'" + Escaped(s) + "'"
  }

  // Every argument quoted, joined by spaces.
  function CommandLine(args: seq<string>): string {
    if args == [] then ""
    else if |args| == 1 then ShellQuote(args[0])
    else ShellQuote(args[0]) + " " + CommandLine(args[1..])
  }

  predicate IsBlank(c: char) {
    c == ' ' || c == '\t'
  }

  // A character that means more than itself to the shell, quoting and blanks aside.
  predicate IsSpecial(c: char) {
    c in {'|', '&', ';', '<', '>', '(', ')', '$', '`', '"', '\n', '*', '?', '[', '#', '~', '=', '%'}
  }

  // The word read so far: none yet, or its characters.
  type Word = Option<string>

  function WithChar(word: Word, c: char): Word {
    Some((if word.Some? then word.value else "") + [c])
  }

  function Finished(word: Word): seq<string> {
    if word.Some? then [word.value] else []
  }

  function Before(first: seq<string>, rest: Option<seq<string>>): Option<seq<string>> {
    match rest
    case None => None
    case Some(words) => Some(first + words)
  }

  /** The words of `text` by section 2.2 of the POSIX.1-2017 Shell Command Language: blanks
      part words; a backslash keeps the character after it, and joins lines (2.2.1); single
      quotes keep every character between them (2.2.2). None if a quote stays open or a
      character stands bare that means more than itself. */
  function WordsFrom(text: string, word: Word, quoted: bool): Option<seq<string>>
    decreases |text|
  {
    if text == "" then if quoted then None else Some(Finished(word))
    else
      var c, rest := text[0], text[1..];
      if quoted then
        if c == '\'' then WordsFrom(rest, word, false) else WordsFrom(rest, WithChar(word, c), true)
      else if c == '\'' then WordsFrom(rest, Some(if word.Some? then word.value else ""), true)
      else if c == '\\' then
        if rest == "" then None
        else if rest[0] == '\n' then WordsFrom(rest[1..], word, false)
        else WordsFrom(rest[1..], WithChar(word, rest[0]), false)
      else if IsBlank(c) then Before(Finished(word), WordsFrom(rest, None, false))
      else if IsSpecial(c) then None
      else WordsFrom(rest, WithChar(word, c), false)
  }

  function Words(text: string): Option<seq<string>> {
    WordsFrom(text, None, false)
  }

  // Inside the quotes, an escaped argument adds itself to the word.
  lemma {:induction false} EscapedIsRead(s: string, word: string, after: string)
    ensures WordsFrom(Escaped(s) + after, Some(word), true) == WordsFrom(after, Some(word + s), true)
  {
    if s == "" {
      assert word + s == word && Escaped(s) + after == after;
    } else {
      var rest := Escaped(s[1..]) + after;
      EscapedIsRead(s[1..], word + [s[0]], after);
      assert word + [s[0]] + s[1..] == word + s;
      if s[0] == '\'' {
        QuoteIsRead(word, rest);
        assert Escaped(s) + after == "'\\''" + rest;
      } else {
        var text := Escaped(s) + after;
        assert text == [s[0]] + rest;
        assert text[0] == s[0] && text[1..] == rest;
      }
    }
  }

  // '\'' ends the quotes, keeps one quote, and opens them again.
  lemma QuoteIsRead(word: string, rest: string)
    ensures WordsFrom("'\\''" + rest, Some(word), true) == WordsFrom(rest, Some(word + ['\'']), true)
  {
    var text := "'\\''" + rest;
    var one, two, three := "\\''" + rest, "''" + rest, "'" + rest;
    assert text[0] == '\'' && text[1..] == one;
    assert one[0] == '\\' && one[1..] == two;
    assert two[0] == '\'' && two[1..] == three;
    assert three[0] == '\'' && three[1..] == rest;
    assert WordsFrom(three, Some(word + ['\'']), false) == WordsFrom(rest, Some(word + ['\'']), true);
    assert WordsFrom(one, Some(word), false) == WordsFrom(three, Some(word + ['\'']), false);
  }

  lemma QuotedIsRead(s: string, after: string)
    ensures WordsFrom(ShellQuote(s) + after, None, false) == WordsFrom(after, Some(s), false)
  {
    var text, rest := ShellQuote(s) + after, "'" + after;
    assert text == "'" + (Escaped(s) + rest);
    assert text[0] == '\'' && text[1..] == Escaped(s) + rest;
    EscapedIsRead(s, "", rest);
    assert "" + s == s;
    assert rest[0] == '\'' && rest[1..] == after;
  }

  // The shell reads a command line back as exactly the arguments.
  lemma {:induction false} CommandLineIsRead(args: seq<string>)
    ensures Words(CommandLine(args)) == Some(args)
  {
    if |args| == 1 {
      QuotedIsRead(args[0], "");
      assert ShellQuote(args[0]) + "" == ShellQuote(args[0]);
      assert args == [args[0]];
    } else if |args| > 1 {
      var rest := " " + CommandLine(args[1..]);
      assert CommandLine(args) == ShellQuote(args[0]) + rest;
      QuotedIsRead(args[0], rest);
      assert rest[0] == ' ' && rest[1..] == CommandLine(args[1..]);
      CommandLineIsRead(args[1..]);
      assert args == [args[0]] + args[1..];
    }
  }

  // So two lists of arguments never share a command line.
  lemma CommandLinesDiffer(a: seq<string>, b: seq<string>)
    ensures CommandLine(a) == CommandLine(b) <==> a == b
  {
    CommandLineIsRead(a);
    CommandLineIsRead(b);
  }
}
