// preproc_fallback.rs: what the scan of a line takes for a directive, a splice, a raw
// string and a number, told by the text.
module LexText {
  import opened Options
  import opened PreprocText
  import opened Lexer
  import opened Spelling

  // The first byte after the blanks.
  lemma {:induction false} SolidAfter(src: Bytes, lo: nat, hi: nat, at: nat)
    requires lo <= at <= hi <= |src| && AllBlank(src[lo..at]) && (at < hi ==> !IsSpace(src[at]))
    ensures FirstSolid(src, lo, hi) == at
    decreases at - lo
  {
    if lo < at {
      assert src[lo..at][0] == src[lo];
      assert src[lo + 1..at] == src[lo..at][1..];
      SolidAfter(src, lo + 1, hi, at);
    }
  }

  // A directive: blanks, a hash, and what follows it.
  lemma HashIff(src: Bytes, lo: nat, hi: nat, at: nat)
    requires lo <= hi <= |src|
    ensures HashIn(src, lo, hi) == Some(at) <==>
              exists b, rest :: AllBlank(b) && src[lo..hi] == b + "#" + rest && at == lo + |b| + 1
  {
    var i := FirstSolid(src, lo, hi);
    if HashIn(src, lo, hi) == Some(at) {
      var b, rest := src[lo..i], src[i + 1..hi];
      assert src[lo..hi] == b + "#" + rest;
    }
    if b, rest :| AllBlank(b) && src[lo..hi] == b + "#" + rest && at == lo + |b| + 1 {
      assert src[lo..hi][..|b|] == b && src[lo..lo + |b|] == b;
      assert src[lo..hi][|b|] == '#';
      SolidAfter(src, lo, hi, lo + |b|);
    }
  }

  // A splice: a backslash at the line end, or before its '\r'.
  lemma SpliceIff(src: Bytes, lo: nat, hi: nat)
    requires lo <= hi <= |src|
    ensures EndsWithBackslash(src, lo, hi) <==>
              exists text :: src[lo..hi] == text + "\\" || src[lo..hi] == text + "\\" + "\r"
  {
    var line := src[lo..hi];
    if EndsWithBackslash(src, lo, hi) {
      if src[hi - 1] == '\r' {
        assert line == line[..|line| - 2] + "\\" + "\r";
      } else {
        assert line == line[..|line| - 1] + "\\";
      }
    }
    if text :| line == text + "\\" || line == text + "\\" + "\r" {
      assert line[|text|] == '\\' == src[lo + |text|];
      assert line[|line| - 1] == src[hi - 1];
    }
  }

  // A delimiter of a raw string.
  ghost predicate IsDelimiter(d: Bytes) {
    && |d| <= 16
    && forall i :: 0 <= i < |d| ==> !IsSpace(d[i]) && d[i] != '(' && d[i] != ')' && d[i] != '\\' && d[i] != '"'
  }

  ghost predicate IsRawPrefix(prefix: Bytes) {
    prefix == "R" || prefix == "LR" || prefix == "uR" || prefix == "UR" || prefix == "u8R"
  }

  // The line opens a raw string at the quote after `before`: a prefix that no identifier
  // runs into, the quote, a delimiter and a parenthesis.
  ghost predicate OpensRaw(line: Bytes, before: Bytes, d: Bytes) {
    exists a, prefix, rest :: RawParts(line, before, d, a, prefix, rest)
  }

  ghost predicate RawParts(line: Bytes, before: Bytes, d: Bytes, a: Bytes, prefix: Bytes, rest: Bytes) {
    && before == a + prefix && IsRawPrefix(prefix) && (a == "" || !IsIdentByte(a[|a| - 1]))
    && line == before + "\"" + d + "(" + rest && IsDelimiter(d)
  }

  lemma {:induction false} IdentStartIs(src: Bytes, lo: nat, at: nat, q: nat)
    requires lo <= at <= q <= |src| && (at == lo || !IsIdentByte(src[at - 1]))
    requires forall i :: at <= i < q ==> IsIdentByte(src[i])
    ensures IdentStart(src, lo, q) == at
    decreases q
  {
    if at < q {
      IdentStartIs(src, lo, at, q - 1);
    }
  }

  lemma {:induction false} IdentStartStops(src: Bytes, lo: nat, q: nat)
    requires lo <= q <= |src|
    ensures IdentStart(src, lo, q) == lo || !IsIdentByte(src[IdentStart(src, lo, q) - 1])
    decreases q
  {
    if q > lo && IsIdentByte(src[q - 1]) {
      IdentStartStops(src, lo, q - 1);
    }
  }

  lemma {:induction false} FindParenIff(src: Bytes, hi: nat, from: nat, left: nat, p: nat)
    requires hi <= |src| && from <= p
    ensures FindParen(src, hi, from, left) == Some(p) <==>
              p < hi && p < from + left && src[p] == '(' && forall i :: from <= i < p ==> src[i] != '('
    decreases left
  {
    if left > 0 && from < hi && from < p {
      FindParenIff(src, hi, from + 1, left - 1, p);
    }
  }

  // A raw string opens exactly at such a quote, with the close that repeats its delimiter.
  lemma RawOpens(src: Bytes, lo: nat, hi: nat, quote: nat, d: Bytes)
    requires lo <= quote < hi <= |src| && src[quote] == '"'
    requires OpensRaw(src[lo..hi], src[lo..quote], d)
    ensures RawStringOpen(src, lo, hi, quote) == Some(RawOpen(quote + |d| + 2, ")" + d + "\""))
  {
    var a, prefix, rest :| RawParts(src[lo..hi], src[lo..quote], d, a, prefix, rest);
    RawPrefixIs(src, lo, quote, a, prefix);
    DelimiterStands(src, lo, hi, quote, d, rest);
    FindParenIff(src, hi, quote + 1, 17, quote + 1 + |d|);
    RawOpensAt(src, lo, hi, quote, quote + 1 + |d|);
  }

  lemma RawOpensAt(src: Bytes, lo: nat, hi: nat, quote: nat, open: nat)
    requires lo <= quote < open < hi <= |src| && IsRawPrefix(src[IdentStart(src, lo, quote)..quote])
    requires FindParen(src, hi, quote + 1, 17) == Some(open) && forall i :: quote < i < open ==> !BadInDelimiter(src[i])
    ensures RawStringOpen(src, lo, hi, quote) == Some(RawOpen(open + 1, ")" + src[quote + 1..open] + "\""))
  {
  }

  lemma WithinLine(src: Bytes, lo: nat, hi: nat, a: nat, b: nat)
    requires lo <= hi <= |src| && a <= b <= hi - lo
    ensures src[lo..hi][a..b] == src[lo + a..lo + b]
  {
    var line := src[lo..hi];
    assert forall i :: a <= i < b ==> line[i] == src[lo + i];
    assert |line[a..b]| == |src[lo + a..lo + b]|;
    assert forall i :: 0 <= i < b - a ==> line[a..b][i] == line[a + i] == src[lo + (a + i)] == src[lo + a..lo + b][i];
  }

  lemma DelimiterStands(src: Bytes, lo: nat, hi: nat, quote: nat, d: Bytes, rest: Bytes)
    requires lo <= quote < hi <= |src| && IsDelimiter(d)
    requires src[lo..hi] == src[lo..quote] + "\"" + d + "(" + rest
    ensures
      var open := quote + 1 + |d|;
      && open < hi && src[open] == '(' && src[quote + 1..open] == d
      && forall i :: quote < i < open ==> src[i] != '(' && !BadInDelimiter(src[i])
  {
    var line, open := src[lo..hi], quote + 1 + |d|;
    assert line[open - lo] == '(' == src[open];
    assert line[quote + 1 - lo..open - lo] == d;
    WithinLine(src, lo, hi, quote + 1 - lo, open - lo);
    forall i | quote < i < open ensures src[i] != '(' && !BadInDelimiter(src[i]) {
      assert src[i] == d[i - quote - 1];
    }
  }

  lemma RawPrefixIs(src: Bytes, lo: nat, quote: nat, a: Bytes, prefix: Bytes)
    requires lo <= quote <= |src| && src[lo..quote] == a + prefix && IsRawPrefix(prefix)
    requires a == "" || !IsIdentByte(a[|a| - 1])
    ensures src[IdentStart(src, lo, quote)..quote] == prefix
  {
    var s := lo + |a|;
    assert src[lo..quote][|a|..] == prefix && src[s..quote] == prefix;
    assert a != "" ==> src[lo..quote][|a| - 1] == src[s - 1] == a[|a| - 1];
    forall i | s <= i < quote ensures IsIdentByte(src[i]) {
      assert src[i] == prefix[i - s];
    }
    IdentStartIs(src, lo, s, quote);
  }

  lemma RawIsOpened(src: Bytes, lo: nat, hi: nat, quote: nat) returns (d: Bytes)
    requires lo <= quote < hi <= |src| && src[quote] == '"' && RawStringOpen(src, lo, hi, quote).Some?
    ensures OpensRaw(src[lo..hi], src[lo..quote], d)
    ensures RawStringOpen(src, lo, hi, quote) == Some(RawOpen(quote + |d| + 2, ")" + d + "\""))
  {
    var open := FindParen(src, hi, quote + 1, 17).value;
    d := src[quote + 1..open];
    FindParenIff(src, hi, quote + 1, 17, open);
    assert !exists k :: quote < k < open && BadInDelimiter(src[k]);
    assert IsDelimiter(d) by {
      forall i | 0 <= i < |d|
        ensures !IsSpace(d[i]) && d[i] != '(' && d[i] != ')' && d[i] != '\\' && d[i] != '"'
      {
        assert d[i] == src[quote + 1 + i] && !BadInDelimiter(src[quote + 1 + i]);
      }
    }
    RawPrefixEnds(src, lo, quote);
    var s := IdentStart(src, lo, quote);
    RawLine(src, lo, s, quote, open, hi);
    assert src[lo..quote] == src[lo..s] + src[s..quote] && IsRawPrefix(src[s..quote]);
    assert RawParts(src[lo..hi], src[lo..quote], d, src[lo..s], src[s..quote], src[open + 1..hi]);
  }

  lemma RawLine(src: Bytes, lo: nat, s: nat, quote: nat, open: nat, hi: nat)
    requires lo <= s <= quote < open < hi <= |src| && src[quote] == '"' && src[open] == '('
    ensures src[lo..hi] == src[lo..quote] + "\"" + src[quote + 1..open] + "(" + src[open + 1..hi]
  {
    assert src[lo..hi] == src[lo..quote] + src[quote..hi];
    assert src[quote..hi] == "\"" + src[quote + 1..open] + "(" + src[open + 1..hi];
  }

  lemma RawPrefixEnds(src: Bytes, lo: nat, quote: nat)
    requires lo <= quote <= |src|
    ensures
      var a := src[lo..IdentStart(src, lo, quote)];
      a == "" || !IsIdentByte(a[|a| - 1])
  {
    IdentStartStops(src, lo, quote);
  }

  // A preprocessing number, after section 5.9 of ISO/IEC 14882:2017, but that a sign may
  // follow any 'e', 'E', 'p' or 'P' that the number ends with, so also that of 1'e+5.
  ghost predicate IsNumber(text: Bytes)
    decreases |text|
  {
    && text != ""
    && var last := |text| - 1;
       || (|text| == 1 && IsDigit(text[0]))
       || ((IsIdentByte(text[last]) || text[last] == '.') && IsNumber(text[..last]))
       || (|text| > 2 && IsIdentByte(text[last]) && text[last - 1] == '\'' && IsNumber(text[..last - 1]))
       || ((text[last] == '+' || text[last] == '-') && IsNumber(text[..last]) &&
           (text[last - 1] == 'e' || text[last - 1] == 'E' || text[last - 1] == 'p' || text[last - 1] == 'P'))
  }

  // What pp_number_end stops at.
  ghost predicate IsNumberEnd(src: Bytes, hi: nat, digit: nat, end: nat)
    requires hi <= |src|
  {
    digit < end <= hi && !NumberTakes(src, hi, end) && forall k :: digit < k < end ==> NumberTakes(src, hi, k)
  }

  lemma {:induction false} TakenIsNumber(src: Bytes, hi: nat, digit: nat, end: nat)
    requires digit < end <= hi <= |src| && IsDigit(src[digit])
    requires (forall k :: digit < k < end ==> NumberTakes(src, hi, k)) && src[end - 1] != '\''
    ensures IsNumber(src[digit..end])
    decreases end
  {
    var text := src[digit..end];
    var last := |text| - 1;
    if end - digit > 1 {
      assert text[last] == src[end - 1] && NumberTakes(src, hi, end - 1);
      if src[end - 2] == '\'' {
        assert end - 2 > digit;
        assert NumberTakes(src, hi, end - 2);
        assert end - 3 > digit ==> NumberTakes(src, hi, end - 3);
        assert text[last - 1] == '\'' && text[..last - 1] == src[digit..end - 2];
        TakenIsNumber(src, hi, digit, end - 2);
      } else {
        assert text[..last] == src[digit..end - 1] && text[last - 1] == src[end - 2];
        TakenIsNumber(src, hi, digit, end - 1);
      }
    }
  }

  lemma {:induction false} NumberIsTaken(src: Bytes, hi: nat, digit: nat, end: nat)
    requires digit < end <= hi <= |src| && IsNumber(src[digit..end])
    ensures IsDigit(src[digit]) && forall k :: digit < k < end ==> NumberTakes(src, hi, k)
    decreases end
  {
    var text := src[digit..end];
    var last := |text| - 1;
    assert text[0] == src[digit] && text[last] == src[end - 1];
    if |text| > 1 {
      assert text[last - 1] == src[end - 2];
      assert text[..last] == src[digit..end - 1];
      if IsNumber(text[..last]) {
        NumberIsTaken(src, hi, digit, end - 1);
      } else {
        assert text[..last - 1] == src[digit..end - 2];
        NumberIsTaken(src, hi, digit, end - 2);
      }
    }
  }

  // The number ends where the longest number from the digit on does.
  lemma NumberIsLongest(src: Bytes, hi: nat, digit: nat, end: nat)
    requires digit < end <= hi <= |src| && IsDigit(src[digit])
    ensures IsNumberEnd(src, hi, digit, end) <==>
              && IsNumber(src[digit..end])
              && forall longer :: end < longer <= hi ==> !IsNumber(src[digit..longer])
  {
    if IsNumberEnd(src, hi, digit, end) {
      assert end - 1 > digit ==> NumberTakes(src, hi, end - 1);
      TakenIsNumber(src, hi, digit, end);
      forall longer | end < longer <= hi ensures !IsNumber(src[digit..longer]) {
        if IsNumber(src[digit..longer]) {
          NumberIsTaken(src, hi, digit, longer);
        }
      }
    }
    if IsNumber(src[digit..end]) && forall longer :: end < longer <= hi ==> !IsNumber(src[digit..longer]) {
      NumberIsTaken(src, hi, digit, end);
      if NumberTakes(src, hi, end) {
        LongerNumber(src, hi, digit, end);
      }
    }
  }

  lemma LongerNumber(src: Bytes, hi: nat, digit: nat, end: nat)
    requires digit < end < hi <= |src| && IsNumber(src[digit..end]) && NumberTakes(src, hi, end)
    ensures exists longer :: end < longer <= hi && IsNumber(src[digit..longer])
  {
    var one := src[digit..end + 1];
    assert one[..|one| - 1] == src[digit..end];
    assert one[|one| - 1] == src[end] && one[|one| - 2] == src[end - 1];
    if src[end] == '\'' {
      var two := src[digit..end + 2];
      assert two[..|two| - 2] == src[digit..end];
      assert two[|two| - 1] == src[end + 1] && two[|two| - 2] == src[end];
      assert IsNumber(two);
    } else {
      assert IsNumber(one);
    }
  }
}
