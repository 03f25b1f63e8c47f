// crates/ecp-analyzer/src/preproc_fallback.rs: the byte tests of the preprocessor
// scanner. A byte is a char; only ASCII values are ever tested for.
module PreprocText {
  import opened Options

  type Bytes = string

  predicate IsAlpha(b: char) {
    'a' <= b <= 'z' || 'A' <= b <= 'Z'
  }

  predicate IsDigit(b: char) {
    '0' <= b <= '9'
  }

  predicate IsIdentByte(b: char) {
    IsAlpha(b) || IsDigit(b) || b == '_'
  }

  // is_ascii_whitespace.
  predicate IsSpace(b: char) {
    b == ' ' || b == '\t' || b == '\n' || b == '\r' || b == '\U{0C}'
  }

  // src[i..] starts with the needle.
  predicate OccursAt(src: Bytes, needle: Bytes, i: nat)
    decreases |needle|
  {
    needle == "" || (i < |src| && src[i] == needle[0] && OccursAt(src, needle[1..], i + 1))
  }

  lemma {:induction false} OccursBytes(src: Bytes, needle: Bytes, i: nat, k: nat)
    requires OccursAt(src, needle, i) && k < |needle|
    ensures i + k < |src| && src[i + k] == needle[k]
    decreases |needle|
  {
    if k > 0 {
      OccursBytes(src, needle[1..], i + 1, k - 1);
    }
  }

  lemma {:induction false} OccursIs(text: Bytes, needle: Bytes, i: nat)
    requires i + |needle| <= |text| && text[i..i + |needle|] == needle
    ensures OccursAt(text, needle, i)
    decreases |needle|
  {
    if needle != "" {
      assert text[i..i + |needle|][0] == text[i];
      assert text[i + 1..i + |needle|] == text[i..i + |needle|][1..];
      OccursIs(text, needle[1..], i + 1);
    }
  }

  // find(&src[from..hi], needle), as an offset of src.
  function FindIn(src: Bytes, needle: Bytes, from: nat, hi: nat): (p: Option<nat>)
    requires from <= hi <= |src|
    ensures p.Some? ==> from <= p.value && p.value + |needle| <= hi && OccursAt(src, needle, p.value)
    ensures p.Some? ==> forall q :: from <= q < p.value ==> !OccursAt(src, needle, q)
    ensures p.None? ==> forall q :: from <= q && q + |needle| <= hi ==> !OccursAt(src, needle, q)
    decreases hi - from
  {
    if from + |needle| > hi then None
    else if OccursAt(src, needle, from) then Some(from)
    else if from == hi then None
    else FindIn(src, needle, from + 1, hi)
  }

  // Where the identifier bytes before `q` begin, no further back than `lo`.
  function IdentStart(src: Bytes, lo: nat, q: nat): (s: nat)
    requires lo <= q <= |src|
    ensures lo <= s <= q
    decreases q
  {
    if q == lo || !IsIdentByte(src[q - 1]) then q else IdentStart(src, lo, q - 1)
  }

  // The first '(' among the next `left` bytes.
  function FindParen(src: Bytes, hi: nat, from: nat, left: nat): (p: Option<nat>)
    requires hi <= |src|
    ensures p.Some? ==> from <= p.value < hi && p.value < from + left
    decreases hi - from
  {
    if left == 0 || from >= hi then None
    else if src[from] == '(' then Some(from)
    else FindParen(src, hi, from + 1, left - 1)
  }

  predicate BadInDelimiter(b: char) {
    IsSpace(b) || b == ')' || b == '\\' || b == '"'
  }

  datatype RawOpen = RawOpen(body: nat, close: Bytes)

  // raw_string_open, for the line at [lo, hi) of src.
  function RawStringOpen(src: Bytes, lo: nat, hi: nat, quote: nat): (r: Option<RawOpen>)
    requires lo <= quote < hi <= |src|
    ensures r.Some? ==> quote + 1 < r.value.body <= hi && |r.value.close| >= 2
    ensures r.Some? ==> forall k :: 0 <= k < |r.value.close| ==> r.value.close[k] != '\n'
  {
    if src[IdentStart(src, lo, quote)..quote] !in {"R", "LR", "uR", "UR", "u8R"} then None
    else
      var open := FindParen(src, hi, quote + 1, 17);
      if open.None? || (exists k :: quote < k < open.value && BadInDelimiter(src[k])) then None
      else
        var delimiter := src[quote + 1..open.value];
        var close := ")" + delimiter + "\"";
        assert forall k :: 0 <= k < |delimiter| ==> delimiter[k] == src[quote + 1 + k];
        Some(RawOpen(open.value + 1, close))
  }

  // [lo, hi) is one line of src.
  ghost predicate IsLine(src: Bytes, lo: nat, hi: nat) {
    && lo <= hi <= |src|
    && (lo == 0 || src[lo - 1] == '\n')
    && (hi == |src| || src[hi] == '\n')
    && forall k :: lo <= k < hi ==> src[k] != '\n'
  }

  lemma {:induction false} IdentStartInLine(src: Bytes, lo: nat, hi: nat, q: nat)
    requires IsLine(src, lo, hi) && lo <= q <= hi
    ensures IdentStart(src, lo, q) == IdentStart(src, 0, q)
    decreases q
  {
    if q > lo && IsIdentByte(src[q - 1]) {
      IdentStartInLine(src, lo, hi, q - 1);
    }
  }

  lemma {:induction false} FindParenInLine(src: Bytes, lo: nat, hi: nat, from: nat, left: nat)
    requires IsLine(src, lo, hi) && lo <= from <= hi
    ensures
      var here, all := FindParen(src, hi, from, left), FindParen(src, |src|, from, left);
      here == all || (here.None? && all.Some? && hi < all.value)
    decreases left
  {
    if left > 0 && from < hi {
      FindParenInLine(src, lo, hi, from + 1, left - 1);
    }
  }

  // A raw string opens the same whether one looks at its line or at the whole source.
  lemma RawOpenInLine(src: Bytes, lo: nat, hi: nat, quote: nat)
    requires IsLine(src, lo, hi) && lo <= quote < hi
    ensures RawStringOpen(src, lo, hi, quote) == RawStringOpen(src, 0, |src|, quote)
  {
    IdentStartInLine(src, lo, hi, quote);
    FindParenInLine(src, lo, hi, quote + 1, 17);
    assert hi < |src| ==> BadInDelimiter(src[hi]);
  }

  predicate SignInNumber(src: Bytes, i: nat)
    requires 0 < i < |src|
  {
    (src[i] == '+' || src[i] == '-') && src[i - 1] in {'e', 'E', 'p', 'P'}
  }

  // Whether a preprocessing number that reached byte i - 1 takes byte i too.
  predicate NumberTakes(src: Bytes, hi: nat, i: nat)
    requires 0 < i && hi <= |src|
  {
    i < hi &&
    (|| IsIdentByte(src[i]) || src[i] == '.' || SignInNumber(src, i)
     || (src[i] == '\'' && i + 1 < hi && IsIdentByte(src[i + 1])))
  }

  // pp_number_end.
  method PpNumberEnd(src: Bytes, hi: nat, digit: nat) returns (end: nat)
    requires digit < hi <= |src|
    ensures digit < end <= hi && !NumberTakes(src, hi, end)
    ensures forall k :: digit < k < end ==> NumberTakes(src, hi, k)
  {
    end := digit + 1;
    while end < hi
      invariant digit < end <= hi
      invariant forall k :: digit < k < end ==> NumberTakes(src, hi, k)
    {
      var b := src[end];
      var separator := b == '\'' && end + 1 < hi && IsIdentByte(src[end + 1]);
      if !(IsIdentByte(b) || b == '.' || SignInNumber(src, end) || separator) {
        break;
      }
      end := end + 1;
    }
  }
}
