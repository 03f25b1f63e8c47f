// preproc_fallback.rs: exchanging the text of a later branch keeps every depth outside it, and exactly when it does.
module Exchange {
  import opened Options
  import opened PreprocText
  import opened Automaton
  import opened Tokens
  import opened Lexer
  import opened Nesting
  import opened DirectiveText
  import opened BraceDepth
  import opened Stretches
  import opened LaterText

  // Only the first brace of a source can be headed from its start.
  ghost predicate HeadsSet(punct: Punct) {
    && (punct.braces != [] ==> punct.headFrom > 0)
    && OnlyFirstUnset(punct.braces)
  }

  ghost predicate OnlyFirstUnset(braces: seq<Brace>) {
    forall k :: 1 <= k < |braces| ==> braces[k].headFrom > 0
  }

  lemma {:induction false} PunctHeads(src: Bytes, lo: nat, hi: nat, before: Punct)
    requires lo <= hi <= |src| && HeadsSet(before)
    ensures HeadsSet(After(before, PunctIn(src, lo, hi, before.headFrom)))
    decreases hi
  {
    if lo == hi {
      assert before.braces + [] == before.braces;
    } else {
      PunctHeads(src, lo, hi - 1, before);
      PunctAfter(src, lo, hi - 1, before);
    }
  }

  lemma {:induction false} BracesHeads(src: Bytes, lines: seq<SrcLine>, n: nat)
    requires LinesExact(src, lines) && n <= |lines|
    ensures HeadsSet(BracesOf(src, lines, n))
  {
    if n > 0 {
      BracesHeads(src, lines, n - 1);
      BracesNext(src, lines, n - 1);
      if !lines[n - 1].inDirective {
        PunctHeads(src, lines[n - 1].start, lines[n - 1].end, BracesOf(src, lines, n - 1));
      }
    }
  }

  lemma {:induction false} CountedHeads(braces: seq<Brace>, dropped: iset<nat>)
    requires OnlyFirstUnset(braces)
    ensures OnlyFirstUnset(Counted(braces, dropped))
    ensures |Counted(braces, dropped)| <= |braces|
  {
    if braces != [] {
      CountedHeads(braces[..|braces| - 1], dropped);
    }
  }

  // The counted braces of t lie in it, with the code that heads them.
  ghost predicate LieIn(braces: seq<Brace>, t: Bytes) {
    OnlyFirstUnset(braces) && forall k :: 0 <= k < |braces| ==> braces[k].headFrom <= braces[k].at < |t|
  }

  lemma CountedLieIn(outer: seq<bool>, t: Scan)
    requires IsScan(t)
    ensures LieIn(CountedAfter(outer, t), t.src)
  {
    var dropped := DroppedAfter(outer, t);
    BracesHeads(t.src, t.lines, |t.lines|);
    BracesAscend(t.src, t.lines, |t.lines|);
    BracesHeadsFit(t.src, t.lines, |t.lines|);
    CountedHeads(t.braces, dropped);
    CountedAscends(t.braces, dropped);
    forall k | 0 <= k < |Counted(t.braces, dropped)|
      ensures Counted(t.braces, dropped)[k].headFrom <= Counted(t.braces, dropped)[k].at < |t.src|
    {
      assert Counted(t.braces, dropped)[k] in t.braces;
      var j :| 0 <= j < |t.braces| && t.braces[j] == Counted(t.braces, dropped)[k];
      assert IsRecorded(t.src, t.lines, t.braces[j]);
    }
  }

  // A brace headed in its own stretch adds depth in the source as it does in the stretch.
  lemma CountsInside(s: Bytes, d: nat, t: Bytes, brace: Brace, from: nat)
    requires Inside(s, d, t) && brace.headFrom <= brace.at < |t|
    requires brace.headFrom > 0 || (d == 0 && from == 0)
    ensures Counts(s, MovedBrace(brace, d, from)) == Counts(t, brace)
  {
    assert MovedHead(brace.headFrom, d, from) == d + brace.headFrom;
    SliceInside(s, d, t, brace.headFrom, brace.at);
    SameHead(s, MovedBrace(brace, d, from), t, brace);
  }

  lemma SameHead(s: Bytes, brace: Brace, t: Bytes, same: Brace)
    requires brace.headFrom <= brace.at <= |s| && same.headFrom <= same.at <= |t|
    requires s[brace.headFrom..brace.at] == t[same.headFrom..same.at]
    ensures Counts(s, brace) == Counts(t, same)
  {
  }

  // The braces of two sources, open and close alike, and alike in depth but for brace f.
  ghost predicate AlikeBut(one: Bytes, c: seq<Brace>, other: Bytes, e: seq<Brace>, f: nat) {
    && |c| == |e|
    && (forall k {:trigger c[k]} :: 0 <= k < |c| ==> c[k].open == e[k].open)
    && (forall k {:trigger c[k]} :: 0 <= k < |c| && k != f ==> Counts(one, c[k]) == Counts(other, e[k]))
  }

  ghost predicate AlikeAt(one: Bytes, c: seq<Brace>, other: Bytes, e: seq<Brace>, f: nat) {
    f < |c| && c[f].open ==> f < |e| && Counts(one, c[f]) == Counts(other, e[f])
  }

  ghost predicate SameCounts(one: Bytes, c: seq<Brace>, other: Bytes, e: seq<Brace>)
    requires |c| == |e|
  {
    forall n {:trigger Unmatched(one, c, n)} :: 0 <= n <= |c| ==> |Unmatched(one, c, n)| == |Unmatched(other, e, n)|
  }

  lemma SameCountsIff(one: Bytes, c: seq<Brace>, other: Bytes, e: seq<Brace>, f: nat)
    requires AlikeBut(one, c, other, e, f)
    ensures SameCounts(one, c, other, e) <==> AlikeAt(one, c, other, e, f)
  {
    assert BraceMarks(c) == BraceMarks(e);
    if AlikeAt(one, c, other, e, f) {
      forall n | 0 <= n <= |c| ensures Unmatched(one, c, n) == Unmatched(other, e, n) {
        SameSet(one, c, other, e, n);
      }
    } else {
      FirstDiffers(one, c, other, e, f);
    }
  }

  lemma SameSet(one: Bytes, c: seq<Brace>, other: Bytes, e: seq<Brace>, n: nat)
    requires |c| == |e| && n <= |c| && BraceMarks(c) == BraceMarks(e)
    requires forall k {:trigger c[k]} :: 0 <= k < |c| && c[k].open ==> Counts(one, c[k]) == Counts(other, e[k])
    ensures Unmatched(one, c, n) == Unmatched(other, e, n)
  {
    forall o: nat ensures o in Unmatched(one, c, n) <==> o in Unmatched(other, e, n) {
      assert o < |c| ==> (BraceMarks(c)[o] == Open <==> c[o].open);
    }
  }

  // Right after brace f the depths differ by one.
  lemma FirstDiffers(one: Bytes, c: seq<Brace>, other: Bytes, e: seq<Brace>, f: nat)
    requires AlikeBut(one, c, other, e, f) && !AlikeAt(one, c, other, e, f) && BraceMarks(c) == BraceMarks(e)
    ensures |Unmatched(one, c, f + 1)| != |Unmatched(other, e, f + 1)|
  {
    var marks := BraceMarks(c);
    assert marks[f] == Open && Balance(marks, f, f) == 0 && Balance(marks, f, f + 1) == 1;
    assert OpenAt(marks, f, f + 1);
    var u, v := Unmatched(one, c, f + 1), Unmatched(other, e, f + 1);
    forall o: nat | o != f ensures o in u <==> o in v {
      assert o < |c| ==> Counts(one, c[o]) == Counts(other, e[o]);
    }
    if Counts(one, c[f]) {
      assert u == v + {f} && f !in v;
    } else {
      assert v == u + {f} && f !in u;
    }
  }

  // The depths of the source after the exchange: bytes from `was` on now begin at `now`.
  function MovedAt(at: nat, was: nat, now: nat): nat {
    if at < was then at else at - was + now
  }

  function MovedDepths(depths: seq<(nat, int)>, was: nat, now: nat): seq<(nat, int)> {
    seq(|depths|, k requires 0 <= k < |depths| =>
      (MovedAt(depths[k].0, was, now), depths[k].1))
  }

  // The first of the braces at byte d or later.
  ghost function FirstFrom(braces: seq<Brace>, d: nat): (f: nat)
    ensures f <= |braces| && (f < |braces| ==> braces[f].at >= d)
    ensures forall k :: 0 <= k < f ==> braces[k].at < d
  {
    if braces == [] || braces[0].at >= d then 0 else 1 + FirstFrom(braces[1..], d)
  }

  // The first brace counted from byte `was` on adds depth in both sources or in neither.
  ghost predicate HeadedAlike(one: Scan, was: nat, other: Scan)
    requires IsScan(one) && IsScan(other)
  {
    AlikeAt(one.src, CountedIn(one), other.src, CountedIn(other), FirstFrom(CountedIn(one), was))
  }

  // The two lists of counted braces: the same ones of a, then the same ones of b, moved.
  lemma PartsAlike(one: Bytes, c: seq<Brace>, other: Bytes, e: seq<Brace>, a: Bytes, b: Bytes,
                   inA: seq<Brace>, inB: seq<Brace>, was: nat, now: nat, h: nat, g: nat)
    requires Inside(one, 0, a) && Inside(one, was, b) && Inside(other, 0, a) && Inside(other, now, b)
    requires LieIn(inA, a) && LieIn(inB, b)
    requires c == inA + MovedBraces(inB, was, h) && e == inA + MovedBraces(inB, now, g)
    ensures AlikeBut(one, c, other, e, |inA|)
  {
    forall k | 0 <= k < |c|
      ensures c[k].open == e[k].open && (k != |inA| ==> Counts(one, c[k]) == Counts(other, e[k]))
    {
      PartOf(c, inA, inB, was, h, k);
      PartOf(e, inA, inB, now, g, k);
      if k < |inA| {
        SameInA(one, other, a, inA[k]);
      } else if k > |inA| {
        SameInB(one, other, b, inB[k - |inA|], was, now, h, g);
      }
    }
  }

  lemma PartOf(c: seq<Brace>, inA: seq<Brace>, inB: seq<Brace>, was: nat, h: nat, k: nat)
    requires c == inA + MovedBraces(inB, was, h) && k < |c|
    ensures c[k] == if k < |inA| then inA[k] else MovedBrace(inB[k - |inA|], was, h)
  {
  }

  lemma SameInB(one: Bytes, other: Bytes, b: Bytes, brace: Brace, was: nat, now: nat, h: nat, g: nat)
    requires Inside(one, was, b) && Inside(other, now, b) && 0 < brace.headFrom <= brace.at < |b|
    ensures Counts(one, MovedBrace(brace, was, h)) == Counts(other, MovedBrace(brace, now, g))
  {
    CountsInside(one, was, b, brace, h);
    CountsInside(other, now, b, brace, g);
  }

  lemma SameInA(one: Bytes, other: Bytes, a: Bytes, brace: Brace)
    requires Inside(one, 0, a) && Inside(other, 0, a) && brace.headFrom <= brace.at < |a|
    ensures Counts(one, brace) == Counts(other, brace)
  {
    SliceInside(one, 0, a, brace.headFrom, brace.at);
    SliceInside(other, 0, a, brace.headFrom, brace.at);
    SameHead(one, brace, other, brace);
  }

  lemma FirstAfter(inA: seq<Brace>, inB: seq<Brace>, was: nat, h: nat)
    requires forall k :: 0 <= k < |inA| ==> inA[k].at < was
    ensures FirstFrom(inA + MovedBraces(inB, was, h), was) == |inA|
  {
    var c := inA + MovedBraces(inB, was, h);
    forall k | 0 <= k < |inA| ensures c[k].at < was {
      PartOf(c, inA, inB, was, h, k);
    }
    if |inA| < |c| {
      PartOf(c, inA, inB, was, h, |inA|);
    }
  }

  // Equal counts are equal depths, at the moved bytes.
  lemma DepthsMove(one: Bytes, c: seq<Brace>, other: Bytes, e: seq<Brace>, was: nat, now: nat)
    requires |c| == |e| && forall k {:trigger e[k]} :: 0 <= k < |c| ==> e[k].at == MovedAt(c[k].at, was, now)
    ensures DepthsOf(other, e, |e|) == MovedDepths(DepthsOf(one, c, |c|), was, now) <==> SameCounts(one, c, other, e)
  {
    var after, moved := DepthsOf(other, e, |e|), MovedDepths(DepthsOf(one, c, |c|), was, now);
    assert Unmatched(one, c, 0) == {} == Unmatched(other, e, 0);
    if after == moved {
      forall n | 0 < n <= |c| ensures |Unmatched(one, c, n)| == |Unmatched(other, e, n)| {
        assert after[n - 1] == moved[n - 1];
      }
    }
    if SameCounts(one, c, other, e) {
      forall k | 0 <= k < |c| ensures after[k] == moved[k] {
        assert |Unmatched(one, c, k + 1)| == |Unmatched(other, e, k + 1)|;
      }
    }
  }

  // a is followed by x in one source and by y in the other, then by b; a ends in a later
  // branch, and x and y are whole lines that leave nothing open.
  ghost predicate Exchanged(a: Scan, x: Scan, y: Scan, b: Scan, one: Scan, other: Scan) {
    && IsScan(a) && IsScan(x) && IsScan(y) && IsScan(b) && IsScan(one) && IsScan(other)
    && one.src == a.src + x.src + b.src && other.src == a.src + y.src + b.src
    && WholeLines(a.src) && WholeLines(x.src) && WholeLines(y.src)
    && Skipped(CondsIn(a), |a.lines| - 1) && Contained(BodyConds(x)) && Contained(BodyConds(y))
  }

  lemma AreParts(a: Scan, x: Scan, b: Scan, one: Scan)
    requires IsScan(a) && IsScan(x) && IsScan(b) && IsScan(one) && one.src == a.src + x.src + b.src
    requires WholeLines(a.src) && WholeLines(x.src)
    ensures MadeOf(one, a, x, b)
  {
    PartsInside(a.src, x.src, b.src);
  }

  lemma ExchangedParts(a: Scan, x: Scan, y: Scan, b: Scan, one: Scan, other: Scan)
    requires Exchanged(a, x, y, b, one, other)
    ensures MadeOf(one, a, x, b) && LaterPart(a, x)
    ensures MadeOf(other, a, y, b) && LaterPart(a, y)
    ensures CountedAfter(BranchesBefore(a, x), b) == CountedAfter(BranchesBefore(a, y), b)
  {
    AreParts(a, x, b, one);
    AreParts(a, y, b, other);
    SkippedIsFold(CondsIn(a), XLine(a));
    ContainedSameSkips(Fold([], BodyConds(a)), BodyConds(x), BodyConds(y));
    SameDropped(BranchesBefore(a, x), BranchesBefore(a, y), b);
  }

  // The exchange keeps every depth outside, exactly if the first brace counted after it is
  // headed alike.
  lemma ExchangeKeepsDepths(a: Scan, x: Scan, y: Scan, b: Scan, one: Scan, other: Scan)
    requires Exchanged(a, x, y, b, one, other)
    ensures DepthsIn(other) == MovedDepths(DepthsIn(one), BByte(a, x), BByte(a, y)) <==>
              HeadedAlike(one, BByte(a, x), other)
  {
    ExchangedParts(a, x, y, b, one, other);
    CountedOfParts(one, a, x, b);
    CountedOfParts(other, a, y, b);
    var inA, inB := CountedAfter([], a), CountedAfter(BranchesBefore(a, x), b);
    CountedLieIn([], a);
    CountedLieIn(BranchesBefore(a, x), b);
    var h, g := HeadBefore(one, BLine(a, x)), HeadBefore(other, BLine(a, y));
    PartsKeepDepths(one.src, CountedIn(one), other.src, CountedIn(other), a.src, b.src, inA, inB,
                    BByte(a, x), BByte(a, y), h, g);
  }

  lemma PartsKeepDepths(one: Bytes, c: seq<Brace>, other: Bytes, e: seq<Brace>, a: Bytes, b: Bytes,
                        inA: seq<Brace>, inB: seq<Brace>, was: nat, now: nat, h: nat, g: nat)
    requires Inside(one, 0, a) && Inside(one, was, b) && Inside(other, 0, a) && Inside(other, now, b)
    requires LieIn(inA, a) && LieIn(inB, b) && |a| <= was && |a| <= now
    requires c == inA + MovedBraces(inB, was, h) && e == inA + MovedBraces(inB, now, g)
    ensures DepthsOf(other, e, |e|) == MovedDepths(DepthsOf(one, c, |c|), was, now) <==>
              AlikeAt(one, c, other, e, FirstFrom(c, was))
  {
    PartsAlike(one, c, other, e, a, b, inA, inB, was, now, h, g);
    SameCountsIff(one, c, other, e, |inA|);
    FirstAfter(inA, inB, was, h);
    DepthsMove(one, c, other, e, was, now);
  }

  // So it does when the code that heads that brace starts after the exchange.
  lemma OwnHeadKeepsDepths(a: Scan, x: Scan, y: Scan, b: Scan, one: Scan, other: Scan)
    requires Exchanged(a, x, y, b, one, other)
    requires
      var f := FirstFrom(CountedIn(one), BByte(a, x));
      f < |CountedIn(one)| ==> CountedIn(one)[f].headFrom >= BByte(a, x)
    ensures DepthsIn(other) == MovedDepths(DepthsIn(one), BByte(a, x), BByte(a, y))
  {
    ExchangeKeepsDepths(a, x, y, b, one, other);
    ExchangedParts(a, x, y, b, one, other);
    CountedOfParts(one, a, x, b);
    CountedOfParts(other, a, y, b);
    CountedLieIn([], a);
    CountedLieIn(BranchesBefore(a, x), b);
    HeadIsEarlier(one, a, x, b);
    var inA, inB := CountedAfter([], a), CountedAfter(BranchesBefore(a, x), b);
    FirstAfter(inA, inB, BByte(a, x), HeadBefore(one, BLine(a, x)));
    if inB != [] {
      CountsInside(one.src, BByte(a, x), b.src, inB[0], HeadBefore(one, BLine(a, x)));
      CountsInside(other.src, BByte(a, y), b.src, inB[0], HeadBefore(other, BLine(a, y)));
    }
  }

  // What stands before b heads nothing from b's first byte on.
  lemma HeadIsEarlier(one: Scan, a: Scan, x: Scan, b: Scan)
    requires MadeOf(one, a, x, b) && LaterPart(a, x)
    ensures BLine(a, x) <= |one.lines| && HeadBefore(one, BLine(a, x)) < BByte(a, x)
  {
    PartsWithin(one, a, x, b);
    BracesHeadsFit(one.src, one.lines, BLine(a, x));
    StartIs(one.src, one.lines, BLine(a, x));
  }

  // depth_at outside the exchange: before it, and from its end on.
  lemma DepthAtMoves(depths: seq<(nat, int)>, start: nat, was: nat, now: nat, offset: nat)
    requires AtsAscend(depths) && start <= was && start <= now && (offset <= start || was <= offset)
    requires forall k :: 0 <= k < |depths| ==> depths[k].0 < start || was <= depths[k].0
    ensures AtsAscend(MovedDepths(depths, was, now))
    ensures DepthAt(MovedDepths(depths, was, now), MovedAt(offset, was, now)) == DepthAt(depths, offset)
  {
    var moved := MovedDepths(depths, was, now);
    var p := PartitionPoint(depths, offset, 0, |depths|);
    OneCut(moved, MovedAt(offset, was, now), p, PartitionPoint(moved, MovedAt(offset, was, now), 0, |moved|));
  }

  // The depths stand outside the exchange, in ascending order.
  lemma DepthsOutside(a: Scan, x: Scan, y: Scan, b: Scan, one: Scan, other: Scan)
    requires Exchanged(a, x, y, b, one, other)
    ensures AtsAscend(DepthsIn(one))
    ensures forall k :: 0 <= k < |DepthsIn(one)| ==> DepthsIn(one)[k].0 < |a.src| || BByte(a, x) <= DepthsIn(one)[k].0
  {
    ExchangedParts(a, x, y, b, one, other);
    CountedOfParts(one, a, x, b);
    CountedLieIn([], a);
    BracesAscend(one.src, one.lines, |one.lines|);
    CountedAscends(one.braces, DroppedIn(one));
    OutsideAscends(one.src, CountedIn(one), CountedAfter([], a), CountedAfter(BranchesBefore(a, x), b),
                   a.src, BByte(a, x), HeadBefore(one, BLine(a, x)));
  }

  lemma OutsideAscends(one: Bytes, c: seq<Brace>, inA: seq<Brace>, inB: seq<Brace>, a: Bytes, was: nat, h: nat)
    requires Ascend(c) && c == inA + MovedBraces(inB, was, h) && LieIn(inA, a)
    ensures
      var depths := DepthsOf(one, c, |c|);
      AtsAscend(depths) && forall k :: 0 <= k < |depths| ==> depths[k].0 < |a| || was <= depths[k].0
  {
    assert forall k :: 0 <= k < |c| ==> DepthsOf(one, c, |c|)[k].0 == c[k].at;
  }

  // In terms of depth_at: no offset outside the exchange changes its depth.
  lemma ExchangeKeepsDepthAt(a: Scan, x: Scan, y: Scan, b: Scan, one: Scan, other: Scan, offset: nat)
    requires Exchanged(a, x, y, b, one, other) && HeadedAlike(one, BByte(a, x), other)
    requires offset <= |a.src| || BByte(a, x) <= offset
    ensures AtsAscend(DepthsIn(one)) && AtsAscend(DepthsIn(other))
    ensures DepthAt(DepthsIn(other), MovedAt(offset, BByte(a, x), BByte(a, y))) == DepthAt(DepthsIn(one), offset)
  {
    ExchangeKeepsDepths(a, x, y, b, one, other);
    DepthsOutside(a, x, y, b, one, other);
    DepthAtMoves(DepthsIn(one), |a.src|, BByte(a, x), BByte(a, y), offset);
  }
}
