// crates/ecp-analyzer/src/entry_points.rs: dedup_keep_highest.
//
// The entries are sorted by handler, the highest score first; each takes in the reasons of
// those after it that name the same handler. Scores are reals: comparisons with NaN are not
// part of the model.
module Dedup {
  import opened Options
  import Sorting

  datatype EntryKind = HttpRoute | MainFunction | FrameworkRef | PublicExport

  // tag.
  function Tag(kind: EntryKind): string {
    match kind
    case HttpRoute => "route"
    case MainFunction => "main"
    case FrameworkRef => "framework_ref"
    case PublicExport => "public_export"
  }

  datatype EntryPoint = EntryPoint(uid: string, kind: EntryKind, score: real, reason: string)

  // The order of strings, character by character.
  predicate StrLe(a: string, b: string) {
    a == "" || (b != "" && (a[0] < b[0] || (a[0] == b[0] && StrLe(a[1..], b[1..]))))
  }

  lemma {:induction false} StrLeIsTotal(a: string, b: string)
    ensures StrLe(a, b) || StrLe(b, a)
    ensures StrLe(a, b) && StrLe(b, a) <==> a == b
  {
    if a != "" && b != "" {
      StrLeIsTotal(a[1..], b[1..]);
      assert a == [a[0]] + a[1..] && b == [b[0]] + b[1..];
    }
  }

  lemma {:induction false} StrLeIsTransitive(a: string, b: string, c: string)
    requires StrLe(a, b) && StrLe(b, c)
    ensures StrLe(a, c)
  {
    if a != "" && b != "" && c != "" && a[0] == b[0] == c[0] {
      StrLeIsTransitive(a[1..], b[1..], c[1..]);
    }
  }

  predicate TagLe(a: EntryPoint, b: EntryPoint) {
    StrLe(Tag(a.kind), Tag(b.kind))
  }

  // The first sort: by uid, then the highest score first, then by tag.
  predicate UidFirst(a: EntryPoint, b: EntryPoint) {
    if a.uid != b.uid then StrLe(a.uid, b.uid)
    else if a.score != b.score then a.score > b.score
    else TagLe(a, b)
  }

  // The last sort: the highest score first, then by uid, then by tag.
  predicate ScoreFirst(a: EntryPoint, b: EntryPoint) {
    if a.score != b.score then a.score > b.score
    else if a.uid != b.uid then StrLe(a.uid, b.uid)
    else TagLe(a, b)
  }

  function ByUid(): (EntryPoint, EntryPoint) -> bool {
    (a, b) => UidFirst(a, b)
  }

  function ByScore(): (EntryPoint, EntryPoint) -> bool {
    (a, b) => ScoreFirst(a, b)
  }

  lemma OrdersAreTotal()
    ensures Sorting.TotalPreorder(ByUid()) && Sorting.TotalPreorder(ByScore())
  {
    forall x, y ensures UidFirst(x, y) || UidFirst(y, x) ensures ScoreFirst(x, y) || ScoreFirst(y, x) {
      StrLeIsTotal(x.uid, y.uid);
      StrLeIsTotal(Tag(x.kind), Tag(y.kind));
    }
    forall x, y, z | UidFirst(x, y) && UidFirst(y, z) ensures UidFirst(x, z) {
      UidFirstIsTransitive(x, y, z);
    }
    forall x, y, z | ScoreFirst(x, y) && ScoreFirst(y, z) ensures ScoreFirst(x, z) {
      ScoreFirstIsTransitive(x, y, z);
    }
  }

  lemma UidFirstIsTransitive(x: EntryPoint, y: EntryPoint, z: EntryPoint)
    requires UidFirst(x, y) && UidFirst(y, z)
    ensures UidFirst(x, z)
  {
    StrLeIsTotal(x.uid, y.uid);
    if x.uid != y.uid && y.uid != z.uid {
      StrLeIsTransitive(x.uid, y.uid, z.uid);
      StrLeIsTotal(y.uid, z.uid);
    } else if TagLe(x, y) && TagLe(y, z) {
      StrLeIsTransitive(Tag(x.kind), Tag(y.kind), Tag(z.kind));
    }
  }

  lemma ScoreFirstIsTransitive(x: EntryPoint, y: EntryPoint, z: EntryPoint)
    requires ScoreFirst(x, y) && ScoreFirst(y, z)
    ensures ScoreFirst(x, z)
  {
    StrLeIsTotal(x.uid, y.uid);
    if x.uid != y.uid && y.uid != z.uid && x.score == y.score == z.score {
      StrLeIsTransitive(x.uid, y.uid, z.uid);
      StrLeIsTotal(y.uid, z.uid);
    } else if TagLe(x, y) && TagLe(y, z) {
      StrLeIsTransitive(Tag(x.kind), Tag(y.kind), Tag(z.kind));
    }
  }

  predicate StartsAt(text: string, part: string, i: nat) {
    i + |part| <= |text| && text[i..i + |part|] == part
  }

  predicate Contains(text: string, part: string) {
    exists i: nat :: i <= |text| && StartsAt(text, part, i)
  }

  // The reason of an entry that takes in another's.
  function WithReason(reason: string, more: string): string {
    if Contains(reason, more) then reason else reason + "; also: " + more
  }

  lemma WithReasonHolds(reason: string, more: string)
    ensures Contains(WithReason(reason, more), more)
    ensures forall part :: Contains(reason, part) ==> Contains(WithReason(reason, more), part)
  {
    var longer := reason + "; also: " + more;
    assert StartsAt(longer, more, |reason + "; also: "|);
    forall part | Contains(reason, part) ensures Contains(longer, part) {
      var i: nat :| i <= |reason| && StartsAt(reason, part, i);
      assert longer[i..i + |part|] == reason[i..i + |part|];
      assert StartsAt(longer, part, i);
    }
  }

  // The first n sorted items, each taken in by the entry before it of the same uid.
  function Folded(items: seq<EntryPoint>, n: nat): seq<EntryPoint>
    requires n <= |items|
  {
    if n == 0 then []
    else FoldOne(Folded(items, n - 1), items[n - 1])
  }

  function FoldOne(out: seq<EntryPoint>, ep: EntryPoint): seq<EntryPoint> {
    if out != [] && out[|out| - 1].uid == ep.uid then
      var last := out[|out| - 1];
      out[..|out| - 1] + [last.(reason := WithReason(last.reason, ep.reason))]
    else out + [ep]
  }

  function Dedup(items: seq<EntryPoint>): seq<EntryPoint> {
    var sorted := Sorting.Sort(items, ByUid());
    Sorting.Sort(Folded(sorted, |sorted|), ByScore())
  }

  // dedup_keep_highest.
  method DedupKeepHighest(items: seq<EntryPoint>) returns (out: seq<EntryPoint>)
    ensures out == Dedup(items)
  {
    if items == [] {
      return [];
    }
    var sorted := Sorting.Sort(items, ByUid());
    out := [];
    for n := 0 to |sorted|
      invariant out == Folded(sorted, n)
    {
      var ep := sorted[n];
      if out != [] && out[|out| - 1].uid == ep.uid {
        var last := out[|out| - 1];
        if !Contains(last.reason, ep.reason) {
          last := last.(reason := last.reason + "; also: " + ep.reason);
        }
        out := out[..|out| - 1] + [last];
      } else {
        out := out + [ep];
      }
    }
    out := Sorting.Sort(out, ByScore());
  }

  // The entry that stands for an item: its uid, and its reason in the entry's.
  ghost predicate Covers(entry: EntryPoint, item: EntryPoint) {
    entry.uid == item.uid && Contains(entry.reason, item.reason)
  }

  ghost predicate Covered(out: seq<EntryPoint>, item: EntryPoint) {
    exists j :: 0 <= j < |out| && Covers(out[j], item)
  }

  // The entry has the score and kind of the best of the items with its uid: the highest
  // score, and of those the least tag.
  ghost predicate IsBest(items: seq<EntryPoint>, n: nat, entry: EntryPoint)
    requires n <= |items|
  {
    exists k: nat :: k < n && BestAt(items, n, entry, k)
  }

  ghost predicate BestAt(items: seq<EntryPoint>, n: nat, entry: EntryPoint, k: nat)
    requires k < n <= |items|
  {
    && items[k].uid == entry.uid && items[k].score == entry.score && items[k].kind == entry.kind
    && forall l :: 0 <= l < n && items[l].uid == entry.uid ==> UidFirst(items[k], items[l])
  }

  ghost predicate UidsAscend(out: seq<EntryPoint>) {
    forall i, j :: 0 <= i < j < |out| ==> out[i].uid != out[j].uid && StrLe(out[i].uid, out[j].uid)
  }

  // What the fold of the first n sorted items is.
  ghost predicate FoldsTo(items: seq<EntryPoint>, n: nat, out: seq<EntryPoint>)
    requires n <= |items|
  {
    && (n > 0 ==> out != [] && out[|out| - 1].uid == items[n - 1].uid)
    && UidsAscend(out) && AllCovered(items, n, out) && AllBest(items, n, out)
  }

  ghost predicate AllCovered(items: seq<EntryPoint>, n: nat, out: seq<EntryPoint>)
    requires n <= |items|
  {
    forall k :: 0 <= k < n ==> Covered(out, items[k])
  }

  ghost predicate AllBest(items: seq<EntryPoint>, n: nat, out: seq<EntryPoint>)
    requires n <= |items|
  {
    forall j :: 0 <= j < |out| ==> IsBest(items, n, out[j])
  }

  // The first n items are sorted.
  ghost predicate InOrder(items: seq<EntryPoint>, n: nat)
    requires n <= |items|
  {
    n <= 1 || (InOrder(items, n - 1) && UidFirst(items[n - 2], items[n - 1]))
  }

  lemma {:induction false} SortedInOrder(items: seq<EntryPoint>, n: nat)
    requires n <= |items| && Sorting.SortedBy(items, ByUid())
    ensures InOrder(items, n)
  {
    if n > 1 {
      SortedInOrder(items, n - 1);
      assert ByUid()(items[n - 2], items[n - 1]);
    }
  }

  lemma {:induction false} BeforeLast(items: seq<EntryPoint>, n: nat, k: nat)
    requires k < n <= |items| && InOrder(items, n)
    ensures UidFirst(items[k], items[n - 1])
  {
    if k == n - 1 {
      StrLeIsTotal(Tag(items[k].kind), Tag(items[k].kind));
    } else if k < n - 2 {
      BeforeLast(items, n - 1, k);
      UidFirstIsTransitive(items[k], items[n - 2], items[n - 1]);
    }
  }

  lemma FoldedIs(items: seq<EntryPoint>)
    requires InOrder(items, |items|)
    ensures FoldsTo(items, |items|, Folded(items, |items|))
  {
    FoldedUids(items, |items|);
    FoldedCovers(items, |items|);
    FoldedBest(items, |items|);
  }

  lemma {:induction false} FoldedUids(items: seq<EntryPoint>, n: nat)
    requires n <= |items| && InOrder(items, n)
    ensures UidsAscend(Folded(items, n))
    ensures n > 0 ==> Folded(items, n) != [] && Folded(items, n)[|Folded(items, n)| - 1].uid == items[n - 1].uid
  {
    if n > 0 {
      FoldedUids(items, n - 1);
      var before, ep := Folded(items, n - 1), items[n - 1];
      if before == [] || before[|before| - 1].uid != ep.uid {
        LastIsNew(before, ep);
      } else {
        LastKeepsUid(before, ep);
      }
    }
  }

  lemma {:induction false} FoldedCovers(items: seq<EntryPoint>, n: nat)
    requires n <= |items|
    ensures AllCovered(items, n, Folded(items, n))
  {
    if n > 0 {
      FoldedCovers(items, n - 1);
      var before := Folded(items, n - 1);
      if before != [] && before[|before| - 1].uid == items[n - 1].uid {
        CoveredInLast(items, n, before);
      } else {
        CoveredAnew(items, n, before);
      }
    }
  }

  lemma {:induction false} FoldedBest(items: seq<EntryPoint>, n: nat)
    requires n <= |items| && InOrder(items, n)
    ensures AllBest(items, n, Folded(items, n))
  {
    if n > 0 {
      FoldedBest(items, n - 1);
      if n > 1 && items[n - 2].uid == items[n - 1].uid {
        FoldedUids(items, n - 1);
        BestInLast(items, n, Folded(items, n - 1));
      } else {
        BestOfNew(items, n);
      }
    }
  }

  lemma BestOfNew(items: seq<EntryPoint>, n: nat)
    requires 0 < n <= |items| && InOrder(items, n) && AllBest(items, n - 1, Folded(items, n - 1))
    requires n > 1 ==> items[n - 2].uid != items[n - 1].uid
    ensures AllBest(items, n, Folded(items, n))
  {
    FoldedUids(items, n - 1);
    FoldedCovers(items, n - 1);
    LastUidIsNew(items, n);
    UidIsNew(items, n, Folded(items, n - 1));
    BestAnew(items, n, Folded(items, n - 1));
  }

  lemma LastUidIsNew(items: seq<EntryPoint>, n: nat)
    requires 0 < n <= |items| && InOrder(items, n)
    requires Folded(items, n - 1) == [] || Folded(items, n - 1)[|Folded(items, n - 1)| - 1].uid != items[n - 1].uid
    ensures UidsAscend(Folded(items, n - 1) + [items[n - 1]])
  {
    FoldedUids(items, n);
  }

  lemma StillBest(items: seq<EntryPoint>, n: nat, entry: EntryPoint, now: EntryPoint)
    requires 0 < n <= |items| && InOrder(items, n) && IsBest(items, n - 1, entry)
    requires now.uid == entry.uid && now.score == entry.score && now.kind == entry.kind
    ensures IsBest(items, n, now)
  {
    var k: nat :| k < n - 1 && BestAt(items, n - 1, entry, k);
    BeforeLast(items, n, k);
    assert BestAt(items, n, now, k);
  }

  lemma BestInLast(items: seq<EntryPoint>, n: nat, before: seq<EntryPoint>)
    requires 0 < n <= |items| && InOrder(items, n) && AllBest(items, n - 1, before)
    requires before != [] && before[|before| - 1].uid == items[n - 1].uid
    ensures AllBest(items, n, FoldOne(before, items[n - 1]))
  {
    var out := FoldOne(before, items[n - 1]);
    forall j | 0 <= j < |out| ensures IsBest(items, n, out[j]) {
      StillBest(items, n, before[j], out[j]);
    }
  }

  lemma CoveredInLast(items: seq<EntryPoint>, n: nat, before: seq<EntryPoint>)
    requires 0 < n <= |items| && AllCovered(items, n - 1, before)
    requires before != [] && before[|before| - 1].uid == items[n - 1].uid
    ensures AllCovered(items, n, FoldOne(before, items[n - 1]))
  {
    var out, last := FoldOne(before, items[n - 1]), before[|before| - 1];
    WithReasonHolds(last.reason, items[n - 1].reason);
    forall k | 0 <= k < n ensures Covered(out, items[k]) {
      if k < n - 1 {
        StillCovered(before, items[n - 1], items[k]);
      } else {
        assert Covers(out[|out| - 1], items[k]);
      }
    }
  }

  // An entry that takes in another still covers what it did.
  lemma StillCovered(before: seq<EntryPoint>, ep: EntryPoint, item: EntryPoint)
    requires before != [] && before[|before| - 1].uid == ep.uid && Covered(before, item)
    ensures Covered(FoldOne(before, ep), item)
  {
    var j :| 0 <= j < |before| && Covers(before[j], item);
    WithReasonHolds(before[|before| - 1].reason, ep.reason);
    assert Covers(FoldOne(before, ep)[j], item);
  }

  lemma LastKeepsUid(before: seq<EntryPoint>, ep: EntryPoint)
    requires UidsAscend(before) && before != [] && before[|before| - 1].uid == ep.uid
    ensures UidsAscend(FoldOne(before, ep))
  {
    var out := FoldOne(before, ep);
    forall i, j | 0 <= i < j < |out| ensures out[i].uid != out[j].uid && StrLe(out[i].uid, out[j].uid) {
      assert out[i].uid == before[i].uid && out[j].uid == before[j].uid;
    }
  }

  lemma LastIsNew(before: seq<EntryPoint>, ep: EntryPoint)
    requires UidsAscend(before)
    requires before == [] || (before[|before| - 1].uid != ep.uid && StrLe(before[|before| - 1].uid, ep.uid))
    ensures UidsAscend(before + [ep])
  {
    forall i | 0 <= i < |before| ensures before[i].uid != ep.uid && StrLe(before[i].uid, ep.uid) {
      UidsBelow(before, i, ep);
    }
  }

  lemma CoveredAnew(items: seq<EntryPoint>, n: nat, before: seq<EntryPoint>)
    requires 0 < n <= |items| && AllCovered(items, n - 1, before)
    ensures AllCovered(items, n, before + [items[n - 1]])
  {
    var ep := items[n - 1];
    var out := before + [ep];
    forall k | 0 <= k < n ensures Covered(out, items[k]) {
      if k < n - 1 {
        var j :| 0 <= j < |before| && Covers(before[j], items[k]);
        assert Covers(out[j], items[k]);
      } else {
        assert StartsAt(ep.reason, ep.reason, 0);
        assert Covers(out[|out| - 1], items[k]);
      }
    }
  }

  lemma UidIsNew(items: seq<EntryPoint>, n: nat, before: seq<EntryPoint>)
    requires 0 < n <= |items| && AllCovered(items, n - 1, before)
    requires UidsAscend(before + [items[n - 1]])
    ensures forall l :: 0 <= l < n - 1 ==> items[l].uid != items[n - 1].uid
  {
    var out := before + [items[n - 1]];
    forall l | 0 <= l < n - 1 ensures items[l].uid != items[n - 1].uid {
      var j :| 0 <= j < |before| && Covers(before[j], items[l]);
      assert out[j].uid != out[|before|].uid;
    }
  }

  lemma BestAnew(items: seq<EntryPoint>, n: nat, before: seq<EntryPoint>)
    requires 0 < n <= |items| && InOrder(items, n) && AllBest(items, n - 1, before)
    requires forall l :: 0 <= l < n - 1 ==> items[l].uid != items[n - 1].uid
    ensures AllBest(items, n, before + [items[n - 1]])
  {
    var ep := items[n - 1];
    BeforeLast(items, n, n - 1);
    assert BestAt(items, n, ep, n - 1);
    forall j | 0 <= j < |before| ensures IsBest(items, n, before[j]) {
      StillBest(items, n, before[j], before[j]);
    }
  }

  lemma UidsBelow(before: seq<EntryPoint>, i: nat, ep: EntryPoint)
    requires i < |before| && UidsAscend(before)
    requires before[|before| - 1].uid != ep.uid && StrLe(before[|before| - 1].uid, ep.uid)
    ensures before[i].uid != ep.uid && StrLe(before[i].uid, ep.uid)
  {
    var last := before[|before| - 1];
    if i < |before| - 1 {
      StrLeIsTransitive(before[i].uid, last.uid, ep.uid);
      StrLeIsTotal(before[i].uid, last.uid);
    }
  }

  ghost predicate DistinctUids(out: seq<EntryPoint>) {
    forall i, j :: 0 <= i < j < |out| ==> out[i].uid != out[j].uid
  }

  // The entry of a handler: its highest score, and in its reason the reasons of all.
  ghost predicate StandsFor(entry: EntryPoint, items: seq<EntryPoint>) {
    && (exists item :: item in items && item.uid == entry.uid && item.score == entry.score && item.kind == entry.kind)
    && forall item :: item in items && item.uid == entry.uid ==>
         && item.score <= entry.score
         && (item.score == entry.score ==> TagLe(entry, item))
         && Contains(entry.reason, item.reason)
  }

  ghost predicate HasEntry(out: seq<EntryPoint>, uid: string) {
    exists j :: 0 <= j < |out| && out[j].uid == uid
  }

  ghost predicate Represents(out: seq<EntryPoint>, items: seq<EntryPoint>) {
    && (forall item :: item in items ==> HasEntry(out, item.uid))
    && (forall entry :: entry in out ==> StandsFor(entry, items))
  }

  lemma CoveredHasEntry(sorted: seq<EntryPoint>, folded: seq<EntryPoint>, item: EntryPoint)
    requires AllCovered(sorted, |sorted|, folded) && item in sorted
    ensures HasEntry(folded, item.uid)
  {
    var k :| 0 <= k < |sorted| && sorted[k] == item;
    var j :| 0 <= j < |folded| && Covers(folded[j], sorted[k]);
    assert folded[j].uid == item.uid;
  }

  lemma FoldedRepresents(sorted: seq<EntryPoint>)
    requires Sorting.SortedBy(sorted, ByUid())
    ensures DistinctUids(Folded(sorted, |sorted|)) && Represents(Folded(sorted, |sorted|), sorted)
  {
    SortedInOrder(sorted, |sorted|);
    FoldedIs(sorted);
    FoldRepresents(sorted, Folded(sorted, |sorted|));
  }

  lemma FoldRepresents(sorted: seq<EntryPoint>, folded: seq<EntryPoint>)
    requires FoldsTo(sorted, |sorted|, folded)
    ensures Represents(folded, sorted)
  {
    forall item | item in sorted ensures HasEntry(folded, item.uid) {
      CoveredHasEntry(sorted, folded, item);
    }
    forall entry | entry in folded ensures StandsFor(entry, sorted) {
      var j :| 0 <= j < |folded| && folded[j] == entry;
      BestStands(sorted, folded, j);
    }
  }

  lemma RepresentsInAnyOrder(
      out: seq<EntryPoint>, items: seq<EntryPoint>, out': seq<EntryPoint>, items': seq<EntryPoint>)
    requires Represents(out, items) && multiset(out) == multiset(out') && multiset(items) == multiset(items')
    ensures Represents(out', items')
  {
    Sorting.MultisetMembers(out, out');
    Sorting.MultisetMembers(items, items');
    forall item | item in items' ensures HasEntry(out', item.uid) {
      assert HasEntry(out, item.uid);
      var j :| 0 <= j < |out| && out[j].uid == item.uid;
      assert out[j] in out';
    }
    forall entry | entry in out' ensures StandsFor(entry, items') {
      StandsForMembers(entry, items, items');
    }
  }

  // One entry for each uid, and that entry is right.
  lemma DedupIsExact(items: seq<EntryPoint>)
    ensures
      var out := Dedup(items);
      DistinctUids(out) && Sorting.SortedBy(out, ByScore()) && Represents(out, items)
  {
    OrdersAreTotal();
    var sorted := Sorting.Sort(items, ByUid());
    Sorting.SortSorts(items, ByUid());
    var folded := Folded(sorted, |sorted|);
    FoldedRepresents(sorted);
    Sorting.SortSorts(folded, ByScore());
    KeepsDistinct(folded, Dedup(items));
    RepresentsInAnyOrder(folded, sorted, Dedup(items), items);
  }

  lemma StandsForMembers(entry: EntryPoint, a: seq<EntryPoint>, b: seq<EntryPoint>)
    requires StandsFor(entry, a) && forall item :: item in a <==> item in b
    ensures StandsFor(entry, b)
  {
    var item :| item in a && item.uid == entry.uid && item.score == entry.score && item.kind == entry.kind;
    assert item in b;
  }

  lemma BestStands(sorted: seq<EntryPoint>, folded: seq<EntryPoint>, j: nat)
    requires FoldsTo(sorted, |sorted|, folded) && j < |folded|
    ensures StandsFor(folded[j], sorted)
  {
    var entry := folded[j];
    assert IsBest(sorted, |sorted|, entry);
    var k: nat :| k < |sorted| && BestAt(sorted, |sorted|, entry, k);
    assert sorted[k] in sorted;
    forall item | item in sorted && item.uid == entry.uid
      ensures item.score <= entry.score && (item.score == entry.score ==> TagLe(entry, item))
      ensures Contains(entry.reason, item.reason)
    {
      var l :| 0 <= l < |sorted| && sorted[l] == item;
      assert UidFirst(sorted[k], sorted[l]) && Covered(folded, sorted[l]);
      var i :| 0 <= i < |folded| && Covers(folded[i], item);
      assert i == j;
    }
  }

  lemma KeepsDistinct(a: seq<EntryPoint>, b: seq<EntryPoint>)
    requires multiset(a) == multiset(b) && DistinctUids(a)
    ensures DistinctUids(b)
  {
    assert Sorting.Distinct(a);
    Sorting.RearrangedDistinct(a, b);
    Sorting.MultisetMembers(a, b);
    forall i, j | 0 <= i < j < |b| ensures b[i].uid != b[j].uid {
      assert b[i] in a && b[j] in a;
      var k :| 0 <= k < |a| && a[k] == b[i];
      var l :| 0 <= l < |a| && a[l] == b[j];
      assert k != l;
    }
  }

  // Distinct uids fold to themselves.
  lemma {:induction false} NothingFolds(items: seq<EntryPoint>, n: nat)
    requires n <= |items| && DistinctUids(items)
    ensures Folded(items, n) == items[..n]
  {
    if n > 0 {
      NothingFolds(items, n - 1);
    }
  }

  // Two orders of the same entries, both sorted, begin alike, ...
  lemma SameFirst(a: seq<EntryPoint>, b: seq<EntryPoint>)
    requires multiset(a) == multiset(b) && DistinctUids(a) && a != [] && b != []
    requires Sorting.SortedBy(a, ByScore()) && Sorting.SortedBy(b, ByScore())
    ensures a[0] == b[0]
  {
    Sorting.MultisetMembers(a, b);
    assert a[0] in a && b[0] in b;
    var j :| 0 <= j < |b| && b[j] == a[0];
    var i :| 0 <= i < |a| && a[i] == b[0];
    if i > 0 && j > 0 {
      assert ByScore()(a[0], a[i]) && ByScore()(b[0], b[j]);
      StrLeIsTotal(a[0].uid, b[0].uid);
      assert false;
    }
  }

  // ... and go on alike.
  lemma {:induction false} SortedOnce(a: seq<EntryPoint>, b: seq<EntryPoint>)
    requires multiset(a) == multiset(b) && DistinctUids(a)
    requires Sorting.SortedBy(a, ByScore()) && Sorting.SortedBy(b, ByScore())
    ensures a == b
  {
    assert |multiset(a)| == |multiset(b)|;
    if a != [] {
      SameFirst(a, b);
      assert a == [a[0]] + a[1..] && b == [b[0]] + b[1..];
      assert multiset(a[1..]) == multiset(a) - multiset{a[0]} == multiset(b[1..]);
      SortedOnce(a[1..], b[1..]);
    }
  }

  // A second run changes nothing.
  lemma DedupTwice(items: seq<EntryPoint>)
    ensures Dedup(Dedup(items)) == Dedup(items)
  {
    var out := Dedup(items);
    DedupIsExact(items);
    OrdersAreTotal();
    var sorted := Sorting.Sort(out, ByUid());
    Sorting.SortSorts(out, ByUid());
    KeepsDistinct(out, sorted);
    NothingFolds(sorted, |sorted|);
    assert sorted[..|sorted|] == sorted;
    var again := Sorting.Sort(sorted, ByScore());
    Sorting.SortSorts(sorted, ByScore());
    KeepsDistinct(sorted, again);
    SortedOnce(again, out);
  }
}
