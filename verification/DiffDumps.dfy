// parity_aggregate.py and review_diffs.py run on one dump: when the two scripts agree on their counts.
module DiffDumps {
  import opened Options
  import opened Sets
  import opened DiffRows
  import opened DiffAccounting
  import opened DiffOrders

  // The four files of one language: both whole sides, and, of an old dump, the two
  // differences.
  datatype Dump = Dump(rsAll: set<Row>, refAll: set<Row>, rsOnly: set<Row>, refOnly: set<Row>)

  predicate HasAll(d: Dump) {
    d.rsAll != {} || d.refAll != {}
  }

  // The sides lang_summary reads: the differences stand in when there are no whole sides.
  function SummaryRs(d: Dump): set<Row> {
    if HasAll(d) then d.rsAll else d.rsOnly
  }

  function SummaryRef(d: Dump): set<Row> {
    if HasAll(d) then d.refAll else d.refOnly
  }

  ghost predicate SummaryOrder(d: Dump, o: Orders) {
    IsOrder(o, SummaryRs(d) - SummaryRef(d), SummaryRef(d) - SummaryRs(d))
  }

  ghost predicate ReviewOrder(d: Dump, o: Orders) {
    IsOrder(o, d.rsAll - d.refAll, d.refAll - d.rsAll)
  }

  const NOTHING: Counts := Counts(0, 0, 0)

  ghost function SummaryCounts(d: Dump, equiv: EquivMap, o: Orders): Counts {
    OrderCounts(SummaryRs(d), SummaryRef(d), equiv, o)
  }

  // classify_lang has nothing to stand in.
  ghost function ReviewCounts(d: Dump, equiv: EquivMap, o: Orders): Counts {
    if HasAll(d) then OrderCounts(d.rsAll, d.refAll, equiv, o) else NOTHING
  }

  lemma EmptyCounts(equiv: EquivMap, o: Orders)
    requires IsOrder(o, {}, {})
    ensures OrderCounts({}, {}, equiv, o) == NOTHING
  {
    var none: set<Row> := {};
    assert none - none == none && none - DoubleEmits(none, none, none) == none;
    assert RefDropped(o) == {} && Matchable(none, none) == {};
    assert Sorted(none, RsBucket(none, equiv), Model) == {} && Sorted(none, RsBucket(none, equiv), Gap) == {};
    assert Sorted(none, RefBucket(none, equiv), Model) == {} && Sorted(none, RefBucket(none, equiv), Gap) == {};
  }

  // lang_summary: None is its status "missing".
  method Summary(d: Dump, equiv: EquivMap, o: Orders) returns (buckets: Option<Tally>)
    requires IsEquivMap(equiv) && SummaryOrder(d, o)
    ensures buckets.None? <==> SummaryRs(d) == {} && SummaryRef(d) == {}
    ensures TallyCounts(buckets) == SummaryCounts(d, equiv, o)
  {
    var rs, ref := d.rsAll, d.refAll;
    if rs == {} && ref == {} {
      rs, ref := d.rsOnly, d.refOnly;
    }
    if rs == {} && ref == {} {
      EmptyCounts(equiv, o);
      return None;
    }
    var tally, aliasPairs, prefixPairs := LangSummary(rs, ref, equiv, o);
    return Some(tally);
  }

  function TallyCounts(buckets: Option<Tally>): Counts {
    match buckets
    case None => NOTHING
    case Some(b) => Counts(b.model, b.realRs, b.realRef)
  }

  // classify_lang.
  method Review(d: Dump, equiv: EquivMap, o: Orders) returns (buckets: Lists4)
    requires IsEquivMap(equiv) && ReviewOrder(d, o)
    ensures Counts(|buckets.model|, |buckets.realRs|, |buckets.realRef|) == ReviewCounts(d, equiv, o)
  {
    if d.rsAll == {} && d.refAll == {} {
      return Lists4([], [], [], []);
    }
    var constDoubles, templateDoubles, prefixPairs, aliases;
    ghost var rsLeft, refLeft;
    buckets, constDoubles, templateDoubles, prefixPairs, aliases, rsLeft, refLeft :=
      ClassifyLang(d.rsAll, d.refAll, equiv, o);
  }

  ghost function SummaryReaches(d: Dump, equiv: EquivMap): iset<Counts> {
    ReachedCounts(SummaryRs(d), SummaryRef(d), equiv)
  }

  ghost function ReviewReaches(d: Dump, equiv: EquivMap): iset<Counts> {
    if HasAll(d) then ReachedCounts(d.rsAll, d.refAll, equiv) else iset{NOTHING}
  }

  // Whatever the orders of either, the two scripts count alike.
  ghost predicate ScriptsAgree(d: Dump, equiv: EquivMap) {
    AlwaysEqual(SummaryReaches(d, equiv), ReviewReaches(d, equiv))
  }

  ghost predicate AlwaysEqual(a: iset<Counts>, b: iset<Counts>) {
    forall c, c' :: c in a && c' in b ==> c == c'
  }

  // The rows of the two differences leave nothing to count: all but routes and route entries
  // are label-equivalent to the other side or double emits; each rs route is the prefixed
  // form of a ref route of its own; and the other ref routes are as many, file by file, as
  // the route entries.
  ghost predicate RowsCountNothing(rs: set<Row>, ref: set<Row>, equiv: EquivMap) {
    var rsOnly, refOnly := rs - ref, ref - rs;
    && OnlyRoutesRs(rsOnly, ref, equiv) && OnlyRoutesRef(refOnly, rs, ref, equiv)
    && forall f :: FileCountsNothing(rsOnly, refOnly, f)
  }

  predicate OnlyRoutesRs(rsOnly: set<Row>, ref: set<Row>, equiv: EquivMap) {
    forall r :: r in rsOnly ==> IsRoute(r) || IsRouteEntry(r) || Labelled(r, ref, equiv)
  }

  predicate OnlyRoutesRef(refOnly: set<Row>, rs: set<Row>, ref: set<Row>, equiv: EquivMap) {
    forall r :: r in refOnly ==>
      IsRoute(r) || Labelled(r, rs, equiv) || IsConstDouble(r, rs, ref) || IsTemplateDouble(r, rs, ref)
  }

  ghost predicate FileCountsNothing(rsOnly: set<Row>, refOnly: set<Row>, f: string) {
    var matches := |InFile(Matchable(rsOnly, refOnly), f)|;
    && |InFile(Routes(rsOnly), f)| == matches
    && |InFile(Routes(refOnly), f)| == |InFile(RouteEntries(rsOnly), f)| + matches
  }

  // The rows a run sorts into each bucket, before the passes drop routes of them.
  ghost function RsModels(rs: set<Row>, ref: set<Row>, equiv: EquivMap): set<Row> {
    Sorted(rs - ref, RsBucket(ref, equiv), Model)
  }

  ghost function RsGaps(rs: set<Row>, ref: set<Row>, equiv: EquivMap): set<Row> {
    Sorted(rs - ref, RsBucket(ref, equiv), Gap)
  }

  ghost function RefModels(rs: set<Row>, ref: set<Row>, equiv: EquivMap): set<Row> {
    Sorted(ref - rs, RefBucket(rs, equiv), Model)
  }

  ghost function RefGaps(rs: set<Row>, ref: set<Row>, equiv: EquivMap): set<Row> {
    Sorted(ref - rs - DoubleEmits(ref - rs, rs, ref), RefBucket(rs, equiv), Gap)
  }

  // Route entries are models and routes are gaps, ...
  lemma RoutesInBuckets(rs: set<Row>, ref: set<Row>, equiv: EquivMap)
    requires IsEquivMap(equiv)
    ensures RouteEntries(rs - ref) <= RsModels(rs, ref, equiv)
    ensures Routes(rs - ref) <= RsGaps(rs, ref, equiv) && Routes(ref - rs) <= RefGaps(rs, ref, equiv)
  {
    RoutesHaveNoLabelClass(equiv);
  }

  // ... and there is nothing else in these buckets exactly if the rows are as stated.
  lemma OnlyRoutesRsIff(rs: set<Row>, ref: set<Row>, equiv: EquivMap)
    requires IsEquivMap(equiv)
    ensures OnlyRoutesRs(rs - ref, ref, equiv) <==>
              RsModels(rs, ref, equiv) == RouteEntries(rs - ref) && RsGaps(rs, ref, equiv) == Routes(rs - ref)
  {
    RoutesInBuckets(rs, ref, equiv);
    forall r | r in rs - ref
      ensures r in RsModels(rs, ref, equiv) || r in RsGaps(rs, ref, equiv) || Labelled(r, ref, equiv)
    {
      assert RsBucket(ref, equiv)(r) != Label || Labelled(r, ref, equiv);
    }
  }

  lemma OnlyRoutesRefIff(rs: set<Row>, ref: set<Row>, equiv: EquivMap)
    requires IsEquivMap(equiv)
    ensures OnlyRoutesRef(ref - rs, rs, ref, equiv) <==>
              RefModels(rs, ref, equiv) == {} && RefGaps(rs, ref, equiv) == Routes(ref - rs)
  {
    RoutesInBuckets(rs, ref, equiv);
    forall r | r in ref - rs
      ensures r in RefModels(rs, ref, equiv) <==> !Labelled(r, rs, equiv) && r.kind in MODEL_REF_ONLY
      ensures r in RefGaps(rs, ref, equiv) <==>
                && !Labelled(r, rs, equiv) && r.kind !in MODEL_REF_ONLY
                && !IsConstDouble(r, rs, ref) && !IsTemplateDouble(r, rs, ref)
    {
    }
  }

  // The rs routes that a ref route matches, and the ref routes they stand for.
  ghost function Prefixed(rsOnly: set<Row>, refOnly: set<Row>): set<Row> {
    set r | r in rsOnly && IsPrefixedRoute(r) && BareRoute(r) in refOnly
  }

  ghost function BareRoutes(rows: set<Row>): set<Row> {
    set r | r in rows :: BareRoute(r)
  }

  lemma {:induction false} NoMoreBareRoutes(rows: set<Row>)
    ensures |BareRoutes(rows)| <= |rows|
    decreases |rows|
  {
    if rows != {} {
      var r :| r in rows;
      NoMoreBareRoutes(rows - {r});
      assert BareRoutes(rows) == BareRoutes(rows - {r}) + {BareRoute(r)};
    }
  }

  lemma MatchesInFile(rsOnly: set<Row>, refOnly: set<Row>, f: string)
    ensures |InFile(Matchable(rsOnly, refOnly), f)| <= |InFile(Routes(rsOnly), f)|
  {
    var mine := InFile(Prefixed(rsOnly, refOnly), f);
    assert InFile(Matchable(rsOnly, refOnly), f) == BareRoutes(mine);
    NoMoreBareRoutes(mine);
    CardMonotone(mine, InFile(Routes(rsOnly), f));
  }

  lemma FewerMatches(rsOnly: set<Row>, refOnly: set<Row>)
    ensures |Matchable(rsOnly, refOnly)| <= |Routes(rsOnly)|
    ensures |Matchable(rsOnly, refOnly)| == |Routes(rsOnly)| <==>
              forall f :: |InFile(Routes(rsOnly), f)| == |InFile(Matchable(rsOnly, refOnly), f)|
  {
    var matches, routes := Matchable(rsOnly, refOnly), Routes(rsOnly);
    forall f ensures |InFile(matches, f)| <= |InFile(routes, f)| {
      MatchesInFile(rsOnly, refOnly, f);
    }
    FewerPerFile(matches, routes);
    if |matches| == |routes| {
      forall f ensures |InFile(routes, f)| == |InFile(matches, f)| {
        NoFileHasFewer(matches, routes, f);
      }
    } else if forall f :: |InFile(routes, f)| == |InFile(matches, f)| {
      SameCountPerFile(routes, matches);
    }
  }

  // A run that counts nothing has dropped every route entry, matched every rs route, and
  // found each ref route dropped or matched.
  lemma NothingForces(rs: set<Row>, ref: set<Row>, equiv: EquivMap, dropRs: set<Row>, dropRef: set<Row>)
    requires IsEquivMap(equiv) && AliasOutcome(rs - ref, ref - rs, dropRs, dropRef) && |dropRs| == |dropRef|
    requires CountsOf(rs, ref, equiv, dropRef) == NOTHING
    ensures RsModels(rs, ref, equiv) == RouteEntries(rs - ref) == dropRs && RefModels(rs, ref, equiv) == {}
    ensures RsGaps(rs, ref, equiv) == Routes(rs - ref)
    ensures |Matchable(rs - ref, ref - rs)| == |Routes(rs - ref)|
    ensures RefGaps(rs, ref, equiv) == Routes(ref - rs) == dropRef + Matchable(rs - ref, ref - rs)
    ensures dropRef !! Matchable(rs - ref, ref - rs)
  {
    RoutesInBuckets(rs, ref, equiv);
    NoModelsLeft(rs, ref, equiv, dropRs, dropRef);
    NoRsGapsLeft(rs, ref, equiv, dropRef);
    NoRefGapsLeft(rs, ref, equiv, dropRef);
  }

  lemma NoModelsLeft(rs: set<Row>, ref: set<Row>, equiv: EquivMap, dropRs: set<Row>, dropRef: set<Row>)
    requires dropRs <= RouteEntries(rs - ref) <= RsModels(rs, ref, equiv) && |dropRs| == |dropRef|
    requires |RsModels(rs, ref, equiv)| + |RefModels(rs, ref, equiv)| == |dropRef|
    ensures RsModels(rs, ref, equiv) == RouteEntries(rs - ref) == dropRs && RefModels(rs, ref, equiv) == {}
  {
    CardMonotone(dropRs, RsModels(rs, ref, equiv));
    SubsetOfSameCard(dropRs, RsModels(rs, ref, equiv));
  }

  lemma NoRsGapsLeft(rs: set<Row>, ref: set<Row>, equiv: EquivMap, dropRef: set<Row>)
    requires Routes(rs - ref) <= RsGaps(rs, ref, equiv)
    requires |RsGaps(rs, ref, equiv)| == PrefixPairs(rs - ref, ref - rs, dropRef)
    ensures RsGaps(rs, ref, equiv) == Routes(rs - ref)
    ensures |Matchable(rs - ref, ref - rs)| == |Routes(rs - ref)| && dropRef !! Matchable(rs - ref, ref - rs)
  {
    FewerMatches(rs - ref, ref - rs);
    CardMonotone(Routes(rs - ref), RsGaps(rs, ref, equiv));
    SubsetOfSameCard(Routes(rs - ref), RsGaps(rs, ref, equiv));
    var common := Matchable(rs - ref, ref - rs) * dropRef;
    forall r | r in dropRef ensures r !in Matchable(rs - ref, ref - rs) {
      assert common == {} && r !in common;
    }
  }

  lemma NoRefGapsLeft(rs: set<Row>, ref: set<Row>, equiv: EquivMap, dropRef: set<Row>)
    requires dropRef <= Routes(ref - rs) <= RefGaps(rs, ref, equiv)
    requires dropRef !! Matchable(rs - ref, ref - rs)
    requires |RefGaps(rs, ref, equiv)| == |dropRef| + PrefixPairs(rs - ref, ref - rs, dropRef)
    ensures RefGaps(rs, ref, equiv) == Routes(ref - rs) == dropRef + Matchable(rs - ref, ref - rs)
  {
    var matches := Matchable(rs - ref, ref - rs);
    assert matches * dropRef == {};
    CardSplit(dropRef + matches, dropRef, matches);
    assert matches <= Routes(ref - rs);
    SubsetOfSameCard(dropRef + matches, RefGaps(rs, ref, equiv));
  }

  // So its rows are as stated ...
  lemma NothingReached(rs: set<Row>, ref: set<Row>, equiv: EquivMap, o: Orders)
    requires IsEquivMap(equiv) && IsOrder(o, rs - ref, ref - rs) && OrderCounts(rs, ref, equiv, o) == NOTHING
    ensures RowsCountNothing(rs, ref, equiv)
  {
    var rsOnly, refOnly, dropRs, dropRef := rs - ref, ref - rs, RsDropped(o), RefDropped(o);
    DropsAreOutcome(o, rsOnly, refOnly);
    NothingForces(rs, ref, equiv, dropRs, dropRef);
    OnlyRoutesRsIff(rs, ref, equiv);
    OnlyRoutesRefIff(rs, ref, equiv);
    FewerMatches(rsOnly, refOnly);
    forall f ensures FileCountsNothing(rsOnly, refOnly, f) {
      assert |InFile(dropRs, f)| == |InFile(dropRef, f)|;
      FileSplit(Routes(refOnly), dropRef, Matchable(rsOnly, refOnly), f);
    }
  }

  lemma FileSplit(whole: set<Row>, a: set<Row>, b: set<Row>, f: string)
    requires whole == a + b && a !! b
    ensures |InFile(whole, f)| == |InFile(a, f)| + |InFile(b, f)|
  {
    CardSplit(InFile(whole, f), InFile(a, f), InFile(b, f));
  }

  // ... and of such rows, the orders that drop every entry and spare every matched route
  // count nothing.
  lemma ReachesNothing(rs: set<Row>, ref: set<Row>, equiv: EquivMap)
    requires IsEquivMap(equiv) && RowsCountNothing(rs, ref, equiv)
    ensures NOTHING in ReachedCounts(rs, ref, equiv)
  {
    var rsOnly, refOnly := rs - ref, ref - rs;
    var dropRs, dropRef := RouteEntries(rsOnly), Routes(refOnly) - Matchable(rsOnly, refOnly);
    SpareMatched(rsOnly, refOnly);
    var o := SomeOrder(rsOnly, refOnly, dropRs, dropRef);
    CountsNothing(rs, ref, equiv, dropRef);
    assert OrderCounts(rs, ref, equiv, o) in ReachedCounts(rs, ref, equiv);
  }

  lemma SpareMatched(rsOnly: set<Row>, refOnly: set<Row>)
    requires forall f :: FileCountsNothing(rsOnly, refOnly, f)
    ensures
      var dropRs, dropRef := RouteEntries(rsOnly), Routes(refOnly) - Matchable(rsOnly, refOnly);
      AliasOutcome(rsOnly, refOnly, dropRs, dropRef) && |dropRs| == |dropRef|
  {
    var dropRs, dropRef := RouteEntries(rsOnly), Routes(refOnly) - Matchable(rsOnly, refOnly);
    forall f ensures |InFile(dropRs, f)| == AliasesIn(rsOnly, refOnly, f) == |InFile(dropRef, f)| {
      assert FileCountsNothing(rsOnly, refOnly, f);
      FileSplit(Routes(refOnly), dropRef, Matchable(rsOnly, refOnly), f);
    }
    SameCountPerFile(dropRs, dropRef);
  }

  lemma CountsNothing(rs: set<Row>, ref: set<Row>, equiv: EquivMap, dropRef: set<Row>)
    requires IsEquivMap(equiv) && RowsCountNothing(rs, ref, equiv)
    requires dropRef == Routes(ref - rs) - Matchable(rs - ref, ref - rs) && |dropRef| == |RouteEntries(rs - ref)|
    ensures CountsOf(rs, ref, equiv, dropRef) == NOTHING
  {
    var matches := Matchable(rs - ref, ref - rs);
    OnlyRoutesRsIff(rs, ref, equiv);
    OnlyRoutesRefIff(rs, ref, equiv);
    forall f ensures |InFile(Routes(rs - ref), f)| == |InFile(matches, f)| {
      assert FileCountsNothing(rs - ref, ref - rs, f);
    }
    FewerMatches(rs - ref, ref - rs);
    assert matches * dropRef == {};
    CardSplit(Routes(ref - rs), dropRef, matches);
  }

  lemma ReachesNothingIff(rs: set<Row>, ref: set<Row>, equiv: EquivMap)
    requires IsEquivMap(equiv)
    ensures NOTHING in ReachedCounts(rs, ref, equiv) <==> RowsCountNothing(rs, ref, equiv)
  {
    if NOTHING in ReachedCounts(rs, ref, equiv) {
      var o :| IsOrder(o, rs - ref, ref - rs) && NOTHING == OrderCounts(rs, ref, equiv, o);
      NothingReached(rs, ref, equiv, o);
    }
    if RowsCountNothing(rs, ref, equiv) {
      ReachesNothing(rs, ref, equiv);
    }
  }

  // The condition on the rows of a dump.
  ghost predicate Comparable(d: Dump, equiv: EquivMap) {
    && OrderFree(SummaryRs(d) - SummaryRef(d), SummaryRef(d) - SummaryRs(d))
    && (HasAll(d) || RowsCountNothing(SummaryRs(d), SummaryRef(d), equiv))
  }

  // The scripts agree exactly if the orders have no choice that matters and the dump has
  // whole sides, or differences whose rows leave nothing to count.
  lemma ScriptsAgreeIff(d: Dump, equiv: EquivMap)
    requires IsEquivMap(equiv)
    ensures ScriptsAgree(d, equiv) <==> Comparable(d, equiv)
  {
    OrdersAgreeIff(SummaryRs(d), SummaryRef(d), equiv);
    ReachesNothingIff(SummaryRs(d), SummaryRef(d), equiv);
    var c := SomeCount(SummaryRs(d), SummaryRef(d), equiv);
    AgreeOnNothing(SummaryReaches(d, equiv), ReviewReaches(d, equiv), HasAll(d), c);
  }

  lemma SomeCount(rsAll: set<Row>, refAll: set<Row>, equiv: EquivMap) returns (c: Counts)
    ensures c in ReachedCounts(rsAll, refAll, equiv)
  {
    var o := AnyOrder(rsAll - refAll, refAll - rsAll);
    c := OrderCounts(rsAll, refAll, equiv, o);
  }

  lemma AgreeOnNothing(summary: iset<Counts>, review: iset<Counts>, sameRows: bool, c: Counts)
    requires c in summary && review == if sameRows then summary else iset{NOTHING}
    ensures AlwaysEqual(summary, review) <==> OneCount(summary) && (sameRows || NOTHING in summary)
  {
  }

  lemma AnyOrder(rsOnly: set<Row>, refOnly: set<Row>) returns (o: Orders)
    ensures IsOrder(o, rsOnly, refOnly)
  {
    var rs := SomeList(rsOnly);
    var ref := SomeList(refOnly);
    o := Orders(rs, ref);
  }

  // An old dump with differences only: the summary counts a row the review never reads.
  lemma StaleDumpDisagrees(equiv: EquivMap)
    requires IsEquivMap(equiv)
    ensures
      var folder := Row("Folder", "src", "src");
      var d, o, o' := Dump({}, {}, {}, {folder}), Orders([], [folder]), Orders([], []);
      && SummaryOrder(d, o) && ReviewOrder(d, o')
      && SummaryCounts(d, equiv, o) == Counts(1, 0, 0) && ReviewCounts(d, equiv, o') == NOTHING
  {
    var folder := Row("Folder", "src", "src");
    var o, refOnly: set<Row> := Orders([], [folder]), {folder};
    assert o.ref[0] == folder && SummaryRef(Dump({}, {}, {}, {folder})) - {} == refOnly;
    FolderCounts(equiv, o, folder);
  }

  lemma FolderCounts(equiv: EquivMap, o: Orders, folder: Row)
    requires folder.kind == "Folder" && o == Orders([], [folder])
    ensures OrderCounts({}, {folder}, equiv, o) == Counts(1, 0, 0)
  {
    var none: set<Row> := {};
    assert {folder} - none == {folder} && none - {folder} == none;
    DropsAreOutcome(o, none, {folder});
    assert Routes({folder}) == {} && RefDropped(o) == {};
    assert Matchable(none, {folder}) == {} && DoubleEmits({folder}, none, {folder}) == {};
    assert KindsAt(none, folder.path, folder.name) == {};
    var sort := RefBucket(none, equiv);
    assert sort(folder) == Model;
    assert Sorted({folder}, sort, Model) == {folder} && Sorted({folder} - {}, sort, Gap) == {};
    assert Sorted(none, RsBucket({folder}, equiv), Model) == {} && Sorted(none, RsBucket({folder}, equiv), Gap) == {};
  }

  // Both scripts on one dump.
  method RunBoth(d: Dump, equiv: EquivMap, o: Orders, o': Orders) returns (summary: Option<Tally>, review: Lists4)
    requires IsEquivMap(equiv) && SummaryOrder(d, o) && ReviewOrder(d, o')
    ensures Comparable(d, equiv) ==>
              TallyCounts(summary) == Counts(|review.model|, |review.realRs|, |review.realRef|)
  {
    summary := Summary(d, equiv, o);
    review := Review(d, equiv, o');
    ScriptsAgreeIff(d, equiv);
    assert SummaryCounts(d, equiv, o) in SummaryReaches(d, equiv);
    assert ReviewCounts(d, equiv, o') in ReviewReaches(d, equiv);
  }
}
