// parity_aggregate.py and its mirror review_diffs.py: passes and counts, in whatever order a run walks a set.
module DiffAccounting {
  import opened DiffRows
  import opened DiffFates
  import opened Sets

  // The orders in which a run walks the two sets.
  datatype Orders = Orders(rs: seq<Row>, ref: seq<Row>)

  ghost predicate IsOrder(o: Orders, rsOnly: set<Row>, refOnly: set<Row>) {
    Lists(o.rs, rsOnly) && Lists(o.ref, refOnly)
  }

  // The rows of one file that a pass looks at, in the order it meets them.
  function RowsIn(order: seq<Row>, wanted: Row -> bool, file: string): seq<Row> {
    if order == [] then []
    else
      var row := order[|order| - 1];
      RowsIn(order[..|order| - 1], wanted, file) + if wanted(row) && row.path == file then [row] else []
  }

  ghost function WantedIn(rows: set<Row>, wanted: Row -> bool, file: string): set<Row> {
    set r | r in rows && wanted(r) && r.path == file
  }

  lemma {:induction false} RowsInFile(order: seq<Row>, rows: set<Row>, wanted: Row -> bool, file: string)
    requires Lists(order, rows)
    ensures Lists(RowsIn(order, wanted, file), WantedIn(rows, wanted, file))
  {
    if order == [] {
      assert rows == {};
    } else {
      var before, row := order[..|order| - 1], order[|order| - 1];
      ListsAllButLast(order, rows);
      RowsInFile(before, rows - {row}, wanted, file);
      if wanted(row) && row.path == file {
        ListsOneMore(RowsIn(before, wanted, file), WantedIn(rows - {row}, wanted, file), row);
        assert row in rows;
        assert WantedIn(rows, wanted, file) == WantedIn(rows - {row}, wanted, file) + {row};
      } else {
        assert WantedIn(rows, wanted, file) == WantedIn(rows - {row}, wanted, file);
      }
    }
  }

  // Route entries and routes of a file, in the order of the run.
  function EntryRows(o: Orders, file: string): seq<Row> {
    RowsIn(o.rs, r => IsRouteEntry(r), file)
  }

  function RouteRows(o: Orders, file: string): seq<Row> {
    RowsIn(o.ref, r => IsRoute(r), file)
  }

  lemma FileRows(o: Orders, rsOnly: set<Row>, refOnly: set<Row>, file: string)
    requires IsOrder(o, rsOnly, refOnly)
    ensures Lists(EntryRows(o, file), InFile(RouteEntries(rsOnly), file))
    ensures Lists(RouteRows(o, file), InFile(Routes(refOnly), file))
    ensures Aliases(o, file) == AliasesIn(rsOnly, refOnly, file)
  {
    RowsInFile(o.rs, rsOnly, r => IsRouteEntry(r), file);
    RowsInFile(o.ref, refOnly, r => IsRoute(r), file);
    assert InFile(RouteEntries(rsOnly), file) == WantedIn(rsOnly, r => IsRouteEntry(r), file);
    assert InFile(Routes(refOnly), file) == WantedIn(refOnly, r => IsRoute(r), file);
    ListsCard(EntryRows(o, file), InFile(RouteEntries(rsOnly), file));
    ListsCard(RouteRows(o, file), InFile(Routes(refOnly), file));
  }

  function Aliases(o: Orders, file: string): (n: nat)
    ensures n <= |EntryRows(o, file)| && n <= |RouteRows(o, file)|
  {
    Min(|EntryRows(o, file)|, |RouteRows(o, file)|)
  }

  // What the alias pass drops: in each file, as many of the first rows of either list as
  // the shorter one has.
  function RsDropped(o: Orders): set<Row> {
    set r | r in o.rs && r in EntryRows(o, r.path)[..Aliases(o, r.path)]
  }

  function RefDropped(o: Orders): set<Row> {
    set r | r in o.ref && r in RouteRows(o, r.path)[..Aliases(o, r.path)]
  }

  lemma DroppedInFile(o: Orders, rsOnly: set<Row>, refOnly: set<Row>, file: string)
    requires IsOrder(o, rsOnly, refOnly)
    ensures InFile(RsDropped(o), file) == SetOf(EntryRows(o, file)[..Aliases(o, file)])
    ensures InFile(RefDropped(o), file) == SetOf(RouteRows(o, file)[..Aliases(o, file)])
    ensures |InFile(RsDropped(o), file)| == |InFile(RefDropped(o), file)| == AliasesIn(rsOnly, refOnly, file)
  {
    FileRows(o, rsOnly, refOnly, file);
    var n, entries, routes := Aliases(o, file), EntryRows(o, file), RouteRows(o, file);
    forall r | r in entries[..n] ensures r in InFile(RsDropped(o), file) {
      assert r in entries;
    }
    forall r | r in routes[..n] ensures r in InFile(RefDropped(o), file) {
      assert r in routes;
    }
    DistinctCard(entries[..n]);
    DistinctCard(routes[..n]);
  }

  lemma DroppedAreRoutes(o: Orders, rsOnly: set<Row>, refOnly: set<Row>)
    requires IsOrder(o, rsOnly, refOnly)
    ensures RsDropped(o) <= RouteEntries(rsOnly) && RefDropped(o) <= Routes(refOnly)
  {
    forall r | r in RsDropped(o) ensures r in RouteEntries(rsOnly) {
      FileRows(o, rsOnly, refOnly, r.path);
      assert r in EntryRows(o, r.path);
    }
    forall r | r in RefDropped(o) ensures r in Routes(refOnly) {
      FileRows(o, rsOnly, refOnly, r.path);
      assert r in RouteRows(o, r.path);
    }
  }

  // Whatever the orders: in each file, that many rows of each side.
  lemma DropsAreOutcome(o: Orders, rsOnly: set<Row>, refOnly: set<Row>)
    requires IsOrder(o, rsOnly, refOnly)
    ensures AliasOutcome(rsOnly, refOnly, RsDropped(o), RefDropped(o))
    ensures |RsDropped(o)| == |RefDropped(o)|
  {
    DroppedAreRoutes(o, rsOnly, refOnly);
    forall f ensures |InFile(RsDropped(o), f)| == AliasesIn(rsOnly, refOnly, f) == |InFile(RefDropped(o), f)| {
      DroppedInFile(o, rsOnly, refOnly, f);
    }
    SameCountPerFile(RsDropped(o), RefDropped(o));
  }

  // byFile.get(file, []).
  function RowsOf(byFile: map<string, seq<Row>>, file: string): seq<Row> {
    if file in byFile then byFile[file] else []
  }

  // rs_by_file / ref_by_file: the rows of each file, in the order of the run.
  method BucketByFile(order: seq<Row>, wanted: Row -> bool) returns (byFile: map<string, seq<Row>>)
    ensures forall f :: RowsOf(byFile, f) == RowsIn(order, wanted, f)
  {
    byFile := map[];
    for i := 0 to |order|
      invariant forall f :: RowsOf(byFile, f) == RowsIn(order[..i], wanted, f)
    {
      assert order[..i + 1][..i] == order[..i];
      if wanted(order[i]) {
        byFile := byFile[order[i].path := RowsOf(byFile, order[i].path) + [order[i]]];
      }
    }
    assert order[..|order|] == order;
  }

  ghost predicate PairsUp(pairs: seq<(Row, Row)>, dropRs: set<Row>, dropRef: set<Row>) {
    && |pairs| == |dropRs|
    && forall i :: 0 <= i < |pairs| ==>
         pairs[i].0 in dropRs && pairs[i].1 in dropRef && pairs[i].0.path == pairs[i].1.path
  }

  // The drops in the files that are done.
  ghost function RsDroppedIn(o: Orders, done: set<string>): set<Row> {
    set r | r in RsDropped(o) && r.path in done
  }

  ghost function RefDroppedIn(o: Orders, done: set<string>): set<Row> {
    set r | r in RefDropped(o) && r.path in done
  }

  // The pairs of one file.
  function FilePairs(o: Orders, fp: string): seq<(Row, Row)> {
    seq(Aliases(o, fp), i requires 0 <= i < Aliases(o, fp) => (EntryRows(o, fp)[i], RouteRows(o, fp)[i]))
  }

  // What one more file drops ...
  lemma DropFile(o: Orders, rsOnly: set<Row>, refOnly: set<Row>, done: set<string>, fp: string)
    requires IsOrder(o, rsOnly, refOnly) && fp !in done
    ensures RsDroppedIn(o, done + {fp}) == RsDroppedIn(o, done) + SetOf(EntryRows(o, fp)[..Aliases(o, fp)])
    ensures RefDroppedIn(o, done + {fp}) == RefDroppedIn(o, done) + SetOf(RouteRows(o, fp)[..Aliases(o, fp)])
    ensures |RsDroppedIn(o, done + {fp})| == |RsDroppedIn(o, done)| + Aliases(o, fp)
  {
    DroppedInFile(o, rsOnly, refOnly, fp);
    FileRows(o, rsOnly, refOnly, fp);
    OneMoreFile(o, done, fp);
  }

  lemma OneMoreFile(o: Orders, done: set<string>, fp: string)
    requires fp !in done
    ensures RsDroppedIn(o, done + {fp}) == RsDroppedIn(o, done) + InFile(RsDropped(o), fp)
    ensures RefDroppedIn(o, done + {fp}) == RefDroppedIn(o, done) + InFile(RefDropped(o), fp)
    ensures |RsDroppedIn(o, done + {fp})| == |RsDroppedIn(o, done)| + |InFile(RsDropped(o), fp)|
  {
    var before, here := RsDroppedIn(o, done), InFile(RsDropped(o), fp);
    FileBeside(RsDropped(o), done, fp);
    FileBeside(RefDropped(o), done, fp);
    CardSplit(before + here, before, here);
  }

  lemma FileBeside(rows: set<Row>, done: set<string>, fp: string)
    requires fp !in done
    ensures
      var before, after := (set r | r in rows && r.path in done), (set r | r in rows && r.path in done + {fp});
      after == before + InFile(rows, fp) && before !! InFile(rows, fp)
  {
  }

  // ... and pairs.
  lemma PairFile(o: Orders, rsOnly: set<Row>, refOnly: set<Row>, done: set<string>, fp: string, pairs: seq<(Row, Row)>)
    requires IsOrder(o, rsOnly, refOnly) && fp !in done
    requires PairsUp(pairs, RsDroppedIn(o, done), RefDroppedIn(o, done))
    ensures PairsUp(pairs + FilePairs(o, fp), RsDroppedIn(o, done + {fp}), RefDroppedIn(o, done + {fp}))
  {
    DropFile(o, rsOnly, refOnly, done, fp);
    PairedRows(o, rsOnly, refOnly, fp);
    PairsUpGrows(
      pairs, RsDroppedIn(o, done), RefDroppedIn(o, done), FilePairs(o, fp),
      SetOf(EntryRows(o, fp)[..Aliases(o, fp)]), SetOf(RouteRows(o, fp)[..Aliases(o, fp)]));
  }

  lemma PairsUpGrows(
      pairs: seq<(Row, Row)>, dropRs: set<Row>, dropRef: set<Row>,
      more: seq<(Row, Row)>, moreRs: set<Row>, moreRef: set<Row>)
    requires PairsUp(pairs, dropRs, dropRef) && |dropRs + moreRs| == |dropRs| + |more|
    requires forall i :: 0 <= i < |more| ==>
               more[i].0 in moreRs && more[i].1 in moreRef && more[i].0.path == more[i].1.path
    ensures PairsUp(pairs + more, dropRs + moreRs, dropRef + moreRef)
  {
  }

  lemma PairedRows(o: Orders, rsOnly: set<Row>, refOnly: set<Row>, fp: string)
    requires IsOrder(o, rsOnly, refOnly)
    ensures
      var n, entries, routes := Aliases(o, fp), EntryRows(o, fp), RouteRows(o, fp);
      forall i :: 0 <= i < n ==>
        && entries[i] in SetOf(entries[..n]) && routes[i] in SetOf(routes[..n])
        && entries[i].path == routes[i].path == fp
  {
    var n, entries, routes := Aliases(o, fp), EntryRows(o, fp), RouteRows(o, fp);
    FileRows(o, rsOnly, refOnly, fp);
    forall i | 0 <= i < n
      ensures entries[i] in SetOf(entries[..n]) && routes[i] in SetOf(routes[..n])
      ensures entries[i].path == routes[i].path == fp
    {
      assert entries[..n][i] in entries[..n] && routes[..n][i] in routes[..n];
      assert entries[i] in entries && routes[i] in routes;
    }
  }

  lemma AllFilesDone(o: Orders, rsOnly: set<Row>, refOnly: set<Row>, done: set<string>)
    requires IsOrder(o, rsOnly, refOnly) && forall f :: f !in done ==> RouteRows(o, f) == []
    ensures RsDroppedIn(o, done) == RsDropped(o) && RefDroppedIn(o, done) == RefDropped(o)
  {
    forall f | f !in done ensures InFile(RsDropped(o), f) == {} == InFile(RefDropped(o), f) {
      DroppedInFile(o, rsOnly, refOnly, f);
    }
    assert forall r :: r in RsDropped(o) ==> r in InFile(RsDropped(o), r.path);
    assert forall r :: r in RefDropped(o) ==> r in InFile(RefDropped(o), r.path);
  }

  // _pair_route_aliases. The pairs are what the review lists; the aggregate keeps
  // their number.
  method PairRouteAliases(rsOnly: set<Row>, refOnly: set<Row>, o: Orders)
      returns (rsLeft: set<Row>, refLeft: set<Row>, pairs: seq<(Row, Row)>)
    requires IsOrder(o, rsOnly, refOnly)
    ensures rsLeft == rsOnly - RsDropped(o) && refLeft == refOnly - RefDropped(o)
    ensures PairsUp(pairs, RsDropped(o), RefDropped(o))
  {
    var rsByFile := BucketByFile(o.rs, r => IsRouteEntry(r));
    var refByFile := BucketByFile(o.ref, r => IsRoute(r));
    var rsDrops: set<Row>, refDrops: set<Row> := {}, {};
    pairs := [];
    var files := refByFile.Keys;
    ghost var done: set<string> := {};
    while files != {}
      invariant files !! done && files + done == refByFile.Keys
      invariant rsDrops == RsDroppedIn(o, done) && refDrops == RefDroppedIn(o, done)
      invariant PairsUp(pairs, rsDrops, refDrops)
    {
      var fp :| fp in files;
      DropFile(o, rsOnly, refOnly, done, fp);
      PairFile(o, rsOnly, refOnly, done, fp, pairs);
      var rsMore, refMore, more := PairRows(o, fp, RowsOf(rsByFile, fp), RowsOf(refByFile, fp));
      rsDrops, refDrops, pairs := rsDrops + rsMore, refDrops + refMore, pairs + more;
      files, done := files - {fp}, done + {fp};
    }
    forall f | f !in done ensures RouteRows(o, f) == [] {
      assert RowsOf(refByFile, f) == RouteRows(o, f);
    }
    AllFilesDone(o, rsOnly, refOnly, done);
    rsLeft, refLeft := rsOnly - rsDrops, refOnly - refDrops;
  }

  // The body of the loop over the files: pair the first n rows of both lists.
  method PairRows(ghost o: Orders, ghost fp: string, rsRows: seq<Row>, refRows: seq<Row>)
      returns (rsMore: set<Row>, refMore: set<Row>, more: seq<(Row, Row)>)
    requires rsRows == EntryRows(o, fp) && refRows == RouteRows(o, fp)
    ensures rsMore == SetOf(EntryRows(o, fp)[..Aliases(o, fp)])
    ensures refMore == SetOf(RouteRows(o, fp)[..Aliases(o, fp)])
    ensures more == FilePairs(o, fp)
  {
    var n := Min(|rsRows|, |refRows|);
    rsMore, refMore := SetOf(rsRows[..n]), SetOf(refRows[..n]);
    more := seq(n, i requires 0 <= i < n => (rsRows[i], refRows[i]));
  }

  // The prefixed rs routes seen so far, against the ref routes they matched.
  ghost predicate Matching(
      seen: set<Row>, refOnly: set<Row>, dropRs: set<Row>, paired: set<(string, string)>, matched: set<Row>)
  {
    && matched == Matchable(seen, refOnly)
    && (forall p, n :: (p, n) in paired <==> Row("Route", p, n) in matched)
    && dropRs <= seen && (forall r :: r in dropRs ==> IsPrefixedRoute(r))
    && |dropRs| == |matched|
  }

  lemma MatchOne(
      seen: set<Row>, refOnly: set<Row>, dropRs: set<Row>, paired: set<(string, string)>, matched: set<Row>, row: Row)
    requires Matching(seen, refOnly, dropRs, paired, matched) && row !in seen
    ensures
      var bare := BareRoute(row);
      var key := (bare.path, bare.name);
      if IsPrefixedRoute(row) && bare in refOnly && key !in paired
      then Matching(seen + {row}, refOnly, dropRs + {row}, paired + {key}, matched + {bare})
      else Matching(seen + {row}, refOnly, dropRs, paired, matched)
  {
    var bare := BareRoute(row);
    MatchableGrows(seen, refOnly, row);
    assert bare == Row("Route", bare.path, bare.name);
    if IsPrefixedRoute(row) && bare in refOnly {
      if (bare.path, bare.name) in paired {
        assert matched + {bare} == matched;
      } else {
        PairOneKey(paired, matched, bare);
      }
    }
  }

  lemma PairOneKey(paired: set<(string, string)>, matched: set<Row>, bare: Row)
    requires bare.kind == "Route" && forall p, n :: (p, n) in paired <==> Row("Route", p, n) in matched
    ensures forall p, n :: (p, n) in paired + {(bare.path, bare.name)} <==> Row("Route", p, n) in matched + {bare}
  {
  }

  lemma MatchableGrows(seen: set<Row>, refOnly: set<Row>, row: Row)
    ensures
      Matchable(seen + {row}, refOnly) ==
      Matchable(seen, refOnly) + if IsPrefixedRoute(row) && BareRoute(row) in refOnly then {BareRoute(row)} else {}
  {
  }

  // ref_route_pn.
  function RouteKeys(rows: set<Row>): set<(string, string)> {
    set r | r in rows && IsRoute(r) :: (r.path, r.name)
  }

  lemma RouteKeyOf(rows: set<Row>, path: string, name: string)
    ensures (path, name) in RouteKeys(rows) <==> Row("Route", path, name) in rows
  {
    assert Row("Route", path, name) in rows ==> IsRoute(Row("Route", path, name));
  }

  lemma MatchedRows(
      rsOnly: set<Row>, refOnly: set<Row>, dropRs: set<Row>, paired: set<(string, string)>, matched: set<Row>)
    requires Matching(rsOnly, refOnly, dropRs, paired, matched)
    ensures (set r | r in refOnly && IsRoute(r) && (r.path, r.name) in paired) == Matchable(rsOnly, refOnly)
  {
  }

  // _pair_route_method_prefix: of the rs routes naming one ref route, the first met
  // is dropped with it.
  method PairMethodPrefix(rsOnly: set<Row>, refOnly: set<Row>)
      returns (rsLeft: set<Row>, refLeft: set<Row>, pairs: nat, ghost dropRs: set<Row>)
    ensures rsLeft == rsOnly - dropRs && refLeft == refOnly - Matchable(rsOnly, refOnly)
    ensures dropRs <= rsOnly && (forall r :: r in dropRs ==> IsPrefixedRoute(r))
    ensures pairs == |dropRs| == |Matchable(rsOnly, refOnly)|
  {
    var refRoutePn := RouteKeys(refOnly);
    var rsDrops, paired := {}, {};
    ghost var seen, matched := {}, {};
    var rest := rsOnly;
    while rest != {}
      invariant rest !! seen && rest + seen == rsOnly
      invariant Matching(seen, refOnly, rsDrops, paired, matched)
    {
      var row :| row in rest;
      MatchOne(seen, refOnly, rsDrops, paired, matched, row);
      RouteKeyOf(refOnly, row.path, StripMethodPrefix(row.name));
      rest, seen := rest - {row}, seen + {row};
      if IsRoute(row) {
        var normalized := StripMethodPrefix(row.name);
        if normalized != row.name {
          var key := (row.path, normalized);
          if key in refRoutePn && key !in paired {
            rsDrops, paired, matched := rsDrops + {row}, paired + {key}, matched + {BareRoute(row)};
          }
        }
      }
    }
    assert seen == rsOnly;
    MatchedRows(rsOnly, refOnly, rsDrops, paired, matched);
    var refDrops := set r | r in refOnly && IsRoute(r) && (r.path, r.name) in paired;
    rsLeft, refLeft, pairs, dropRs := rsOnly - rsDrops, refOnly - refDrops, |refDrops|, rsDrops;
  }

  // _pair_ref_const_function_double_emit.
  method PairConstFunction(refOnly: set<Row>, rsAll: set<Row>, refAll: set<Row>)
      returns (refLeft: set<Row>, drops: set<Row>)
    ensures refLeft == refOnly - drops && |refLeft| == |refOnly| - |drops|
    ensures drops == set r | r in refOnly && IsConstDouble(r, rsAll, refAll)
  {
    drops := {};
    var rest := refOnly;
    while rest != {}
      invariant rest <= refOnly
      invariant drops == set r | r in refOnly - rest && IsConstDouble(r, rsAll, refAll)
    {
      var row :| row in rest;
      rest := rest - {row};
      if IsConstDouble(row, rsAll, refAll) {
        drops := drops + {row};
      }
    }
    CardDifference(refOnly, drops);
    refLeft := refOnly - drops;
  }

  // _pair_ref_template_class_double_emit.
  method PairTemplateClass(refOnly: set<Row>, rsAll: set<Row>, refAll: set<Row>)
      returns (refLeft: set<Row>, drops: set<Row>)
    ensures refLeft == refOnly - drops && |refLeft| == |refOnly| - |drops|
    ensures drops == set r | r in refOnly && IsTemplateDouble(r, rsAll, refAll)
  {
    drops := {};
    var rest := refOnly;
    while rest != {}
      invariant rest <= refOnly
      invariant drops == set r | r in refOnly - rest && IsTemplateDouble(r, rsAll, refAll)
    {
      var row :| row in rest;
      rest := rest - {row};
      if IsTemplateDouble(row, rsAll, refAll) {
        drops := drops + {row};
      }
    }
    CardDifference(refOnly, drops);
    refLeft := refOnly - drops;
  }

  ghost predicate Tallies(labels: nat, models: nat, gaps: nat, rows: set<Row>, sort: Row -> Bucket) {
    && labels == |Sorted(rows, sort, Label)|
    && models == |Sorted(rows, sort, Model)|
    && gaps == |Sorted(rows, sort, Gap)|
  }

  lemma SortOne(seen: set<Row>, row: Row, sort: Row -> Bucket, bucket: Bucket)
    requires row !in seen
    ensures |Sorted(seen + {row}, sort, bucket)| == |Sorted(seen, sort, bucket)| + if sort(row) == bucket then 1 else 0
  {
    assert Sorted(seen + {row}, sort, bucket) == Sorted(seen, sort, bucket) + if sort(row) == bucket then {row} else {};
  }

  // A bucket loop of lang_summary.
  method CountBuckets(rows: set<Row>, sort: Row -> Bucket) returns (labels: nat, models: nat, gaps: nat)
    ensures Tallies(labels, models, gaps, rows, sort)
  {
    labels, models, gaps := 0, 0, 0;
    var rest := rows;
    ghost var seen := {};
    while rest != {}
      invariant rest !! seen && rest + seen == rows
      invariant Tallies(labels, models, gaps, seen, sort)
    {
      var row :| row in rest;
      SortOne(seen, row, sort, Label);
      SortOne(seen, row, sort, Model);
      SortOne(seen, row, sort, Gap);
      rest, seen := rest - {row}, seen + {row};
      match sort(row)
      case Label => labels := labels + 1;
      case Model => models := models + 1;
      case Gap => gaps := gaps + 1;
    }
  }

  // The three counts both scripts report, when the alias pass drops `dropRef`. Only
  // the number of prefix pairs depends on which rows it drops.
  datatype Counts = Counts(model: int, realRs: int, realRef: int)

  ghost function PrefixPairs(rsOnly: set<Row>, refOnly: set<Row>, dropRef: set<Row>): int {
    |Matchable(rsOnly, refOnly)| - |Matchable(rsOnly, refOnly) * dropRef|
  }

  ghost function CountsOf(rsAll: set<Row>, refAll: set<Row>, equiv: EquivMap, dropRef: set<Row>): Counts {
    var rsOnly, refOnly := rsAll - refAll, refAll - rsAll;
    var prefix := PrefixPairs(rsOnly, refOnly, dropRef);
    Counts(
      |Sorted(rsOnly, RsBucket(refAll, equiv), Model)| + |Sorted(refOnly, RefBucket(rsAll, equiv), Model)| - |dropRef|,
      |Sorted(rsOnly, RsBucket(refAll, equiv), Gap)| - prefix,
      |Sorted(refOnly - DoubleEmits(refOnly, rsAll, refAll), RefBucket(rsAll, equiv), Gap)| - |dropRef| - prefix)
  }

  // The rows left after the four passes, against the rows before them.
  lemma PassesOnlyMoveKinds(
      rsAll: set<Row>, refAll: set<Row>, equiv: EquivMap, dropRs: set<Row>, dropRef: set<Row>,
      prefixRs: set<Row>, matched: set<Row>, rsLeft: set<Row>, refLeft: set<Row>)
    requires IsEquivMap(equiv)
    requires AliasOutcome(rsAll - refAll, refAll - rsAll, dropRs, dropRef) && |dropRs| == |dropRef|
    requires prefixRs <= rsAll - refAll && (forall r :: r in prefixRs ==> IsPrefixedRoute(r))
    requires |prefixRs| == |matched|
    requires matched == Matchable(rsAll - refAll - dropRs, refAll - rsAll - dropRef)
    requires rsLeft == rsAll - refAll - dropRs - prefixRs
    requires refLeft == refAll - rsAll - dropRef - matched - DoubleEmits(refAll - rsAll, rsAll, refAll)
    ensures |Sorted(rsLeft, RsBucket(refAll, equiv), Model)| + |Sorted(refLeft, RefBucket(rsAll, equiv), Model)| ==
            CountsOf(rsAll, refAll, equiv, dropRef).model
    ensures |Sorted(rsLeft, RsBucket(refAll, equiv), Gap)| == CountsOf(rsAll, refAll, equiv, dropRef).realRs
    ensures |Sorted(refLeft, RefBucket(rsAll, equiv), Gap)| == CountsOf(rsAll, refAll, equiv, dropRef).realRef
  {
    var rsOnly, refOnly := rsAll - refAll, refAll - rsAll;
    RoutesHaveNoLabelClass(equiv);
    MatchableLeft(rsOnly, refOnly, dropRs, dropRef);
    RsBucketsLeft(rsOnly, refAll, equiv, dropRs, prefixRs);
    RefBucketsLeft(refOnly, rsAll, equiv, dropRef, matched, DoubleEmits(refOnly, rsAll, refAll));
  }

  lemma MatchableLeft(rsOnly: set<Row>, refOnly: set<Row>, dropRs: set<Row>, dropRef: set<Row>)
    requires dropRs <= RouteEntries(rsOnly)
    ensures
      var left := Matchable(rsOnly - dropRs, refOnly - dropRef);
      && left == Matchable(rsOnly, refOnly) - dropRef
      && |left| == PrefixPairs(rsOnly, refOnly, dropRef)
      && left <= Routes(refOnly) && dropRef !! left
  {
    var all, left := Matchable(rsOnly, refOnly), Matchable(rsOnly - dropRs, refOnly - dropRef);
    forall m | m in all - dropRef ensures m in left {
      var r :| r in rsOnly && IsPrefixedRoute(r) && BareRoute(r) in refOnly && BareRoute(r) == m;
      assert r in rsOnly - dropRs;
    }
    assert left == all - all * dropRef;
    CardDifference(all, all * dropRef);
  }

  // Dropping rows of one bucket, and others of other buckets.
  lemma DropFromBucket(rows: set<Row>, drop: set<Row>, others: set<Row>, sort: Row -> Bucket, bucket: Bucket)
    requires drop <= rows
    requires forall r :: r in drop ==> sort(r) == bucket
    requires forall r :: r in others ==> sort(r) != bucket
    ensures |Sorted(rows - (drop + others), sort, bucket)| == |Sorted(rows, sort, bucket)| - |drop|
  {
    assert Sorted(rows - (drop + others), sort, bucket) == Sorted(rows, sort, bucket) - drop;
    CardDifference(Sorted(rows, sort, bucket), drop);
  }

  lemma RsBucketsLeft(rsOnly: set<Row>, refAll: set<Row>, equiv: EquivMap, dropRs: set<Row>, prefixRs: set<Row>)
    requires "Route" !in equiv && "EntryPoint" !in equiv
    requires dropRs <= RouteEntries(rsOnly)
    requires prefixRs <= rsOnly && (forall r :: r in prefixRs ==> IsPrefixedRoute(r))
    ensures
      var sort, left := RsBucket(refAll, equiv), rsOnly - dropRs - prefixRs;
      && |Sorted(left, sort, Model)| == |Sorted(rsOnly, sort, Model)| - |dropRs|
      && |Sorted(left, sort, Gap)| == |Sorted(rsOnly, sort, Gap)| - |prefixRs|
  {
    var sort := RsBucket(refAll, equiv);
    assert rsOnly - dropRs - prefixRs == rsOnly - (dropRs + prefixRs) == rsOnly - (prefixRs + dropRs);
    forall r ensures IsRouteEntry(r) ==> sort(r) == Model {}
    forall r ensures IsPrefixedRoute(r) ==> sort(r) == Gap {}
    DropFromBucket(rsOnly, dropRs, prefixRs, sort, Model);
    DropFromBucket(rsOnly, prefixRs, dropRs, sort, Gap);
  }

  lemma RefBucketsLeft(
      refOnly: set<Row>, rsAll: set<Row>, equiv: EquivMap, dropRef: set<Row>, matched: set<Row>, doubles: set<Row>)
    requires "Route" !in equiv
    requires dropRef <= Routes(refOnly) && matched <= Routes(refOnly) && dropRef !! matched
    requires forall r :: r in doubles ==> r.kind == "Const" || r.kind == "Template"
    ensures
      var sort, left := RefBucket(rsAll, equiv), refOnly - dropRef - matched - doubles;
      && |Sorted(left, sort, Model)| == |Sorted(refOnly, sort, Model)|
      && |Sorted(left, sort, Gap)| == |Sorted(refOnly - doubles, sort, Gap)| - |dropRef| - |matched|
  {
    var sort, routes := RefBucket(rsAll, equiv), dropRef + matched;
    CardSplit(routes, dropRef, matched);
    NoModelsDropped(rsAll, equiv, routes, doubles);
    SameLeft(refOnly, dropRef, matched, doubles);
    DropFromBucket(refOnly, {}, routes + doubles, sort, Model);
    DropFromBucket(refOnly - doubles, routes, {}, sort, Gap);
  }

  lemma SameLeft(rows: set<Row>, a: set<Row>, b: set<Row>, c: set<Row>)
    ensures rows - a - b - c == rows - ({} + (a + b + c)) == rows - c - (a + b + {})
  {
  }

  lemma NoModelsDropped(rsAll: set<Row>, equiv: EquivMap, routes: set<Row>, doubles: set<Row>)
    requires "Route" !in equiv && forall r :: r in routes ==> IsRoute(r)
    requires forall r :: r in doubles ==> r.kind == "Const" || r.kind == "Template"
    ensures
      var sort := RefBucket(rsAll, equiv);
      && (forall r :: r in routes ==> sort(r) == Gap)
      && (forall r :: r in routes + doubles ==> sort(r) != Model)
  {
  }

  datatype Tally = Tally(model: nat, labelled: nat, realRs: nat, realRef: nat)

  lemma PassesTogether(
      rsAll: set<Row>, refAll: set<Row>, dropRef: set<Row>, matched: set<Row>,
      ref2: set<Row>, ref3: set<Row>, ref4: set<Row>)
    requires ref2 == refAll - rsAll - dropRef - matched
    requires dropRef <= Routes(refAll) && matched <= Routes(refAll)
    requires ref3 == ref2 - set r | r in ref2 && IsConstDouble(r, rsAll, refAll)
    requires ref4 == ref3 - set r | r in ref3 && IsTemplateDouble(r, rsAll, refAll)
    ensures ref4 == refAll - rsAll - dropRef - matched - DoubleEmits(refAll - rsAll, rsAll, refAll)
    ensures (set r | r in ref2 && IsConstDouble(r, rsAll, refAll)) == ConstDoubles(rsAll, refAll)
    ensures (set r | r in ref3 && IsTemplateDouble(r, rsAll, refAll)) == TemplateDoubles(rsAll, refAll)
  {
  }

  ghost function ConstDoubles(rsAll: set<Row>, refAll: set<Row>): set<Row> {
    set r | r in refAll - rsAll && IsConstDouble(r, rsAll, refAll)
  }

  ghost function TemplateDoubles(rsAll: set<Row>, refAll: set<Row>): set<Row> {
    set r | r in refAll - rsAll && IsTemplateDouble(r, rsAll, refAll)
  }

  // What no pass touches: rows that are no routes, route entries or double emits.
  ghost predicate OthersStay(rsAll: set<Row>, refAll: set<Row>, rsLeft: set<Row>, refLeft: set<Row>) {
    && (forall r :: r in rsAll - refAll && !IsRoute(r) && !IsRouteEntry(r) ==> r in rsLeft)
    && forall r :: r in refAll - rsAll && !IsRoute(r) ==>
         (r in refLeft <==> !IsConstDouble(r, rsAll, refAll) && !IsTemplateDouble(r, rsAll, refAll))
  }

  lemma OthersStayLeft(
      rsAll: set<Row>, refAll: set<Row>, dropRs: set<Row>, prefixRs: set<Row>, dropRef: set<Row>, matched: set<Row>,
      rsLeft: set<Row>, refLeft: set<Row>)
    requires dropRs <= RouteEntries(rsAll) && forall r :: r in prefixRs ==> IsPrefixedRoute(r)
    requires dropRef <= Routes(refAll) && matched <= Routes(refAll)
    requires rsLeft == rsAll - refAll - dropRs - prefixRs
    requires refLeft == refAll - rsAll - dropRef - matched - DoubleEmits(refAll - rsAll, rsAll, refAll)
    ensures OthersStay(rsAll, refAll, rsLeft, refLeft)
  {
  }

  // The four passes in the order both scripts run them.
  method RunPasses(rsAll: set<Row>, refAll: set<Row>, o: Orders, ghost equiv: EquivMap)
      returns (rsLeft: set<Row>, refLeft: set<Row>, aliases: seq<(Row, Row)>, prefixPairs: nat,
               constDoubles: set<Row>, templateDoubles: set<Row>)
    requires IsEquivMap(equiv) && IsOrder(o, rsAll - refAll, refAll - rsAll)
    ensures rsLeft <= rsAll - refAll && |rsAll - refAll| == |rsLeft| + |aliases| + prefixPairs
    ensures refLeft <= refAll - rsAll
    ensures |refAll - rsAll| == |refLeft| + |aliases| + prefixPairs + |constDoubles| + |templateDoubles|
    ensures |aliases| == |RefDropped(o)| && prefixPairs == PrefixPairs(rsAll - refAll, refAll - rsAll, RefDropped(o))
    ensures constDoubles == ConstDoubles(rsAll, refAll) && templateDoubles == TemplateDoubles(rsAll, refAll)
    ensures OthersStay(rsAll, refAll, rsLeft, refLeft)
    ensures |Sorted(rsLeft, RsBucket(refAll, equiv), Model)| + |Sorted(refLeft, RefBucket(rsAll, equiv), Model)| ==
            OrderCounts(rsAll, refAll, equiv, o).model
    ensures |Sorted(rsLeft, RsBucket(refAll, equiv), Gap)| == OrderCounts(rsAll, refAll, equiv, o).realRs
    ensures |Sorted(refLeft, RefBucket(rsAll, equiv), Gap)| == OrderCounts(rsAll, refAll, equiv, o).realRef
  {
    var rsOnly, refOnly := rsAll - refAll, refAll - rsAll;
    ghost var dropRs, dropRef := RsDropped(o), RefDropped(o);
    DropsAreOutcome(o, rsOnly, refOnly);
    var rs1, ref1;
    rs1, ref1, aliases := PairRouteAliases(rsOnly, refOnly, o);
    CardDifference(rsOnly, dropRs);
    CardDifference(refOnly, dropRef);
    ghost var prefixRs;
    var ref2;
    rsLeft, ref2, prefixPairs, prefixRs := PairMethodPrefix(rs1, ref1);
    CardDifference(rs1, prefixRs);
    CardDifference(ref1, Matchable(rs1, ref1));
    var ref3;
    ref3, constDoubles := PairConstFunction(ref2, rsAll, refAll);
    refLeft, templateDoubles := PairTemplateClass(ref3, rsAll, refAll);
    PassesTogether(rsAll, refAll, dropRef, Matchable(rs1, ref1), ref2, ref3, refLeft);
    PassesOnlyMoveKinds(rsAll, refAll, equiv, dropRs, dropRef, prefixRs, Matchable(rs1, ref1), rsLeft, refLeft);
    MatchableLeft(rsOnly, refOnly, dropRs, dropRef);
    OthersStayLeft(rsAll, refAll, dropRs, prefixRs, dropRef, Matchable(rs1, ref1), rsLeft, refLeft);
  }

  // The counts of a run that walks its sets in these orders.
  ghost function OrderCounts(rsAll: set<Row>, refAll: set<Row>, equiv: EquivMap, o: Orders): Counts {
    CountsOf(rsAll, refAll, equiv, RefDropped(o))
  }

  // The three counts in terms of the rows themselves: those the two models explain, those
  // nothing explains, and the routes and route entries that no pair takes.
  lemma CountsByRows(rsAll: set<Row>, refAll: set<Row>, equiv: EquivMap, o: Orders)
    requires IsEquivMap(equiv) && IsOrder(o, rsAll - refAll, refAll - rsAll)
    ensures
      var aliases := |RefDropped(o)|;
      var prefixed := PrefixPairs(rsAll - refAll, refAll - rsAll, RefDropped(o));
      OrderCounts(rsAll, refAll, equiv, o) == RowCounts(rsAll, refAll, aliases, prefixed)
  {
    RsBucketsAreFates(rsAll, refAll, equiv);
    RefBucketsAreFates(rsAll, refAll, equiv);
    CardSplit(RsExplained(rsAll, refAll) + RouteEntries(rsAll - refAll),
              RsExplained(rsAll, refAll), RouteEntries(rsAll - refAll));
    CardSplit(RsUnexplained(rsAll, refAll) + Routes(rsAll - refAll),
              RsUnexplained(rsAll, refAll), Routes(rsAll - refAll));
    CardSplit(RefUnexplained(rsAll, refAll) + Routes(refAll - rsAll),
              RefUnexplained(rsAll, refAll), Routes(refAll - rsAll));
  }

  ghost function RowCounts(rsAll: set<Row>, refAll: set<Row>, aliases: nat, prefixed: int): Counts {
    Counts(
      |RsExplained(rsAll, refAll)| + |RefExplained(rsAll, refAll)| + |RouteEntries(rsAll - refAll)| - aliases,
      |RsUnexplained(rsAll, refAll)| + |Routes(rsAll - refAll)| - prefixed,
      |RefUnexplained(rsAll, refAll)| + |Routes(refAll - rsAll)| - aliases - prefixed)
  }

  // lang_summary, on the rows it has read. Every diff row lands in one bucket; an alias
  // pair and a prefix pair put two rows into one label.
  method LangSummary(rsAll: set<Row>, refAll: set<Row>, equiv: EquivMap, o: Orders)
      returns (buckets: Tally, aliasPairs: nat, prefixPairs: nat)
    requires IsEquivMap(equiv) && IsOrder(o, rsAll - refAll, refAll - rsAll)
    ensures |rsAll - refAll| + |refAll - rsAll| ==
            buckets.model + buckets.labelled + buckets.realRs + buckets.realRef + aliasPairs + prefixPairs
    ensures Counts(buckets.model, buckets.realRs, buckets.realRef) == OrderCounts(rsAll, refAll, equiv, o)
    ensures Counts(buckets.model, buckets.realRs, buckets.realRef) == RowCounts(rsAll, refAll, aliasPairs, prefixPairs)
  {
    var rsLeft, refLeft, aliases, constDoubles, templateDoubles;
    rsLeft, refLeft, aliases, prefixPairs, constDoubles, templateDoubles := RunPasses(rsAll, refAll, o, equiv);
    aliasPairs := |aliases|;
    CountsByRows(rsAll, refAll, equiv, o);
    var rsLabels, rsModels, rsGaps := CountBuckets(rsLeft, RsBucket(refAll, equiv));
    var refLabels, refModels, refGaps := CountBuckets(refLeft, RefBucket(rsAll, equiv));
    SortedPartition(rsLeft, RsBucket(refAll, equiv));
    SortedPartition(refLeft, RefBucket(rsAll, equiv));
    buckets := Tally(
      rsModels + refModels,
      aliasPairs + prefixPairs + |constDoubles| + |templateDoubles| + rsLabels + refLabels,
      rsGaps, refGaps);
  }

  datatype Lists4 = Lists4(model: seq<Row>, labelled: seq<Row>, realRs: seq<Row>, realRef: seq<Row>)

  lemma ListOne(q: seq<Row>, seen: set<Row>, row: Row, sort: Row -> Bucket, bucket: Bucket)
    requires Lists(q, Sorted(seen, sort, bucket)) && row !in seen
    ensures Lists(if sort(row) == bucket then q + [row] else q, Sorted(seen + {row}, sort, bucket))
  {
    assert Sorted(seen + {row}, sort, bucket) == Sorted(seen, sort, bucket) + if sort(row) == bucket then {row} else {};
  }

  // A bucket loop of classify_lang: the rows of each bucket, listed.
  method ListBuckets(rows: set<Row>, sort: Row -> Bucket) returns (labels: seq<Row>, models: seq<Row>, gaps: seq<Row>)
    ensures Lists(labels, Sorted(rows, sort, Label))
    ensures Lists(models, Sorted(rows, sort, Model))
    ensures Lists(gaps, Sorted(rows, sort, Gap))
  {
    labels, models, gaps := [], [], [];
    var rest := rows;
    ghost var seen := {};
    while rest != {}
      invariant rest !! seen && rest + seen == rows
      invariant Lists(labels, Sorted(seen, sort, Label))
      invariant Lists(models, Sorted(seen, sort, Model))
      invariant Lists(gaps, Sorted(seen, sort, Gap))
    {
      var row :| row in rest;
      ListOne(labels, seen, row, sort, Label);
      ListOne(models, seen, row, sort, Model);
      ListOne(gaps, seen, row, sort, Gap);
      rest, seen := rest - {row}, seen + {row};
      match sort(row)
      case Label => labels := labels + [row];
      case Model => models := models + [row];
      case Gap => gaps := gaps + [row];
    }
    assert seen == rows;
  }

  // Row by row, routes and route entries aside: where the review lists it.
  ghost predicate ListedByRows(
      rsAll: set<Row>, refAll: set<Row>, buckets: Lists4, constDoubles: set<Row>, templateDoubles: set<Row>)
  {
    && (forall r :: r in rsAll - refAll && !IsRoute(r) && !IsRouteEntry(r) ==> RsListed(rsAll, refAll, buckets, r))
    && (forall r :: r in refAll - rsAll && !IsRoute(r) ==> RefListed(rsAll, refAll, buckets, r))
    && (forall r :: r in constDoubles <==> r in refAll - rsAll && IsArrowFunction(r, rsAll, refAll))
    && (forall r :: r in templateDoubles <==> r in refAll - rsAll && IsTemplateOfType(r, rsAll, refAll))
  }

  ghost predicate RsListed(rsAll: set<Row>, refAll: set<Row>, buckets: Lists4, r: Row) {
    && (r in buckets.realRs <==> r in RsUnexplained(rsAll, refAll))
    && (r in buckets.model <==> r in RsExplained(rsAll, refAll))
    && (r in buckets.labelled <==> HasTwin(refAll, r))
    && r !in buckets.realRef
  }

  ghost predicate RefListed(rsAll: set<Row>, refAll: set<Row>, buckets: Lists4, r: Row) {
    && (r in buckets.realRef <==> r in RefUnexplained(rsAll, refAll))
    && (r in buckets.model <==> r in RefExplained(rsAll, refAll))
    && r !in buckets.realRs && r !in buckets.labelled
  }

  ghost predicate ListedFrom(
      rsAll: set<Row>, refAll: set<Row>, equiv: EquivMap, rsLeft: set<Row>, refLeft: set<Row>, buckets: Lists4)
  {
    && Lists(buckets.realRs, Sorted(rsLeft, RsBucket(refAll, equiv), Gap))
    && Lists(buckets.realRef, Sorted(refLeft, RefBucket(rsAll, equiv), Gap))
    && Lists(buckets.labelled, Sorted(rsLeft, RsBucket(refAll, equiv), Label))
    && Lists(buckets.model,
             Sorted(rsLeft, RsBucket(refAll, equiv), Model) + Sorted(refLeft, RefBucket(rsAll, equiv), Model))
  }

  lemma ListsSayRows(
      rsAll: set<Row>, refAll: set<Row>, equiv: EquivMap, rsLeft: set<Row>, refLeft: set<Row>, buckets: Lists4,
      constDoubles: set<Row>, templateDoubles: set<Row>)
    requires IsEquivMap(equiv) && rsLeft <= rsAll - refAll && refLeft <= refAll - rsAll
    requires OthersStay(rsAll, refAll, rsLeft, refLeft)
    requires ListedFrom(rsAll, refAll, equiv, rsLeft, refLeft, buckets)
    requires constDoubles == ConstDoubles(rsAll, refAll) && templateDoubles == TemplateDoubles(rsAll, refAll)
    ensures ListedByRows(rsAll, refAll, buckets, constDoubles, templateDoubles)
  {
    forall r | r in rsAll - refAll && !IsRoute(r) && !IsRouteEntry(r) ensures RsListed(rsAll, refAll, buckets, r) {
      RsRowListed(rsAll, refAll, equiv, rsLeft, refLeft, buckets, r);
    }
    forall r | r in refAll - rsAll && !IsRoute(r) ensures RefListed(rsAll, refAll, buckets, r) {
      RefRowListed(rsAll, refAll, equiv, rsLeft, refLeft, buckets, r);
    }
    forall r
      ensures IsConstDouble(r, rsAll, refAll) <==> IsArrowFunction(r, rsAll, refAll)
      ensures IsTemplateDouble(r, rsAll, refAll) <==> IsTemplateOfType(r, rsAll, refAll)
    {
      ConstDoubleIsArrow(r, rsAll, refAll);
      TemplateDoubleIsType(r, rsAll, refAll);
    }
  }

  lemma RsRowListed(
      rsAll: set<Row>, refAll: set<Row>, equiv: EquivMap, rsLeft: set<Row>, refLeft: set<Row>, buckets: Lists4, r: Row)
    requires IsEquivMap(equiv) && rsLeft <= rsAll - refAll && refLeft <= refAll - rsAll
    requires OthersStay(rsAll, refAll, rsLeft, refLeft)
    requires ListedFrom(rsAll, refAll, equiv, rsLeft, refLeft, buckets)
    requires r in rsAll - refAll && !IsRoute(r) && !IsRouteEntry(r)
    ensures RsListed(rsAll, refAll, buckets, r)
  {
    LabelledIsTwin(refAll, r, equiv);
    ModelKinds(r.kind);
  }

  lemma RefRowListed(
      rsAll: set<Row>, refAll: set<Row>, equiv: EquivMap, rsLeft: set<Row>, refLeft: set<Row>, buckets: Lists4, r: Row)
    requires IsEquivMap(equiv) && rsLeft <= rsAll - refAll && refLeft <= refAll - rsAll
    requires OthersStay(rsAll, refAll, rsLeft, refLeft)
    requires ListedFrom(rsAll, refAll, equiv, rsLeft, refLeft, buckets)
    requires r in refAll - rsAll && !IsRoute(r)
    ensures RefListed(rsAll, refAll, buckets, r)
  {
    LabelledIsTwin(rsAll, r, equiv);
    ModelKinds(r.kind);
    ConstDoubleIsArrow(r, rsAll, refAll);
    TemplateDoubleIsType(r, rsAll, refAll);
  }

  // classify_lang, on the rows it has read: a label twin is listed on the rs side only.
  // The double emits are listed apart, as rows the review names by path and name.
  method ClassifyLang(rsAll: set<Row>, refAll: set<Row>, equiv: EquivMap, o: Orders)
      returns (buckets: Lists4, constDoubles: set<Row>, templateDoubles: set<Row>, prefixPairs: nat,
               aliases: seq<(Row, Row)>, ghost rsLeft: set<Row>, ghost refLeft: set<Row>)
    requires IsEquivMap(equiv) && IsOrder(o, rsAll - refAll, refAll - rsAll)
    ensures Counts(|buckets.model|, |buckets.realRs|, |buckets.realRef|) == OrderCounts(rsAll, refAll, equiv, o)
    ensures rsLeft <= rsAll - refAll && |rsAll - refAll| == |rsLeft| + |aliases| + prefixPairs
    ensures refLeft <= refAll - rsAll
    ensures |refAll - rsAll| == |refLeft| + |aliases| + prefixPairs + |constDoubles| + |templateDoubles|
    ensures ListedByRows(rsAll, refAll, buckets, constDoubles, templateDoubles)
    ensures Lists(buckets.realRs, Sorted(rsLeft, RsBucket(refAll, equiv), Gap))
    ensures Lists(buckets.realRef, Sorted(refLeft, RefBucket(rsAll, equiv), Gap))
    ensures Lists(buckets.labelled, Sorted(rsLeft, RsBucket(refAll, equiv), Label))
    ensures Lists(buckets.model,
                  Sorted(rsLeft, RsBucket(refAll, equiv), Model) + Sorted(refLeft, RefBucket(rsAll, equiv), Model))
  {
    var rs, ref;
    rs, ref, aliases, prefixPairs, constDoubles, templateDoubles := RunPasses(rsAll, refAll, o, equiv);
    rsLeft, refLeft := rs, ref;
    ghost var rsSort, refSort := RsBucket(refAll, equiv), RefBucket(rsAll, equiv);
    var rsLabels, rsModels, rsGaps := ListBuckets(rs, RsBucket(refAll, equiv));
    var _, refModels, refGaps := ListBuckets(ref, RefBucket(rsAll, equiv));
    ListsConcat(rsModels, Sorted(rs, rsSort, Model), refModels, Sorted(ref, refSort, Model));
    ListsCard(rsModels, Sorted(rs, rsSort, Model));
    ListsCard(rsGaps, Sorted(rs, rsSort, Gap));
    ListsCard(refModels, Sorted(ref, refSort, Model));
    ListsCard(refGaps, Sorted(ref, refSort, Gap));
    buckets := Lists4(rsModels + refModels, rsLabels, rsGaps, refGaps);
    ListsSayRows(rsAll, refAll, equiv, rs, ref, buckets, constDoubles, templateDoubles);
  }
}
