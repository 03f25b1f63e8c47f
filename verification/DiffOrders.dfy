// scripts/parity/parity_aggregate.py and review_diffs.py: what the order in which a run
// walks its sets can change.
module DiffOrders {
  import opened Sets
  import opened DiffRows
  import opened DiffAccounting

  // A file where the alias pass drops some routes but not all, and some of its
  // routes but not all could pair by prefix.
  ghost predicate Choosable(rsOnly: set<Row>, refOnly: set<Row>, f: string) {
    var aliases, matches := AliasesIn(rsOnly, refOnly, f), |InFile(Matchable(rsOnly, refOnly), f)|;
    var routes := |InFile(Routes(refOnly), f)|;
    !(aliases == 0 || aliases == routes || matches == 0 || matches == routes)
  }

  // In no file has the alias pass a choice that a prefix pair could notice.
  ghost predicate OrderFree(rsOnly: set<Row>, refOnly: set<Row>) {
    forall f :: !Choosable(rsOnly, refOnly, f)
  }

  lemma SubsetOfSameCard<T>(a: set<T>, b: set<T>)
    requires a <= b && |a| == |b|
    ensures a == b
  {
    CardDifference(b, a);
    assert b - a == {};
  }

  // In an order-free file the number of matchable routes dropped is forced.
  lemma ForcedHits(rsOnly: set<Row>, refOnly: set<Row>, dropRs: set<Row>, dropRef: set<Row>, f: string)
    requires AliasOutcome(rsOnly, refOnly, dropRs, dropRef) && OrderFree(rsOnly, refOnly)
    ensures
      var aliases, matches := AliasesIn(rsOnly, refOnly, f), |InFile(Matchable(rsOnly, refOnly), f)|;
      |InFile(Matchable(rsOnly, refOnly) * dropRef, f)| == Min(aliases, matches)
  {
    var matchable, dropped, routes :=
      InFile(Matchable(rsOnly, refOnly), f), InFile(dropRef, f), InFile(Routes(refOnly), f);
    assert InFile(Matchable(rsOnly, refOnly) * dropRef, f) == matchable * dropped;
    assert matchable <= routes && dropped <= routes;
    CardMonotone(matchable, routes);
    CardMonotone(dropped, routes);
    assert |dropped| == AliasesIn(rsOnly, refOnly, f) && !Choosable(rsOnly, refOnly, f);
    if |dropped| == |routes| {
      SubsetOfSameCard(dropped, routes);
      assert matchable * dropped == matchable;
    } else if |matchable| == |routes| {
      SubsetOfSameCard(matchable, routes);
      assert matchable * dropped == dropped;
    } else {
      assert matchable == {} || dropped == {};
    }
  }

  // Two runs walk their sets in orders of their own; on order-free input they count alike.
  lemma OrderFreeAgrees(rsAll: set<Row>, refAll: set<Row>, equiv: EquivMap, o: Orders, o': Orders)
    requires IsOrder(o, rsAll - refAll, refAll - rsAll) && IsOrder(o', rsAll - refAll, refAll - rsAll)
    requires OrderFree(rsAll - refAll, refAll - rsAll)
    ensures OrderCounts(rsAll, refAll, equiv, o) == OrderCounts(rsAll, refAll, equiv, o')
  {
    var rsOnly, refOnly := rsAll - refAll, refAll - rsAll;
    var dropRef, dropRef' := RefDropped(o), RefDropped(o');
    DropsAreOutcome(o, rsOnly, refOnly);
    DropsAreOutcome(o', rsOnly, refOnly);
    forall f ensures |InFile(dropRef, f)| == |InFile(dropRef', f)| {
      assert |InFile(dropRef, f)| == AliasesIn(rsOnly, refOnly, f) == |InFile(dropRef', f)|;
    }
    SameCountPerFile(dropRef, dropRef');
    SameHits(rsOnly, refOnly, RsDropped(o), dropRef, RsDropped(o'), dropRef');
  }

  lemma SameHits(
      rsOnly: set<Row>, refOnly: set<Row>, dropRs: set<Row>, dropRef: set<Row>, dropRs': set<Row>, dropRef': set<Row>)
    requires AliasOutcome(rsOnly, refOnly, dropRs, dropRef) && AliasOutcome(rsOnly, refOnly, dropRs', dropRef')
    requires OrderFree(rsOnly, refOnly)
    ensures |Matchable(rsOnly, refOnly) * dropRef| == |Matchable(rsOnly, refOnly) * dropRef'|
  {
    var matchable := Matchable(rsOnly, refOnly);
    forall f ensures |InFile(matchable * dropRef, f)| == |InFile(matchable * dropRef', f)| {
      ForcedHits(rsOnly, refOnly, dropRs, dropRef, f);
      ForcedHits(rsOnly, refOnly, dropRs', dropRef', f);
    }
    SameCountPerFile(matchable * dropRef, matchable * dropRef');
  }

  // n rows of a set, some n.
  ghost function Pick(s: set<Row>, n: nat): (picked: set<Row>)
    requires n <= |s|
    ensures picked <= s && |picked| == n
  {
    if n == 0 then {} else var r :| r in s; {r} + Pick(s - {r}, n - 1)
  }

  // One outcome: in each file, some rows of each side, as many as there are aliases.
  ghost function RoutesIn(rsOnly: set<Row>, refOnly: set<Row>): set<Row> {
    set r | r in Routes(refOnly) && r in Pick(InFile(Routes(refOnly), r.path), AliasesIn(rsOnly, refOnly, r.path))
  }

  ghost function EntriesIn(rsOnly: set<Row>, refOnly: set<Row>): set<Row> {
    var routes := RouteEntries(rsOnly);
    set r | r in routes && r in Pick(InFile(routes, r.path), AliasesIn(rsOnly, refOnly, r.path))
  }

  lemma RoutesInFile(rsOnly: set<Row>, refOnly: set<Row>, f: string)
    ensures |InFile(RoutesIn(rsOnly, refOnly), f)| == AliasesIn(rsOnly, refOnly, f)
  {
    assert InFile(RoutesIn(rsOnly, refOnly), f) == Pick(InFile(Routes(refOnly), f), AliasesIn(rsOnly, refOnly, f));
  }

  lemma EntriesInFile(rsOnly: set<Row>, refOnly: set<Row>, f: string)
    ensures |InFile(EntriesIn(rsOnly, refOnly), f)| == AliasesIn(rsOnly, refOnly, f)
  {
    assert InFile(EntriesIn(rsOnly, refOnly), f) ==
           Pick(InFile(RouteEntries(rsOnly), f), AliasesIn(rsOnly, refOnly, f));
  }

  lemma {:induction false} RowsInConcat(a: seq<Row>, b: seq<Row>, wanted: Row -> bool, file: string)
    ensures RowsIn(a + b, wanted, file) == RowsIn(a, wanted, file) + RowsIn(b, wanted, file)
  {
    if b == [] {
      assert a + b == a;
    } else {
      assert (a + b)[..|a + b| - 1] == a + b[..|b| - 1];
      RowsInConcat(a, b[..|b| - 1], wanted, file);
    }
  }

  // A list of the rows that starts with those to drop meets, in each file, those first.
  lemma DroppedFirst(
      first: seq<Row>, rest: seq<Row>, drop: set<Row>, wanted: Row -> bool, file: string)
    requires Lists(first, drop) && forall r :: r in drop ==> wanted(r)
    ensures
      var rows := RowsIn(first + rest, wanted, file);
      |InFile(drop, file)| <= |rows| && SetOf(rows[..|InFile(drop, file)|]) == InFile(drop, file)
  {
    var mine := RowsIn(first, wanted, file);
    RowsInConcat(first, rest, wanted, file);
    RowsInFile(first, drop, wanted, file);
    assert WantedIn(drop, wanted, file) == InFile(drop, file);
    ListsCard(mine, InFile(drop, file));
    assert RowsIn(first + rest, wanted, file)[..|mine|] == mine;
  }

  // Every outcome is that of some orders.
  lemma SomeOrder(rsOnly: set<Row>, refOnly: set<Row>, dropRs: set<Row>, dropRef: set<Row>) returns (o: Orders)
    requires AliasOutcome(rsOnly, refOnly, dropRs, dropRef)
    ensures IsOrder(o, rsOnly, refOnly) && RsDropped(o) == dropRs && RefDropped(o) == dropRef
  {
    var rsFirst := SomeList(dropRs);
    var rsRest := SomeList(rsOnly - dropRs);
    var refFirst := SomeList(dropRef);
    var refRest := SomeList(refOnly - dropRef);
    o := Orders(rsFirst + rsRest, refFirst + refRest);
    ListsConcat(rsFirst, dropRs, rsRest, rsOnly - dropRs);
    ListsConcat(refFirst, dropRef, refRest, refOnly - dropRef);
    assert dropRs + (rsOnly - dropRs) == rsOnly && dropRef + (refOnly - dropRef) == refOnly;
    DroppedAreRoutes(o, rsOnly, refOnly);
    forall f ensures InFile(RsDropped(o), f) == InFile(dropRs, f) && InFile(RefDropped(o), f) == InFile(dropRef, f) {
      DroppedInFile(o, rsOnly, refOnly, f);
      FileRows(o, rsOnly, refOnly, f);
      DroppedFirst(rsFirst, rsRest, dropRs, r => IsRouteEntry(r), f);
      DroppedFirst(refFirst, refRest, dropRef, r => IsRoute(r), f);
    }
    SameFilesSameRows(RsDropped(o), dropRs);
    SameFilesSameRows(RefDropped(o), dropRef);
  }

  lemma SameFilesSameRows(a: set<Row>, b: set<Row>)
    requires forall f :: InFile(a, f) == InFile(b, f)
    ensures a == b
  {
    forall r ensures r in a <==> r in b {
      assert r in a <==> r in InFile(a, r.path);
      assert r in b <==> r in InFile(b, r.path);
    }
  }

  lemma HitAndMiss(rsOnly: set<Row>, refOnly: set<Row>, f: string) returns (hit: Row, miss: Row)
    requires Choosable(rsOnly, refOnly, f)
    ensures hit in InFile(Matchable(rsOnly, refOnly), f)
    ensures miss in InFile(Routes(refOnly), f) && miss !in Matchable(rsOnly, refOnly)
  {
    var routes, matches := InFile(Routes(refOnly), f), InFile(Matchable(rsOnly, refOnly), f);
    assert matches <= routes;
    if routes - matches == {} {
      SubsetCovers(routes, matches);
    }
    hit :| hit in matches;
    miss :| miss in routes - matches;
  }

  // That outcome with the routes of file f exchanged for `mine`.
  ghost function DropIn(rsOnly: set<Row>, refOnly: set<Row>, f: string, mine: set<Row>): set<Row> {
    RoutesIn(rsOnly, refOnly) - InFile(Routes(refOnly), f) + mine
  }

  lemma DropInFile(rsOnly: set<Row>, refOnly: set<Row>, f: string, mine: set<Row>, g: string)
    requires mine <= InFile(Routes(refOnly), f) && |mine| == AliasesIn(rsOnly, refOnly, f)
    ensures |InFile(DropIn(rsOnly, refOnly, f, mine), g)| == AliasesIn(rsOnly, refOnly, g)
  {
    if g == f {
      assert InFile(DropIn(rsOnly, refOnly, f, mine), g) == mine;
    } else {
      RoutesInFile(rsOnly, refOnly, g);
      assert InFile(DropIn(rsOnly, refOnly, f, mine), g) == InFile(RoutesIn(rsOnly, refOnly), g);
    }
  }

  lemma DropInIsOutcome(rsOnly: set<Row>, refOnly: set<Row>, f: string, mine: set<Row>)
    requires mine <= InFile(Routes(refOnly), f) && |mine| == AliasesIn(rsOnly, refOnly, f)
    ensures AliasOutcome(rsOnly, refOnly, EntriesIn(rsOnly, refOnly), DropIn(rsOnly, refOnly, f, mine))
  {
    var dropRs, dropRef := EntriesIn(rsOnly, refOnly), DropIn(rsOnly, refOnly, f, mine);
    forall g ensures |InFile(dropRs, g)| == AliasesIn(rsOnly, refOnly, g) == |InFile(dropRef, g)| {
      EntriesInFile(rsOnly, refOnly, g);
      DropInFile(rsOnly, refOnly, f, mine, g);
    }
  }

  lemma DropInOneMore(rsOnly: set<Row>, refOnly: set<Row>, f: string, common: set<Row>, row: Row)
    requires row in InFile(Routes(refOnly), f) - common
    ensures DropIn(rsOnly, refOnly, f, common + {row}) == DropIn(rsOnly, refOnly, f, common) + {row}
    ensures row !in DropIn(rsOnly, refOnly, f, common)
  {
  }

  lemma SwapInFile(rsOnly: set<Row>, refOnly: set<Row>, f: string, hit: Row, miss: Row)
      returns (dropRef: set<Row>, dropRef': set<Row>)
    requires Choosable(rsOnly, refOnly, f)
    requires hit in InFile(Matchable(rsOnly, refOnly), f)
    requires miss in InFile(Routes(refOnly), f) && miss !in Matchable(rsOnly, refOnly)
    ensures AliasOutcome(rsOnly, refOnly, EntriesIn(rsOnly, refOnly), dropRef)
    ensures AliasOutcome(rsOnly, refOnly, EntriesIn(rsOnly, refOnly), dropRef')
    ensures PrefixPairs(rsOnly, refOnly, dropRef) + 1 == PrefixPairs(rsOnly, refOnly, dropRef')
  {
    var routes := InFile(Routes(refOnly), f);
    assert hit in routes;
    CardDifference(routes, {hit, miss});
    var common := Pick(routes - {hit, miss}, AliasesIn(rsOnly, refOnly, f) - 1);
    dropRef, dropRef' := DropIn(rsOnly, refOnly, f, common + {hit}), DropIn(rsOnly, refOnly, f, common + {miss});
    DropInIsOutcome(rsOnly, refOnly, f, common + {hit});
    DropInIsOutcome(rsOnly, refOnly, f, common + {miss});
    DropInOneMore(rsOnly, refOnly, f, common, hit);
    DropInOneMore(rsOnly, refOnly, f, common, miss);
    SwapOne(DropIn(rsOnly, refOnly, f, common), hit, miss, Matchable(rsOnly, refOnly));
  }

  // On any other input two orders of the same sets lead to different counts: a file
  // drops a matchable route in one and spares it in the other.
  lemma OrderMatters(rsAll: set<Row>, refAll: set<Row>, equiv: EquivMap) returns (o: Orders, o': Orders)
    requires !OrderFree(rsAll - refAll, refAll - rsAll)
    ensures IsOrder(o, rsAll - refAll, refAll - rsAll) && IsOrder(o', rsAll - refAll, refAll - rsAll)
    ensures OrderCounts(rsAll, refAll, equiv, o).realRs == OrderCounts(rsAll, refAll, equiv, o').realRs + 1
  {
    var rsOnly, refOnly := rsAll - refAll, refAll - rsAll;
    var f :| Choosable(rsOnly, refOnly, f);
    var hit, miss := HitAndMiss(rsOnly, refOnly, f);
    var dropRef, dropRef' := SwapInFile(rsOnly, refOnly, f, hit, miss);
    o := SomeOrder(rsOnly, refOnly, EntriesIn(rsOnly, refOnly), dropRef);
    o' := SomeOrder(rsOnly, refOnly, EntriesIn(rsOnly, refOnly), dropRef');
  }

  // Every count that some order leads to.
  ghost function ReachedCounts(rsAll: set<Row>, refAll: set<Row>, equiv: EquivMap): iset<Counts> {
    iset o | IsOrder(o, rsAll - refAll, refAll - rsAll) :: OrderCounts(rsAll, refAll, equiv, o)
  }

  ghost predicate OneCount(counts: iset<Counts>) {
    forall c, c' :: c in counts && c' in counts ==> c == c'
  }

  // All orders count alike exactly if no file has such a choice.
  lemma OrdersAgreeIff(rsAll: set<Row>, refAll: set<Row>, equiv: EquivMap)
    ensures OneCount(ReachedCounts(rsAll, refAll, equiv)) <==> OrderFree(rsAll - refAll, refAll - rsAll)
  {
    var rsOnly, refOnly := rsAll - refAll, refAll - rsAll;
    if OrderFree(rsOnly, refOnly) {
      forall c, c' | c in ReachedCounts(rsAll, refAll, equiv) && c' in ReachedCounts(rsAll, refAll, equiv)
        ensures c == c'
      {
        var o :| IsOrder(o, rsOnly, refOnly) && c == OrderCounts(rsAll, refAll, equiv, o);
        var o' :| IsOrder(o', rsOnly, refOnly) && c' == OrderCounts(rsAll, refAll, equiv, o');
        OrderFreeAgrees(rsAll, refAll, equiv, o, o');
      }
    } else {
      var o, o' := OrderMatters(rsAll, refAll, equiv);
      assert OrderCounts(rsAll, refAll, equiv, o) in ReachedCounts(rsAll, refAll, equiv);
      assert OrderCounts(rsAll, refAll, equiv, o') in ReachedCounts(rsAll, refAll, equiv);
    }
  }

  lemma SubsetCovers(a: set<Row>, b: set<Row>)
    requires b <= a && a - b == {}
    ensures |a| == |b|
  {
    assert a == b + (a - b);
  }

  lemma SwapOne(common: set<Row>, hit: Row, miss: Row, matchable: set<Row>)
    requires hit !in common && miss !in common && hit in matchable && miss !in matchable
    ensures |matchable * (common + {hit})| == |matchable * (common + {miss})| + 1
  {
    assert matchable * (common + {hit}) == matchable * common + {hit};
    assert matchable * (common + {miss}) == matchable * common;
  }

  // Such an input: one entry point, two ref routes, one of them matched by prefix.
  lemma OrderMattersExample()
    ensures
      var rsAll := {Row("EntryPoint", "app.py", "route@f"), Row("Route", "app.py", "GET /a")};
      var refAll := {Row("Route", "app.py", "/a"), Row("Route", "app.py", "/b")};
      !OrderFree(rsAll - refAll, refAll - rsAll)
  {
    var entry, get := Row("EntryPoint", "app.py", "route@f"), Row("Route", "app.py", "GET /a");
    var a, b := Row("Route", "app.py", "/a"), Row("Route", "app.py", "/b");
    var rsOnly, refOnly := {entry, get} - {a, b}, {a, b} - {entry, get};
    assert "GET " == "GET /a"[..4] && "GET /a"[4..] == "/a";
    assert StripMethodPrefix("GET /a") == "/a";
    assert "route@" == "route@f"[..6];
    assert InFile(RouteEntries(rsOnly), "app.py") == {entry};
    assert InFile(Routes(refOnly), "app.py") == {a, b} && |{a, b}| == 2;
    assert InFile(Matchable(rsOnly, refOnly), "app.py") == {a} by {
      assert BareRoute(get) == a;
    }
    assert Choosable(rsOnly, refOnly, "app.py");
  }
}
