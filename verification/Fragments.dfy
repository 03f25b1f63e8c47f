// What the fragment bins hold: any builder, at any cap, writes the bin of a route and content; a manifest names it.
module Fragments {
  import opened Options
  import opened Overlay
  import opened Protocol
  import opened Freshness

  // The steps under which bins stay right. A file over the cap when it was parsed still is
  // when its id is hashed; and a publish that stops before its manifest has moved no bin
  // into place that a manifest of another builder or cap names.
  ghost predicate Steady(s: State, a: Action) {
    && (a.Stage? && !a.failed && a.id in s.procs && a.path in s.procs[a.id].contents ==>
          StaysOmitted(s.world, s.procs[a.id], a.path))
    && (a.FailPublish? && a.id in s.procs && s.disk.manifest.Some? ==>
          s.disk.manifest.value.stamp == s.procs[a.id].stamp || Unnamed(s.disk.manifest.value, s.procs[a.id], a.order))
  }

  ghost predicate StaysOmitted(w: World, proc: Proc, p: Path)
    requires p in proc.contents
  {
    |proc.contents[p]| > proc.stamp.cap ==> p in w.tree && |w.tree[p].content| > proc.stamp.cap
  }

  // A row that names the bin of its content for the reader.
  predicate Names(row: Row, id: FragmentId) {
    row.fragment == Some(id) && !row.parseFailed
  }

  ghost predicate Unnamed(m: Manifest, proc: Proc, order: seq<Path>) {
    forall p, q :: p in order && p in proc.rows && proc.rows[p].fragment.Some? && q in m.rows ==>
      !Names(m.rows[q], proc.rows[p].fragment.value)
  }

  ghost predicate IsSteadyRun(s: State, run: seq<Action>, t: State)
    decreases |run|
  {
    if run == [] then s == t
    else Step(s, run[0]).Some? && Steady(s, run[0]) && IsSteadyRun(Step(s, run[0]).value, run[1..], t)
  }

  // A bin holds the analysis of the content it is named by, by the builder that wrote it ...
  ghost predicate BinsTrue(bins: map<FragmentId, Bin>) {
    forall id :: id in bins && bins[id].Archive? ==>
      bins[id].graph == AnalyzeRoute(bins[id].graph.stamp, id.route, id.content)
  }

  // ... and one that the manifest names was written by the builder of the manifest.
  ghost predicate NamedTrue(manifest: Option<Manifest>, bins: map<FragmentId, Bin>) {
    manifest.Some? ==>
      forall p, id :: p in manifest.value.rows && Names(manifest.value.rows[p], id) && BinReads(bins, id) ==>
        bins[id].graph.stamp == manifest.value.stamp
  }

  ghost predicate StagedTrue(proc: Proc) {
    && (proc.phase !in {Staging, Retiring, Done} ==> proc.rows == map[])
    && forall p :: p in proc.rows ==> p in proc.contents && StagedRowTrue(proc, p)
  }

  ghost predicate StagedRowTrue(proc: Proc, p: Path)
    requires p in proc.rows && p in proc.contents
  {
    && proc.rows[p].fragment.Some?
    && proc.rows[p].fragment.value.route == Route(p)
    && (!proc.rows[p].parseFailed ==>
          AnalyzeRoute(proc.stamp, Route(p), proc.rows[p].fragment.value.content) ==
          Analyze(proc.stamp, p, proc.contents[p]))
  }

  ghost predicate InvBins(s: State) {
    && BinsTrue(s.disk.bins)
    && NamedTrue(s.disk.manifest, s.disk.bins)
    && forall id :: id in s.procs ==> StagedTrue(s.procs[id])
  }

  // An id hashed from a second read names the analysis of the first exactly if both reads
  // are over the cap, or the first is not.
  lemma HashesWhatWasParsed(w: World, proc: Proc, p: Path)
    requires p in proc.contents
    ensures AnalyzeRoute(proc.stamp, Route(p), HashedContent(w, proc, p)) ==
            Analyze(proc.stamp, p, proc.contents[p]) <==>
              StaysOmitted(w, proc, p)
  {
  }

  // The bins a publish moves into place: each is right, and the others stay.
  lemma {:induction false} WrittenBins(bins: map<FragmentId, Bin>, proc: Proc, order: seq<Path>)
    requires BinsTrue(bins) && StagedTrue(proc) && AllArchived(proc, order)
    ensures BinsTrue(Written(bins, proc, order))
    ensures forall id :: WrittenOne(bins, proc, order, id)
  {
    if order != [] {
      WrittenBins(bins, proc, order[..|order| - 1]);
      var before, p := Written(bins, proc, order[..|order| - 1]), order[|order| - 1];
      forall id ensures WrittenOne(bins, proc, order, id) {
        assert WrittenOne(bins, proc, order[..|order| - 1], id);
        assert forall q :: q in order <==> q in order[..|order| - 1] || q == p;
      }
    }
  }

  // Archives are moved into place for rows that have one.
  ghost predicate AllArchived(proc: Proc, order: seq<Path>) {
    forall p :: p in order ==> p in proc.rows && !proc.rows[p].parseFailed
  }

  ghost predicate NamedBy(proc: Proc, order: seq<Path>, id: FragmentId) {
    exists p :: p in order && p in proc.rows && proc.rows[p].fragment == Some(id)
  }

  ghost predicate WrittenOne(bins: map<FragmentId, Bin>, proc: Proc, order: seq<Path>, id: FragmentId) {
    var after := Written(bins, proc, order);
    if NamedBy(proc, order, id) then id in after && after[id].Archive? && after[id].graph.stamp == proc.stamp
    else (id in after <==> id in bins) && (id in bins ==> after[id] == bins[id])
  }

  // A publish to the end leaves every bin that its manifest names to its own builder.
  lemma PublishKeepsNamed(disk: Disk, proc: Proc, order: seq<Path>)
    requires BinsTrue(disk.bins) && NamedTrue(disk.manifest, disk.bins) && StagedTrue(proc)
    requires AllArchived(proc, order) && forall p :: p in proc.rows && !proc.rows[p].parseFailed ==> p in order
    ensures NamedTrue(Some(Committed(disk.manifest, proc.stamp, proc.rows, proc.absent)),
                      Written(disk.bins, proc, order))
  {
    var after, m := Written(disk.bins, proc, order), Committed(disk.manifest, proc.stamp, proc.rows, proc.absent);
    WrittenBins(disk.bins, proc, order);
    forall p, id | p in m.rows && Names(m.rows[p], id) && BinReads(after, id) ensures after[id].graph.stamp == m.stamp {
      assert WrittenOne(disk.bins, proc, order, id);
      if p in proc.rows && p !in proc.absent {
        assert NamedBy(proc, order, id);
      } else {
        assert CurrentOrEmpty(disk.manifest, proc.stamp).rows[p] == m.rows[p];
      }
    }
  }

  // One that stops before its manifest does so exactly if the manifest in place is its own
  // builder's or names none of the bins.
  lemma FailedPublishNamed(disk: Disk, proc: Proc, order: seq<Path>)
    requires BinsTrue(disk.bins) && NamedTrue(disk.manifest, disk.bins) && StagedTrue(proc)
    requires AllArchived(proc, order)
    ensures
      NamedTrue(disk.manifest, Written(disk.bins, proc, order)) <==>
        (disk.manifest.Some? ==> disk.manifest.value.stamp == proc.stamp || Unnamed(disk.manifest.value, proc, order))
  {
    var after := Written(disk.bins, proc, order);
    WrittenBins(disk.bins, proc, order);
    if disk.manifest.Some? {
      var m := disk.manifest.value;
      forall p, id | p in m.rows && Names(m.rows[p], id) && BinReads(after, id)
        ensures after[id].graph.stamp == m.stamp || after[id].graph.stamp == proc.stamp
        ensures Unnamed(m, proc, order) ==> after[id].graph.stamp == m.stamp
      {
        assert WrittenOne(disk.bins, proc, order, id);
      }
      if m.stamp != proc.stamp && !Unnamed(m, proc, order) {
        var p, q :| p in order && p in proc.rows && proc.rows[p].fragment.Some? && q in m.rows &&
          Names(m.rows[q], proc.rows[p].fragment.value);
        assert NamedBy(proc, order, proc.rows[p].fragment.value);
        assert WrittenOne(disk.bins, proc, order, proc.rows[p].fragment.value);
      }
    }
  }

  // The parts of the invariant that a step of a process can touch: its own staged rows ...
  lemma ProcStepStaged(s: State, a: Action)
    requires InvBins(s) && Step(s, a).Some? && !IsEnvironment(a) && !a.Start?
    ensures StagedTrue(Step(s, a).value.procs[a.id]) <==>
              (a.Stage? && !a.failed ==> StaysOmitted(s.world, s.procs[a.id], a.path))
  {
    var proc, now := s.procs[a.id], Step(s, a).value.procs[a.id];
    assert StagedTrue(proc);
    if a.Stage? {
      HashesWhatWasParsed(s.world, proc, a.path);
      assert StagedRowTrue(now, a.path) <==> a.failed || StaysOmitted(s.world, proc, a.path);
      forall p | p in proc.rows ensures StagedRowTrue(now, p) {
        assert StagedRowTrue(proc, p);
      }
    } else if a.Parse? {
      assert proc.rows == map[];
    } else {
      forall p | p in now.rows ensures p in now.contents && StagedRowTrue(now, p) {
        assert StagedRowTrue(proc, p);
      }
    }
  }

  // ... and the bins and the manifest.
  lemma ProcStepNamed(s: State, a: Action)
    requires InvBins(s) && Step(s, a).Some? && !IsEnvironment(a) && !a.Start?
    ensures
      var disk := Step(s, a).value.disk;
      && BinsTrue(disk.bins)
      && (NamedTrue(disk.manifest, disk.bins) <==>
            (a.FailPublish? && s.disk.manifest.Some? ==>
               || s.disk.manifest.value.stamp == s.procs[a.id].stamp
               || Unnamed(s.disk.manifest.value, s.procs[a.id], a.order)))
  {
    var proc := s.procs[a.id];
    assert StagedTrue(proc);
    if a.Publish? {
      WrittenBins(s.disk.bins, proc, a.order);
      PublishKeepsNamed(s.disk, proc, a.order);
    } else if a.FailPublish? {
      WrittenBins(s.disk.bins, proc, a.order);
      FailedPublishNamed(s.disk, proc, a.order);
    }
  }

  // A step keeps the bins right exactly if it is steady.
  lemma StepKeepsBins(s: State, a: Action)
    requires InvBins(s) && Step(s, a).Some?
    ensures InvBins(Step(s, a).value) <==> Steady(s, a)
  {
    if !IsEnvironment(a) && !a.Start? {
      ProcStepStaged(s, a);
      ProcStepNamed(s, a);
      OthersStayStaged(s, a);
    } else {
      EnvironmentKeepsBins(s, a);
    }
  }

  lemma OthersStayStaged(s: State, a: Action)
    requires InvBins(s) && Step(s, a).Some? && !IsEnvironment(a) && !a.Start?
    ensures
      var procs := Step(s, a).value.procs;
      (forall id :: id in procs ==> StagedTrue(procs[id])) <==> StagedTrue(procs[a.id])
  {
  }

  lemma EnvironmentKeepsBins(s: State, a: Action)
    requires InvBins(s) && Step(s, a).Some? && (IsEnvironment(a) || a.Start?)
    ensures InvBins(Step(s, a).value)
  {
  }

  lemma {:induction false} SteadyRunKeepsBins(s: State, run: seq<Action>, t: State)
    requires InvBins(s) && IsSteadyRun(s, run, t)
    ensures InvBins(t)
    ensures IsRun(s, run, t)
    decreases |run|
  {
    if run != [] {
      StepKeepsBins(s, run[0]);
      SteadyRunKeepsBins(Step(s, run[0]).value, run[1..], t);
    }
  }

  // The overlay as a reader serves it: a row of a current manifest whose mtime the file
  // still has and whose bin reads.
  predicate Serves(disk: Disk, tree: Tree, stamp: Stamp, p: Path) {
    && disk.manifest.Some? && IsCurrent(disk.manifest.value, stamp) && p in disk.manifest.value.rows
    && var row := disk.manifest.value.rows[p];
       && row.fragment.Some? && !row.parseFailed && row.format == FRAGMENT_FORMAT
       && StatOf(tree, p) == Some(row.mtime)
       && BinReads(disk.bins, row.fragment.value)
  }

  function ServedGraph(disk: Disk, tree: Tree, stamp: Stamp, p: Path): Graph
    requires Serves(disk, tree, stamp, p)
  {
    disk.bins[disk.manifest.value.rows[p].fragment.value].graph
  }

  // Whatever a reader of any builder and cap is served in a steady run is its own analysis
  // of the file as it is.
  lemma ServedIsCurrent(s: State, run: seq<Action>, t: State, stamp: Stamp, p: Path)
    requires Init(s) && IsSteadyRun(s, run, t) && Serves(t.disk, t.world.tree, stamp, p)
    ensures p in t.world.tree
    ensures ServedGraph(t.disk, t.world.tree, stamp, p) == Analyze(stamp, p, t.world.tree[p].content)
  {
    SteadyRunKeepsBins(s, run, t);
    RunKeepsInv(s, run, t);
    var row := t.disk.manifest.value.rows[p];
    assert RowTrue(t.world, p, row) && Names(row, row.fragment.value);
  }

  // The bin for which the gate skips a parse is an analysis of the file as it is, while
  // the file keeps the mtime the gate statted; and the process's own, while the manifest
  // keeps the row.
  lemma SkippedBinIsCurrent(s: State, run: seq<Action>, t: State, id: nat)
    requires Init(s) && IsSteadyRun(s, run, t) && Step(t, GateRead(id)).Some?
    requires
      var proc := t.procs[id];
      var check := CheckRow(proc.snap.value, proc.matched.value);
      && BinReads(t.disk.bins, check.id)
      && StatOf(t.world.tree, proc.matched.value) == Some(check.mtime)
    ensures
      var proc, p := t.procs[id], t.procs[id].matched.value;
      var graph := t.disk.bins[CheckRow(proc.snap.value, p).id].graph;
      && p in t.world.tree
      && graph == Analyze(graph.stamp, p, t.world.tree[p].content)
      && (t.disk.manifest.Some? && IsCurrent(t.disk.manifest.value, proc.stamp) && p in t.disk.manifest.value.rows &&
          t.disk.manifest.value.rows[p] == proc.snap.value.rows[p] ==>
            graph == Analyze(proc.stamp, p, t.world.tree[p].content))
  {
    SteadyRunKeepsBins(s, run, t);
    RunKeepsInv(s, run, t);
    var proc, p := t.procs[id], t.procs[id].matched.value;
    var row := proc.snap.value.rows[p];
    assert RowTrue(t.world, p, row) && Names(row, row.fragment.value);
  }
}
