// What every run of the protocol keeps: a row whose mtime the file still has was parsed
// from the file's present content, and retire removes no current row of a dirty file.
module Freshness {
  import opened Options
  import opened Overlay
  import opened Protocol

  // A fragment row may be out of date, never wrong while its mtime matches.
  ghost predicate RowTrue(w: World, p: Path, row: Row) {
    match row.fragment
    case None => row == TOMBSTONE
    case Some(id) =>
      && row.mtime <= Ever(w, p)
      && (p in w.tree && w.tree[p].mtime == row.mtime ==> id == IdOf(p, w.tree[p].content))
  }

  ghost predicate RowsTrue(w: World, rows: map<Path, Row>) {
    forall p :: p in rows ==> RowTrue(w, p, rows[p])
  }

  ghost predicate ManifestTrue(w: World, m: Option<Manifest>) {
    m.Some? ==> RowsTrue(w, m.value.rows)
  }

  // A parse read what the file held at its stat, unless the file changed in between.
  ghost predicate ContentTrue(w: World, proc: Proc, p: Path)
    requires p in proc.contents
  {
    p in proc.pre && p in w.tree && w.tree[p].mtime == proc.pre[p] ==> proc.contents[p] == w.tree[p].content
  }

  // A path the probe saw clean is clean while its snapshot row still matches.
  ghost predicate ProbeTrue(w: World, proc: Proc, p: Path) {
    && proc.snap.Some? && p in proc.snap.value.rows && p in proc.probed && !proc.probed[p]
    && w.headNo == proc.probedHead ==>
      var row := proc.snap.value.rows[p];
      row.fragment.Some? && p in w.tree && w.tree[p].mtime == row.mtime ==> !Dirty(w.tree, w.head, p)
  }

  ghost predicate PhaseOk(proc: Proc) {
    && (proc.phase in {Probing, Gating, Statting, Shadowing} ==> proc.contents == map[])
    && (proc.phase in {Probing, Gating, Statting, Shadowing, Parsing} ==> proc.rows == map[])
    && (proc.phase != Probing && proc.snap.Some? ==> proc.snap.value.rows.Keys <= proc.probed.Keys)
    && (proc.matched.Some? ==> proc.snap.Some? && CheckRow(proc.snap.value, proc.matched.value).CheckMtime?)
  }

  ghost predicate ProcTrue(w: World, proc: Proc) {
    && PhaseOk(proc)
    && proc.probedHead <= w.headNo
    && ManifestTrue(w, proc.snap)
    && RowsTrue(w, proc.rows)
    && (forall p :: p in proc.pre ==> proc.pre[p] <= Ever(w, p))
    && (forall p :: p in proc.contents ==> ContentTrue(w, proc, p))
    && (forall p :: ProbeTrue(w, proc, p))
  }

  ghost predicate Inv(s: State) {
    && TreeOk(s.world)
    && ManifestTrue(s.world, s.disk.manifest)
    && forall id :: id in s.procs ==> ProcTrue(s.world, s.procs[id])
  }

  // What edits do: a path keeps its file or gets one with an mtime never seen there.
  ghost predicate Grows(w: World, v: World) {
    && (forall p :: Ever(w, p) <= Ever(v, p))
    && (forall p :: p in v.tree ==> (p in w.tree && v.tree[p] == w.tree[p]) || v.tree[p].mtime > Ever(w, p))
    && (v.headNo > w.headNo || (v.headNo == w.headNo && v.head == w.head))
  }

  lemma GrowingKeepsProc(w: World, v: World, proc: Proc)
    requires Grows(w, v) && ProcTrue(w, proc)
    ensures ProcTrue(v, proc)
  {
    forall p ensures ProbeTrue(v, proc, p) {
      assert ProbeTrue(w, proc, p);
    }
    forall p | p in proc.pre ensures proc.pre[p] <= Ever(v, p) {
      assert Ever(w, p) <= Ever(v, p);
    }
    forall p | p in proc.contents ensures ContentTrue(v, proc, p) {
      assert ContentTrue(w, proc, p);
    }
  }

  lemma EnvironmentKeepsInv(s: State, a: Action)
    requires Inv(s) && IsEnvironment(a) && Step(s, a).Some?
    ensures Inv(Step(s, a).value)
  {
    var t := Step(s, a).value;
    if a.Write? || a.Delete? || a.Commit? {
      assert Grows(s.world, t.world);
      forall id | id in t.procs ensures ProcTrue(t.world, t.procs[id]) {
        GrowingKeepsProc(s.world, t.world, s.procs[id]);
      }
    }
  }

  lemma StagedRowTrue(w: World, proc: Proc, p: Path, failed: bool)
    requires TreeOk(w) && ProcTrue(w, proc) && p in proc.contents
    ensures RowTrue(w, p, StagedRow(w, proc, p, failed))
  {
    assert ContentTrue(w, proc, p);
  }

  lemma ProbingStaysTrue(w: World, proc: Proc, p: Path)
    requires ProcTrue(w, proc) && proc.phase == Probing && p !in proc.probed
    ensures ProcTrue(w, proc.(probed := proc.probed[p := Dirty(w.tree, w.head, p)]))
  {
    var after := proc.(probed := proc.probed[p := Dirty(w.tree, w.head, p)]);
    forall q ensures ProbeTrue(w, after, q) {
      assert ProbeTrue(w, proc, q);
    }
  }

  // The steps up to the parse change only the bookkeeping and `pre`.
  lemma SamePrivate(w: World, proc: Proc, after: Proc)
    requires ProcTrue(w, proc) && PhaseOk(after)
    requires after.snap == proc.snap && after.probed == proc.probed && after.probedHead == proc.probedHead
    requires after.rows == proc.rows && after.contents == proc.contents
    requires forall p :: p in after.pre ==> after.pre[p] <= Ever(w, p)
    requires after.contents == map[] || after.pre == proc.pre
    ensures ProcTrue(w, after)
  {
    forall p ensures ProbeTrue(w, after, p) {
      assert ProbeTrue(w, proc, p);
    }
    forall p | p in after.contents ensures ContentTrue(w, after, p) {
      assert ContentTrue(w, proc, p);
    }
  }

  lemma GateStepStaysTrue(w: World, disk: Disk, proc: Proc, a: Action)
    requires TreeOk(w) && ProcTrue(w, proc)
    requires (a.GateStat? || a.GateRead?) && ProcStep(w, disk, proc, a).Some?
    ensures ProcTrue(w, ProcStep(w, disk, proc, a).value)
  {
    if a.GateRead? {
      assert RowTrue(w, proc.matched.value, proc.snap.value.rows[proc.matched.value]);
    }
    SamePrivate(w, proc, ProcStep(w, disk, proc, a).value);
  }

  lemma StatStepStaysTrue(w: World, disk: Disk, proc: Proc, a: Action)
    requires TreeOk(w) && ProcTrue(w, proc)
    requires a.OpenGate? || a.BypassGate? || a.CloseGate? || a.StatPath? || a.Expand? || a.StatShadow? || a.BeginParse?
    requires ProcStep(w, disk, proc, a).Some?
    ensures ProcTrue(w, ProcStep(w, disk, proc, a).value)
  {
    SamePrivate(w, proc, ProcStep(w, disk, proc, a).value);
  }

  lemma ParseStaysTrue(w: World, disk: Disk, proc: Proc, a: Action)
    requires TreeOk(w) && ProcTrue(w, proc) && a.Parse? && ProcStep(w, disk, proc, a).Some?
    ensures ProcTrue(w, ProcStep(w, disk, proc, a).value)
  {
    var after := ProcStep(w, disk, proc, a).value;
    forall p ensures ProbeTrue(w, after, p) {
      assert ProbeTrue(w, proc, p);
    }
    forall p | p in after.contents ensures ContentTrue(w, after, p) {
      if p != a.path {
        assert ContentTrue(w, proc, p);
      }
    }
  }

  lemma StageStaysTrue(w: World, disk: Disk, proc: Proc, a: Action)
    requires TreeOk(w) && ProcTrue(w, proc) && a.Stage? && ProcStep(w, disk, proc, a).Some?
    ensures ProcTrue(w, ProcStep(w, disk, proc, a).value)
  {
    var after := ProcStep(w, disk, proc, a).value;
    StagedRowTrue(w, proc, a.path, a.failed);
    forall p ensures ProbeTrue(w, after, p) {
      assert ProbeTrue(w, proc, p);
    }
    forall p | p in after.contents ensures ContentTrue(w, after, p) {
      assert ContentTrue(w, proc, p);
    }
  }

  lemma ProcStepStaysTrue(w: World, disk: Disk, proc: Proc, a: Action)
    requires TreeOk(w) && ProcTrue(w, proc)
    requires !IsEnvironment(a) && !a.Start? && ProcStep(w, disk, proc, a).Some?
    ensures ProcTrue(w, ProcStep(w, disk, proc, a).value)
  {
    if a.ProbePath? {
      ProbingStaysTrue(w, proc, a.path);
    } else if a.GateStat? || a.GateRead? {
      GateStepStaysTrue(w, disk, proc, a);
    } else if a.Parse? {
      ParseStaysTrue(w, disk, proc, a);
    } else if a.Stage? {
      StageStaysTrue(w, disk, proc, a);
    } else if
      || a.OpenGate? || a.BypassGate? || a.CloseGate? || a.StatPath? || a.Expand? || a.StatShadow? || a.BeginParse?
    {
      StatStepStaysTrue(w, disk, proc, a);
    } else {
      SamePrivate(w, proc, ProcStep(w, disk, proc, a).value);
    }
  }

  lemma DiskStepStaysTrue(w: World, disk: Disk, proc: Proc, a: Action)
    requires ManifestTrue(w, disk.manifest) && ProcTrue(w, proc)
    ensures ManifestTrue(w, DiskDo(disk, proc, a).manifest)
  {
  }

  // Every step, of any process or of the environment, keeps the invariant.
  lemma StepKeepsInv(s: State, a: Action)
    requires Inv(s) && Step(s, a).Some?
    ensures Inv(Step(s, a).value)
  {
    if IsEnvironment(a) {
      EnvironmentKeepsInv(s, a);
    } else if a.Start? {
      var t := Step(s, a).value;
      forall id | id in t.procs ensures ProcTrue(t.world, t.procs[id]) {
        assert id in s.procs || id == a.id;
      }
    } else {
      ProcStepStaysTrue(s.world, s.disk, s.procs[a.id], a);
      DiskStepStaysTrue(s.world, s.disk, s.procs[a.id], a);
    }
  }

  lemma {:induction false} RunKeepsInv(s: State, run: seq<Action>, t: State)
    requires Inv(s) && IsRun(s, run, t)
    ensures Inv(t)
    decreases |run|
  {
    if run != [] {
      StepKeepsInv(s, run[0]);
      RunKeepsInv(Step(s, run[0]).value, run[1..], t);
    }
  }

  // Freshness: in every run, whenever the gate finds a row current by its stat, the
  // fragment was parsed from the file's present content, or the row is a tombstone and
  // the path is absent.
  lemma GateSkipIsCurrent(s: State, run: seq<Action>, t: State, id: nat, p: Path)
    requires Init(s) && IsRun(s, run, t)
    requires Step(t, GateStat(id, p)).Some?
    requires AfterStat(CheckRow(t.procs[id].snap.value, p), StatOf(t.world.tree, p)) != Some(Keep)
    ensures
      p in t.procs[id].snap.value.rows &&
      match t.procs[id].snap.value.rows[p].fragment
      case None => p !in t.world.tree
      case Some(fragment) => p in t.world.tree && fragment == IdOf(p, t.world.tree[p].content)
  {
    RunKeepsInv(s, run, t);
    assert RowTrue(t.world, p, t.procs[id].snap.value.rows[p]);
  }

  // Compare-and-remove: retire takes exactly the unclaimed rows that still equal the
  // snapshot read before the probe, and leaves every other row as it was.
  lemma RetireComparesRows(s: State, id: nat, shadows: set<Path>, p: Path)
    requires Step(s, Retire(id, shadows)).Some? && s.disk.manifest.Some? && p in s.disk.manifest.value.rows
    ensures
      var proc, row := s.procs[id], s.disk.manifest.value.rows[p];
      var after := Step(s, Retire(id, shadows)).value.disk.manifest;
      var unclaimed := proc.snap.Some? && p in proc.snap.value.rows && p !in DirtyPaths(proc) + shadows;
      if unclaimed && row == proc.snap.value.rows[p]
      then after.None? || p !in after.value.rows
      else after.Some? && p in after.value.rows && after.value.rows[p] == row
  {
    var proc, before := s.procs[id], s.disk.manifest.value;
    if proc.snap.Some? {
      var claimed := DirtyPaths(proc) + shadows;
      var left := map q | q in before.rows && !Retires(proc.snap.value, claimed, q, before.rows[q]) :: before.rows[q];
      assert left == before.rows ==> p in left;
      assert p in left ==> left != map[];
    }
  }

  // However edits, probes and publishes interleave, retire never removes the current
  // fragment of a file that is dirty at that moment, while HEAD is where the probe saw it.
  lemma RetireKeepsDirtyFragments(s: State, run: seq<Action>, t: State, id: nat, shadows: set<Path>, p: Path)
    requires Init(s) && IsRun(s, run, t) && Step(t, Retire(id, shadows)).Some?
    requires t.world.headNo == t.procs[id].probedHead
    requires t.disk.manifest.Some? && p in t.disk.manifest.value.rows
    requires
      var row := t.disk.manifest.value.rows[p];
      row.fragment.Some? && p in t.world.tree && t.world.tree[p].mtime == row.mtime
    requires Dirty(t.world.tree, t.world.head, p)
    ensures
      var after := Step(t, Retire(id, shadows)).value.disk.manifest;
      after.Some? && p in after.value.rows && after.value.rows[p] == t.disk.manifest.value.rows[p]
  {
    RunKeepsInv(s, run, t);
    RetireComparesRows(t, id, shadows, p);
    var proc := t.procs[id];
    assert ProbeTrue(t.world, proc, p);
    if proc.snap.Some? && p in proc.snap.value.rows && proc.snap.value.rows[p] == t.disk.manifest.value.rows[p] {
      assert p in proc.probed;
      assert proc.probed[p];
    }
  }
}
