// crates/ecp-cli/src/auto_ensure.rs: one refresh of the session overlay, start to end,
// over a working tree nobody edits meanwhile; and the warm attach built on it.
module Refresh {
  import opened Options
  import opened Overlay
  import opened Fragments
  import opened Sets
  import Protocol
  import Freshness

  // The index of a tree: every file's analysis.
  function IndexOf(stamp: Stamp, contents: map<Path, Content>): map<Path, Graph> {
    map p | p in contents :: Analyze(stamp, p, contents[p])
  }

  function ContentsOf(tree: Tree): map<Path, Content> {
    map p | p in tree :: tree[p].content
  }

  function At(index: map<Path, Graph>, p: Path): Option<Graph> {
    if p in index then Some(index[p]) else None
  }

  // A removed path: a tombstone of a current manifest while the path is absent.
  predicate Removed(manifest: Option<Manifest>, tree: Tree, stamp: Stamp, p: Path) {
    && manifest.Some? && IsCurrent(manifest.value, stamp) && p in manifest.value.rows
    && manifest.value.rows[p].change == Deleted && manifest.value.rows[p].fragment.None?
    && p !in tree
  }

  // What a query answers for a path: the overlay over a base index.
  function ViewAt(disk: Disk, tree: Tree, stamp: Stamp, base: map<Path, Graph>, p: Path): Option<Graph> {
    if Serves(disk, tree, stamp, p) then Some(ServedGraph(disk, tree, stamp, p))
    else if Removed(disk.manifest, tree, stamp, p) then None
    else At(base, p)
  }

  // A row whose mtime the file still has names the file's content, and its bin, if it
  // reads, holds the analysis of what it names. Every tombstone says so.
  ghost predicate RowFits(tree: Tree, stamp: Stamp, bins: map<FragmentId, Bin>, p: Path, row: Row) {
    match row.fragment
    case None => row == TOMBSTONE
    case Some(id) =>
      && (p in tree && tree[p].mtime == row.mtime ==> id == IdOf(p, tree[p].content))
      && (!row.parseFailed && BinReads(bins, id) ==> bins[id].graph == AnalyzeRoute(stamp, id.route, id.content))
  }

  ghost predicate SessionFits(tree: Tree, stamp: Stamp, disk: Disk) {
    disk.manifest.Some? && IsCurrent(disk.manifest.value, stamp) ==>
      forall p :: p in disk.manifest.value.rows ==> RowFits(tree, stamp, disk.bins, p, disk.manifest.value.rows[p])
  }

  // Every session the protocol can reach fits, whatever ran before the edits stopped.
  lemma ReachedSessionFits(
      stamp: Stamp, s: Protocol.State, run: seq<Protocol.Action>, t: Protocol.State)
    requires Protocol.Init(s) && IsSteadyRun(s, run, t)
    ensures SessionFits(t.world.tree, stamp, t.disk)
  {
    SteadyRunKeepsBins(s, run, t);
    Freshness.RunKeepsInv(s, run, t);
    if t.disk.manifest.Some? && IsCurrent(t.disk.manifest.value, stamp) {
      var rows := t.disk.manifest.value.rows;
      forall p | p in rows ensures RowFits(t.world.tree, stamp, t.disk.bins, p, rows[p]) {
        assert Freshness.RowTrue(t.world, p, rows[p]);
        assert rows[p].fragment.Some? && !rows[p].parseFailed ==> Names(rows[p], rows[p].fragment.value);
      }
    }
  }

  // A fitting overlay answers every path it does not leave to the base as the tree does.
  lemma FittingView(disk: Disk, tree: Tree, stamp: Stamp, base: map<Path, Graph>, p: Path)
    requires SessionFits(tree, stamp, disk)
    ensures
      || ViewAt(disk, tree, stamp, base, p) == At(IndexOf(stamp, ContentsOf(tree)), p)
      || (!Serves(disk, tree, stamp, p) && !Removed(disk.manifest, tree, stamp, p))
  {
    if Serves(disk, tree, stamp, p) {
      assert RowFits(tree, stamp, disk.bins, p, disk.manifest.value.rows[p]);
    }
  }

  // A dirty path the refresh has settled: its fragment is served, or its absence is.
  ghost predicate Settled(disk: Disk, tree: Tree, stamp: Stamp, p: Path) {
    Serves(disk, tree, stamp, p) || Removed(disk.manifest, tree, stamp, p)
  }

  predicate GateKeeps(bins: map<FragmentId, Bin>, snap: Manifest, tree: Tree, p: Path) {
    var check := CheckRow(snap, p);
    match AfterStat(check, StatOf(tree, p))
    case Some(Keep) => true
    case Some(Skip) => false
    case None => !BinReads(bins, check.id)
  }

  // What a HEAD change since the last refresh does to the session before the write.
  datatype Drift = FastForward(rows: set<Path>, bins: set<FragmentId>) | Rewritten

  datatype Outcome = Current | Reparsed | WriteFailed

  ghost predicate PreFits(tree: Tree, pre: map<Path, nat>) {
    forall p :: p in pre ==> p in tree && pre[p] == tree[p].mtime
  }

  class Session {
    var disk: Disk

    constructor (disk: Disk)
      ensures this.disk == disk
    {
      this.disk := disk;
    }

    // retain_stale_fragments: leaves out a dirty path exactly if the session, based on HEAD,
    // already serves its fragment or its removal.
    method RetainStaleFragments(stamp: Stamp, headNo: nat, tree: Tree, relPaths: seq<Path>)
        returns (retained: seq<Path>, pre: map<Path, nat>)
      requires SessionFits(tree, stamp, disk)
      ensures PreFits(tree, pre) && pre.Keys <= set p | p in retained
      ensures forall p :: p in retained <==>
                            p in relPaths && !(disk.base == headNo && Settled(disk, tree, stamp, p))
    {
      if disk.base != headNo || disk.manifest.None? || !IsCurrent(disk.manifest.value, stamp) {
        return relPaths, map[];
      }
      var snap := disk.manifest.value;
      retained, pre := [], map[];
      for i := 0 to |relPaths|
        invariant PreFits(tree, pre) && pre.Keys <= set p | p in retained
        invariant forall p :: p in retained <==> p in relPaths[..i] && !Settled(disk, tree, stamp, p)
      {
        var p := relPaths[i];
        assert relPaths[..i + 1] == relPaths[..i] + [p];
        KeptIffUnsettled(disk, tree, stamp, p);
        var check, stat := CheckRow(snap, p), StatOf(tree, p);
        var verdict := AfterStat(check, stat);
        if verdict == Some(Keep) || (verdict == None && !BinReads(disk.bins, check.id)) {
          retained := retained + [p];
          if !check.Reparse? && stat.Some? {
            pre := pre[p := stat.value];
          }
        }
      }
      assert relPaths[..|relPaths|] == relPaths;
    }

    // The stats between the gate and the parse: a path absent here gets a tombstone.
    method StatRemaining(tree: Tree, paths: seq<Path>, gated: map<Path, nat>)
        returns (pre: map<Path, nat>, absent: set<Path>)
      requires PreFits(tree, gated)
      ensures PreFits(tree, pre) && gated.Keys <= pre.Keys
      ensures forall p :: p in paths && p in tree ==> p in pre
      ensures absent == set p | p in paths && p !in tree
    {
      pre, absent := gated, {};
      for i := 0 to |paths|
        invariant PreFits(tree, pre) && gated.Keys <= pre.Keys
        invariant forall p :: p in paths[..i] && p in tree ==> p in pre
        invariant absent == set p | p in paths[..i] && p !in tree
      {
        assert paths[..i + 1] == paths[..i] + [paths[i]];
        if paths[i] !in pre {
          var stat := StatOf(tree, paths[i]);
          if stat.Some? {
            pre := pre[paths[i] := stat.value];
          } else {
            absent := absent + {paths[i]};
          }
        }
      }
      assert paths[..|paths|] == paths;
    }

    // write_dirty_events: one row and one bin per parsed file, one row per tombstone.
    // An archive that cannot be written marks its row parse_failed and leaves no bin.
    method WriteDirtyEvents(
        stamp: Stamp, tree: Tree, paths: seq<Path>, pre: map<Path, nat>, absent: set<Path>, unarchived: set<Path>)
      requires SessionFits(tree, stamp, disk) && PreFits(tree, pre)
      requires forall p :: p in paths && p in tree ==> p in pre
      requires forall p :: p in absent ==> p !in tree
      modifies this
      ensures SessionFits(tree, stamp, disk)
      ensures disk.base == old(disk.base)
      ensures disk.manifest.Some? && IsCurrent(disk.manifest.value, stamp)
      ensures forall p :: p in paths && p in tree && p !in unarchived ==> Serves(disk, tree, stamp, p)
      ensures forall p :: p in absent ==> Removed(disk.manifest, tree, stamp, p)
      ensures forall p :: Untouched(old(disk), disk, tree, stamp, paths, absent, p)
    {
      var rows: map<Path, Row>, bins := map[], disk.bins;
      for i := 0 to |paths|
        invariant disk == old(disk)
        invariant StagedFit(tree, stamp, paths[..i], unarchived, rows, disk.bins, bins)
      {
        var p := paths[i];
        assert paths[..i + 1] == paths[..i] + [p];
        StageOne(tree, stamp, paths[..i], unarchived, rows, disk.bins, bins, p);
        if p in tree {
          var id := IdOf(p, tree[p].content);
          rows := rows[p := Row(Modified, pre[p], Some(id), p in unarchived, FRAGMENT_FORMAT)];
          if p !in unarchived {
            bins := bins[id := Archive(Analyze(stamp, p, tree[p].content))];
          }
        }
      }
      assert paths[..|paths|] == paths;
      CommitFits(tree, stamp, disk, paths, unarchived, rows, bins, absent);
      disk := Disk(Some(Committed(disk.manifest, stamp, rows, absent)), bins, disk.base);
    }

    // retire_unclaimed_entries over the snapshot the refresh started from.
    method RetireUnclaimed(stamp: Stamp, tree: Tree, snap: Option<Manifest>, claimed: set<Path>)
      requires SessionFits(tree, stamp, disk)
      modifies this
      ensures SessionFits(tree, stamp, disk) && disk.base == old(disk.base)
      ensures forall p :: p in claimed ==> SameAnswers(old(disk), disk, tree, stamp, p)
    {
      if snap.Some? {
        RetireKeepsClaimed(disk, tree, stamp, snap.value, claimed);
        disk := disk.(manifest := Retired(disk.manifest, snap.value, claimed));
      }
    }

    // promotion: what a HEAD change drops before the write.
    method Promote(stamp: Stamp, tree: Tree, headNo: nat, drift: Drift)
      requires SessionFits(tree, stamp, disk)
      modifies this
      ensures SessionFits(tree, stamp, disk) && disk.base == headNo
    {
      match drift
      case FastForward(rows, bins) =>
        var manifest :=
          if disk.manifest.Some? then Some(disk.manifest.value.(rows := Protocol.Kept(disk.manifest.value.rows, rows)))
          else None;
        disk := Disk(manifest, Protocol.Kept(disk.bins, bins), headNo);
      case Rewritten =>
        disk := Disk(Some(Manifest(stamp, map[])), map[], headNo);
    }
  }

  ghost predicate Archived(stamp: Stamp, bins: map<FragmentId, Bin>, id: FragmentId) {
    id in bins && bins[id] == Archive(AnalyzeRoute(stamp, id.route, id.content))
  }

  ghost predicate BinKept(before: map<FragmentId, Bin>, bins: map<FragmentId, Bin>, id: FragmentId) {
    if id in before then id in bins && bins[id] == before[id] else id !in bins
  }

  // The rows and bins staged for the paths handled so far.
  ghost predicate StagedFit(
      tree: Tree, stamp: Stamp, paths: seq<Path>, unarchived: set<Path>,
      rows: map<Path, Row>, before: map<FragmentId, Bin>, bins: map<FragmentId, Bin>)
  {
    && (forall p :: p in rows <==> p in paths && p in tree)
    && (forall p :: p in rows ==>
          && rows[p] == Row(Modified, tree[p].mtime, Some(IdOf(p, tree[p].content)), p in unarchived, FRAGMENT_FORMAT)
          && (p !in unarchived ==> Archived(stamp, bins, IdOf(p, tree[p].content))))
    && (forall id :: BinKept(before, bins, id) || Archived(stamp, bins, id))
  }

  lemma StageOne(
      tree: Tree, stamp: Stamp, paths: seq<Path>, unarchived: set<Path>,
      rows: map<Path, Row>, before: map<FragmentId, Bin>, bins: map<FragmentId, Bin>, p: Path)
    requires StagedFit(tree, stamp, paths, unarchived, rows, before, bins)
    ensures p !in tree ==> StagedFit(tree, stamp, paths + [p], unarchived, rows, before, bins)
    ensures p in tree ==>
              var id := IdOf(p, tree[p].content);
              var row := Row(Modified, tree[p].mtime, Some(id), p in unarchived, FRAGMENT_FORMAT);
              var bins' := if p in unarchived then bins else bins[id := Archive(Analyze(stamp, p, tree[p].content))];
              StagedFit(tree, stamp, paths + [p], unarchived, rows[p := row], before, bins')
  {
    if p in tree && p !in unarchived {
      var id := IdOf(p, tree[p].content);
      var bins' := bins[id := Archive(Analyze(stamp, p, tree[p].content))];
      forall i ensures BinKept(before, bins', i) || Archived(stamp, bins', i) {
        assert BinKept(before, bins, i) || Archived(stamp, bins, i);
      }
      forall q | q in rows && q !in unarchived ensures Archived(stamp, bins', IdOf(q, tree[q].content)) {
        assert Archived(stamp, bins, IdOf(q, tree[q].content));
      }
    }
  }

  // A path the write does not name keeps what the reader makes of it.
  ghost predicate Untouched(
      before: Disk, after: Disk, tree: Tree, stamp: Stamp, paths: seq<Path>, absent: set<Path>, p: Path)
  {
    !(p in paths && p in tree) && p !in absent ==> SameAnswers(before, after, tree, stamp, p)
  }

  ghost predicate SameAnswers(before: Disk, after: Disk, tree: Tree, stamp: Stamp, p: Path) {
    && (Serves(before, tree, stamp, p) ==> Serves(after, tree, stamp, p))
    && (Removed(before.manifest, tree, stamp, p) ==> Removed(after.manifest, tree, stamp, p))
  }

  lemma CommitFits(
      tree: Tree, stamp: Stamp, disk: Disk, paths: seq<Path>, unarchived: set<Path>,
      rows: map<Path, Row>, bins: map<FragmentId, Bin>, absent: set<Path>)
    requires SessionFits(tree, stamp, disk)
    requires StagedFit(tree, stamp, paths, unarchived, rows, disk.bins, bins)
    requires forall p :: p in absent ==> p !in tree
    ensures
      var after := Disk(Some(Committed(disk.manifest, stamp, rows, absent)), bins, disk.base);
      && SessionFits(tree, stamp, after)
      && (forall p :: p in paths && p in tree && p !in unarchived ==> Serves(after, tree, stamp, p))
      && (forall p :: p in absent ==> Removed(after.manifest, tree, stamp, p))
      && (forall p :: Untouched(disk, after, tree, stamp, paths, absent, p))
  {
    var after := Disk(Some(Committed(disk.manifest, stamp, rows, absent)), bins, disk.base);
    forall p | p in after.manifest.value.rows
      ensures RowFits(tree, stamp, bins, p, after.manifest.value.rows[p])
    {
      CommittedRowFits(tree, stamp, disk, paths, unarchived, rows, bins, absent, p);
    }
    forall p | p in paths && p in tree && p !in unarchived ensures Serves(after, tree, stamp, p) {
      assert p in rows && Archived(stamp, bins, IdOf(p, tree[p].content));
    }
    forall p ensures Untouched(disk, after, tree, stamp, paths, absent, p) {
      if Serves(disk, tree, stamp, p) {
        var id := disk.manifest.value.rows[p].fragment.value;
        assert BinKept(disk.bins, bins, id) || Archived(stamp, bins, id);
      }
    }
  }

  lemma CommittedRowFits(
      tree: Tree, stamp: Stamp, disk: Disk, paths: seq<Path>, unarchived: set<Path>,
      rows: map<Path, Row>, bins: map<FragmentId, Bin>, absent: set<Path>, p: Path)
    requires SessionFits(tree, stamp, disk)
    requires StagedFit(tree, stamp, paths, unarchived, rows, disk.bins, bins)
    requires p in Committed(disk.manifest, stamp, rows, absent).rows
    ensures RowFits(tree, stamp, bins, p, Committed(disk.manifest, stamp, rows, absent).rows[p])
  {
    var row := Committed(disk.manifest, stamp, rows, absent).rows[p];
    if p !in absent {
      if p in rows {
        assert p in unarchived || Archived(stamp, bins, IdOf(p, tree[p].content));
      } else {
        assert RowFits(tree, stamp, disk.bins, p, row);
        if row.fragment.Some? {
          assert BinKept(disk.bins, bins, row.fragment.value) || Archived(stamp, bins, row.fragment.value);
        }
      }
    }
  }

  lemma RetireKeepsClaimed(disk: Disk, tree: Tree, stamp: Stamp, snap: Manifest, claimed: set<Path>)
    requires SessionFits(tree, stamp, disk)
    ensures
      var after := disk.(manifest := Retired(disk.manifest, snap, claimed));
      && SessionFits(tree, stamp, after)
      && forall p :: p in claimed ==> SameAnswers(disk, after, tree, stamp, p)
  {
    var after := disk.(manifest := Retired(disk.manifest, snap, claimed));
    if disk.manifest.Some? {
      var rows := disk.manifest.value.rows;
      var left := map p | p in rows && !Retires(snap, claimed, p, rows[p]) :: rows[p];
      forall p | p in claimed ensures SameAnswers(disk, after, tree, stamp, p) {
        assert p in rows ==> p in left;
        assert p in left ==> left != map[];
      }
    }
  }

  // The gate leaves out exactly what the overlay already answers: a row it skips is served
  // or is a removal, and one it keeps is neither.
  lemma KeptIffUnsettled(disk: Disk, tree: Tree, stamp: Stamp, p: Path)
    requires SessionFits(tree, stamp, disk)
    requires disk.manifest.Some? && IsCurrent(disk.manifest.value, stamp)
    ensures GateKeeps(disk.bins, disk.manifest.value, tree, p) <==> !Settled(disk, tree, stamp, p)
  {
    assert p in disk.manifest.value.rows ==> RowFits(tree, stamp, disk.bins, p, disk.manifest.value.rows[p]);
  }

  lemma NothingRetained(dirty: seq<Path>, retained: seq<Path>, settled: Path -> bool)
    requires forall p :: p in retained <==> p in dirty && !settled(p)
    ensures retained == [] <==> forall p :: p in dirty ==> settled(p)
    ensures dirty != [] ==> exists p :: p in dirty
  {
    assert retained != [] ==> retained[0] in retained;
    assert dirty != [] ==> dirty[0] in dirty;
  }

  // refresh_overlay. `shadows` are the tracked files the retained paths shadow,
  // `claimed` the ones the retire pass sees; `writeFails` is a lock timeout or a full disk.
  method RefreshOverlay(
      session: Session, stamp: Stamp, headNo: nat, tree: Tree, dirty: seq<Path>,
      shadows: set<Path>, claimed: set<Path>, drift: Drift, unarchived: set<Path>, writeFails: bool)
      returns (outcome: Outcome)
    requires SessionFits(tree, stamp, session.disk)
    modifies session
    ensures SessionFits(tree, stamp, session.disk)
    ensures outcome == WriteFailed ==> writeFails
    ensures outcome == Current <==>
              dirty == [] || (old(session.disk).base == headNo && forall p :: p in dirty ==>
                                Settled(old(session.disk), tree, stamp, p))
    ensures outcome == Current ==> session.disk.base == old(session.disk).base
    ensures outcome == Reparsed ==> session.disk.base == headNo
    ensures outcome != WriteFailed ==>
              forall p :: p in dirty && p !in unarchived ==> Settled(session.disk, tree, stamp, p)
  {
    var snap := session.disk.manifest;
    var retained, gated := session.RetainStaleFragments(stamp, headNo, tree, dirty);
    ghost var before := session.disk;
    NothingRetained(dirty, retained, p => before.base == headNo && Settled(before, tree, stamp, p));
    if retained == [] {
      session.RetireUnclaimed(stamp, tree, snap, SetOf(dirty) + claimed);
      forall p | p in dirty ensures Settled(session.disk, tree, stamp, p) {
        assert Settled(before, tree, stamp, p) && SameAnswers(before, session.disk, tree, stamp, p);
      }
      return Current;
    }
    var pre, absent := session.StatRemaining(tree, retained, gated);
    var extra := Listed(shadows - SetOf(retained));
    var all, _ := session.StatRemaining(tree, extra, pre);
    if session.disk.base != headNo {
      session.Promote(stamp, tree, headNo, drift);
    }
    if writeFails {
      session.RetireUnclaimed(stamp, tree, snap, SetOf(dirty) + claimed);
      return WriteFailed;
    }
    session.WriteDirtyEvents(stamp, tree, retained + extra, all, absent, unarchived);
    assert forall p :: p in retained && p in tree && p !in unarchived ==> Serves(session.disk, tree, stamp, p);
    forall p | p in dirty && p !in unarchived ensures Settled(session.disk, tree, stamp, p) {
      if p !in retained {
        assert Untouched(before, session.disk, tree, stamp, retained + extra, absent, p);
      }
    }
    label Written:
    session.RetireUnclaimed(stamp, tree, snap, SetOf(dirty) + claimed);
    forall p | p in dirty && p !in unarchived ensures Settled(session.disk, tree, stamp, p) {
      assert SameAnswers(old@Written(session.disk), session.disk, tree, stamp, p);
    }
    return Reparsed;
  }

  // A burst of queries parses once: while the tree stays, a second refresh finds every dirty
  // path settled, whatever it claims.
  method RefreshTwice(
      session: Session, stamp: Stamp, headNo: nat, tree: Tree, dirty: seq<Path>,
      shadows: set<Path>, claimed: set<Path>, drift: Drift, claimedNext: set<Path>, writeFailsNext: bool)
      returns (first: Outcome, second: Outcome)
    requires SessionFits(tree, stamp, session.disk)
    modifies session
    ensures first != WriteFailed && second == Current
  {
    first := RefreshOverlay(session, stamp, headNo, tree, dirty, shadows, claimed, drift, {}, false);
    second := RefreshOverlay(session, stamp, headNo, tree, dirty, shadows, claimedNext, drift, {}, writeFailsNext);
  }

  // The paths of sibling_diff and of git status.
  function Differing(a: map<Path, Content>, b: map<Path, Content>): (changed: set<Path>)
    ensures forall p :: p in changed <==> (if p in a then Some(a[p]) else None) != (if p in b then Some(b[p]) else None)
  {
    (set p | p in a && (p !in b || b[p] != a[p])) + (set p | p in b && p !in a)
  }

  // cover_warm_attach: a sibling commit's graph, covered up to the working tree. The
  // overlay then answers every path as an index of the working tree would.
  method CoverWarmAttach(
      session: Session, stamp: Stamp, headNo: nat, tree: Tree, sibling: map<Path, Content>, head: map<Path, Content>,
      limit: nat, shadows: set<Path>, claimed: set<Path>, drift: Drift, unarchived: set<Path>, writeFails: bool)
      returns (covered: bool)
    requires SessionFits(tree, stamp, session.disk)
    modifies session
    ensures SessionFits(tree, stamp, session.disk)
    ensures |Differing(head, ContentsOf(tree)) + Differing(sibling, head)| > limit ==>
              !covered && session.disk == old(session.disk)
    ensures |Differing(head, ContentsOf(tree)) + Differing(sibling, head)| <= limit && !writeFails ==> covered
    ensures covered ==>
              forall p :: p !in unarchived ==>
                ViewAt(session.disk, tree, stamp, IndexOf(stamp, sibling), p) == At(IndexOf(stamp, ContentsOf(tree)), p)
  {
    var changed := Differing(head, ContentsOf(tree)) + Differing(sibling, head);
    if |changed| > limit {
      return false;
    }
    var dirty := Listed(changed);
    var outcome := RefreshOverlay(session, stamp, headNo, tree, dirty, shadows, claimed, drift, unarchived, writeFails);
    covered := outcome != WriteFailed;
    if covered {
      forall p | p !in unarchived
        ensures ViewAt(session.disk, tree, stamp, IndexOf(stamp, sibling), p) == At(IndexOf(stamp, ContentsOf(tree)), p)
      {
        FittingView(session.disk, tree, stamp, IndexOf(stamp, sibling), p);
        assert p !in changed ==> At(IndexOf(stamp, sibling), p) == At(IndexOf(stamp, ContentsOf(tree)), p);
      }
    }
  }
}
