/** The session overlay: the manifest of dirty files, its fragment bins, and the files
    they were parsed from. */
module Overlay {
  import opened Options

  type Path = string
  type Content = string

  // mtimes are nanoseconds since the epoch; no real file has 0.
  datatype File = File(mtime: nat, content: Content)
  type Tree = map<Path, File>

  // The header of a manifest: the format, size cap and builder its rows were parsed under.
  datatype Stamp = Stamp(format: nat, cap: nat, builder: string)

  // What an analysis of one file gives: its parse, or an omission when it is over the cap.
  datatype Graph = Parsed(stamp: Stamp, route: string, content: Content) | Omission(stamp: Stamp, route: string)

  // The route key of a path: two paths of one route parse one content alike. The text
  // after the last dot stands for it.
  function Route(path: Path): string
    decreases |path|
  {
    if path == "" then ""
    else if path[|path| - 1] == '.' then ""
    else Route(path[..|path| - 1]) + [path[|path| - 1]]
  }

  function AnalyzeRoute(stamp: Stamp, route: string, content: Content): Graph {
    if |content| > stamp.cap then Omission(stamp, route) else Parsed(stamp, route, content)
  }

  function Analyze(stamp: Stamp, path: Path, content: Content): Graph {
    AnalyzeRoute(stamp, Route(path), content)
  }

  // fragment_id_for: a hash of the route key and the content, taken as free of collisions.
  datatype FragmentId = FragmentId(route: string, content: Content)

  function IdOf(path: Path, content: Content): FragmentId {
    FragmentId(Route(path), content)
  }

  datatype Bin = Archive(graph: Graph) | Corrupt

  datatype Change = Added | Modified | Deleted | Renamed

  const FRAGMENT_FORMAT: nat := 8
  const FRAGMENT_FORMAT_V6: nat := 6

  datatype Row = Row(change: Change, mtime: nat, fragment: Option<FragmentId>, parseFailed: bool, format: nat)

  // DirtyEventEntry::tombstone.
  const TOMBSTONE: Row := Row(Deleted, 0, None, false, FRAGMENT_FORMAT_V6)

  datatype Manifest = Manifest(stamp: Stamp, rows: map<Path, Row>)

  datatype Disk = Disk(manifest: Option<Manifest>, bins: map<FragmentId, Bin>, base: nat)

  // is_current.
  predicate IsCurrent(m: Manifest, stamp: Stamp) {
    m.stamp == stamp
  }

  // current_or_empty.
  function CurrentOrEmpty(manifest: Option<Manifest>, stamp: Stamp): Manifest {
    if manifest.Some? && IsCurrent(manifest.value, stamp) then manifest.value else Manifest(stamp, map[])
  }

  // The manifest after a batch of fragment rows and tombstones is committed.
  function Committed(manifest: Option<Manifest>, stamp: Stamp, rows: map<Path, Row>, absent: set<Path>): Manifest {
    var m := CurrentOrEmpty(manifest, stamp);
    Manifest(stamp, m.rows + rows + map p | p in absent :: TOMBSTONE)
  }

  // What the gate makes of one dirty path's row before it looks at the file.
  datatype RowCheck = Reparse | CheckAbsent | CheckMtime(mtime: nat, id: FragmentId)

  function CheckRow(snap: Manifest, p: Path): RowCheck {
    if p !in snap.rows then Reparse
    else
      var row := snap.rows[p];
      if row.fragment.None? then CheckAbsent
      else if row.format != FRAGMENT_FORMAT || row.parseFailed then Reparse
      else CheckMtime(row.mtime, row.fragment.value)
  }

  function StatOf(tree: Tree, p: Path): Option<nat> {
    if p in tree then Some(tree[p].mtime) else None
  }

  // The verdict of the gate once the file is statted: None while the bin decides.
  datatype Verdict = Skip | Keep

  function AfterStat(check: RowCheck, stat: Option<nat>): Option<Verdict> {
    match check
    case Reparse => Some(Keep)
    case CheckAbsent => if stat.Some? then Some(Keep) else Some(Skip)
    case CheckMtime(mtime, _) => if stat == Some(mtime) then None else Some(Keep)
  }

  predicate BinReads(bins: map<FragmentId, Bin>, id: FragmentId) {
    id in bins && bins[id].Archive?
  }

  // retire_entries: a row goes only while it equals the snapshot's and nothing claims it.
  predicate Retires(snap: Manifest, claimed: set<Path>, p: Path, row: Row) {
    p in snap.rows && p !in claimed && snap.rows[p] == row
  }

  function Retired(manifest: Option<Manifest>, snap: Manifest, claimed: set<Path>): Option<Manifest> {
    match manifest
    case None => None
    case Some(m) =>
      var left := map p | p in m.rows && !Retires(snap, claimed, p, m.rows[p]) :: m.rows[p];
      if left == m.rows then manifest
      else if left == map[] then None
      else Some(m.(rows := left))
  }

  // Whether git status names p: the working tree and HEAD differ there.
  predicate Dirty(tree: Tree, head: map<Path, Content>, p: Path) {
    if p in tree then p !in head || head[p] != tree[p].content else p in head
  }
}
