// crates/ecp-cli/src/auto_ensure.rs: any number of query processes refresh one session
// overlay while files change. Every stat, read and publish is a step of its own, so an
// edit can land between any two.
module Protocol {
  import opened Options
  import opened Overlay

  // The working tree and HEAD. `ever` holds the last mtime each path had.
  datatype World = World(tree: Tree, ever: map<Path, nat>, head: map<Path, Content>, headNo: nat)

  datatype Phase = Probing | Gating | Statting | Shadowing | Parsing | Staging | Retiring | Done

  datatype Proc = Proc(
    phase: Phase,
    stamp: Stamp,
    snap: Option<Manifest>,        // the manifest, read before the probe
    probedHead: nat,
    probed: map<Path, bool>,       // the paths git status has looked at: dirty or not
    todo: set<Path>,               // dirty paths the gate has not decided
    matched: Option<Path>,         // its stat equalled its row; the bin is read next
    retained: set<Path>,           // the paths to parse again
    pre: map<Path, nat>,           // pre_parse_mtimes
    absent: set<Path>,             // tombstones to write
    parse: set<Path>,              // retained and their shadows
    contents: map<Path, Content>,  // what each parse read
    rows: map<Path, Row>)          // staged rows

  datatype State = State(world: World, disk: Disk, procs: map<nat, Proc>)

  datatype Action =
    // the user, git and the garbage collector
    | Write(path: Path, content: Content, mtime: nat)
    | Delete(path: Path)
    | Commit(head: map<Path, Content>)
    | CleanUp(rows: set<Path>, bins: set<FragmentId>, base: nat)
    | Reset(stamp: Stamp)
    // one query process
    | Start(id: nat, stamp: Stamp)
    | ProbePath(id: nat, path: Path)
    | OpenGate(id: nat)
    | BypassGate(id: nat)
    | GateStat(id: nat, path: Path)
    | GateRead(id: nat)
    | CloseGate(id: nat)
    | StatPath(id: nat, path: Path)
    | Expand(id: nat, shadows: set<Path>)
    | StatShadow(id: nat, path: Path)
    | BeginParse(id: nat)
    | Parse(id: nat, path: Path)
    | BeginStage(id: nat)
    | Stage(id: nat, path: Path, failed: bool)
    | Publish(id: nat, order: seq<Path>)
    | FailPublish(id: nat, order: seq<Path>)
    | Retire(id: nat, shadows: set<Path>)

  function Ever(w: World, p: Path): nat {
    if p in w.ever then w.ever[p] else 0
  }

  function DirtyPaths(proc: Proc): set<Path> {
    set p | p in proc.probed && proc.probed[p]
  }

  // The content a staged row's id is hashed from: an omitted graph carries no hash, so
  // the file is read again.
  function HashedContent(w: World, proc: Proc, p: Path): Content
    requires p in proc.contents
  {
    if |proc.contents[p]| <= proc.stamp.cap then proc.contents[p]
    else if p in w.tree then w.tree[p].content
    else ""
  }

  function StagedRow(w: World, proc: Proc, p: Path, failed: bool): Row
    requires p in proc.contents
  {
    var mtime := if p in proc.pre then proc.pre[p] else 0;
    Row(Modified, mtime, Some(IdOf(p, HashedContent(w, proc, p))), failed, FRAGMENT_FORMAT)
  }

  predicate IsEnvironment(a: Action) {
    a.Write? || a.Delete? || a.Commit? || a.CleanUp? || a.Reset?
  }

  // One step of a process: what must hold, and what it changes of the process.
  predicate ProcCan(w: World, disk: Disk, proc: Proc, a: Action) {
    match a
    case ProbePath(_, p) => proc.phase == Probing && p !in proc.probed
    case OpenGate(_) =>
      && proc.phase == Probing && (proc.snap.Some? ==> proc.snap.value.rows.Keys <= proc.probed.Keys)
      && disk.base == w.headNo && proc.snap.Some? && IsCurrent(proc.snap.value, proc.stamp)
    case BypassGate(_) =>
      proc.phase == Probing && (proc.snap.Some? ==> proc.snap.value.rows.Keys <= proc.probed.Keys)
    case GateStat(_, p) => proc.phase == Gating && proc.matched.None? && p in proc.todo && proc.snap.Some?
    case GateRead(_) =>
      && proc.phase == Gating && proc.matched.Some? && proc.snap.Some?
      && CheckRow(proc.snap.value, proc.matched.value).CheckMtime?
    case CloseGate(_) => proc.phase == Gating && proc.matched.None? && proc.todo == {}
    case StatPath(_, p) => proc.phase == Statting && p in proc.retained && p !in proc.pre && p !in proc.absent
    case Expand(_, _) => proc.phase == Statting && proc.retained <= proc.pre.Keys + proc.absent
    case StatShadow(_, p) => proc.phase == Shadowing && p in proc.parse && p !in proc.pre
    case BeginParse(_) => proc.phase == Shadowing
    case Parse(_, p) => proc.phase == Parsing && p in proc.parse && p !in proc.contents && p in w.tree
    case BeginStage(_) => proc.phase == Parsing
    case Stage(_, p, _) => proc.phase == Staging && p in proc.contents && p !in proc.rows
    case Publish(_, order) =>
      // under the publish lock: every archive that was written, then the manifest
      && proc.phase == Staging && proc.rows.Keys == proc.contents.Keys
      && (forall p :: p in order ==> p in proc.rows && !proc.rows[p].parseFailed)
      && (forall p :: p in proc.rows && !proc.rows[p].parseFailed ==> p in order)
    case FailPublish(_, order) =>
      // a lock timeout or a full disk, after some of the archives
      proc.phase == Staging && forall p :: p in order ==> p in proc.rows && !proc.rows[p].parseFailed
    case Retire(_, _) => proc.phase == Retiring
    case _ => false
  }

  function ProcDo(w: World, disk: Disk, proc: Proc, a: Action): Proc
    requires ProcCan(w, disk, proc, a)
  {
    match a
    case ProbePath(_, p) => proc.(probed := proc.probed[p := Dirty(w.tree, w.head, p)])
    case OpenGate(_) => proc.(phase := Gating, todo := DirtyPaths(proc))
    case BypassGate(_) => proc.(phase := Statting, retained := DirtyPaths(proc))
    case GateStat(_, p) =>
      var stat := StatOf(w.tree, p);
      var check := CheckRow(proc.snap.value, p);
      var left := proc.(todo := proc.todo - {p});
      (match AfterStat(check, stat)
       case None => left.(matched := Some(p))
       case Some(Skip) => left
       case Some(Keep) =>
         left.(retained := proc.retained + {p},
               pre := if check.Reparse? || stat.None? then proc.pre else proc.pre[p := stat.value]))
    case GateRead(_) =>
      var p := proc.matched.value;
      var check := CheckRow(proc.snap.value, p);
      if BinReads(disk.bins, check.id) then proc.(matched := None)
      else proc.(matched := None, retained := proc.retained + {p}, pre := proc.pre[p := check.mtime])
    case CloseGate(_) => proc.(phase := if proc.retained == {} then Retiring else Statting)
    case StatPath(_, p) =>
      if p in w.tree then proc.(pre := proc.pre[p := w.tree[p].mtime]) else proc.(absent := proc.absent + {p})
    case Expand(_, shadows) => proc.(phase := Shadowing, parse := proc.retained + shadows)
    case StatShadow(_, p) => if p in w.tree then proc.(pre := proc.pre[p := w.tree[p].mtime]) else proc
    case BeginParse(_) => proc.(phase := Parsing)
    case Parse(_, p) => proc.(contents := proc.contents[p := w.tree[p].content])
    case BeginStage(_) => proc.(phase := Staging)
    case Stage(_, p, failed) => proc.(rows := proc.rows[p := StagedRow(w, proc, p, failed)])
    case Publish(_, _) => proc.(phase := Retiring)
    case FailPublish(_, _) => proc.(phase := Retiring)
    case Retire(_, _) => proc.(phase := Done)
  }

  // The process after a step; None when it cannot take it.
  function ProcStep(w: World, disk: Disk, proc: Proc, a: Action): Option<Proc> {
    if ProcCan(w, disk, proc, a) then Some(ProcDo(w, disk, proc, a)) else None
  }

  // The bins after the archives of these paths are moved into place, one by one.
  function Written(bins: map<FragmentId, Bin>, proc: Proc, order: seq<Path>): map<FragmentId, Bin> {
    if order == [] then bins
    else
      var p := order[|order| - 1];
      var before := Written(bins, proc, order[..|order| - 1]);
      if p in proc.rows && proc.rows[p].fragment.Some? && p in proc.contents then
        before[proc.rows[p].fragment.value := Archive(Analyze(proc.stamp, p, proc.contents[p]))]
      else before
  }

  // What the same step does to the session on disk.
  function DiskDo(disk: Disk, proc: Proc, a: Action): Disk {
    match a
    case Publish(_, order) =>
      disk.(bins := Written(disk.bins, proc, order),
            manifest := Some(Committed(disk.manifest, proc.stamp, proc.rows, proc.absent)))
    case FailPublish(_, order) => disk.(bins := Written(disk.bins, proc, order))
    case Retire(_, shadows) =>
      if proc.snap.Some? then
        disk.(manifest := Retired(disk.manifest, proc.snap.value, DirtyPaths(proc) + shadows))
      else disk
    case _ => disk
  }

  function Kept<K, V>(m: map<K, V>, keys: set<K>): map<K, V> {
    map k | k in m && k in keys :: m[k]
  }

  function StartedProc(s: State, stamp: Stamp): Proc {
    Proc(Probing, stamp, s.disk.manifest, s.world.headNo, map[], {}, None, {}, map[], {}, {}, map[], map[])
  }

  predicate Can(s: State, a: Action) {
    match a
    case Write(p, _, mtime) => mtime > Ever(s.world, p)
    case Delete(p) => p in s.world.tree
    case Commit(_) => true
    case CleanUp(_, _, _) => true
    case Reset(_) => true
    case Start(id, _) => id !in s.procs
    case _ => a.id in s.procs && ProcCan(s.world, s.disk, s.procs[a.id], a)
  }

  function Do(s: State, a: Action): State
    requires Can(s, a)
  {
    match a
    case Write(p, content, mtime) =>
      s.(world := s.world.(tree := s.world.tree[p := File(mtime, content)], ever := s.world.ever[p := mtime]))
    case Delete(p) => s.(world := s.world.(tree := s.world.tree - {p}))
    case Commit(head) => s.(world := s.world.(head := head, headNo := s.world.headNo + 1))
    case CleanUp(rows, bins, base) =>
      // promotion over a fast-forward and `admin gc`: some rows and some bins go
      var manifest :=
        if s.disk.manifest.Some? then Some(s.disk.manifest.value.(rows := Kept(s.disk.manifest.value.rows, rows)))
        else None;
      s.(disk := Disk(manifest, Kept(s.disk.bins, bins), base))
    case Reset(stamp) =>
      // promotion over any other HEAD change: the session starts again
      s.(disk := Disk(Some(Manifest(stamp, map[])), map[], s.world.headNo))
    case Start(id, stamp) => s.(procs := s.procs[id := StartedProc(s, stamp)])
    case _ =>
      s.(disk := DiskDo(s.disk, s.procs[a.id], a),
         procs := s.procs[a.id := ProcDo(s.world, s.disk, s.procs[a.id], a)])
  }

  // The state after an action; None when it cannot happen.
  function Step(s: State, a: Action): Option<State> {
    if Can(s, a) then Some(Do(s, a)) else None
  }

  // A session no process has touched, over any tree whose mtimes are real.
  ghost predicate Init(s: State) {
    && s.procs == map[]
    && s.disk.manifest == None && s.disk.bins == map[]
    && TreeOk(s.world)
  }

  ghost predicate TreeOk(w: World) {
    forall p :: p in w.tree ==> 0 < w.tree[p].mtime <= Ever(w, p)
  }

  ghost predicate IsRun(s: State, run: seq<Action>, t: State)
    decreases |run|
  {
    if run == [] then s == t
    else Step(s, run[0]).Some? && IsRun(Step(s, run[0]).value, run[1..], t)
  }
}
