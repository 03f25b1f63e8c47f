// Runs of the protocol that leave the conditions of the freshness results, and lose
// what those results promise. Each is built a few steps at a time from a session nobody
// has touched: a file over the cap that shrinks between its parse and the hash of its id;
// a publish of another builder that stops before its manifest; and a committed file that
// is gone, comes back while a second process looks at it, and is gone again.
module ProtocolLimits {
  import opened Options
  import opened Overlay
  import opened Protocol
  import opened Freshness
  import opened Fragments

  lemma {:induction false} Extend(s: State, run: seq<Action>, t: State, a: Action)
    requires IsRun(s, run, t) && Step(t, a).Some?
    ensures IsRun(s, run + [a], Step(t, a).value)
    decreases |run|
  {
    if run == [] {
      assert (run + [a])[1..] == [];
    } else {
      Extend(Step(s, run[0]).value, run[1..], t, a);
      assert (run + [a])[1..] == run[1..] + [a];
    }
  }

  lemma TakeStep(s: State, run: seq<Action>, t: State, a: Action) returns (run': seq<Action>, t': State)
    requires IsRun(s, run, t) && Step(t, a).Some?
    ensures IsRun(s, run', t') && t' == Step(t, a).value
  {
    Extend(s, run, t, a);
    run', t' := run + [a], Step(t, a).value;
  }

  lemma TakeProcStep(s: State, run: seq<Action>, t: State, proc: Proc, a: Action)
      returns (run': seq<Action>, t': State, proc': Proc)
    requires IsRun(s, run, t) && !IsEnvironment(a) && !a.Start?
    requires a.id in t.procs && t.procs[a.id] == proc && ProcStep(t.world, t.disk, proc, a).Some?
    ensures IsRun(s, run', t') && proc' == ProcStep(t.world, t.disk, proc, a).value
    ensures t' == State(t.world, DiskDo(t.disk, proc, a), t.procs[a.id := proc'])
  {
    Extend(s, run, t, a);
    run', t', proc' := run + [a], Step(t, a).value, ProcStep(t.world, t.disk, proc, a).value;
  }

  const TINY: Stamp := Stamp(1, 1, "builder")
  const OTHER: Stamp := Stamp(1, 1, "another builder")
  const BIG: Path := "a.c"
  const SMALL: Path := "b.c"
  const NO_SESSION: Disk := Disk(None, map[], 0)

  // A process that has seen these paths dirty, parses these, and has come to this phase.
  function ProcAt(
      phase: Phase, stamp: Stamp, snap: Option<Manifest>, dirty: set<Path>, pre: map<Path, nat>, absent: set<Path>,
      parse: set<Path>, contents: map<Path, Content>, rows: map<Path, Row>): Proc
  {
    Proc(phase, stamp, snap, 0, AllDirty(dirty), {}, None, dirty, pre, absent, parse, contents, rows)
  }

  function AllDirty(paths: set<Path>): map<Path, bool> {
    map p | p in paths :: true
  }

  // A process starts, sees the one dirty path, and opens no gate.
  lemma OneProbed(s: State, run: seq<Action>, t: State, id: nat, stamp: Stamp, p: Path)
      returns (run': seq<Action>, t': State)
    requires IsRun(s, run, t) && id !in t.procs && t.world.headNo == 0 && Dirty(t.world.tree, t.world.head, p)
    requires t.disk.manifest.Some? ==> t.disk.manifest.value.rows.Keys <= {p}
    ensures IsRun(s, run', t') && t'.world == t.world && t'.disk == t.disk
    ensures t'.procs == t.procs[id := ProcAt(Statting, stamp, t.disk.manifest, {p}, map[], {}, {}, map[], map[])]
  {
    run', t' := OneStarted(s, run, t, id, stamp, p);
    var proc := StartedProc(t, stamp).(probed := map[p := true]);
    run', t', proc := TakeProcStep(s, run', t', proc, BypassGate(id));
    assert proc.retained == {p} && proc.probed == AllDirty({p});
  }

  lemma OneStarted(s: State, run: seq<Action>, t: State, id: nat, stamp: Stamp, p: Path)
      returns (run': seq<Action>, t': State)
    requires IsRun(s, run, t) && id !in t.procs && Dirty(t.world.tree, t.world.head, p)
    ensures IsRun(s, run', t')
    ensures t' == State(t.world, t.disk, t.procs[id := StartedProc(t, stamp).(probed := map[p := true])])
  {
    run', t' := TakeStep(s, run, t, Start(id, stamp));
    var proc;
    run', t', proc := TakeProcStep(s, run', t', StartedProc(t, stamp), ProbePath(id, p));
  }

  // It stats the path, which is there, and goes on to parse it.
  lemma OneStatted(s: State, run: seq<Action>, t: State, id: nat, stamp: Stamp, snap: Option<Manifest>, p: Path)
      returns (run': seq<Action>, t': State)
    requires IsRun(s, run, t) && p in t.world.tree && id in t.procs
    requires t.procs[id] == ProcAt(Statting, stamp, snap, {p}, map[], {}, {}, map[], map[])
    ensures IsRun(s, run', t') && t'.world == t.world && t'.disk == t.disk
    ensures t'.procs ==
            t.procs[id := ProcAt(Parsing, stamp, snap, {p}, map[p := t.world.tree[p].mtime], {}, {p}, map[], map[])]
  {
    var proc;
    run', t', proc := TakeProcStep(s, run, t, t.procs[id], StatPath(id, p));
    assert proc.pre.Keys == {p};
    run', t', proc := TakeProcStep(s, run', t', proc, Expand(id, {}));
    assert proc.parse == {p};
    run', t', proc := TakeProcStep(s, run', t', proc, BeginParse(id));
  }

  function RowFor(p: Path, mtime: nat, content: Content): Row {
    Row(Modified, mtime, Some(IdOf(p, content)), false, FRAGMENT_FORMAT)
  }

  // It parses the path and stages its row.
  lemma OneStaged(s: State, run: seq<Action>, t: State, id: nat, stamp: Stamp, snap: Option<Manifest>, p: Path)
      returns (run': seq<Action>, t': State)
    requires IsRun(s, run, t) && p in t.world.tree && id in t.procs && |t.world.tree[p].content| <= stamp.cap
    requires t.procs[id] ==
             ProcAt(Parsing, stamp, snap, {p}, map[p := t.world.tree[p].mtime], {}, {p}, map[], map[])
    ensures IsRun(s, run', t') && t'.world == t.world && t'.disk == t.disk
    ensures t'.procs == t.procs[id := OneStagedProc(stamp, snap, p, t.world.tree[p])]
  {
    var proc;
    run', t', proc := TakeProcStep(s, run, t, t.procs[id], Parse(id, p));
    run', t', proc := TakeProcStep(s, run', t', proc, BeginStage(id));
    run', t', proc := TakeProcStep(s, run', t', proc, Stage(id, p, false));
    assert proc.rows == map[p := RowFor(p, t.world.tree[p].mtime, t.world.tree[p].content)];
  }

  function OneStagedProc(stamp: Stamp, snap: Option<Manifest>, p: Path, file: File): Proc {
    ProcAt(Staging, stamp, snap, {p}, map[p := file.mtime], {}, {p}, map[p := file.content],
           map[p := RowFor(p, file.mtime, file.content)])
  }

  // All of it, from the start to the staged row.
  lemma OneRefreshed(s: State, run: seq<Action>, t: State, id: nat, stamp: Stamp, p: Path)
      returns (run': seq<Action>, t': State)
    requires IsRun(s, run, t) && id !in t.procs && t.world.headNo == 0 && Dirty(t.world.tree, t.world.head, p)
    requires t.disk.manifest.Some? ==> t.disk.manifest.value.rows.Keys <= {p}
    requires p in t.world.tree && |t.world.tree[p].content| <= stamp.cap
    ensures IsRun(s, run', t') && t'.world == t.world && t'.disk == t.disk
    ensures t'.procs == t.procs[id := OneStagedProc(stamp, t.disk.manifest, p, t.world.tree[p])]
  {
    run', t' := OneProbed(s, run, t, id, stamp, p);
    run', t' := OneStatted(s, run', t', id, stamp, t.disk.manifest, p);
    run', t' := OneStaged(s, run', t', id, stamp, t.disk.manifest, p);
  }

  const ONE_FILE: World := World(map[SMALL := File(1, "y")], map[SMALL := 1], map[], 0)
  const SHARED: FragmentId := FragmentId("c", "y")
  const PUBLISHED: Manifest := Manifest(TINY, map[SMALL := Row(Modified, 1, Some(SHARED), false, FRAGMENT_FORMAT)])

  lemma RoutesOfExample()
    ensures Route(BIG) == Route(SMALL) == "c"
  {
    assert BIG[..2] == "a." && SMALL[..2] == "b.";
    assert Route("a.") == "" && Route("b.") == "";
  }

  // One process has published the file.
  lemma OnePublished() returns (s: State, run: seq<Action>, t: State)
    ensures Init(s) && IsRun(s, run, t) && t.world == ONE_FILE && 1 !in t.procs
    ensures t.disk == Disk(Some(PUBLISHED), map[SHARED := Archive(Parsed(TINY, "c", "y"))], 0)
  {
    RoutesOfExample();
    s := State(ONE_FILE, NO_SESSION, map[]);
    run, t := OneRefreshed(s, [], s, 0, TINY, SMALL);
    var proc := OneStagedProc(TINY, None, SMALL, ONE_FILE.tree[SMALL]);
    PublishesOne(proc);
    run, t, proc := TakeProcStep(s, run, t, proc, Publish(0, [SMALL]));
  }

  lemma PublishesOne(proc: Proc)
    requires proc == OneStagedProc(TINY, None, SMALL, ONE_FILE.tree[SMALL])
    ensures DiskDo(NO_SESSION, proc, Publish(0, [SMALL])) ==
            Disk(Some(PUBLISHED), map[SHARED := Archive(Parsed(TINY, "c", "y"))], 0)
  {
    RoutesOfExample();
    WritesOne(NO_SESSION.bins, proc, SMALL);
    assert Committed(None, TINY, proc.rows, {}).rows == PUBLISHED.rows;
  }

  lemma WritesOne(bins: map<FragmentId, Bin>, proc: Proc, p: Path)
    requires p in proc.rows && proc.rows[p].fragment.Some? && p in proc.contents
    ensures Written(bins, proc, [p]) ==
            bins[proc.rows[p].fragment.value := Archive(Analyze(proc.stamp, p, proc.contents[p]))]
  {
    assert [p][..0] == [];
    assert Written(bins, proc, []) == bins;
  }

  // A publish of another builder that stops after its first bin leaves the manifest in
  // place, and under it a bin that its readers did not ask for.
  lemma AnotherBuilderSpoilsABin() returns (s: State, run: seq<Action>, t: State)
    ensures Init(s) && IsRun(s, run, t) && Serves(t.disk, t.world.tree, TINY, SMALL)
    ensures ServedGraph(t.disk, t.world.tree, TINY, SMALL) == Analyze(OTHER, SMALL, t.world.tree[SMALL].content)
    ensures Analyze(OTHER, SMALL, t.world.tree[SMALL].content) != Analyze(TINY, SMALL, t.world.tree[SMALL].content)
  {
    RoutesOfExample();
    s, run, t := OnePublished();
    run, t := OneRefreshed(s, run, t, 1, OTHER, SMALL);
    var proc := OneStagedProc(OTHER, Some(PUBLISHED), SMALL, ONE_FILE.tree[SMALL]);
    WritesOne(t.disk.bins, proc, SMALL);
    run, t, proc := TakeProcStep(s, run, t, proc, FailPublish(1, [SMALL]));
    assert t.disk.manifest == Some(PUBLISHED) && t.disk.bins[SHARED] == Archive(Parsed(OTHER, "c", "y"));
  }

  // Two files of one route, none committed; the first is over the cap of one byte.
  const TWO_FILES: World :=
    World(map[BIG := File(1, "xx"), SMALL := File(1, "y")], map[BIG := 1, SMALL := 1], map[], 0)
  const TWO: set<Path> := {BIG, SMALL}
  const TWO_STATS: map<Path, nat> := map[BIG := 1, SMALL := 1]
  const TWO_READS: map<Path, Content> := map[BIG := "xx", SMALL := "y"]

  lemma BothProbed() returns (s: State, run: seq<Action>, t: State)
    ensures Init(s) && IsRun(s, run, t)
    ensures t == State(TWO_FILES, NO_SESSION, map[0 := ProcAt(Statting, TINY, None, TWO, map[], {}, {}, map[], map[])])
  {
    s := State(TWO_FILES, NO_SESSION, map[]);
    var p := StartedProc(s, TINY);
    run, t := TakeStep(s, [], s, Start(0, TINY));
    assert t == State(TWO_FILES, NO_SESSION, map[0 := p]);
    run, t, p := TakeProcStep(s, run, t, p, ProbePath(0, BIG));
    run, t, p := TakeProcStep(s, run, t, p, ProbePath(0, SMALL));
    run, t, p := TakeProcStep(s, run, t, p, BypassGate(0));
    assert p.retained == TWO && p.probed == AllDirty(TWO);
  }

  lemma BothStatted() returns (s: State, run: seq<Action>, t: State)
    ensures Init(s) && IsRun(s, run, t)
    ensures t == State(TWO_FILES, NO_SESSION,
                       map[0 := ProcAt(Statting, TINY, None, TWO, TWO_STATS, {}, {}, map[], map[])])
  {
    s, run, t := BothProbed();
    var p := ProcAt(Statting, TINY, None, TWO, map[], {}, {}, map[], map[]);
    run, t, p := TakeProcStep(s, run, t, p, StatPath(0, BIG));
    run, t, p := TakeProcStep(s, run, t, p, StatPath(0, SMALL));
    assert p.pre == TWO_STATS;
  }

  lemma BothExpanded() returns (s: State, run: seq<Action>, t: State)
    ensures Init(s) && IsRun(s, run, t)
    ensures t == State(TWO_FILES, NO_SESSION,
                       map[0 := ProcAt(Shadowing, TINY, None, TWO, TWO_STATS, {}, TWO, map[], map[])])
  {
    s, run, t := BothStatted();
    var p := ProcAt(Statting, TINY, None, TWO, TWO_STATS, {}, {}, map[], map[]);
    assert TWO_STATS.Keys == TWO;
    run, t, p := TakeProcStep(s, run, t, p, Expand(0, {}));
    assert p.parse == TWO;
  }

  lemma BothParsing() returns (s: State, run: seq<Action>, t: State)
    ensures Init(s) && IsRun(s, run, t)
    ensures t == State(TWO_FILES, NO_SESSION,
                       map[0 := ProcAt(Parsing, TINY, None, TWO, TWO_STATS, {}, TWO, map[], map[])])
  {
    s, run, t := BothExpanded();
    var p := ProcAt(Shadowing, TINY, None, TWO, TWO_STATS, {}, TWO, map[], map[]);
    run, t, p := TakeProcStep(s, run, t, p, BeginParse(0));
  }

  // The process has parsed both files; the first parse is an omission.
  lemma BothParsed() returns (s: State, run: seq<Action>, t: State)
    ensures Init(s) && IsRun(s, run, t)
    ensures t == State(TWO_FILES, NO_SESSION,
                       map[0 := ProcAt(Parsing, TINY, None, TWO, TWO_STATS, {}, TWO, TWO_READS, map[])])
  {
    s, run, t := BothParsing();
    var p := ProcAt(Parsing, TINY, None, TWO, TWO_STATS, {}, TWO, map[], map[]);
    run, t, p := TakeProcStep(s, run, t, p, Parse(0, BIG));
    run, t, p := TakeProcStep(s, run, t, p, Parse(0, SMALL));
    assert p.contents == TWO_READS;
  }

  // The larger file shrinks before its id is hashed.
  lemma OneShrunk() returns (s: State, run: seq<Action>, t: State)
    ensures Init(s) && IsRun(s, run, t)
    ensures t == State(SHRUNK, NO_SESSION,
                       map[0 := ProcAt(Parsing, TINY, None, TWO, TWO_STATS, {}, TWO, TWO_READS, map[])])
  {
    s, run, t := BothParsed();
    run, t := TakeStep(s, run, t, Write(BIG, "y", 2));
    assert t.world == SHRUNK;
  }

  const SHRUNK: World :=
    World(map[BIG := File(2, "y"), SMALL := File(1, "y")], map[BIG := 2, SMALL := 1], map[], 0)
  const STAGED_ROW: Row := Row(Modified, 1, Some(SHARED), false, FRAGMENT_FORMAT)
  const TWO_ROWS: map<Path, Row> := map[BIG := STAGED_ROW, SMALL := STAGED_ROW]
  const TWO_STAGED: Proc := ProcAt(Staging, TINY, None, TWO, TWO_STATS, {}, TWO, TWO_READS, TWO_ROWS)

  lemma BothStaging() returns (s: State, run: seq<Action>, t: State)
    ensures Init(s) && IsRun(s, run, t)
    ensures t == State(SHRUNK, NO_SESSION,
                       map[0 := ProcAt(Staging, TINY, None, TWO, TWO_STATS, {}, TWO, TWO_READS, map[])])
  {
    s, run, t := OneShrunk();
    var p := ProcAt(Parsing, TINY, None, TWO, TWO_STATS, {}, TWO, TWO_READS, map[]);
    run, t, p := TakeProcStep(s, run, t, p, BeginStage(0));
  }

  lemma BothStaged() returns (s: State, run: seq<Action>, t: State)
    ensures Init(s) && IsRun(s, run, t) && t == State(SHRUNK, NO_SESSION, map[0 := TWO_STAGED])
  {
    RoutesOfExample();
    s, run, t := BothStaging();
    var p := ProcAt(Staging, TINY, None, TWO, TWO_STATS, {}, TWO, TWO_READS, map[]);
    run, t, p := TakeProcStep(s, run, t, p, Stage(0, BIG, false));
    run, t, p := TakeProcStep(s, run, t, p, Stage(0, SMALL, false));
    assert p.rows == TWO_ROWS;
  }

  lemma WritesBoth()
    ensures Written(map[], TWO_STAGED, [SMALL, BIG]) == map[SHARED := Archive(Omission(TINY, "c"))]
  {
    RoutesOfExample();
    WritesOne(map[], TWO_STAGED, SMALL);
    assert [SMALL, BIG][..1] == [SMALL];
  }

  lemma PublishesBoth()
    ensures DiskDo(NO_SESSION, TWO_STAGED, Publish(0, [SMALL, BIG])) ==
            Disk(Some(Manifest(TINY, TWO_ROWS)), map[SHARED := Archive(Omission(TINY, "c"))], 0)
  {
    WritesBoth();
    assert Committed(None, TINY, TWO_ROWS, {}).rows == TWO_ROWS;
  }

  lemma BothPublished() returns (s: State, run: seq<Action>, t: State)
    ensures Init(s) && IsRun(s, run, t) && t.world == SHRUNK
    ensures t.disk == Disk(Some(Manifest(TINY, TWO_ROWS)), map[SHARED := Archive(Omission(TINY, "c"))], 0)
  {
    s, run, t := BothStaged();
    PublishesBoth();
    assert TWO_ROWS.Keys == TWO_READS.Keys;
    var p;
    run, t, p := TakeProcStep(s, run, t, TWO_STAGED, Publish(0, [SMALL, BIG]));
  }

  // An over-cap file that shrinks between its parse and the hash of its id publishes an
  // omission under the other file's fragment id: that file's row is current, its bin is not.
  lemma ShrinkingFileSpoilsABin() returns (s: State, run: seq<Action>, t: State)
    ensures Init(s) && IsRun(s, run, t)
    ensures Serves(t.disk, t.world.tree, TINY, SMALL)
    ensures ServedGraph(t.disk, t.world.tree, TINY, SMALL) == Omission(TINY, "c")
    ensures Analyze(TINY, SMALL, t.world.tree[SMALL].content) == Parsed(TINY, "c", "y")
  {
    RoutesOfExample();
    s, run, t := BothPublished();
    assert TWO_ROWS[SMALL] == STAGED_ROW;
  }

  const GONE: Path := "d.c"

  // A path HEAD holds and the working tree does not.
  const ONE_GONE: World := World(map[], map[], map[GONE := "z"], 0)

  const BURIED: Disk := Disk(Some(Manifest(TINY, map[GONE := TOMBSTONE])), map[], 0)

  const ABSENT: Proc := ProcAt(Staging, TINY, None, {GONE}, map[], {GONE}, {GONE}, map[], map[])

  lemma FoundAbsent() returns (s: State, run: seq<Action>, t: State)
    ensures Init(s) && IsRun(s, run, t)
    ensures t == State(ONE_GONE, NO_SESSION, map[0 := ABSENT.(phase := Statting, parse := {})])
  {
    s := State(ONE_GONE, NO_SESSION, map[]);
    run, t := OneProbed(s, [], s, 0, TINY, GONE);
    var p := ProcAt(Statting, TINY, None, {GONE}, map[], {}, {}, map[], map[]);
    run, t, p := TakeProcStep(s, run, t, p, StatPath(0, GONE));
    assert p == ABSENT.(phase := Statting, parse := {});
  }

  lemma ExpandedAbsent() returns (s: State, run: seq<Action>, t: State)
    ensures Init(s) && IsRun(s, run, t)
    ensures t == State(ONE_GONE, NO_SESSION, map[0 := ABSENT.(phase := Parsing)])
  {
    s, run, t := FoundAbsent();
    var p := ABSENT.(phase := Statting, parse := {});
    run, t, p := TakeProcStep(s, run, t, p, Expand(0, {}));
    assert p == ABSENT.(phase := Shadowing);
    run, t, p := TakeProcStep(s, run, t, p, BeginParse(0));
  }

  lemma TombstonePublished() returns (s: State, run: seq<Action>, t: State)
    ensures Init(s) && IsRun(s, run, t) && t.world == ONE_GONE && t.disk == BURIED && 1 !in t.procs
  {
    s, run, t := ExpandedAbsent();
    BuriedByOne(ABSENT);
    var p := ABSENT.(phase := Parsing);
    run, t, p := TakeProcStep(s, run, t, p, BeginStage(0));
    run, t, p := TakeProcStep(s, run, t, ABSENT, Publish(0, []));
  }

  lemma BuriedByOne(p: Proc)
    requires p.absent == {GONE} && p.rows == map[] && p.stamp == TINY
    ensures DiskDo(NO_SESSION, p, Publish(0, [])) == BURIED
  {
    assert Committed(None, TINY, map[], {GONE}).rows == map[GONE := TOMBSTONE];
  }

  lemma RetiresAll(m: Manifest)
    requires m.rows != map[]
    ensures Retired(Some(m), m, {}) == None
  {
    var left := map q | q in m.rows && !Retires(m, {}, q, m.rows[q]) :: m.rows[q];
    assert left == map[];
  }

  lemma TombstoneRetires(proc: Proc)
    requires proc.snap == BURIED.manifest && DirtyPaths(proc) == {}
    ensures DiskDo(BURIED, proc, Retire(1, {})).manifest == None
  {
    var m := BURIED.manifest.value;
    assert GONE in m.rows;
    RetiresAll(m);
    assert DirtyPaths(proc) + {} == {};
  }

  const BACK: World := World(map[GONE := File(1, "z")], map[GONE := 1], map[GONE := "z"], 0)
  const PROBED: Proc := Proc(
    Probing, TINY, BURIED.manifest, 0, map[GONE := false], {}, None, {}, map[], {}, {}, map[], map[])

  // A second process reads the tombstone and sees the path clean.
  lemma SeenClean() returns (s: State, run: seq<Action>, t: State)
    ensures Init(s) && IsRun(s, run, t)
    ensures t.world == BACK && t.disk == BURIED && 1 in t.procs && t.procs[1] == PROBED
  {
    s, run, t := TombstonePublished();
    run, t := TakeStep(s, run, t, Write(GONE, "z", 1));
    run, t := TakeStep(s, run, t, Start(1, TINY));
    run, t := TakeStep(s, run, t, ProbePath(1, GONE));
  }

  // A tombstone has no mtime to compare: a file that comes back as committed for the
  // probe and is gone again before the retire loses its tombstone.
  lemma TombstoneCanBeRetired() returns (s: State, run: seq<Action>, t: State)
    ensures Init(s) && IsRun(s, run, t) && Step(t, Retire(1, {})).Some?
    ensures t.procs[1].probedHead == t.world.headNo
    ensures Dirty(t.world.tree, t.world.head, GONE) && GONE !in t.world.tree
    ensures t.disk.manifest.Some? && t.disk.manifest.value.rows == map[GONE := TOMBSTONE]
    ensures Step(t, Retire(1, {})).value.disk.manifest == None
  {
    s, run, t := SeenClean();
    run, t := TakeStep(s, run, t, Delete(GONE));
    run, t := TakeStep(s, run, t, OpenGate(1));
    assert DirtyPaths(t.procs[1]) == {};
    run, t := TakeStep(s, run, t, CloseGate(1));
    TombstoneRetires(t.procs[1]);
  }
}
