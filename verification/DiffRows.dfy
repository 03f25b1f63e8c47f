/** Diff rows of the parity scripts, and the sets their counts are taken over. */
module DiffRows {
  import UnionFind
  import LabelClasses

  datatype Row = Row(kind: string, path: string, name: string)

  const MODEL_RS_ONLY: set<string> := {"EntryPoint", "Process", "Annotation", "Trait", "Impl"}
  const MODEL_REF_ONLY: set<string> := {"Section", "Folder", "File", "Document"}

  const EQUIV_CLASSES: seq<set<string>> := [
    {"Method", "Function", "Template", "Constructor"},
    {"Typedef", "TypeAlias"},
    {"Const", "Variable", "Property", "Static"},
    {"Interface", "Struct", "Enum", "Annotation", "Class", "Trait", "Union"},
    {"Delegate", "Function"}
  ]

  const TEMPLATE_TYPE_PAIR_KINDS: set<string> :=
    {"Class", "Struct", "Interface", "Enum", "Trait", "Union"}

  const HTTP_METHOD_PREFIXES: seq<string> := [
    "GET ", "POST ", "PUT ", "DELETE ", "PATCH ", "OPTIONS ", "HEAD ", "CONNECT ", "TRACE ", "ALL ", "USE "
  ]

  type EquivMap = map<string, set<string>>

  // Every map the union-find can return for the label classes.
  ghost predicate IsEquivMap(equiv: EquivMap) {
    && equiv.Keys == LabelClasses.Members(EQUIV_CLASSES)
    && forall x, y :: x in equiv ==> (y in equiv[x] <==> LabelClasses.Linked(EQUIV_CLASSES, x, y))
  }

  // No route and no entry point has a label twin, so no pairing by label hides one.
  lemma RoutesHaveNoLabelClass(equiv: EquivMap)
    requires IsEquivMap(equiv)
    ensures "Route" !in equiv && "EntryPoint" !in equiv
  {
    forall k | k in equiv ensures k != "Route" && k != "EntryPoint" {
      var i :| 0 <= i < |EQUIV_CLASSES| && k in EQUIV_CLASSES[i];
    }
  }

  predicate IsRoute(r: Row) {
    r.kind == "Route"
  }

  predicate IsRouteEntry(r: Row) {
    r.kind == "EntryPoint" && "route@" <= r.name
  }

  function StripMethodPrefix(name: string): string {
    StripFirst(HTTP_METHOD_PREFIXES, name)
  }

  function StripFirst(prefixes: seq<string>, name: string): string {
    if prefixes == [] then name
    else if prefixes[0] <= name then name[|prefixes[0]|..]
    else StripFirst(prefixes[1..], name)
  }

  // An rs route whose name is "METHOD path".
  predicate IsPrefixedRoute(r: Row) {
    IsRoute(r) && StripMethodPrefix(r.name) != r.name
  }

  // The ref route that a prefixed rs route stands for.
  function BareRoute(r: Row): Row {
    Row("Route", r.path, StripMethodPrefix(r.name))
  }

  function KindsAt(rows: set<Row>, path: string, name: string): set<string> {
    set r | r in rows && r.path == path && r.name == name :: r.kind
  }

  // `row` has a twin on the other side: same path and name, label-equivalent kind.
  predicate Labelled(row: Row, other: set<Row>, equiv: EquivMap) {
    row.kind in equiv && exists k :: k in KindsAt(other, row.path, row.name) && k in equiv[row.kind]
  }

  predicate IsConstDouble(row: Row, rsAll: set<Row>, refAll: set<Row>) {
    && row.kind == "Const"
    && "Function" in KindsAt(refAll, row.path, row.name)
    && "Function" in KindsAt(rsAll, row.path, row.name)
  }

  predicate IsTemplateDouble(row: Row, rsAll: set<Row>, refAll: set<Row>) {
    && row.kind == "Template"
    && KindsAt(refAll, row.path, row.name) * TEMPLATE_TYPE_PAIR_KINDS != {}
    && KindsAt(rsAll, row.path, row.name) * TEMPLATE_TYPE_PAIR_KINDS != {}
  }

  function InFile(rows: set<Row>, file: string): set<Row> {
    set r | r in rows && r.path == file
  }

  function RouteEntries(rows: set<Row>): set<Row> {
    set r | r in rows && IsRouteEntry(r)
  }

  function Routes(rows: set<Row>): set<Row> {
    set r | r in rows && IsRoute(r)
  }

  function Min(a: nat, b: nat): nat {
    if a < b then a else b
  }

  // How many route aliases a file gets: one for each ref route and rs entry it can pair.
  function AliasesIn(rsOnly: set<Row>, refOnly: set<Row>, file: string): nat {
    Min(|InFile(RouteEntries(rsOnly), file)|, |InFile(Routes(refOnly), file)|)
  }

  // The drops that some iteration order of the two sets can lead to: per file, that
  // many rows of each side, any of them.
  ghost predicate AliasOutcome(rsOnly: set<Row>, refOnly: set<Row>, dropRs: set<Row>, dropRef: set<Row>) {
    && dropRs <= RouteEntries(rsOnly)
    && dropRef <= Routes(refOnly)
    && forall f :: |InFile(dropRs, f)| == AliasesIn(rsOnly, refOnly, f) == |InFile(dropRef, f)|
  }

  // The ref routes some prefixed rs route stands for.
  ghost function Matchable(rsOnly: set<Row>, refOnly: set<Row>): set<Row> {
    set r | r in rsOnly && IsPrefixedRoute(r) && BareRoute(r) in refOnly :: BareRoute(r)
  }

  datatype Bucket = Label | Model | Gap

  // The bucket of a row that only the rs side, or only the ref side, has.
  function RsBucket(refAll: set<Row>, equiv: EquivMap): Row -> Bucket {
    row => if Labelled(row, refAll, equiv) then Label else if row.kind in MODEL_RS_ONLY then Model else Gap
  }

  function RefBucket(rsAll: set<Row>, equiv: EquivMap): Row -> Bucket {
    row => if Labelled(row, rsAll, equiv) then Label else if row.kind in MODEL_REF_ONLY then Model else Gap
  }

  ghost function Sorted(rows: set<Row>, sort: Row -> Bucket, bucket: Bucket): set<Row> {
    set r | r in rows && sort(r) == bucket
  }

  lemma SortedPartition(rows: set<Row>, sort: Row -> Bucket)
    ensures |rows| == |Sorted(rows, sort, Label)| + |Sorted(rows, sort, Model)| + |Sorted(rows, sort, Gap)|
  {
    var labels, models, gaps := Sorted(rows, sort, Label), Sorted(rows, sort, Model), Sorted(rows, sort, Gap);
    CardSplit(labels + models, labels, models);
    assert rows == labels + models + gaps;
    CardSplit(rows, labels + models, gaps);
  }

  ghost function DoubleEmits(rows: set<Row>, rsAll: set<Row>, refAll: set<Row>): set<Row> {
    set r | r in rows && (IsConstDouble(r, rsAll, refAll) || IsTemplateDouble(r, rsAll, refAll))
  }

  lemma CardMonotone<T>(a: set<T>, b: set<T>)
    requires a <= b
    ensures |a| <= |b|
  {
    assert b == a + (b - a);
  }

  lemma CardDifference<T>(a: set<T>, b: set<T>)
    requires b <= a
    ensures |a - b| == |a| - |b|
  {
    assert a == b + (a - b);
  }

  lemma CardSplit<T>(whole: set<T>, a: set<T>, b: set<T>)
    requires whole == a + b && a !! b
    ensures |whole| == |a| + |b|
  {
  }

  ghost function Files(rows: set<Row>): set<string> {
    set r | r in rows :: r.path
  }

  // Fewer rows in every file are fewer rows ...
  lemma {:induction false} FewerPerFile(a: set<Row>, b: set<Row>)
    requires forall f :: |InFile(a, f)| <= |InFile(b, f)|
    ensures |a| <= |b|
    decreases |a|
  {
    if a != {} {
      var r :| r in a;
      var f := r.path;
      assert r in InFile(a, f);
      WithoutFile(a, f);
      WithoutFile(b, f);
      forall g ensures |InFile(a - InFile(a, f), g)| <= |InFile(b - InFile(b, f), g)| {
        OtherFiles(a, f, g);
        OtherFiles(b, f, g);
      }
      FewerPerFile(a - InFile(a, f), b - InFile(b, f));
    }
  }

  lemma WithoutFile(rows: set<Row>, f: string)
    ensures |rows| == |InFile(rows, f)| + |rows - InFile(rows, f)|
  {
    CardSplit(rows, InFile(rows, f), rows - InFile(rows, f));
  }

  lemma OtherFiles(rows: set<Row>, f: string, g: string)
    ensures InFile(rows - InFile(rows, f), g) == if g == f then {} else InFile(rows, g)
  {
  }

  // ... as many in every file are as many ...
  lemma SameCountPerFile(a: set<Row>, b: set<Row>)
    requires forall f :: |InFile(a, f)| == |InFile(b, f)|
    ensures |a| == |b|
  {
    FewerPerFile(a, b);
    FewerPerFile(b, a);
  }

  // ... and if no file has more and there are no fewer in all, every file has as many.
  lemma NoFileHasFewer(a: set<Row>, b: set<Row>, f: string)
    requires (forall f :: |InFile(a, f)| <= |InFile(b, f)|) && |a| >= |b|
    ensures |InFile(a, f)| == |InFile(b, f)|
  {
    WithoutFile(a, f);
    WithoutFile(b, f);
    forall g ensures |InFile(a - InFile(a, f), g)| <= |InFile(b - InFile(b, f), g)| {
      OtherFiles(a, f, g);
      OtherFiles(b, f, g);
    }
    FewerPerFile(a - InFile(a, f), b - InFile(b, f));
  }
}
