// parity_aggregate.py and review_diffs.py: what each row of a difference counts as, said of rows alone.
module DiffFates {
  import LabelClasses
  import opened DiffRows

  // The side has a row of this kind where r stands.
  predicate Has(side: set<Row>, r: Row, kind: string) {
    Row(kind, r.path, r.name) in side
  }

  // The side has a row there whose kind is another name for the kind of r.
  ghost predicate HasTwin(side: set<Row>, r: Row) {
    exists kind :: Has(side, r, kind) && LabelClasses.Linked(EQUIV_CLASSES, r.kind, kind)
  }

  // A ref row that the ref side emits beside the row of the same symbol, which both have.
  ghost predicate IsArrowFunction(r: Row, rs: set<Row>, ref: set<Row>) {
    r.kind == "Const" && Has(rs, r, "Function") && Has(ref, r, "Function")
  }

  predicate HasType(side: set<Row>, r: Row) {
    || Has(side, r, "Class") || Has(side, r, "Struct") || Has(side, r, "Interface")
    || Has(side, r, "Enum") || Has(side, r, "Trait") || Has(side, r, "Union")
  }

  ghost predicate IsTemplateOfType(r: Row, rs: set<Row>, ref: set<Row>) {
    r.kind == "Template" && HasType(rs, r) && HasType(ref, r)
  }

  // Kinds that only one of the two models knows.
  predicate RsModelKind(kind: string) {
    kind == "EntryPoint" || kind == "Process" || kind == "Annotation" || kind == "Trait" || kind == "Impl"
  }

  predicate RefModelKind(kind: string) {
    kind == "Section" || kind == "Folder" || kind == "File" || kind == "Document"
  }

  // The rows of either difference, routes and route entries aside, that the two models
  // explain, and those that nothing explains.
  ghost function RsExplained(rs: set<Row>, ref: set<Row>): set<Row> {
    set r | r in rs - ref && !IsRouteEntry(r) && !HasTwin(ref, r) && RsModelKind(r.kind)
  }

  ghost function RsUnexplained(rs: set<Row>, ref: set<Row>): set<Row> {
    set r | r in rs - ref && r.kind != "Route" && !HasTwin(ref, r) && !RsModelKind(r.kind)
  }

  ghost function RefExplained(rs: set<Row>, ref: set<Row>): set<Row> {
    set r | r in ref - rs && !HasTwin(rs, r) && RefModelKind(r.kind)
  }

  ghost function RefUnexplained(rs: set<Row>, ref: set<Row>): set<Row> {
    set r | r in ref - rs && r.kind != "Route" && !HasTwin(rs, r) && !RefModelKind(r.kind) &&
            !IsArrowFunction(r, rs, ref) && !IsTemplateOfType(r, rs, ref)
  }

  // The entry points that name a route file.
  lemma RouteEntryIff(r: Row)
    ensures IsRouteEntry(r) <==> r.kind == "EntryPoint" && exists file :: r.name == "route@" + file
  {
    if IsRouteEntry(r) {
      assert r.name == "route@" + r.name[6..];
    }
  }

  // A row whose path and name the other side does not have at all is never explained away:
  // but for a kind of one model only, it is reported.
  lemma UnseenIsReported(rs: set<Row>, ref: set<Row>, r: Row)
    requires r.kind != "Route" && !IsRouteEntry(r)
    ensures r in ref - rs && (forall kind :: !Has(rs, r, kind)) ==>
              r in if RefModelKind(r.kind) then RefExplained(rs, ref) else RefUnexplained(rs, ref)
    ensures r in rs - ref && (forall kind :: !Has(ref, r, kind)) ==>
              r in if RsModelKind(r.kind) then RsExplained(rs, ref) else RsUnexplained(rs, ref)
  {
  }

  lemma KindsAreRows(side: set<Row>, r: Row, kind: string)
    ensures kind in KindsAt(side, r.path, r.name) <==> Has(side, r, kind)
  {
    if kind in KindsAt(side, r.path, r.name) {
      var t :| t in side && t.path == r.path && t.name == r.name && t.kind == kind;
      assert t == Row(kind, r.path, r.name);
    }
  }

  // The predicates of the passes say this.
  lemma LabelledIsTwin(side: set<Row>, r: Row, equiv: EquivMap)
    requires IsEquivMap(equiv)
    ensures Labelled(r, side, equiv) <==> HasTwin(side, r)
  {
    forall kind ensures kind in KindsAt(side, r.path, r.name) <==> Has(side, r, kind) {
      KindsAreRows(side, r, kind);
    }
    if HasTwin(side, r) {
      var kind :| Has(side, r, kind) && LabelClasses.Linked(EQUIV_CLASSES, r.kind, kind);
      assert kind in equiv[r.kind];
    }
  }

  lemma ConstDoubleIsArrow(r: Row, rs: set<Row>, ref: set<Row>)
    ensures IsConstDouble(r, rs, ref) <==> IsArrowFunction(r, rs, ref)
  {
    KindsAreRows(rs, r, "Function");
    KindsAreRows(ref, r, "Function");
  }

  lemma TypesAreRows(side: set<Row>, r: Row)
    ensures KindsAt(side, r.path, r.name) * TEMPLATE_TYPE_PAIR_KINDS != {} <==> HasType(side, r)
  {
    forall kind ensures kind in KindsAt(side, r.path, r.name) <==> Has(side, r, kind) {
      KindsAreRows(side, r, kind);
    }
    var both := KindsAt(side, r.path, r.name) * TEMPLATE_TYPE_PAIR_KINDS;
    if both != {} {
      var kind :| kind in both;
    }
    if HasType(side, r) {
      var kind :| kind in TEMPLATE_TYPE_PAIR_KINDS && Has(side, r, kind);
      assert kind in both;
    }
  }

  lemma TemplateDoubleIsType(r: Row, rs: set<Row>, ref: set<Row>)
    ensures IsTemplateDouble(r, rs, ref) <==> IsTemplateOfType(r, rs, ref)
  {
    TypesAreRows(rs, r);
    TypesAreRows(ref, r);
  }

  lemma ModelKinds(kind: string)
    ensures kind in MODEL_RS_ONLY <==> RsModelKind(kind)
    ensures kind in MODEL_REF_ONLY <==> RefModelKind(kind)
  {
  }

  // So the buckets of a difference, before routes are paired, are those rows, with the
  // route entries and the routes.
  lemma RsBucketsAreFates(rs: set<Row>, ref: set<Row>, equiv: EquivMap)
    requires IsEquivMap(equiv)
    ensures
      var sort := RsBucket(ref, equiv);
      && Sorted(rs - ref, sort, Model) == RsExplained(rs, ref) + RouteEntries(rs - ref)
      && Sorted(rs - ref, sort, Gap) == RsUnexplained(rs, ref) + Routes(rs - ref)
      && Sorted(rs - ref, sort, Label) == set r | r in rs - ref && HasTwin(ref, r)
  {
    RoutesHaveNoLabelClass(equiv);
    forall r ensures Labelled(r, ref, equiv) <==> HasTwin(ref, r) {
      LabelledIsTwin(ref, r, equiv);
    }
    forall r: Row ensures r.kind in MODEL_RS_ONLY <==> RsModelKind(r.kind) {
      ModelKinds(r.kind);
    }
    forall r ensures IsRouteEntry(r) ==> !HasTwin(ref, r) && RsModelKind(r.kind) {}
    forall r ensures IsRoute(r) ==> !HasTwin(ref, r) && !RsModelKind(r.kind) {}
  }

  lemma RefBucketsAreFates(rs: set<Row>, ref: set<Row>, equiv: EquivMap)
    requires IsEquivMap(equiv)
    ensures
      var sort := RefBucket(rs, equiv);
      && Sorted(ref - rs, sort, Model) == RefExplained(rs, ref)
      && Sorted(ref - rs - DoubleEmits(ref - rs, rs, ref), sort, Gap) == RefUnexplained(rs, ref) + Routes(ref - rs)
  {
    RoutesHaveNoLabelClass(equiv);
    forall r ensures Labelled(r, rs, equiv) <==> HasTwin(rs, r) {
      LabelledIsTwin(rs, r, equiv);
    }
    forall r: Row ensures r.kind in MODEL_REF_ONLY <==> RefModelKind(r.kind) {
      ModelKinds(r.kind);
    }
    forall r | r in ref - rs
      ensures r in DoubleEmits(ref - rs, rs, ref) <==> IsArrowFunction(r, rs, ref) || IsTemplateOfType(r, rs, ref)
    {
      ConstDoubleIsArrow(r, rs, ref);
      TemplateDoubleIsType(r, rs, ref);
    }
    forall r ensures IsRoute(r) ==> !HasTwin(rs, r) && !RefModelKind(r.kind) {}
  }

  // The methods a route name of the rs side can start with.
  predicate IsMethod(m: string) {
    || m == "GET" || m == "POST" || m == "PUT" || m == "DELETE" || m == "PATCH" || m == "OPTIONS"
    || m == "HEAD" || m == "CONNECT" || m == "TRACE" || m == "ALL" || m == "USE"
  }

  lemma MethodPrefixes(prefix: string)
    ensures prefix in HTTP_METHOD_PREFIXES <==> exists m :: IsMethod(m) && prefix == m + " "
  {
    forall k | 0 <= k < |HTTP_METHOD_PREFIXES| ensures exists m :: IsMethod(m) && HTTP_METHOD_PREFIXES[k] == m + " " {
      var p := HTTP_METHOD_PREFIXES[k];
      assert p == p[..|p| - 1] + " " && IsMethod(p[..|p| - 1]);
    }
    if m :| IsMethod(m) && prefix == m + " " {
      MethodHasPrefix(m);
    }
  }

  lemma MethodHasPrefix(m: string)
    requires IsMethod(m)
    ensures m + " " in HTTP_METHOD_PREFIXES && ' ' !in m
  {
    var p := HTTP_METHOD_PREFIXES;
    assert p[0] == "GET" + " " && p[1] == "POST" + " " && p[2] == "PUT" + " " && p[3] == "DELETE" + " ";
    assert p[4] == "PATCH" + " " && p[5] == "OPTIONS" + " " && p[6] == "HEAD" + " " && p[7] == "CONNECT" + " ";
    assert p[8] == "TRACE" + " " && p[9] == "ALL" + " " && p[10] == "USE" + " ";
  }

  // A prefix ends at the first blank, so one name has one prefix at most.
  lemma OnePrefix(m: string, n: string, a: string, b: string)
    requires ' ' !in m && ' ' !in n && m + " " + a == n + " " + b
    ensures m == n && a == b
  {
    var text := m + " " + a;
    assert text[|m|] == ' ' && text[|n|] == ' ';
    assert forall k :: 0 <= k < |m| ==> text[k] == m[k] && m[k] in m;
    assert forall k :: 0 <= k < |n| ==> text[k] == n[k] && n[k] in n;
    assert |m| == |n|;
    assert m == text[..|m|] == n && a == text[|m| + 1..] == b;
  }

  lemma {:induction false} StripFirstStrips(prefixes: seq<string>, name: string, m: string, path: string)
    requires name == m + " " + path && ' ' !in m && m + " " in prefixes
    requires forall k :: 0 <= k < |prefixes| ==> exists n :: ' ' !in n && prefixes[k] == n + " "
    ensures StripFirst(prefixes, name) == path
  {
    var n :| ' ' !in n && prefixes[0] == n + " ";
    if prefixes[0] <= name {
      assert name == n + " " + name[|prefixes[0]|..];
      OnePrefix(m, n, path, name[|prefixes[0]|..]);
    } else {
      assert m + " " <= name;
      StripFirstStrips(prefixes[1..], name, m, path);
    }
  }

  lemma {:induction false} StripFirstKeeps(prefixes: seq<string>, name: string)
    requires forall k :: 0 <= k < |prefixes| ==> !(prefixes[k] <= name)
    ensures StripFirst(prefixes, name) == name
  {
    if prefixes != [] {
      StripFirstKeeps(prefixes[1..], name);
    }
  }

  lemma StripsMethod(m: string, path: string)
    requires IsMethod(m)
    ensures StripMethodPrefix(m + " " + path) == path
  {
    MethodHasPrefix(m);
    forall k | 0 <= k < |HTTP_METHOD_PREFIXES| ensures exists n :: ' ' !in n && HTTP_METHOD_PREFIXES[k] == n + " " {
      MethodPrefixes(HTTP_METHOD_PREFIXES[k]);
      var n :| IsMethod(n) && HTTP_METHOD_PREFIXES[k] == n + " ";
      MethodHasPrefix(n);
    }
    StripFirstStrips(HTTP_METHOD_PREFIXES, m + " " + path, m, path);
  }

  lemma StripsNothingElse(name: string)
    requires forall m, path :: IsMethod(m) ==> name != m + " " + path
    ensures StripMethodPrefix(name) == name
  {
    forall k | 0 <= k < |HTTP_METHOD_PREFIXES| ensures !(HTTP_METHOD_PREFIXES[k] <= name) {
      StartsWithMethod(HTTP_METHOD_PREFIXES[k], name);
    }
    StripFirstKeeps(HTTP_METHOD_PREFIXES, name);
  }

  lemma StartsWithMethod(prefix: string, name: string)
    requires prefix in HTTP_METHOD_PREFIXES
    ensures prefix <= name ==> exists m, path :: IsMethod(m) && name == m + " " + path
  {
    MethodPrefixes(prefix);
    var m :| IsMethod(m) && prefix == m + " ";
    if prefix <= name {
      assert name == m + " " + name[|prefix|..];
    }
  }

  // A ref route is matched exactly if some rs route of its file is its name after a method.
  lemma MatchableIsPrefixed(rsOnly: set<Row>, refOnly: set<Row>, r: Row)
    ensures r in Matchable(rsOnly, refOnly) <==>
              r in Routes(refOnly) && exists m :: IsMethod(m) && Row("Route", r.path, m + " " + r.name) in rsOnly
  {
    if r in Matchable(rsOnly, refOnly) {
      var t :| t in rsOnly && IsPrefixedRoute(t) && BareRoute(t) in refOnly && BareRoute(t) == r;
      if forall m, path :: IsMethod(m) ==> t.name != m + " " + path {
        StripsNothingElse(t.name);
      }
      var m, path :| IsMethod(m) && t.name == m + " " + path;
      StripsMethod(m, path);
      assert t == Row("Route", r.path, m + " " + r.name);
    }
    if m :| r in Routes(refOnly) && IsMethod(m) && Row("Route", r.path, m + " " + r.name) in rsOnly {
      var t := Row("Route", r.path, m + " " + r.name);
      StripsMethod(m, r.name);
      assert |t.name| > |r.name| && BareRoute(t) == r;
    }
  }
}
