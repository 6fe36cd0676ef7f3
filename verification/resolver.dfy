/**
 The feature resolver end to end: the order in which a manifest's
 dependency tables are visited, and `parse` / `parse_custom`, which build
 the feature graph, record dependencies, binaries and reverse edges, and
 drop hidden features.
 */
module Resolver {
  import opened Common
  import opened Strings
  import opened Dependencies
  import opened Products
  import opened FeatureTypes
  import opened FeatureSyntax
  import opened FeatureDeps
  import opened FeatureGraph

  /** `[target.'cfg'.*dependencies]`. */
  datatype TargetDeps = TargetDeps(
    dependencies: Table<Dependency>,
    devDependencies: Table<Dependency>,
    buildDependencies: Table<Dependency>)

  /** The parts of a manifest the resolver reads. */
  datatype Manifest = Manifest(
    /** `package.name`; `None` for a manifest without `[package]` */
    packageName: Option<string>,
    dependencies: Table<Dependency>,
    devDependencies: Table<Dependency>,
    buildDependencies: Table<Dependency>,
    target: Table<TargetDeps>,
    features: Table<seq<string>>,
    bin: seq<Product>)

  /** How many entries of one dependency table are read. */
  const MaxDeps: nat := 1000

  /** `add_implied_optional_deps`: the first 1000 entries of one table, as
      declarations of one kind for one target (or all). */
  function Section(t: Table<Dependency>, kind: Kind, target: Option<string>): (s: seq<ParseDependency>)
    ensures |s| == |Take(t, MaxDeps)|
    ensures forall i :: 0 <= i < |s| ==> s[i] == ParseDependency(t[i].0, kind, target, t[i].1)
  {
    var d := Take(t, MaxDeps);
    seq(|d|, i requires 0 <= i < |d| => ParseDependency(d[i].0, kind, target, d[i].1))
  }

  /** The target tables in key order: normal then build declarations of each
      target, or only the dev ones. */
  function TargetSections(targets: Table<TargetDeps>, dev: bool): (s: seq<ParseDependency>)
    ensures forall i :: 0 <= i < |s| ==> s[i].target.Some?
    ensures forall i :: 0 <= i < |s| ==> (s[i].kind == Dev <==> dev)
  {
    if |targets| == 0 then []
    else
      var (cfg, t) := targets[|targets| - 1];
      TargetSections(targets[..|targets| - 1], dev) + TargetSection(cfg, t, dev)
  }

  /** One target's declarations: its normal then build ones, or its dev
      ones. */
  function TargetSection(cfg: string, t: TargetDeps, dev: bool): (s: seq<ParseDependency>)
    ensures forall i :: 0 <= i < |s| ==> s[i].target == Some(cfg)
    ensures forall i :: 0 <= i < |s| ==> (s[i].kind == Dev <==> dev)
  {
    if dev then Section(t.devDependencies, Dev, Some(cfg))
    else Section(t.dependencies, Normal, Some(cfg)) + Section(t.buildDependencies, Build, Some(cfg))
  }

  /** `add_dependencies`' visiting order: normal, build, the targets'
      normal and build, dev, the targets' dev. */
  function DepStream(m: Manifest): (s: seq<ParseDependency>)
    ensures |s| >= |Take(m.dependencies, MaxDeps)|
    ensures forall i :: 0 <= i < |Take(m.dependencies, MaxDeps)| ==>
      s[i] == ParseDependency(m.dependencies[i].0, Normal, None, m.dependencies[i].1)
  {
    Section(m.dependencies, Normal, None)
    + Section(m.buildDependencies, Build, None)
    + TargetSections(m.target, false)
    + Section(m.devDependencies, Dev, None)
    + TargetSections(m.target, true)
  }

  /** One target's dependency table of a kind. */
  function TargetTable(t: TargetDeps, kind: Kind): Table<Dependency> {
    match kind
    case Normal => t.dependencies
    case Build => t.buildDependencies
    case Dev => t.devDependencies
  }

  /** The manifest's own dependency table of a kind. */
  function ManifestTable(m: Manifest, kind: Kind): Table<Dependency> {
    match kind
    case Normal => m.dependencies
    case Build => m.buildDependencies
    case Dev => m.devDependencies
  }

  /** `pd` is one of the first 1000 entries of `t`, read as `kind` for
      `target`. */
  ghost predicate ReadFrom(t: Table<Dependency>, kind: Kind, target: Option<string>, pd: ParseDependency) {
    exists n :: 0 <= n < |Take(t, MaxDeps)| && pd == ParseDependency(t[n].0, kind, target, t[n].1)
  }

  /** `pd` is read from its kind's table of one of the targets, under that
      target's cfg. */
  ghost predicate ReadFromTarget(targets: Table<TargetDeps>, pd: ParseDependency) {
    exists j :: 0 <= j < |targets| && ReadFromOne(targets[j], pd)
  }

  ghost predicate ReadFromOne(target: (string, TargetDeps), pd: ParseDependency) {
    pd.target == Some(target.0) && ReadFrom(TargetTable(target.1, pd.kind), pd.kind, pd.target, pd)
  }

  /** `pd` is a declaration the manifest makes: from the table of its kind,
      its own when untargeted, a target's otherwise. */
  ghost predicate Declared(m: Manifest, pd: ParseDependency) {
    if pd.target.None? then ReadFrom(ManifestTable(m, pd.kind), pd.kind, None, pd)
    else ReadFromTarget(m.target, pd)
  }

  lemma SectionContents(t: Table<Dependency>, kind: Kind, target: Option<string>, pd: ParseDependency)
    ensures pd in Section(t, kind, target) <==> ReadFrom(t, kind, target, pd)
  {
    var s := Section(t, kind, target);
    if pd in s {
      var n :| 0 <= n < |s| && s[n] == pd;
      assert Take(t, MaxDeps)[n] == t[n];
    }
    if ReadFrom(t, kind, target, pd) {
      var n :| 0 <= n < |Take(t, MaxDeps)| && pd == ParseDependency(t[n].0, kind, target, t[n].1);
      assert s[n] == pd;
    }
  }

  /** The target sections hold exactly the first 1000 declarations of each
      target's tables of the kinds they visit (dev only, or normal and
      build). */
  lemma {:induction false} TargetSectionsContents(targets: Table<TargetDeps>, dev: bool, pd: ParseDependency)
    ensures pd in TargetSections(targets, dev) <==> (pd.kind == Dev <==> dev) && ReadFromTarget(targets, pd)
  {
    if |targets| > 0 {
      var n := |targets| - 1;
      var init := targets[..n];
      TargetSectionsContents(init, dev, pd);
      TargetSectionContents(targets[n].0, targets[n].1, dev, pd);
      assert TargetSections(targets, dev) == TargetSections(init, dev) + TargetSection(targets[n].0, targets[n].1, dev);
      if ReadFromTarget(init, pd) {
        var j :| 0 <= j < |init| && ReadFromOne(init[j], pd);
        assert targets[j] == init[j];
      }
      if ReadFromTarget(targets, pd) {
        var j :| 0 <= j < |targets| && ReadFromOne(targets[j], pd);
        if j < n {
          assert targets[j] == init[j];
          assert ReadFromTarget(init, pd);
        }
      }
    }
  }

  lemma TargetSectionContents(cfg: string, t: TargetDeps, dev: bool, pd: ParseDependency)
    ensures pd in TargetSection(cfg, t, dev) <==> (pd.kind == Dev <==> dev) && ReadFromOne((cfg, t), pd)
  {
    SectionContents(t.devDependencies, Dev, Some(cfg), pd);
    SectionContents(t.dependencies, Normal, Some(cfg), pd);
    SectionContents(t.buildDependencies, Build, Some(cfg), pd);
  }

  /** The stream holds exactly the declarations the manifest makes (the
      first 1000 of each table). */
  lemma DepStreamContents(m: Manifest, pd: ParseDependency)
    ensures pd in DepStream(m) <==> Declared(m, pd)
  {
    var a := Section(m.dependencies, Normal, None);
    var b := Section(m.buildDependencies, Build, None);
    var c := TargetSections(m.target, false);
    var d := Section(m.devDependencies, Dev, None);
    var e := TargetSections(m.target, true);
    assert DepStream(m) == a + b + c + d + e;
    SectionContents(m.dependencies, Normal, None, pd);
    SectionContents(m.buildDependencies, Build, None, pd);
    SectionContents(m.devDependencies, Dev, None, pd);
    TargetSectionsContents(m.target, false, pd);
    TargetSectionsContents(m.target, true, pd);
  }

  /** Dev declarations come after all normal and build ones. */
  lemma DepStreamDevLast(m: Manifest, i: int, j: int)
    requires 0 <= i < |DepStream(m)| && 0 <= j < |DepStream(m)|
    requires DepStream(m)[i].kind != Dev && DepStream(m)[j].kind == Dev
    ensures i < j
  {
    var a := Section(m.dependencies, Normal, None);
    var b := Section(m.buildDependencies, Build, None);
    var c := TargetSections(m.target, false);
    var d := Section(m.devDependencies, Dev, None);
    var e := TargetSections(m.target, true);
    assert DepStream(m) == a + b + c + d + e;
  }

  /** Of each kind, every declaration for all targets comes before every
      declaration for one target: a record created by a target-specific
      declaration really is target-specific. */
  lemma DepStreamUntargetedFirst(m: Manifest, i: int, j: int)
    requires 0 <= i < |DepStream(m)| && 0 <= j < |DepStream(m)|
    requires DepStream(m)[i].kind == DepStream(m)[j].kind
    requires DepStream(m)[i].target.None? && DepStream(m)[j].target.Some?
    ensures i < j
  {
    var a := Section(m.dependencies, Normal, None);
    var b := Section(m.buildDependencies, Build, None);
    var c := TargetSections(m.target, false);
    var d := Section(m.devDependencies, Dev, None);
    var e := TargetSections(m.target, true);
    assert DepStream(m) == a + b + c + d + e;
  }

  /** `order` lists every name the resolver iterates over in a hash map:
      the declared features it reads, `"default"`, and every declared
      dependency. */
  ghost predicate Covers(order: seq<string>, table: Table<seq<string>>, stream: seq<ParseDependency>) {
    && (forall k :: k in KeysOf(Take(table, MaxFeatures)) ==> k in order)
    && "default" in order
    && (forall i :: 0 <= i < |stream| ==> stream[i].key in order)
  }

  /** Every feature after the dependency pass is a declared one or one a
      declaration implies, so `order` lists it. */
  lemma FeaturesCovered(table: Table<seq<string>>, stream: seq<ParseDependency>, order: seq<string>)
    requires Covers(order, table, stream)
    ensures var features := ParseFeatures(table);
      var named := NamedUsingDepSyntax(features, order);
      forall k :: k in AddAll(features, map[], named, stream).0 ==> k in order
  {
    var features := ParseFeatures(table);
    var named := NamedUsingDepSyntax(features, order);
    forall k | k in AddAll(features, map[], named, stream).0
      ensures k in order
    {
      AddAllFeatures(features, map[], named, stream, k);
      if k !in features {
        var i :| 0 <= i < |stream| && Implying(named, stream, i, k);
      }
    }
  }

  /** The dependencies `add_dependencies` records. */
  function Deps(table: Table<seq<string>>, stream: seq<ParseDependency>, order: seq<string>): map<string, FeatureDependency> {
    var features := ParseFeatures(table);
    AddAll(features, map[], NamedUsingDepSyntax(features, order), stream).1
  }

  /** The features just before hidden-feature removal: declared, implied by
      dependencies, required by binaries, with reverse edges. */
  function Linked(table: Table<seq<string>>, stream: seq<ParseDependency>, bins: seq<Product>, packageName: string,
                  order: seq<string>): (r: map<string, Feature>)
    ensures r.Keys == AddAll(ParseFeatures(table), map[], NamedUsingDepSyntax(ParseFeatures(table), order), stream).0.Keys
  {
    var features := ParseFeatures(table);
    var named := NamedUsingDepSyntax(features, order);
    SetEnabledBy(SetRequiredByBins(AddAll(features, map[], named, stream).0, bins, packageName))
  }

  /** The passes shared by `parse` and `parse_custom`: features, their
      dependency names, the dependencies, the binaries (none for
      `parse_custom`), reverse edges, and hidden-feature removal. Hash-map
      iteration follows `order`. */
  function Resolve(table: Table<seq<string>>, stream: seq<ParseDependency>, bins: seq<Product>, packageName: string,
                   keep: Option<string -> bool>, order: seq<string>): (r: Features)
    requires Covers(order, table, stream)
    ensures var linked := Linked(table, stream, bins, packageName, order);
      && r.features.Keys == linked.Keys - RemovedKeys(linked, keep)
      && (r.removedHiddenFeatures <==> RemovedKeys(linked, keep) != {})
  {
    var linked := Linked(table, stream, bins, packageName, order);
    FeaturesCovered(table, stream, order);
    var (remaining, removed) := RemoveHiddenFeatures(linked, keep, order);
    Features(remaining, Deps(table, stream, order), removed)
  }

  /** Before removal, `enabled_by` is the exact reverse of
      `enables_features`: nothing before `set_enabled_by` records an
      enabler. */
  lemma LinkedIsConverse(table: Table<seq<string>>, stream: seq<ParseDependency>, bins: seq<Product>, packageName: string,
                         order: seq<string>)
    ensures EnabledByIsConverse(Linked(table, stream, bins, packageName, order))
  {
    var features := ParseFeatures(table);
    var named := NamedUsingDepSyntax(features, order);
    var withDeps := AddAll(features, map[], named, stream).0;
    forall k | k in withDeps
      ensures withDeps[k].enabledBy == {}
    {
      AddAllFeatures(features, map[], named, stream, k);
    }
    var withBins := SetRequiredByBins(withDeps, bins, packageName);
    assert forall k :: k in withBins ==> withBins[k].enabledBy == {} by {
      forall k | k in withBins
        ensures withBins[k].enabledBy == {}
      {
        assert OnlyBinsAdded(withDeps[k], withBins[k]);
      }
    }
    SetEnabledByConverse(withBins);
  }

  /** The result of the shared passes, in terms of the graph before
      removal: the remaining features and the removal flag. */
  lemma ResolveRemoves(table: Table<seq<string>>, stream: seq<ParseDependency>, bins: seq<Product>, packageName: string,
                       keep: Option<string -> bool>, order: seq<string>)
    requires Covers(order, table, stream)
    ensures var linked := Linked(table, stream, bins, packageName, order);
      && (forall k :: k in linked ==> k in order)
      && Resolve(table, stream, bins, packageName, keep, order).features == RemoveHiddenFeatures(linked, keep, order).0
      && Resolve(table, stream, bins, packageName, keep, order).removedHiddenFeatures == RemoveHiddenFeatures(linked, keep, order).1
  {
    FeaturesCovered(table, stream, order);
  }

  /** `"default"` is a feature before removal. */
  lemma DefaultLinked(table: Table<seq<string>>, stream: seq<ParseDependency>, bins: seq<Product>, packageName: string,
                      order: seq<string>)
    ensures "default" in Linked(table, stream, bins, packageName, order)
  {
    var features := ParseFeatures(table);
    assert "default" in AddAll(features, map[], NamedUsingDepSyntax(features, order), stream).0;
  }

  /** `"default"` is not hidden, so it is never dropped. */
  lemma DefaultNotRemoved(linked: map<string, Feature>, keep: Option<string -> bool>)
    ensures "default" !in RemovedKeys(linked, keep)
  {
    assert "default"[..1] == "d";
  }

  /** `"default"` is always a feature: it is declared or added, and it
      is not hidden. */
  lemma ResolveHasDefault(table: Table<seq<string>>, stream: seq<ParseDependency>, bins: seq<Product>, packageName: string,
                          keep: Option<string -> bool>, order: seq<string>)
    requires Covers(order, table, stream)
    ensures "default" in Resolve(table, stream, bins, packageName, keep, order).features
  {
    DefaultLinked(table, stream, bins, packageName, order);
    DefaultNotRemoved(Linked(table, stream, bins, packageName, order), keep);
    ResolveRemoves(table, stream, bins, packageName, keep, order);
  }

  /** Among the remaining features, `enabled_by` is the exact reverse of
      `enables_features`. */
  lemma ResolveIsConverse(table: Table<seq<string>>, stream: seq<ParseDependency>, bins: seq<Product>, packageName: string,
                          keep: Option<string -> bool>, order: seq<string>)
    requires Covers(order, table, stream)
    ensures EnabledByIsConverse(Resolve(table, stream, bins, packageName, keep, order).features)
  {
    var linked := Linked(table, stream, bins, packageName, order);
    ResolveRemoves(table, stream, bins, packageName, keep, order);
    LinkedIsConverse(table, stream, bins, packageName, order);
    RemoveHiddenFeaturesKeepsConverse(linked, keep, order);
  }

  /** Every recorded dependency has a record, so `detail` does not panic. */
  lemma ResolveDepsHaveDetail(table: Table<seq<string>>, stream: seq<ParseDependency>, bins: seq<Product>, packageName: string,
                              keep: Option<string -> bool>, order: seq<string>)
    requires Covers(order, table, stream)
    ensures forall k :: k in Resolve(table, stream, bins, packageName, keep, order).dependencies ==>
      Resolve(table, stream, bins, packageName, keep, order).dependencies[k].HasDetail()
  {
    var features := ParseFeatures(table);
    AddAllHasDetail(features, map[], NamedUsingDepSyntax(features, order), stream);
  }

  /** Guarantees of the resolved graph: `"default"` is always a feature,
      `enabled_by` is the exact reverse of `enables_features` among the
      remaining features, and every recorded dependency has a record. */
  lemma ResolveInvariants(table: Table<seq<string>>, stream: seq<ParseDependency>, bins: seq<Product>, packageName: string,
                          keep: Option<string -> bool>, order: seq<string>)
    requires Covers(order, table, stream)
    ensures var r := Resolve(table, stream, bins, packageName, keep, order);
      && "default" in r.features
      && EnabledByIsConverse(r.features)
      && (forall k :: k in r.dependencies ==> r.dependencies[k].HasDetail())
  {
    ResolveHasDefault(table, stream, bins, packageName, keep, order);
    ResolveIsConverse(table, stream, bins, packageName, keep, order);
    ResolveDepsHaveDetail(table, stream, bins, packageName, keep, order);
  }

  /** Before removal, such a dependency's implied feature is in the graph,
      enabling nothing but the dependency. */
  lemma ImpliedLinked(table: Table<seq<string>>, stream: seq<ParseDependency>, bins: seq<Product>, packageName: string,
                      order: seq<string>, i: int)
    requires Covers(order, table, stream)
    requires 0 <= i < |stream| && Optional(stream[i].dep)
    requires stream[i].key !in ParseFeatures(table)
    requires forall k :: k in ParseFeatures(table) && stream[i].key in ParseFeatures(table)[k].enablesDeps ==>
      !ParseFeatures(table)[k].enablesDeps[stream[i].key].isDepOnly
    ensures var linked := Linked(table, stream, bins, packageName, order);
      var k := stream[i].key;
      && k in linked
      && !linked[k].explicit
      && linked[k].enablesFeatures == {}
      && linked[k].enablesDeps == map[k := DepAction(false, false, [])]
  {
    var k := stream[i].key;
    var features := ParseFeatures(table);
    var named := NamedUsingDepSyntax(features, order);
    NamedUsingDepSyntaxComplete(features, order, k, false);
    assert Implying(named, stream, i, k);
    AddAllFeatures(features, map[], named, stream, k);
    var withDeps := AddAll(features, map[], named, stream).0;
    assert withDeps[k] == ImpliedFeature(k);
    var withBins := SetRequiredByBins(withDeps, bins, packageName);
    assert OnlyBinsAdded(withDeps[k], withBins[k]);
    assert Linked(table, stream, bins, packageName, order)[k] == SetEnabledBy(withBins)[k];
  }

  /** An optional dependency that is not a declared feature and that no
      feature names with `dep:` syntax ends up as a feature of its own,
      implied rather than declared, enabling just that dependency. */
  lemma ImpliedFeatureSurvives(table: Table<seq<string>>, stream: seq<ParseDependency>, bins: seq<Product>, packageName: string,
                               keep: Option<string -> bool>, order: seq<string>, i: int)
    requires Covers(order, table, stream)
    requires 0 <= i < |stream| && Optional(stream[i].dep)
    requires stream[i].key !in ParseFeatures(table)
    requires forall k :: k in ParseFeatures(table) && stream[i].key in ParseFeatures(table)[k].enablesDeps ==>
      !ParseFeatures(table)[k].enablesDeps[stream[i].key].isDepOnly
    ensures var r := Resolve(table, stream, bins, packageName, keep, order).features;
      var k := stream[i].key;
      && k in r
      && !r[k].explicit
      && r[k].enablesDeps == map[k := DepAction(false, false, [])]
  {
    var k := stream[i].key;
    var linked := Linked(table, stream, bins, packageName, order);
    ImpliedLinked(table, stream, bins, packageName, order, i);
    ResolveRemoves(table, stream, bins, packageName, keep, order);
    LinkedIsConverse(table, stream, bins, packageName, order);
    KeepsDependencyAction(linked, keep, order, k);
  }

  /** A feature that acts on a dependency and enables no feature is never
      dropped, and dropping others leaves it as it was apart from its
      enablers. */
  lemma KeepsDependencyAction(linked: map<string, Feature>, keep: Option<string -> bool>, order: seq<string>, k: string)
    requires forall g :: g in linked ==> g in order
    requires EnabledByIsConverse(linked)
    requires k in linked && linked[k].enablesDeps != map[] && linked[k].enablesFeatures == {}
    ensures var r := RemoveHiddenFeatures(linked, keep, order).0;
      k in r && r[k] == linked[k].(enabledBy := r[k].enabledBy)
  {
    assert k !in RemovedKeys(linked, keep);
    RemoveHiddenFeaturesSplices(linked, keep, order, k);
  }

  /** `parse_custom`: features from a table read in `table`'s order, and
      dependency declarations from any source, in the order given; no
      binaries are recorded. */
  function ParseCustom(table: Table<seq<string>>, stream: seq<ParseDependency>, keep: Option<string -> bool>, order: seq<string>): (r: Features)
    requires Covers(order, table, stream)
    ensures "default" in r.features && EnabledByIsConverse(r.features)
    ensures forall k :: k in r.dependencies ==> r.dependencies[k].HasDetail()
    ensures forall k :: k in r.features ==> r.features[k].requiredByBins == []
  {
    ResolveInvariants(table, stream, [], "", keep, order);
    NoBinsRecorded(table, stream, keep, order);
    Resolve(table, stream, [], "", keep, order)
  }

  /** Without binaries no feature is required by one. */
  lemma NoBinsRecorded(table: Table<seq<string>>, stream: seq<ParseDependency>, keep: Option<string -> bool>, order: seq<string>)
    requires Covers(order, table, stream)
    ensures var r := Resolve(table, stream, [], "", keep, order).features;
      forall k :: k in r ==> r[k].requiredByBins == []
  {
    var features := ParseFeatures(table);
    var named := NamedUsingDepSyntax(features, order);
    var withDeps := AddAll(features, map[], named, stream).0;
    forall k | k in withDeps
      ensures withDeps[k].requiredByBins == []
    {
      AddAllFeatures(features, map[], named, stream, k);
    }
    var linked := Linked(table, stream, [], "", order);
    ResolveRemoves(table, stream, [], "", keep, order);
    LinkedIsConverse(table, stream, [], "", order);
    var r := Resolve(table, stream, [], "", keep, order).features;
    forall k | k in r
      ensures r[k].requiredByBins == []
    {
      RemoveHiddenFeaturesSplices(linked, keep, order, k);
    }
  }

  /** `parse`: the manifest's features, its dependency tables in the
      resolver's order, and its binaries. A manifest without `[package]`
      makes the source panic. */
  function Parse(m: Manifest, keep: Option<string -> bool>, order: seq<string>): (r: Features)
    requires m.packageName.Some?
    requires Covers(order, m.features, DepStream(m))
    ensures "default" in r.features && EnabledByIsConverse(r.features)
    ensures forall k :: k in r.dependencies ==> r.dependencies[k].HasDetail()
  {
    ResolveInvariants(m.features, DepStream(m), m.bin, m.packageName.value, keep, order);
    Resolve(m.features, DepStream(m), m.bin, m.packageName.value, keep, order)
  }
}
