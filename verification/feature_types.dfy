/**
 The nodes of the resolved feature graph: features, the actions a feature
 performs on a dependency, and the per-kind records of dependencies that
 features can refer to.
 */
module FeatureTypes {
  import opened Common
  import opened Strings
  import opened Dependencies

  /** How an enabled feature affects a dependency. */
  datatype DepAction = DepAction(
    /** written with `?`: only takes effect if the dependency is enabled anyway */
    isConditional: bool,
    /** written with `dep:` or `?`: does not imply a feature of that name */
    isDepOnly: bool,
    /** features of the dependency to enable, in the order they were written */
    depFeatures: seq<string>)

  /** A feature from `[features]`, or one implied by an optional dependency. */
  datatype Feature = Feature(
    key: string,
    enablesDeps: map<string, DepAction>,
    enablesFeatures: set<string>,
    /** keys of the features that enable this one (one level, not transitive) */
    enabledBy: set<string>,
    /** names of binaries whose `required-features` list this feature */
    requiredByBins: seq<string>,
    /** declared in `[features]` (true) or implied by a dependency (false) */
    explicit: bool)

  /** `is_referenced`: some feature enables this one. */
  predicate IsReferenced(f: Feature) {
    f.enabledBy != {}
  }

  /** `non_default_enabled_by`: the enablers other than `"default"`. */
  function NonDefaultEnabledBy(f: Feature): (r: set<string>)
    ensures r <= f.enabledBy && "default" !in r
    ensures forall e :: e in f.enabledBy && e != "default" ==> e in r
  {
    f.enabledBy - {"default"}
  }

  /** In a graph whose reverse edges are exact, a referenced feature is
      enabled by a feature of the graph, and one that is not referenced
      is enabled by none. */
  lemma ReferencedHasEnabler(fs: map<string, Feature>, k: string)
    requires EnabledByIsConverse(fs) && k in fs
    ensures IsReferenced(fs[k]) <==> exists g :: g in fs && k in fs[g].enablesFeatures
  {
    if IsReferenced(fs[k]) {
      var g :| g in fs[k].enabledBy;
      assert g in fs && k in fs[g].enablesFeatures;
    }
  }

  /** Normal, dev and build dependencies. */
  datatype Kind = Normal | Dev | Build

  /** What one dependency section says about a dependency that features can
      refer to. */
  datatype FeatureDependencyDetail = FeatureDependencyDetail(
    isOptional: bool,
    /** empty when the dependency applies to every target */
    onlyForTargets: set<string>,
    dep: Dependency)

  /** A dependency referenced by features, with one record per kind. */
  datatype FeatureDependency = FeatureDependency(
    crateName: string,
    normal: Option<FeatureDependencyDetail>,
    build: Option<FeatureDependencyDetail>,
    dev: Option<FeatureDependencyDetail>)
  {
    /** `get_mut_entry`, read side. */
    function Slot(kind: Kind): Option<FeatureDependencyDetail> {
      match kind
      case Normal => normal
      case Build => build
      case Dev => dev
    }

    /** `get_mut_entry`, write side: only the record of `kind` changes. */
    function WithSlot(kind: Kind, d: Option<FeatureDependencyDetail>): (r: FeatureDependency)
      ensures r.Slot(kind) == d && r.crateName == crateName
      ensures forall k :: k != kind ==> r.Slot(k) == Slot(k)
    {
      match kind
      case Normal => this.(normal := d)
      case Build => this.(build := d)
      case Dev => this.(dev := d)
    }

    predicate HasDetail() {
      normal.Some? || build.Some? || dev.Some?
    }

    /** `detail`: the first record in the order normal, build, dev. It
        panics when there is none, which the resolver never produces. */
    function Detail(): (r: (FeatureDependencyDetail, Kind))
      requires HasDetail()
      ensures Slot(r.1) == Some(r.0)
      ensures r.1 == Build ==> normal.None?
      ensures r.1 == Dev ==> normal.None? && build.None?
    {
      if normal.Some? then (normal.value, Normal)
      else if build.Some? then (build.value, Build)
      else (dev.value, Dev)
    }

    /** `dep`: the dependency of the first record. */
    function Dep(): Dependency
      requires HasDetail()
    {
      Detail().0.dep
    }
  }

  /** The result of resolving a manifest's features. */
  datatype Features = Features(
    features: map<string, Feature>,
    dependencies: map<string, FeatureDependency>,
    removedHiddenFeatures: bool)

  /** Keys starting with `_` name hidden features. */
  predicate IsHidden(k: string) {
    StartsWith(k, "_")
  }

  /** `enabled_by` is exactly the reverse of `enables_features` among the
      features of the graph. */
  ghost predicate EnabledByIsConverse(fs: map<string, Feature>) {
    && (forall k, g :: k in fs && g in fs ==> (g in fs[k].enabledBy <==> k in fs[g].enablesFeatures))
    && (forall k, g :: k in fs && g in fs[k].enabledBy ==> g in fs)
  }
}
