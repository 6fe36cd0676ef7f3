/**
 The dependency pass of the feature resolver: which names the features
 refer to with `dep:`-style syntax, and the recording of every dependency
 that features can refer to, with the implicit feature an optional
 dependency brings when no feature names it with `dep:`.
 */
module FeatureDeps {
  import opened Common
  import opened Dependencies
  import opened FeatureTypes

  /** `ParseDependency`: one dependency declaration, as the resolver sees it. */
  datatype ParseDependency = ParseDependency(
    /** the key in its table, not always the crate name */
    key: string,
    kind: Kind,
    /** `Some(cfg)` for a `[target.cfg.*dependencies]` table */
    target: Option<string>,
    dep: Dependency)

  /** `get` on the map of names. */
  function Lookup(named: map<string, bool>, k: string): (r: Option<bool>)
    ensures r.Some? <==> k in named
    ensures r.Some? ==> r.value == named[k]
  {
    if k in named then Some(named[k]) else None
  }

  /** Adds one feature's dependency actions to the map of names; a name
      already present keeps its value. */
  function AddDepNames(m: map<string, bool>, deps: map<string, DepAction>): (r: map<string, bool>)
    ensures r.Keys == m.Keys + deps.Keys
    ensures forall d :: d in m ==> r[d] == m[d]
    ensures forall d :: d in deps && d !in m ==> r[d] == deps[d].isDepOnly
  {
    m + map d | d in deps && d !in m :: deps[d].isDepOnly
  }

  /** Dependency `d` is acted on by the feature visited at position `i`. */
  ghost predicate VisitedActsOn(features: map<string, Feature>, order: seq<string>, i: int, d: string)
    requires 0 <= i < |order|
  {
    order[i] in features && d in features[order[i]].enablesDeps
  }

  /** `named_using_dep_syntax`: every feature key maps to `false`; a name
      only dependency actions mention maps to the `dep:`-only flag of the
      first action on it, visiting the features in `order` (the iteration
      order of the hash map, which is not fixed). */
  function NamedUsingDepSyntax(features: map<string, Feature>, order: seq<string>): (r: map<string, bool>)
    ensures features.Keys <= r.Keys
    ensures forall k :: k in features ==> !r[k]
  {
    if |order| == 0 then map k | k in features :: false
    else
      var m := NamedUsingDepSyntax(features, order[..|order| - 1]);
      var k := order[|order| - 1];
      if k in features then AddDepNames(m, features[k].enablesDeps) else m
  }

  /** A name is in the map exactly when it is a feature or some visited
      feature acts on it as a dependency; a name that is not a feature
      takes its flag from one of the actions on it. */
  lemma {:induction false} NamedUsingDepSyntaxContents(features: map<string, Feature>, order: seq<string>, d: string)
    ensures d in NamedUsingDepSyntax(features, order) <==>
      d in features || exists i :: 0 <= i < |order| && VisitedActsOn(features, order, i, d)
    ensures d in NamedUsingDepSyntax(features, order) && d !in features ==>
      exists i :: 0 <= i < |order| && VisitedActsOn(features, order, i, d)
        && NamedUsingDepSyntax(features, order)[d] == features[order[i]].enablesDeps[d].isDepOnly
  {
    if |order| > 0 {
      var n := |order| - 1;
      var init := order[..n];
      NamedUsingDepSyntaxContents(features, init, d);
      assert forall i :: 0 <= i < n ==> init[i] == order[i];
      assert forall i :: 0 <= i < n ==> (VisitedActsOn(features, init, i, d) <==> VisitedActsOn(features, order, i, d));
      var m := NamedUsingDepSyntax(features, init);
      var r := NamedUsingDepSyntax(features, order);
      if d in m && d !in features {
        var i :| 0 <= i < n && VisitedActsOn(features, init, i, d) && m[d] == features[init[i]].enablesDeps[d].isDepOnly;
        assert VisitedActsOn(features, order, i, d) && r[d] == m[d];
      }
      if d in r && d !in m {
        assert VisitedActsOn(features, order, n, d);
      }
    }
  }

  /** When every feature is visited, a name that is not a feature is in the
      map exactly when some feature acts on it, and if all actions on it
      agree on being `dep:`-only, the map holds that agreed value. */
  lemma NamedUsingDepSyntaxComplete(features: map<string, Feature>, order: seq<string>, d: string, v: bool)
    requires forall k :: k in features ==> k in order
    requires d !in features
    requires forall k :: k in features && d in features[k].enablesDeps ==> features[k].enablesDeps[d].isDepOnly == v
    ensures d in NamedUsingDepSyntax(features, order) <==> exists k :: k in features && d in features[k].enablesDeps
    ensures d in NamedUsingDepSyntax(features, order) ==> NamedUsingDepSyntax(features, order)[d] == v
  {
    NamedUsingDepSyntaxContents(features, order, d);
    if k :| k in features && d in features[k].enablesDeps {
      var i :| 0 <= i < |order| && order[i] == k;
      assert VisitedActsOn(features, order, i, d);
    }
  }

  /** The feature an optional dependency implies: not declared, and it
      enables only the dependency of the same name. */
  function ImpliedFeature(key: string): (f: Feature)
    ensures f.key == key && !f.explicit && f.enablesFeatures == {} && f.enabledBy == {}
    ensures f.enablesDeps.Keys == {key} && f.enablesDeps[key] == DepAction(false, false, [])
  {
    Feature(key, map[key := DepAction(false, false, [])], {}, {}, [], false)
  }

  /** The record of one dependency kind after one more declaration of that
      kind. An untargeted declaration makes the dependency apply to every
      target and keeps it optional only if it is optional too; a declaration
      for one target adds that target only when the dependency is already
      target-specific. The recorded declaration is replaced only when a
      required one downgrades an optional record. A new record starts from
      the declaration itself. */
  function UpdateSlot(prev: Option<FeatureDependencyDetail>, isOptional: bool, target: Option<string>, dep: Dependency): (r: FeatureDependencyDetail)
    ensures prev.None? ==> r.isOptional == isOptional && r.dep == dep
    ensures prev.None? && target.None? ==> r.onlyForTargets == {}
    ensures prev.None? && target.Some? ==> r.onlyForTargets == {target.value}
    ensures prev.Some? && target.None? ==> r.onlyForTargets == {} && r.isOptional == (prev.value.isOptional && isOptional)
    ensures prev.Some? && target.None? ==> r.dep == (if !isOptional && prev.value.isOptional then dep else prev.value.dep)
    ensures prev.Some? && target.Some? ==> r.isOptional == prev.value.isOptional && r.dep == prev.value.dep
    ensures prev.Some? && target.Some? ==>
      r.onlyForTargets == (if prev.value.onlyForTargets == {} then {} else prev.value.onlyForTargets + {target.value})
  {
    match prev
    case Some(out) =>
      if target.Some? then
        if out.onlyForTargets != {} then out.(onlyForTargets := out.onlyForTargets + {target.value}) else out
      else
        var cleared := out.(onlyForTargets := {});
        if !isOptional && out.isOptional then cleared.(isOptional := false, dep := dep) else cleared
    case None =>
      FeatureDependencyDetail(isOptional, if target.Some? then {target.value} else {}, dep)
  }

  /** Whether `add_dependency` records the declaration: it must be optional,
      or named in a feature, or already recorded. */
  predicate Records(deps: map<string, FeatureDependency>, named: map<string, bool>, pd: ParseDependency) {
    Optional(pd.dep) || pd.key in named || pd.key in deps
  }

  /** Whether `add_dependency` creates the implied feature (when the key is
      not a feature yet). */
  predicate Implies(named: map<string, bool>, pd: ParseDependency) {
    Optional(pd.dep) && Lookup(named, pd.key) != Some(true)
  }

  /** The dependency side of `add_dependency`: a recorded declaration
      updates the record of its kind under its key, creating the entry (with
      the crate name it gives) when the key is new. */
  function RecordDependency(deps: map<string, FeatureDependency>, named: map<string, bool>, pd: ParseDependency): (r: map<string, FeatureDependency>)
    ensures !Records(deps, named, pd) ==> r == deps
    ensures r.Keys == deps.Keys + (if Records(deps, named, pd) then {pd.key} else {})
    ensures forall k :: k in deps && k != pd.key ==> r[k] == deps[k]
    ensures Records(deps, named, pd) ==>
      r[pd.key].Slot(pd.kind) == Some(UpdateSlot(if pd.key in deps then deps[pd.key].Slot(pd.kind) else None, Optional(pd.dep), pd.target, pd.dep))
    ensures Records(deps, named, pd) ==>
      r[pd.key].crateName == (if pd.key in deps then deps[pd.key].crateName else Package(pd.dep).UnwrapOr(pd.key))
    ensures pd.key in deps ==> forall k :: k != pd.kind ==> r[pd.key].Slot(k) == deps[pd.key].Slot(k)
    ensures Records(deps, named, pd) && pd.key !in deps ==> forall k :: k != pd.kind ==> r[pd.key].Slot(k).None?
  {
    if !Records(deps, named, pd) then deps
    else
      var entry :=
        if pd.key in deps then deps[pd.key]
        else FeatureDependency(Package(pd.dep).UnwrapOr(pd.key), None, None, None);
      var slot := UpdateSlot(entry.Slot(pd.kind), Optional(pd.dep), pd.target, pd.dep);
      deps[pd.key := entry.WithSlot(pd.kind, Some(slot))]
  }

  /** The feature side of `add_dependency`: an optional dependency that no
      feature names with `dep:` syntax brings its implied feature, unless a
      feature of that name exists already. */
  function ImplyFeature(features: map<string, Feature>, named: map<string, bool>, pd: ParseDependency): (r: map<string, Feature>)
    ensures r.Keys == features.Keys + (if Implies(named, pd) then {pd.key} else {})
    ensures forall k :: k in features ==> r[k] == features[k]
    ensures pd.key !in features && pd.key in r ==> r[pd.key] == ImpliedFeature(pd.key)
  {
    if Implies(named, pd) && pd.key !in features then features[pd.key := ImpliedFeature(pd.key)] else features
  }

  /** `add_dependency`: both sides at once. */
  function AddDependency(features: map<string, Feature>, deps: map<string, FeatureDependency>,
                         named: map<string, bool>, pd: ParseDependency): (r: (map<string, Feature>, map<string, FeatureDependency>))
    ensures !Records(deps, named, pd) ==> r == (features, deps)
    ensures r.1.Keys == deps.Keys + (if Records(deps, named, pd) then {pd.key} else {})
    ensures forall k :: k in deps && k != pd.key ==> r.1[k] == deps[k]
    ensures Records(deps, named, pd) ==> r.1[pd.key].Slot(pd.kind).Some?
    ensures Records(deps, named, pd) ==>
      r.1[pd.key].crateName == (if pd.key in deps then deps[pd.key].crateName else Package(pd.dep).UnwrapOr(pd.key))
    ensures pd.key in deps ==> forall k :: k != pd.kind ==> r.1[pd.key].Slot(k) == deps[pd.key].Slot(k)
    ensures r.0.Keys == features.Keys + (if Implies(named, pd) then {pd.key} else {})
    ensures forall k :: k in features ==> r.0[k] == features[k]
    ensures pd.key !in features && pd.key in r.0 ==> r.0[pd.key] == ImpliedFeature(pd.key)
  {
    (ImplyFeature(features, named, pd), RecordDependency(deps, named, pd))
  }

  /** The dependency side of the pass over a stream of declarations. */
  function RecordAll(deps: map<string, FeatureDependency>, named: map<string, bool>, stream: seq<ParseDependency>): (r: map<string, FeatureDependency>)
    ensures deps.Keys <= r.Keys
  {
    if |stream| == 0 then deps
    else RecordDependency(RecordAll(deps, named, stream[..|stream| - 1]), named, stream[|stream| - 1])
  }

  /** The feature side of the pass over a stream of declarations. */
  function ImplyAll(features: map<string, Feature>, named: map<string, bool>, stream: seq<ParseDependency>): (r: map<string, Feature>)
    ensures features.Keys <= r.Keys
    ensures forall k :: k in features ==> r[k] == features[k]
  {
    if |stream| == 0 then features
    else ImplyFeature(ImplyAll(features, named, stream[..|stream| - 1]), named, stream[|stream| - 1])
  }

  /** The declarations in order, each through `add_dependency`; the first
      declaration of a name decides its crate name, so order matters. The
      two sides are computed separately, which `AddAllIsSequential` shows is
      the same as the source's single loop. */
  function AddAll(features: map<string, Feature>, deps: map<string, FeatureDependency>,
                  named: map<string, bool>, stream: seq<ParseDependency>): (r: (map<string, Feature>, map<string, FeatureDependency>))
    ensures |stream| == 0 ==> r == (features, deps)
    ensures deps.Keys <= r.1.Keys && features.Keys <= r.0.Keys
    ensures forall k :: k in features ==> r.0[k] == features[k]
  {
    (ImplyAll(features, named, stream), RecordAll(deps, named, stream))
  }

  /** The pass is `add_dependency` applied to each declaration in turn. */
  lemma AddAllIsSequential(features: map<string, Feature>, deps: map<string, FeatureDependency>,
                           named: map<string, bool>, stream: seq<ParseDependency>)
    requires |stream| > 0
    ensures var p := AddAll(features, deps, named, stream[..|stream| - 1]);
      AddAll(features, deps, named, stream) == AddDependency(p.0, p.1, named, stream[|stream| - 1])
  {
  }

  /** Whether declaration `i` can be recorded on its own merits. */
  ghost predicate Referable(named: map<string, bool>, stream: seq<ParseDependency>, i: int, k: string)
    requires 0 <= i < |stream|
  {
    stream[i].key == k && (Optional(stream[i].dep) || k in named)
  }

  /** A name is recorded exactly when it was recorded before or one of its
      declarations is optional or named in a feature. */
  lemma {:induction false} AddAllKeys(features: map<string, Feature>, deps: map<string, FeatureDependency>,
                                      named: map<string, bool>, stream: seq<ParseDependency>, k: string)
    ensures k in AddAll(features, deps, named, stream).1 <==>
      k in deps || exists i :: 0 <= i < |stream| && Referable(named, stream, i, k)
  {
    if |stream| > 0 {
      var n := |stream| - 1;
      var init := stream[..n];
      AddAllKeys(features, deps, named, init, k);
      assert forall i :: 0 <= i < n ==> init[i] == stream[i];
      assert forall i :: 0 <= i < n ==> (Referable(named, init, i, k) <==> Referable(named, stream, i, k));
      var p := RecordAll(deps, named, init);
      assert RecordAll(deps, named, stream) == RecordDependency(p, named, stream[n]);
      if k in RecordAll(deps, named, stream) && k !in p {
        assert Referable(named, stream, n, k);
      }
    }
  }

  /** Every recorded dependency has a record for at least one kind, so
      `detail` never panics on it. */
  lemma {:induction false} AddAllHasDetail(features: map<string, Feature>, deps: map<string, FeatureDependency>,
                                           named: map<string, bool>, stream: seq<ParseDependency>)
    requires forall k :: k in deps ==> deps[k].HasDetail()
    ensures forall k :: k in AddAll(features, deps, named, stream).1 ==> AddAll(features, deps, named, stream).1[k].HasDetail()
  {
    if |stream| > 0 {
      var n := |stream| - 1;
      AddAllHasDetail(features, deps, named, stream[..n]);
      var p := RecordAll(deps, named, stream[..n]);
      var r := RecordAll(deps, named, stream);
      assert p == AddAll(features, deps, named, stream[..n]).1;
      assert r == AddAll(features, deps, named, stream).1;
      assert r == RecordDependency(p, named, stream[n]);
      forall k | k in r
        ensures r[k].HasDetail()
      {
        if Records(p, named, stream[n]) && k == stream[n].key {
          assert r[k].Slot(stream[n].kind).Some?;
          match stream[n].kind {
            case Normal => assert r[k].normal.Some?;
            case Build => assert r[k].build.Some?;
            case Dev => assert r[k].dev.Some?;
          }
        } else {
          assert k in p && r[k] == p[k];
          assert p[k].HasDetail();
        }
      }
    }
  }

  /** A name that was not recorded before takes its crate name from its
      first declaration that can be recorded: the `package` override, or
      else the key itself. */
  lemma {:induction false} AddAllCrateName(features: map<string, Feature>, deps: map<string, FeatureDependency>,
                                           named: map<string, bool>, stream: seq<ParseDependency>, k: string, i: int)
    requires k !in deps
    requires 0 <= i < |stream| && Referable(named, stream, i, k)
    requires forall j :: 0 <= j < i ==> !Referable(named, stream, j, k)
    ensures k in AddAll(features, deps, named, stream).1
    ensures AddAll(features, deps, named, stream).1[k].crateName == Package(stream[i].dep).UnwrapOr(k)
  {
    var n := |stream| - 1;
    var init := stream[..n];
    assert forall j :: 0 <= j < n ==> init[j] == stream[j];
    var p := RecordAll(deps, named, init);
    assert RecordAll(deps, named, stream) == RecordDependency(p, named, stream[n]);
    if i < n {
      assert forall j :: 0 <= j < i ==> (Referable(named, init, j, k) <==> Referable(named, stream, j, k));
      AddAllCrateName(features, deps, named, init, k, i);
    } else {
      AddAllKeys(features, deps, named, init, k);
      assert forall j :: 0 <= j < n ==> (Referable(named, init, j, k) <==> Referable(named, stream, j, k));
      assert k !in p;
    }
  }

  /** Declaration `i` creates the implied feature of its key. */
  ghost predicate Implying(named: map<string, bool>, stream: seq<ParseDependency>, i: int, k: string)
    requires 0 <= i < |stream|
  {
    stream[i].key == k && Implies(named, stream[i])
  }

  /** The features after the pass: the ones before, unchanged, plus the
      implied feature of every optional dependency that no feature names
      with `dep:` syntax. */
  lemma {:induction false} AddAllFeatures(features: map<string, Feature>, deps: map<string, FeatureDependency>,
                                          named: map<string, bool>, stream: seq<ParseDependency>, k: string)
    ensures var r := AddAll(features, deps, named, stream).0;
      && (k in r <==> k in features || exists i :: 0 <= i < |stream| && Implying(named, stream, i, k))
      && (k in r && k !in features ==> r[k] == ImpliedFeature(k))
  {
    if |stream| > 0 {
      var n := |stream| - 1;
      var init := stream[..n];
      AddAllFeatures(features, deps, named, init, k);
      assert forall i :: 0 <= i < n ==> init[i] == stream[i];
      assert forall i :: 0 <= i < n ==> (Implying(named, init, i, k) <==> Implying(named, stream, i, k));
      var p := ImplyAll(features, named, init);
      assert ImplyAll(features, named, stream) == ImplyFeature(p, named, stream[n]);
      if k in ImplyAll(features, named, stream) && k !in p {
        assert Implying(named, stream, n, k);
      }
    }
  }

  /** The record of `kind` for `k` is required and applies to every target. */
  ghost predicate RequiredEverywhere(deps: map<string, FeatureDependency>, k: string, kind: Kind) {
    && k in deps
    && deps[k].Slot(kind).Some?
    && !deps[k].Slot(kind).value.isOptional
    && deps[k].Slot(kind).value.onlyForTargets == {}
  }

  /** A recorded untargeted, non-optional declaration makes its record
      required everywhere, and no later declaration undoes that. */
  lemma RequiredStep(deps: map<string, FeatureDependency>, named: map<string, bool>, pd: ParseDependency, k: string, kind: Kind)
    requires RequiredEverywhere(deps, k, kind)
      || (Records(deps, named, pd) && pd.key == k && pd.kind == kind && pd.target.None? && !Optional(pd.dep))
    ensures RequiredEverywhere(RecordDependency(deps, named, pd), k, kind)
  {
  }

  /** Once an untargeted, non-optional declaration of a kind is recorded,
      the dependency stays required and applies to every target for that
      kind, whatever target-specific or optional declarations follow. */
  lemma {:induction false} UntargetedRequiredWins(features: map<string, Feature>, deps: map<string, FeatureDependency>,
                                                  named: map<string, bool>, stream: seq<ParseDependency>, i: int)
    requires 0 <= i < |stream|
    requires stream[i].target.None? && !Optional(stream[i].dep)
    requires Records(AddAll(features, deps, named, stream[..i]).1, named, stream[i])
    ensures RequiredEverywhere(AddAll(features, deps, named, stream).1, stream[i].key, stream[i].kind)
  {
    var n := |stream| - 1;
    var init := stream[..n];
    var p := RecordAll(deps, named, init);
    assert RecordAll(deps, named, stream) == RecordDependency(p, named, stream[n]);
    if i == n {
      assert init == stream[..i];
    } else {
      assert init[..i] == stream[..i];
      assert init[i] == stream[i];
      UntargetedRequiredWins(features, deps, named, init, i);
    }
    RequiredStep(p, named, stream[n], stream[i].key, stream[i].kind);
  }
}
