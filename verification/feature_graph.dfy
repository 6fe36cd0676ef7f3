/**
 The passes over the feature graph after it is built: which binaries
 require each feature, the reverse `enabled_by` edges, and the removal of
 hidden `_`-prefixed features, whose edges are spliced into their
 neighbours.
 */
module FeatureGraph {
  import opened Common
  import opened Products
  import opened FeatureTypes

  /** The name recorded for a binary: its own, or else the package's. */
  function BinName(b: Product, packageName: string): (n: string)
    ensures b.name.Some? ==> n == b.name.value
    ensures b.name.None? ==> n == packageName
  {
    b.name.UnwrapOr(packageName)
  }

  /** `after` is `before` with names appended to `requiredByBins`. */
  predicate OnlyBinsAdded(before: Feature, after: Feature) {
    && after == before.(requiredByBins := after.requiredByBins)
    && before.requiredByBins <= after.requiredByBins
  }

  /** Records `name` on every feature among `required` (once per mention);
      names of features that do not exist are skipped. */
  function RequireBin(features: map<string, Feature>, required: seq<string>, name: string): (r: map<string, Feature>)
    ensures r.Keys == features.Keys
    ensures forall k :: k in r ==> OnlyBinsAdded(features[k], r[k])
  {
    if |required| == 0 then features
    else
      var m := RequireBin(features, required[..|required| - 1], name);
      var f := required[|required| - 1];
      if f in m then m[f := m[f].(requiredByBins := m[f].requiredByBins + [name])] else m
  }

  /** `set_required_by_bins`: the binaries in order, each recorded on the
      features it requires. */
  function SetRequiredByBins(features: map<string, Feature>, bins: seq<Product>, packageName: string): (r: map<string, Feature>)
    ensures r.Keys == features.Keys
    ensures forall k :: k in r ==> OnlyBinsAdded(features[k], r[k])
  {
    if |bins| == 0 then features
    else
      var b := bins[|bins| - 1];
      RequireBin(SetRequiredByBins(features, bins[..|bins| - 1], packageName), b.requiredFeatures, BinName(b, packageName))
  }

  /** What one binary adds to feature `k`: its name, and only that, exactly
      when it lists `k`. */
  lemma {:induction false} RequireBinContents(features: map<string, Feature>, required: seq<string>, name: string, k: string, n: string)
    requires k in features
    ensures var added := RequireBin(features, required, name)[k].requiredByBins[|features[k].requiredByBins|..];
      n in added <==> k in required && n == name
  {
    if |required| > 0 {
      var init := required[..|required| - 1];
      RequireBinContents(features, init, name, k, n);
      var before := |features[k].requiredByBins|;
      var m := RequireBin(features, init, name);
      var r := RequireBin(features, required, name);
      assert required == init + [required[|required| - 1]];
      if required[|required| - 1] == k {
        assert r[k].requiredByBins[before..] == m[k].requiredByBins[before..] + [name];
      } else {
        assert r[k] == m[k];
      }
    }
  }

  /** What lies past a prefix of `z` is what lies past it in a middle
      prefix `y`, followed by what lies past `y`. */
  lemma SuffixSplit(x: seq<string>, y: seq<string>, z: seq<string>, n: string)
    requires x <= y <= z
    ensures n in z[|x|..] <==> n in y[|x|..] || n in z[|y|..]
  {
    assert z[|x|..] == y[|x|..] + z[|y|..];
  }

  /** Binary `i` requires feature `k` and is recorded as `n`. */
  ghost predicate BinRequires(bins: seq<Product>, packageName: string, i: int, k: string, n: string)
    requires 0 <= i < |bins|
  {
    k in bins[i].requiredFeatures && BinName(bins[i], packageName) == n
  }

  /** The names recorded on feature `k` after the pass are its earlier ones
      followed by names that belong to binaries requiring `k`, and every
      binary requiring `k` is named there. */
  lemma {:induction false} RequiredByBinsContents(features: map<string, Feature>, bins: seq<Product>, packageName: string, k: string, n: string)
    requires k in features
    ensures n in SetRequiredByBins(features, bins, packageName)[k].requiredByBins[|features[k].requiredByBins|..] <==>
      exists i :: 0 <= i < |bins| && BinRequires(bins, packageName, i, k, n)
  {
    if |bins| > 0 {
      var last := |bins| - 1;
      var init := bins[..last];
      RequiredByBinsContents(features, init, packageName, k, n);
      var m := SetRequiredByBins(features, init, packageName);
      var name := BinName(bins[last], packageName);
      var r := RequireBin(m, bins[last].requiredFeatures, name);
      RequireBinContents(m, bins[last].requiredFeatures, name, k, n);
      SuffixSplit(features[k].requiredByBins, m[k].requiredByBins, r[k].requiredByBins, n);
      LastBinUnfolds(features, bins, packageName);
      BinRequiresSplit(bins, init, packageName, k, n);
    }
  }

  /** The pass over `bins` is the pass over all but the last binary,
      followed by the last one. */
  lemma LastBinUnfolds(features: map<string, Feature>, bins: seq<Product>, packageName: string)
    requires |bins| > 0
    ensures SetRequiredByBins(features, bins, packageName)
      == RequireBin(SetRequiredByBins(features, bins[..|bins| - 1], packageName),
                    bins[|bins| - 1].requiredFeatures, BinName(bins[|bins| - 1], packageName))
  {
  }

  /** Some binary requires `k` as `n` exactly when one before the last
      does, or the last one does. */
  lemma BinRequiresSplit(bins: seq<Product>, init: seq<Product>, packageName: string, k: string, n: string)
    requires |bins| > 0 && init == bins[..|bins| - 1]
    ensures (exists i :: 0 <= i < |bins| && BinRequires(bins, packageName, i, k, n)) <==>
      (exists i :: 0 <= i < |init| && BinRequires(init, packageName, i, k, n))
      || BinRequires(bins, packageName, |bins| - 1, k, n)
  {
    if exists i :: 0 <= i < |bins| && BinRequires(bins, packageName, i, k, n) {
      var i :| 0 <= i < |bins| && BinRequires(bins, packageName, i, k, n);
      if i < |bins| - 1 {
        assert init[i] == bins[i];
        assert BinRequires(init, packageName, i, k, n);
      }
    }
    if exists i :: 0 <= i < |bins| - 1 && BinRequires(init, packageName, i, k, n) {
      var i :| 0 <= i < |bins| - 1 && BinRequires(init, packageName, i, k, n);
      assert init[i] == bins[i];
      assert BinRequires(bins, packageName, i, k, n);
    }
  }

  /** The features that list `k` among the features they enable. */
  function Enablers(features: map<string, Feature>, k: string): (r: set<string>)
    ensures forall g :: g in r <==> g in features && k in features[g].enablesFeatures
  {
    set g | g in features && k in features[g].enablesFeatures
  }

  /** `set_enabled_by`: every feature some feature enables gets exactly its
      enablers (itself included if it enables itself) as `enabled_by`; a
      feature nobody enables keeps what it had. */
  function SetEnabledBy(features: map<string, Feature>): (r: map<string, Feature>)
    ensures r.Keys == features.Keys
    ensures forall k :: k in r ==> r[k] == features[k].(enabledBy := r[k].enabledBy)
    ensures forall k, g :: k in r && g in r && k in r[g].enablesFeatures ==> g in r[k].enabledBy
    ensures forall k :: k in r && r[k].enabledBy != features[k].enabledBy ==>
      forall g :: g in r[k].enabledBy ==> g in r && k in r[g].enablesFeatures
  {
    map k | k in features ::
      var e := Enablers(features, k);
      if e != {} then features[k].(enabledBy := e) else features[k]
  }

  /** Starting from features whose enablers are not recorded yet (or only
      partly), `enabled_by` becomes exactly the reverse of
      `enables_features`. */
  lemma SetEnabledByConverse(features: map<string, Feature>)
    requires forall k :: k in features ==> features[k].enabledBy <= Enablers(features, k)
    ensures EnabledByIsConverse(SetEnabledBy(features))
  {
    var r := SetEnabledBy(features);
    forall k, g | k in r && g in r[k].enabledBy
      ensures g in r && k in r[g].enablesFeatures
    {
      assert g in Enablers(features, k);
    }
  }

  /** Running the pass again changes nothing. */
  lemma SetEnabledByIdempotent(features: map<string, Feature>)
    ensures SetEnabledBy(SetEnabledBy(features)) == SetEnabledBy(features)
  {
    var r := SetEnabledBy(features);
    var again := SetEnabledBy(r);
    forall k | k in r
      ensures again[k] == r[k]
    {
      EnablersUnchanged(features, k);
    }
  }

  /** The pass leaves every feature's enablers as they were. */
  lemma EnablersUnchanged(features: map<string, Feature>, k: string)
    ensures Enablers(SetEnabledBy(features), k) == Enablers(features, k)
  {
    var r := SetEnabledBy(features);
    forall g
      ensures g in Enablers(r, k) <==> g in Enablers(features, k)
    {
      if g in r {
        assert r[g].enablesFeatures == features[g].enablesFeatures;
      }
    }
  }

  /** The caller asks to keep this hidden feature. */
  predicate KeptByCaller(keep: Option<string -> bool>, k: string) {
    keep.Some? && keep.value(k)
  }

  /** A feature that `remove_hidden_features` drops: hidden, acting on no
      dependency, not kept by the caller, and enabling no hidden feature.
      So `"default"` is never dropped, and a dropped feature never enables
      itself. */
  function Removable(k: string, f: Feature, keep: Option<string -> bool>): (r: bool)
    ensures r ==> k != "default" && k !in f.enablesFeatures
  {
    assert "default"[..1] == "d";
    && IsHidden(k)
    && f.enablesDeps == map[]
    && !KeptByCaller(keep, k)
    && forall g :: g in f.enablesFeatures ==> !IsHidden(g)
  }

  /** The keys of the features that are dropped. */
  function RemovedKeys(features: map<string, Feature>, keep: Option<string -> bool>): (r: set<string>)
    ensures forall k :: k in r <==> k in features && Removable(k, features[k], keep)
  {
    set k | k in features && Removable(k, features[k], keep)
  }

  /** Splices dropped feature `b` (as it was before anything was dropped)
      out of feature `p`: if `b` was enabled by `p`, `p` now enables what
      `b` enabled and loses any action on a dependency named `b`; if `b`
      enabled `p`, `p` is now enabled by what enabled `b`. */
  function SpliceAt(p: string, f: Feature, b: string, orig: Feature): (r: Feature)
    ensures r == f.(enablesFeatures := r.enablesFeatures, enablesDeps := r.enablesDeps, enabledBy := r.enabledBy)
  {
    var f1 :=
      if p in orig.enabledBy then
        f.(enablesFeatures := (f.enablesFeatures - {b}) + orig.enablesFeatures, enablesDeps := f.enablesDeps - {b})
      else f;
    if p in orig.enablesFeatures then f1.(enabledBy := (f1.enabledBy - {b}) + orig.enabledBy) else f1
  }

  /** Splices one dropped feature out of every remaining one. */
  function SpliceOne(cur: map<string, Feature>, b: string, orig: Feature): (r: map<string, Feature>)
    ensures r.Keys == cur.Keys
    ensures forall p :: p in r ==> r[p] == SpliceAt(p, cur[p], b, orig)
  {
    map p | p in cur :: SpliceAt(p, cur[p], b, orig)
  }

  /** Splices out the dropped features in `order` (the iteration order of a
      hash map, which is not fixed); other keys in `order` are skipped. */
  function SpliceAll(cur: map<string, Feature>, features: map<string, Feature>, removed: set<string>, order: seq<string>): (r: map<string, Feature>)
    requires removed <= features.Keys
    ensures r.Keys == cur.Keys
  {
    if |order| == 0 then cur
    else
      var m := SpliceAll(cur, features, removed, order[..|order| - 1]);
      var b := order[|order| - 1];
      if b in removed then SpliceOne(m, b, features[b]) else m
  }

  /** `remove_hidden_features`: drops every removable feature, splices
      each one out of the remaining features, and reports whether any was
      dropped. `order` lists every key (in any order, repeats allowed). */
  function RemoveHiddenFeatures(features: map<string, Feature>, keep: Option<string -> bool>, order: seq<string>): (r: (map<string, Feature>, bool))
    requires forall k :: k in features ==> k in order
    ensures r.0.Keys == features.Keys - RemovedKeys(features, keep)
    ensures r.1 <==> exists k :: k in features && Removable(k, features[k], keep)
    ensures forall k :: k in r.0 ==> !Removable(k, features[k], keep)
  {
    var removed := RemovedKeys(features, keep);
    var kept := map k | k in features && k !in removed :: features[k];
    (SpliceAll(kept, features, removed, order), removed != {})
  }

  /** What dropped features in `s` enabled, all together. */
  ghost function EnabledByAny(features: map<string, Feature>, s: set<string>): set<string> {
    set b, g | b in s && b in features && g in features[b].enablesFeatures :: g
  }

  /** What enabled the dropped features in `s`, all together. */
  ghost function EnablersOfAny(features: map<string, Feature>, s: set<string>): set<string> {
    set b, g | b in s && b in features && g in features[b].enabledBy :: g
  }

  /** Feature `p` once the dropped features in `done` are spliced out: it
      enables, instead of each of them it enabled, what that one enabled;
      it loses the dependency actions named after them; and it is enabled,
      instead of by each of them that enabled it, by that one's enablers. */
  ghost function Spliced(features: map<string, Feature>, done: set<string>, p: string): Feature
    requires p in features
  {
    var f := features[p];
    f.(enablesFeatures := (f.enablesFeatures - done) + EnabledByAny(features, done * f.enablesFeatures),
       enablesDeps := f.enablesDeps - (done * f.enablesFeatures),
       enabledBy := (f.enabledBy - done) + EnablersOfAny(features, done * f.enabledBy))
  }

  /** The keys of `order` that are dropped. */
  ghost function Done(order: seq<string>, removed: set<string>): set<string> {
    set i | 0 <= i < |order| && order[i] in removed :: order[i]
  }

  lemma EnabledByAnyAdd(features: map<string, Feature>, s: set<string>, b: string)
    requires b in features
    ensures EnabledByAny(features, s + {b}) == EnabledByAny(features, s) + features[b].enablesFeatures
  {
  }

  lemma EnablersOfAnyAdd(features: map<string, Feature>, s: set<string>, b: string)
    requires b in features
    ensures EnablersOfAny(features, s + {b}) == EnablersOfAny(features, s) + features[b].enabledBy
  {
  }

  /** The forward half of one step: what `p` enables, and its dependency
      actions. */
  lemma SpliceStepForward(features: map<string, Feature>, keep: Option<string -> bool>, done: set<string>, b: string, p: string)
    requires EnabledByIsConverse(features)
    requires done <= RemovedKeys(features, keep) && b in RemovedKeys(features, keep)
    requires p in features && p !in RemovedKeys(features, keep)
    ensures var r := SpliceAt(p, Spliced(features, done, p), b, features[b]);
      var next := Spliced(features, done + {b}, p);
      r.enablesFeatures == next.enablesFeatures && r.enablesDeps == next.enablesDeps
  {
    var f := features[p];
    var fromDone := EnabledByAny(features, done * f.enablesFeatures);
    assert b !in fromDone by {
      assert IsHidden(b);
    }
    assert p in features[b].enabledBy <==> b in f.enablesFeatures;
    if b in f.enablesFeatures {
      assert (done + {b}) * f.enablesFeatures == done * f.enablesFeatures + {b};
      EnabledByAnyAdd(features, done * f.enablesFeatures, b);
    } else {
      assert (done + {b}) * f.enablesFeatures == done * f.enablesFeatures;
    }
  }

  /** The backward half of one step: what enables `p`. */
  lemma SpliceStepBackward(features: map<string, Feature>, keep: Option<string -> bool>, done: set<string>, b: string, p: string)
    requires EnabledByIsConverse(features)
    requires done <= RemovedKeys(features, keep) && b in RemovedKeys(features, keep)
    requires p in features && p !in RemovedKeys(features, keep)
    ensures SpliceAt(p, Spliced(features, done, p), b, features[b]).enabledBy == Spliced(features, done + {b}, p).enabledBy
  {
    var f := features[p];
    var fromDone := EnablersOfAny(features, done * f.enabledBy);
    assert b !in fromDone;
    assert p in features[b].enablesFeatures <==> b in f.enabledBy;
    if b in f.enabledBy {
      assert (done + {b}) * f.enabledBy == done * f.enabledBy + {b};
      EnablersOfAnyAdd(features, done * f.enabledBy, b);
    } else {
      assert (done + {b}) * f.enabledBy == done * f.enabledBy;
    }
  }

  /** One more dropped feature moves a remaining feature from one closed
      form to the next. */
  lemma SpliceStep(features: map<string, Feature>, keep: Option<string -> bool>, done: set<string>, b: string, p: string)
    requires EnabledByIsConverse(features)
    requires done <= RemovedKeys(features, keep) && b in RemovedKeys(features, keep)
    requires p in features && p !in RemovedKeys(features, keep)
    ensures SpliceAt(p, Spliced(features, done, p), b, features[b]) == Spliced(features, done + {b}, p)
  {
    SpliceStepForward(features, keep, done, b, p);
    SpliceStepBackward(features, keep, done, b, p);
  }

  /** After splicing the dropped features of `order`, each remaining
      feature has the closed form for the dropped keys visited so far. */
  lemma {:induction false} SpliceAllClosedForm(features: map<string, Feature>, keep: Option<string -> bool>, order: seq<string>, p: string)
    requires EnabledByIsConverse(features)
    requires p in features && p !in RemovedKeys(features, keep)
    ensures var removed := RemovedKeys(features, keep);
      var kept := map k | k in features && k !in removed :: features[k];
      SpliceAll(kept, features, removed, order)[p] == Spliced(features, Done(order, removed), p)
  {
    var removed := RemovedKeys(features, keep);
    var kept := map k | k in features && k !in removed :: features[k];
    if |order| == 0 {
      assert Done(order, removed) == {};
      assert Spliced(features, {}, p) == features[p];
    } else {
      var n := |order| - 1;
      var init := order[..n];
      SpliceAllClosedForm(features, keep, init, p);
      var b := order[n];
      assert forall i :: 0 <= i < n ==> init[i] == order[i];
      if b in removed {
        assert Done(order, removed) == Done(init, removed) + {b};
        SpliceStep(features, keep, Done(init, removed), b, p);
      } else {
        assert Done(order, removed) == Done(init, removed);
      }
    }
  }

  /** Whatever the iteration order, every remaining feature ends up with
      every dropped feature spliced out of it. */
  lemma RemoveHiddenFeaturesSplices(features: map<string, Feature>, keep: Option<string -> bool>, order: seq<string>, p: string)
    requires forall k :: k in features ==> k in order
    requires EnabledByIsConverse(features)
    requires p in RemoveHiddenFeatures(features, keep, order).0
    ensures RemoveHiddenFeatures(features, keep, order).0[p] == Spliced(features, RemovedKeys(features, keep), p)
  {
    var removed := RemovedKeys(features, keep);
    SpliceAllClosedForm(features, keep, order, p);
    assert Done(order, removed) == removed by {
      forall k | k in removed
        ensures k in Done(order, removed)
      {
        var i :| 0 <= i < |order| && order[i] == k;
      }
    }
  }

  /** Dropping hidden features keeps `enabled_by` the exact reverse of
      `enables_features`, and no remaining feature enables, or is enabled
      by, a dropped one. */
  lemma RemoveHiddenFeaturesKeepsConverse(features: map<string, Feature>, keep: Option<string -> bool>, order: seq<string>)
    requires forall k :: k in features ==> k in order
    requires EnabledByIsConverse(features)
    ensures EnabledByIsConverse(RemoveHiddenFeatures(features, keep, order).0)
    ensures var r := RemoveHiddenFeatures(features, keep, order).0;
      forall p :: p in r ==> r[p].enablesFeatures !! RemovedKeys(features, keep) && r[p].enabledBy !! RemovedKeys(features, keep)
  {
    var r := RemoveHiddenFeatures(features, keep, order).0;
    var removed := RemovedKeys(features, keep);
    forall p | p in r
      ensures r[p] == Spliced(features, removed, p)
      ensures r[p].enablesFeatures !! removed && r[p].enabledBy !! removed
    {
      RemoveHiddenFeaturesSplices(features, keep, order, p);
      var f := features[p];
      forall g | g in EnabledByAny(features, removed * f.enablesFeatures)
        ensures g !in removed
      {
        var b :| b in removed * f.enablesFeatures && b in features && g in features[b].enablesFeatures;
        assert !IsHidden(g);
      }
      forall g | g in EnablersOfAny(features, removed * f.enabledBy)
        ensures g !in removed
      {
        var b :| b in removed * f.enabledBy && b in features && g in features[b].enabledBy;
      }
    }
    forall k, g | k in r && g in r
      ensures g in r[k].enabledBy <==> k in r[g].enablesFeatures
    {
      var fk := features[k];
      var fg := features[g];
      if g in EnablersOfAny(features, removed * fk.enabledBy) {
        var b :| b in removed * fk.enabledBy && b in features && g in features[b].enabledBy;
        assert b in fg.enablesFeatures && k in features[b].enablesFeatures;
        assert k in EnabledByAny(features, removed * fg.enablesFeatures);
      }
      if k in EnabledByAny(features, removed * fg.enablesFeatures) {
        var b :| b in removed * fg.enablesFeatures && b in features && k in features[b].enablesFeatures;
        assert b in fk.enabledBy && g in features[b].enabledBy;
        assert g in EnablersOfAny(features, removed * fk.enabledBy);
      }
    }
    forall k, g | k in r && g in r[k].enabledBy
      ensures g in r
    {
      var fk := features[k];
      if g in EnablersOfAny(features, removed * fk.enabledBy) {
        var b :| b in removed * fk.enabledBy && b in features && g in features[b].enabledBy;
        assert g in features;
      }
    }
  }
}
