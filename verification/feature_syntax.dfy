/**
 Parsing the `[features]` table: each action string (`name`, `dep:name`,
 `name?/sub`, ...) becomes an edge to a feature or an action on a
 dependency, and each declared feature becomes a node.
 */
module FeatureSyntax {
  import opened Common
  import opened Strings
  import opened FeatureTypes

  /** The pieces of one action string. */
  datatype Action = Action(target: string, depFeature: Option<string>, isDepPrefix: bool, isConditional: bool) {
    /** `dep:` or `?`: the action does not imply a feature of that name. */
    predicate IsDepOnly() {
      isDepPrefix || isConditional
    }

    /** The action acts on a dependency (rather than naming a feature). */
    predicate EnablesDep() {
      IsDepOnly() || depFeature.Some?
    }
  }

  /** Writes an action back as text. */
  function Render(a: Action): string {
    (if a.isDepPrefix then "dep:" else "") + a.target + (if a.isConditional then "?" else "")
    + (match a.depFeature case Some(sub) => "/" + sub case None => "")
  }

  /** The actions that `ParseAction` can produce: the target holds no `/`,
      and a marker that was not stripped is not there. */
  ghost predicate Canonical(a: Action) {
    && '/' !in a.target
    && (!a.isConditional ==> !EndsWith(a.target, "?"))
    && (!a.isDepPrefix ==> !StartsWith(a.target + (if a.isConditional then "?" else ""), "dep:"))
  }

  /** One action: split at the first `/`, then strip a `dep:` prefix, then a
      trailing `?`. */
  function ParseAction(s: string): (a: Action)
    ensures Render(a) == s
    ensures Canonical(a)
  {
    var (head, depFeature) := SplitOnce(s, '/');
    var afterPrefix := StripPrefix(head, "dep:");
    var t1 := afterPrefix.UnwrapOr(head);
    var afterSuffix := StripSuffix(t1, "?");
    var target := afterSuffix.UnwrapOr(t1);
    var a := Action(target, depFeature, afterPrefix.Some?, afterSuffix.Some?);
    ParseActionParts(s, head, depFeature, t1, a);
    a
  }

  lemma ParseActionParts(s: string, head: string, depFeature: Option<string>, t1: string, a: Action)
    requires SplitOnce(s, '/') == (head, depFeature)
    requires t1 == StripPrefix(head, "dep:").UnwrapOr(head) && a.isDepPrefix == StartsWith(head, "dep:")
    requires a.target == StripSuffix(t1, "?").UnwrapOr(t1) && a.isConditional == EndsWith(t1, "?")
    requires a.depFeature == depFeature
    ensures Render(a) == s
    ensures Canonical(a)
  {
    var prefix := if a.isDepPrefix then "dep:" else "";
    var mark := if a.isConditional then "?" else "";
    var rest := match depFeature case Some(sub) => "/" + sub case None => "";
    assert head == prefix + t1;
    assert t1 == a.target + mark;
    assert s == head + rest;
    assert '/' !in head;
    calc {
      Render(a);
      prefix + a.target + mark + rest;
      { assert prefix + a.target + mark == prefix + (a.target + mark); }
      prefix + t1 + rest;
      head + rest;
    }
    assert !a.isDepPrefix ==> a.target + mark == head;
  }

  /** Parsing is also the inverse of writing: every canonical action is
      read back from its text. */
  lemma ParseRender(a: Action)
    requires Canonical(a)
    ensures ParseAction(Render(a)) == a
  {
    RenderedSplits(a);
    HeadStrips(a);
  }

  /** The text of an action before its `/sub` part. */
  function Head(a: Action): string {
    (if a.isDepPrefix then "dep:" else "") + a.target + (if a.isConditional then "?" else "")
  }

  /** Splitting a canonical action's text at the first `/` gives its head
      and its sub-feature. */
  lemma RenderedSplits(a: Action)
    requires Canonical(a)
    ensures SplitOnce(Render(a), '/') == (Head(a), a.depFeature)
  {
    var head := Head(a);
    var prefix := if a.isDepPrefix then "dep:" else "";
    var mark := if a.isConditional then "?" else "";
    assert head == prefix + a.target + mark;
    assert '/' !in prefix && '/' !in mark;
    assert '/' !in head;
    match a.depFeature {
      case Some(sub) =>
        assert Render(a) == head + ['/'] + sub;
        SplitAtFirst(head, sub, '/');
      case None =>
        assert Render(a) == head;
        SplitWithout(head, '/');
    }
  }

  /** Stripping `dep:` and then `?` from a canonical action's head gives
      back its target and both markers. */
  lemma HeadStrips(a: Action)
    requires Canonical(a)
    ensures var t1 := StripPrefix(Head(a), "dep:").UnwrapOr(Head(a));
      && StripPrefix(Head(a), "dep:").Some? == a.isDepPrefix
      && t1 == a.target + (if a.isConditional then "?" else "")
      && StripSuffix(t1, "?").Some? == a.isConditional
      && StripSuffix(t1, "?").UnwrapOr(t1) == a.target
  {
    var t1 := a.target + (if a.isConditional then "?" else "");
    if a.isDepPrefix {
      assert Head(a) == "dep:" + t1;
      assert StripPrefix(Head(a), "dep:") == Some(t1);
    } else {
      assert Head(a) == t1;
    }
    if a.isConditional {
      assert StripSuffix(t1, "?") == Some(a.target);
    } else {
      assert t1 == a.target;
    }
  }

  lemma {:induction false} SplitAtFirst(head: string, tail: string, c: char)
    requires c !in head
    ensures SplitOnce(head + [c] + tail, c) == (head, Some(tail))
  {
    if |head| == 0 {
      assert head + [c] + tail == [c] + tail;
    } else {
      assert (head + [c] + tail)[1..] == head[1..] + [c] + tail;
      SplitAtFirst(head[1..], tail, c);
      assert [head[0]] + head[1..] == head;
    }
  }

  lemma {:induction false} SplitWithout(s: string, c: char)
    requires c !in s
    ensures SplitOnce(s, c) == (s, None)
  {
    if |s| > 0 {
      SplitWithout(s[1..], c);
      assert [s[0]] + s[1..] == s;
    }
  }

  /** The state while reading a feature's actions. */
  datatype Parsed = Parsed(enablesDeps: map<string, DepAction>, enablesFeatures: set<string>)

  /** Reads one more action: a dependency action joins any earlier one on the
      same target (which keeps its `dep:`-only flag, stays conditional only if
      this one is, and appends the sub-feature); otherwise the target is a
      feature edge. */
  function Step(p: Parsed, a: Action): (r: Parsed)
    ensures a.EnablesDep() ==> r.enablesFeatures == p.enablesFeatures
    ensures a.EnablesDep() ==> r.enablesDeps.Keys == p.enablesDeps.Keys + {a.target}
    ensures !a.EnablesDep() ==> r == p.(enablesFeatures := p.enablesFeatures + {a.target})
    ensures forall t :: t in p.enablesDeps && t != a.target ==> r.enablesDeps[t] == p.enablesDeps[t]
  {
    if a.EnablesDep() then
      var existing :=
        if a.target in p.enablesDeps then p.enablesDeps[a.target]
        else DepAction(a.isConditional, a.IsDepOnly(), []);
      var updated := existing.(
        isConditional := existing.isConditional && a.isConditional,
        depFeatures := existing.depFeatures + (match a.depFeature case Some(df) => [df] case None => []));
      p.(enablesDeps := p.enablesDeps[a.target := updated])
    else
      p.(enablesFeatures := p.enablesFeatures + {a.target})
  }

  /** Every action string of a feature, parsed. */
  function ParseAll(actions: seq<string>): (r: seq<Action>)
    ensures |r| == |actions|
    ensures forall i :: 0 <= i < |actions| ==> r[i] == ParseAction(actions[i])
  {
    if |actions| == 0 then [] else [ParseAction(actions[0])] + ParseAll(actions[1..])
  }

  /** All actions of one feature, read in order. */
  function ReadActions(acts: seq<Action>): Parsed
  {
    if |acts| == 0 then Parsed(map[], {})
    else Step(ReadActions(acts[..|acts| - 1]), acts[|acts| - 1])
  }

  /** Action `i` names feature `t`. */
  ghost predicate NamesFeature(acts: seq<Action>, i: int, t: string)
    requires 0 <= i < |acts|
  {
    !acts[i].EnablesDep() && acts[i].target == t
  }

  /** Action `i` acts on dependency `t`. */
  ghost predicate ActsOn(acts: seq<Action>, i: int, t: string)
    requires 0 <= i < |acts|
  {
    acts[i].EnablesDep() && acts[i].target == t
  }

  /** The sub-features requested of dependency `t`, in action order. */
  ghost function SubFeatures(acts: seq<Action>, t: string): seq<string>
  {
    if |acts| == 0 then []
    else
      var a := acts[|acts| - 1];
      SubFeatures(acts[..|acts| - 1], t)
      + (if a.EnablesDep() && a.target == t && a.depFeature.Some? then [a.depFeature.value] else [])
  }

  /** Index `i` is the first action on dependency `t`. */
  ghost predicate FirstActionOn(acts: seq<Action>, i: int, t: string)
  {
    && 0 <= i < |acts|
    && ActsOn(acts, i, t)
    && forall j :: 0 <= j < i ==> !ActsOn(acts, j, t)
  }

  /** A target is a feature edge exactly when some action names it without
      `dep:`, `?` or `/`. */
  lemma {:induction false} ReadFeatureEdge(acts: seq<Action>, t: string)
    ensures t in ReadActions(acts).enablesFeatures <==>
      exists i :: 0 <= i < |acts| && NamesFeature(acts, i, t)
  {
    if |acts| > 0 {
      var n := |acts| - 1;
      var init := acts[..n];
      ReadFeatureEdge(init, t);
      assert ReadActions(acts) == Step(ReadActions(init), acts[n]);
      assert forall i :: 0 <= i < n ==> init[i] == acts[i];
      if t in ReadActions(init).enablesFeatures {
        var i :| 0 <= i < n && NamesFeature(init, i, t);
        assert NamesFeature(acts, i, t);
      }
      if t in ReadActions(acts).enablesFeatures && t !in ReadActions(init).enablesFeatures {
        assert NamesFeature(acts, n, t);
      }
      if exists i :: 0 <= i < |acts| && NamesFeature(acts, i, t) {
        var i :| 0 <= i < |acts| && NamesFeature(acts, i, t);
        if i < n {
          assert NamesFeature(init, i, t);
        }
      }
    }
  }

  /** A target has a dependency action exactly when some action on it had
      `dep:`, `?` or `/`. */
  lemma {:induction false} ReadDepKey(acts: seq<Action>, t: string)
    ensures t in ReadActions(acts).enablesDeps <==>
      exists i :: 0 <= i < |acts| && ActsOn(acts, i, t)
  {
    if |acts| > 0 {
      var n := |acts| - 1;
      var init := acts[..n];
      ReadDepKey(init, t);
      assert ReadActions(acts) == Step(ReadActions(init), acts[n]);
      assert forall i :: 0 <= i < n ==> init[i] == acts[i];
      if t in ReadActions(init).enablesDeps {
        var i :| 0 <= i < n && ActsOn(init, i, t);
        assert ActsOn(acts, i, t);
      }
      if t in ReadActions(acts).enablesDeps && t !in ReadActions(init).enablesDeps {
        assert ActsOn(acts, n, t);
      }
      if exists i :: 0 <= i < |acts| && ActsOn(acts, i, t) {
        var i :| 0 <= i < |acts| && ActsOn(acts, i, t);
        if i < n {
          assert ActsOn(init, i, t);
        }
      }
    }
  }

  /** The dependency action on `t` merges every action on `t`: it is
      conditional only if each of them was, `dep:`-only as the first one
      was, and lists their sub-features in order. */
  lemma {:induction false} ReadDepAction(acts: seq<Action>, t: string)
    requires t in ReadActions(acts).enablesDeps
    ensures var d := ReadActions(acts).enablesDeps[t];
      && (d.isConditional <==> forall i :: 0 <= i < |acts| && ActsOn(acts, i, t) ==> acts[i].isConditional)
      && d.depFeatures == SubFeatures(acts, t)
      && exists i :: FirstActionOn(acts, i, t) && d.isDepOnly == acts[i].IsDepOnly()
  {
    var n := |acts| - 1;
    var init := acts[..n];
    var p := ReadActions(init);
    assert forall i :: 0 <= i < n ==> init[i] == acts[i];
    assert forall j :: 0 <= j < n ==> (ActsOn(acts, j, t) <==> ActsOn(init, j, t));
    if t in p.enablesDeps {
      ReadDepAction(init, t);
      var i :| FirstActionOn(init, i, t) && p.enablesDeps[t].isDepOnly == init[i].IsDepOnly();
      assert FirstActionOn(acts, i, t);
    } else {
      ReadDepKey(init, t);
      assert forall i :: 0 <= i < |init| ==> !ActsOn(init, i, t);
      assert FirstActionOn(acts, n, t);
      NoSubFeatures(init, t);
    }
  }

  lemma {:induction false} NoSubFeatures(acts: seq<Action>, t: string)
    requires forall i :: 0 <= i < |acts| ==> !ActsOn(acts, i, t)
    ensures SubFeatures(acts, t) == []
  {
    if |acts| > 0 {
      var init := acts[..|acts| - 1];
      forall i | 0 <= i < |init|
        ensures !ActsOn(init, i, t)
      {
        assert init[i] == acts[i];
        assert !ActsOn(acts, i, t);
      }
      assert !ActsOn(acts, |acts| - 1, t);
      NoSubFeatures(init, t);
    }
  }

  /** `parse_feature`: a node for a declared feature; reverse edges and
      binaries are filled in by later passes. */
  function ParseFeature(key: string, actions: seq<string>): (f: Feature)
    ensures f.key == key && f.explicit
    ensures f.enabledBy == {} && f.requiredByBins == []
    ensures |actions| == 0 ==> f.enablesDeps == map[] && f.enablesFeatures == {}
  {
    var p := ReadActions(ParseAll(actions));
    Feature(key, p.enablesDeps, p.enablesFeatures, {}, [], true)
  }

  /** A name with no `/`, no `dep:` prefix and no trailing `?`: an action
      string that is just a feature name. */
  predicate PlainName(t: string) {
    '/' !in t && !StartsWith(t, "dep:") && !EndsWith(t, "?")
  }

  /** A feature enables feature `t` exactly when one of its actions is the
      plain name `t`. */
  lemma ParseFeatureEdges(key: string, actions: seq<string>, t: string)
    ensures t in ParseFeature(key, actions).enablesFeatures <==> PlainName(t) && t in actions
  {
    var acts := ParseAll(actions);
    ReadFeatureEdge(acts, t);
    if PlainName(t) && t in actions {
      var i :| 0 <= i < |actions| && actions[i] == t;
      var a := Action(t, None, false, false);
      assert Render(a) == t;
      ParseRender(a);
      assert NamesFeature(acts, i, t);
    }
    if exists i :: 0 <= i < |acts| && NamesFeature(acts, i, t) {
      var i :| 0 <= i < |acts| && NamesFeature(acts, i, t);
      var a := acts[i];
      assert Render(a) == actions[i];
      assert !a.isDepPrefix && !a.isConditional && a.depFeature.None?;
      assert Render(a) == t;
    }
  }

  /** A feature acts on dependency `t` exactly when one of its actions
      names `t` with `dep:`, a trailing `?` or a `/sub`; the combined action
      is described by `ReadDepAction`. */
  lemma ParseFeatureDeps(key: string, actions: seq<string>, t: string)
    ensures t in ParseFeature(key, actions).enablesDeps <==>
      exists i :: 0 <= i < |actions| && ParseAction(actions[i]).EnablesDep() && ParseAction(actions[i]).target == t
  {
    var acts := ParseAll(actions);
    ReadDepKey(acts, t);
    if exists i :: 0 <= i < |actions| && ParseAction(actions[i]).EnablesDep() && ParseAction(actions[i]).target == t {
      var i :| 0 <= i < |actions| && ParseAction(actions[i]).EnablesDep() && ParseAction(actions[i]).target == t;
      assert ActsOn(acts, i, t);
    }
  }

  /** How many declared features are read. */
  const MaxFeatures: nat := 1000

  /** Collects parsed features into a map; a later entry with the same key
      replaces an earlier one, as `collect` into a hash map does. */
  function CollectFeatures(decl: Table<seq<string>>): (m: map<string, Feature>)
    ensures m.Keys == KeysOf(decl)
    ensures forall k :: k in m ==> m[k].key == k && m[k].explicit && m[k].enabledBy == {} && m[k].requiredByBins == []
  {
    if |decl| == 0 then map[]
    else
      var last := decl[|decl| - 1];
      var m := CollectFeatures(decl[..|decl| - 1]);
      assert KeysOf(decl) == KeysOf(decl[..|decl| - 1]) + {last.0} by {
        assert forall i :: 0 <= i < |decl| - 1 ==> decl[..|decl| - 1][i] == decl[i];
      }
      m[last.0 := ParseFeature(last.0, last.1)]
  }

  /** With distinct keys every declared feature is parsed from its own
      actions. */
  lemma {:induction false} CollectFeaturesLookup(decl: Table<seq<string>>, i: int)
    requires DistinctKeys(decl) && 0 <= i < |decl|
    ensures CollectFeatures(decl)[decl[i].0] == ParseFeature(decl[i].0, decl[i].1)
  {
    var n := |decl| - 1;
    if i < n {
      var init := decl[..n];
      assert init[i] == decl[i];
      assert forall a, b :: 0 <= a < b < |init| ==> init[a] == decl[a] && init[b] == decl[b];
      CollectFeaturesLookup(init, i);
    }
  }

  /** `parse_features` as the source writes it: the first 1000 declared
      features, plus an empty `"default"` when the WHOLE table lacks one. */
  function ParseFeaturesAsWritten(table: Table<seq<string>>): (m: map<string, Feature>)
    ensures "default" !in KeysOf(table) ==> "default" in m
    ensures m.Keys <= KeysOf(table) + {"default"}
  {
    var m := CollectFeatures(Take(table, MaxFeatures));
    if "default" in KeysOf(table) then m else m["default" := ParseFeature("default", [])]
  }

  /** A declared `"default"` past the first 1000 entries is neither read nor
      replaced, so the graph has no `"default"` node. */
  lemma LateDefaultIsLost(table: Table<seq<string>>, i: int)
    requires DistinctKeys(table)
    requires MaxFeatures <= i < |table| && table[i].0 == "default"
    ensures "default" !in ParseFeaturesAsWritten(table)
  {
    assert "default" in KeysOf(table);
  }

  /** The source's reading and the corrected one below give the same
      features exactly when no `"default"` hides past the entries read. */
  lemma AsWrittenAgrees(table: Table<seq<string>>)
    ensures ParseFeaturesAsWritten(table) == ParseFeatures(table) <==>
      "default" !in KeysOf(table) || "default" in KeysOf(Take(table, MaxFeatures))
  {
    var decl := Take(table, MaxFeatures);
    assert KeysOf(decl) <= KeysOf(table) by {
      forall k | k in KeysOf(decl)
        ensures k in KeysOf(table)
      {
        var i :| 0 <= i < |decl| && decl[i].0 == k;
        assert table[i] == decl[i];
      }
    }
    if "default" in KeysOf(table) && "default" !in KeysOf(decl) {
      assert "default" !in ParseFeaturesAsWritten(table);
    }
  }

  /** `parse_features` with the check on the entries actually read: the
      first 1000 declared features, plus an empty `"default"` when none of
      them is `"default"`. */
  function ParseFeatures(table: Table<seq<string>>): (m: map<string, Feature>)
    ensures "default" in m
    ensures m.Keys == KeysOf(Take(table, MaxFeatures)) + {"default"}
    ensures |m| <= MaxFeatures + 1
    ensures forall k :: k in m ==> m[k].key == k && m[k].explicit && m[k].enabledBy == {} && m[k].requiredByBins == []
    ensures "default" !in KeysOf(Take(table, MaxFeatures)) ==>
      m["default"].enablesDeps == map[] && m["default"].enablesFeatures == {}
  {
    var decl := Take(table, MaxFeatures);
    KeysOfSize(decl);
    WithDefault(CollectFeatures(decl))
  }

  /** Adds an empty `"default"` feature unless there is one. */
  function WithDefault(m: map<string, Feature>): (r: map<string, Feature>)
    ensures r.Keys == m.Keys + {"default"}
    ensures |r| <= |m| + 1
    ensures forall k :: k in m ==> r[k] == m[k]
    ensures "default" !in m ==> r["default"] == ParseFeature("default", [])
  {
    WithDefaultSize(m, ParseFeature("default", []));
    if "default" in m then m else m["default" := ParseFeature("default", [])]
  }

  lemma WithDefaultSize(m: map<string, Feature>, d: Feature)
    ensures |m["default" := d]| <= |m| + 1
  {
    assert m["default" := d].Keys <= m.Keys + {"default"};
  }

  lemma {:induction false} KeysOfSize<V>(t: Table<V>)
    ensures |KeysOf(t)| <= |t|
  {
    if |t| > 0 {
      var init := t[..|t| - 1];
      KeysOfSize(init);
      assert forall i :: 0 <= i < |init| ==> init[i] == t[i];
      assert KeysOf(t) == KeysOf(init) + {t[|t| - 1].0};
    }
  }
}
