# cargo_toml feature resolver, modelled in Dafny

This project models the core of the `cargo_toml` crate, the Rust library that
reads `Cargo.toml` manifests. Three parts of it are modelled.

- **The feature resolver** (`src/features.rs`). It turns a manifest's
  `[features]` table and dependency tables into a feature graph:
  - features with the features and dependencies they enable;
  - one record per dependency kind (normal, build, dev) for each dependency
    that features can refer to;
  - features implied by optional dependencies;
  - the binaries that require each feature;
  - the reverse `enabled_by` edges.

  Finally it splices out hidden `_`-prefixed features.
- **Manifest pieces the resolver relies on** (`src/cargo_toml.rs`):
  - the `Dependency` accessors, `try_detail_mut` and workspace inheritance of
    dependencies;
  - the `debug`/`strip`/`lto` profile setting codecs;
  - `publish == bool`;
  - the deterministic ordering of binaries;
  - the minimum Rust version of an edition.
- **`Inheritable<T>`** (`src/inheritable.rs`): a manifest value that is either
  set or inherited from the workspace.

The modules follow the source:

| module | contents |
|---|---|
| `Common` | `Option`, `Result` with the crate's `Error`, TOML values, and tables as sequences of entries |
| `Strings` | prefix and suffix tests, splitting, lexicographic comparison |
| `Inheritable` | `src/inheritable.rs` |
| `ProfileSettings` | `DebugSetting`, `StripSetting`, `LtoSetting` |
| `Dependencies` | `Dependency`, `DependencyDetail`, `inherit_dependencies` |
| `Products` | `Product` ordering, `Publish`, `Edition` |
| `FeatureTypes` | `Feature`, `DepAction`, `FeatureDependency`, `Features` |
| `FeatureSyntax` | action strings (`dep:x`, `x?/f`, `x/f`, `f`), `parse_feature`, `parse_features` |
| `FeatureDeps` | `named_using_dep_syntax`, `add_dependency`, the dependency stream fold |
| `FeatureGraph` | `set_required_by_bins`, `set_enabled_by`, `remove_hidden_features` |
| `Resolver` | the order of the dependency sections, `parse`, `parse_custom` |

Most passes of the resolver iterate over a `HashMap`, whose order is
unspecified. The model makes that order an explicit parameter (`order`). The
graph-level results are proved for every order that lists each feature key;
`Resolver.Covers` states that requirement. A `BTreeMap` table is the
sequence of its `(key, value)` pairs (`Common.Table`), and `.take(1000)` is
`Common.Take`. A `BTreeMap` supplies its entries in key order with distinct
keys; the model enforces neither, and its results hold for any sequence,
except where a member requires distinct keys (`Common.DistinctKeys`).

## Model

| member | source | states |
|---|---|---|
| `Inheritable.AsRef` | src/inheritable.rs:16-21 | keeps a set value; an inherited value comes back marked `workspace = true` |
| `Inheritable.IsSet` | src/inheritable.rs:24-26 | true exactly when `get` succeeds |
| `Inheritable.Get` | src/inheritable.rs:28-33 | succeeds exactly when the value is set, returns that value, and otherwise fails with `InheritedUnknownValue` |
| `Inheritable.SetValue` | src/inheritable.rs:35-37 | afterwards the value is set and reads back as the given value |
| `Inheritable.Unwrap` | src/inheritable.rs:56-61 | callable only on a set value (the source panics otherwise) and agrees with `Get` |
| `Inheritable.Inherit` | src/inheritable.rs:64-68 | always yields a set value; a set value is untouched and an inherited one takes the workspace value |
| `Inheritable.InheritIdempotent` | src/inheritable.rs:64-68 | inheriting twice is the same as once: the second workspace value is ignored |
| `Inheritable.Default` | src/inheritable.rs:71-75 | the default is set to the type's default, so `is_default` holds for it |
| `Inheritable.IsEmpty` | src/inheritable.rs:80-85 | true exactly for a set, empty list; an inherited list is not empty |
| `Inheritable.IsDefault` | src/inheritable.rs:90-95 | true exactly when the value reads back as the type's default |
| `Inheritable.FromOption` | src/inheritable.rs:98-106 | `Some` becomes a set value and `None` becomes inherited with `workspace = true` |
| `Inheritable.ToOption` | src/inheritable.rs:108-116 | `Some` exactly for a set value, carrying that value |
| `Inheritable.OptionRoundTrip` | src/inheritable.rs:98-116 | an `Option` survives the round trip through `Inheritable` |
| `Inheritable.InheritableRoundTrip` | src/inheritable.rs:98-116 | an `Inheritable` survives the round trip through `Option` exactly when it is set or its `workspace` flag is true |
| `Inheritable.RoundTripIsAsRef` | src/inheritable.rs:16-21 | the round trip through `Option` is `as_ref` |
| `ProfileSettings.DebugFromValue` | src/cargo_toml.rs:759-780 | booleans map to full/none; integers are accepted exactly in 0..2 and give that level, others fail with the wrong-number error; `none`, `limited`/`line-directives-only`/`line-tables-only` and `full` name the three levels, other strings fail with the wrong-name error; other types fail with the data-type error |
| `ProfileSettings.DebugToValue` | src/cargo_toml.rs:782-790 | writes `false` for none, the level number 1 for line tables, `true` for full |
| `ProfileSettings.DebugRoundTrip` | src/cargo_toml.rs:759-790 | reading back what was written gives the same setting |
| `ProfileSettings.DebugAccepted` | src/cargo_toml.rs:762-778 | lists exactly which values are accepted: any boolean, 0..2, and the five level names |
| `ProfileSettings.StripToValue` | src/cargo_toml.rs:803-811 | writes `false` for none, the name `"debuginfo"`, `true` for symbols |
| `ProfileSettings.StripFromValue` | src/cargo_toml.rs:813-828 | booleans map to symbols/none; `none`, `debuginfo` and `symbols` name the three settings and other strings fail with the unknown-value error; other types fail with the data-type error |
| `ProfileSettings.StripRoundTrip` | src/cargo_toml.rs:803-828 | reading back what was written gives the same setting |
| `ProfileSettings.StripNamesAgree` | src/cargo_toml.rs:819-824 | each setting's own name also reads back as that setting |
| `ProfileSettings.LtoToValue` | src/cargo_toml.rs:843-852 | writes `"off"` for none, `false` for thin-local, `"thin"` for thin, `true` for fat |
| `ProfileSettings.LtoFromValue` | src/cargo_toml.rs:854-870 | booleans map to fat/thin-local; `off`/`n`/`no` mean none, `thin` thin, `fat`/`on`/`y`/`yes`/`true` fat and `false` thin-local; other strings fail with the unknown-value error; other types with the data-type error |
| `ProfileSettings.LtoRoundTrip` | src/cargo_toml.rs:843-870 | reading back what was written gives the same setting |
| `ProfileSettings.LtoBoolSpellingsAgree` | src/cargo_toml.rs:859-864 | the strings `"true"` and `"false"` read the same as the booleans |
| `Dependencies.DefaultDetail` | src/cargo_toml.rs:1250-1269 | default features are on, the dependency is not optional, and the default detail points at no source other than crates.io |
| `Dependencies.Detail` | src/cargo_toml.rs:1055-1060 | present exactly for the table form |
| `Dependencies.TryDetailMut` | src/cargo_toml.rs:1072-1087 | fails exactly for an inherited entry; a bare version becomes exactly the default table with that version, so it points at no source other than crates.io |
| `Dependencies.TryReq` | src/cargo_toml.rs:1104-1110 | fails exactly for an inherited entry; a table without a version requires `*` |
| `Dependencies.ReqFeatures` | src/cargo_toml.rs:1115-1121 | a bare version has none; otherwise the features of the table form or of the overrides |
| `Dependencies.Optional` | src/cargo_toml.rs:1127-1133 | a bare version is never optional; otherwise the flag of the table form or of the overrides |
| `Dependencies.Package` | src/cargo_toml.rs:1139-1144 | only a table can rename the crate, and the rename is the table form's |
| `Dependencies.Git` | src/cargo_toml.rs:1149-1151 | only a table has a git URL, and it is the table's |
| `Dependencies.GitRev` | src/cargo_toml.rs:1156-1158 | only a table has a git revision, and it is the table's |
| `Dependencies.IsCratesIo` | src/cargo_toml.rs:1164-1179 | a dependency is from crates.io exactly when its table form has no path, alternative registry, registry index, git URL, tag, branch or revision; a bare version therefore always is |
| `Dependencies.TryDetailMutPreservesMeaning` | src/cargo_toml.rs:1072-1144 | converting to table form changes no accessor's answer and is idempotent |
| `Dependencies.InheritEntry` | src/cargo_toml.rs:659-677 | non-inherited entries are kept; a missing template is a workspace-integrity error; otherwise the result is the template itself, or its table form with exactly the overrides' optional flag and features added, marked inherited and with its path joined to the workspace directory; every other field of the template is kept |
| `Dependencies.InheritKeepsSource` | src/cargo_toml.rs:659-677 | inheriting from a complete template always succeeds and keeps its git source, revision and crates.io status |
| `Dependencies.InheritDependencies` | src/cargo_toml.rs:658-680 | succeeds exactly when every entry can be completed, keeps keys and order, and otherwise reports the first failing entry's error |
| `Dependencies.InheritedEntriesResolved` | src/cargo_toml.rs:658-680 | with a workspace of complete templates, no entry is left waiting for the workspace |
| `Products.SortProducts` | src/cargo_toml.rs:644-646 | the result is ordered by name and then path, and is a permutation of the input |
| `Products.Insert` | src/cargo_toml.rs:644-646 | inserting into an ordered list keeps it ordered and adds exactly the one product |
| `Products.CompareProducts` | src/cargo_toml.rs:645 | two products compare equal exactly when name and path agree; the names decide unless they are equal, then the paths |
| `Products.ProductLeTotal` | src/cargo_toml.rs:645 | any two products are comparable |
| `Products.ProductLeTransitive` | src/cargo_toml.rs:645 | the name-then-path order is transitive |
| `Products.CompareOptionAntisymmetric` | src/cargo_toml.rs:645 | comparing optional strings the other way round reverses the result, and only equal values compare equal |
| `Products.CompareOptionTransitive` | src/cargo_toml.rs:645 | the comparison of optional strings is transitive |
| `Products.PublishEqualityMeansPublishable` | src/cargo_toml.rs:1693-1722 | `publish == b` holds exactly when publishing is allowed (a true flag, or a non-empty registry list) and `b` says so, so a setting equals exactly one boolean |
| `Products.DefaultPublish` | src/cargo_toml.rs:1688-1691 | the default allows publishing |
| `Products.MinRustVersionMinor` | src/cargo_toml.rs:1880-1887 | is defined for the released editions (the source marks 2024 unreachable) and is at least 1 |
| `Products.MinRustVersionMonotonic` | src/cargo_toml.rs:1880-1887 | a later edition needs a strictly newer compiler |
| `FeatureTypes.NonDefaultEnabledBy` | src/features.rs:67-69 | exactly the enablers other than `default` |
| `FeatureTypes.ReferencedHasEnabler` | src/features.rs:74-76 | in a graph with exact reverse edges, a feature is referenced exactly when some feature of the graph enables it |
| `FeatureTypes.FeatureDependency.WithSlot` | src/features.rs:121-127 | writing one kind's record changes only that record |
| `FeatureTypes.FeatureDependency.Detail` | src/features.rs:109-117 | returns the first present record in the order normal, build, dev, with its kind |
| `FeatureSyntax.ParseAction` | src/features.rs:246-251 | the parsed action prints back as the original string and is in canonical form |
| `FeatureSyntax.ParseRender` | src/features.rs:246-251 | a canonical action survives printing and parsing |
| `FeatureSyntax.ParseFeature` | src/features.rs:241-277 | a declared feature with no enablers and no binaries yet |
| `FeatureSyntax.ParseFeatureEdges` | src/features.rs:245-267 | a feature enables feature `t` exactly when one of its actions is the plain name `t` (no `/`, no `dep:`, no `?`) |
| `FeatureSyntax.ParseFeatureDeps` | src/features.rs:245-267 | a feature acts on dependency `t` exactly when one of its actions names `t` with `dep:`, `?` or `/` |
| `FeatureSyntax.ReadFeatureEdge` | src/features.rs:255-266 | over parsed actions: the enabled features are exactly the plain-name actions |
| `FeatureSyntax.ReadDepKey` | src/features.rs:255-262 | over parsed actions: the dependency keys are exactly those some action acts on |
| `FeatureSyntax.ReadDepAction` | src/features.rs:254-262 | the merged action is conditional only if every action on it is; its sub-features are all of them in order; and `dep:`/`?` is decided by the first action on it |
| `FeatureSyntax.CollectFeatures` | src/features.rs:232-238 | one declared feature per key of the table |
| `FeatureSyntax.CollectFeaturesLookup` | src/features.rs:232-238 | each key's feature is its own entry parsed |
| `FeatureSyntax.ParseFeaturesAsWritten` | src/features.rs:155-158 | as written: `default` is added only when the whole table lacks it |
| `FeatureSyntax.LateDefaultIsLost` | src/features.rs:155-158 | a declared `default` beyond the first 1000 entries is absent from the result |
| `FeatureSyntax.ParseFeatures` | src/features.rs:155-158 | the corrected reading (see Findings): there is always a `default`; the keys are those of the first 1000 entries plus `default`, so at most 1001 |
| `FeatureSyntax.AsWrittenAgrees` | src/features.rs:155-158 | the reading as written and the corrected one give the same features exactly when the table has no `default`, or has it among the first 1000 entries |
| `FeatureDeps.NamedUsingDepSyntax` | src/features.rs:348-359 | every feature key is present and maps to false |
| `FeatureDeps.NamedUsingDepSyntaxContents` | src/features.rs:348-359 | a name is present exactly when it is a feature or some feature acts on it, and its flag comes from such an action |
| `FeatureDeps.NamedUsingDepSyntaxComplete` | src/features.rs:348-359 | for every order that visits all features: a non-feature name is present exactly when some feature acts on it, carrying their common flag |
| `FeatureDeps.ImpliedFeature` | src/features.rs:331-342 | an implied feature enables just its dependency, unconditionally, and is not declared |
| `FeatureDeps.UpdateSlot` | src/features.rs:299-323 | the first record of a kind takes the dependency and its target; an untargeted record clears the targets, stays optional only if both were, and takes the new declaration exactly when a required one meets an optional record; a targeted one adds its target only to a target-specific record and keeps the rest |
| `FeatureDeps.AddDependency` | src/features.rs:287-344 | a dependency is recorded exactly when it is optional, named by features or already recorded; only its own record of its kind changes; an implied feature is added exactly when it is optional and not named with `dep:` syntax; existing features are untouched |
| `FeatureDeps.RecordDependency` | src/features.rs:288-323 | the dependency side alone: recorded exactly when optional, named by features or already recorded; a new entry takes its crate name from the declaration and has only the record of its kind |
| `FeatureDeps.ImplyFeature` | src/features.rs:330-343 | the feature side alone: the implied feature is added exactly when the dependency is optional, not named with `dep:` syntax, and no feature has that name |
| `FeatureDeps.RecordAll` | src/features.rs:279-284 | the dependency side of the pass over a stream of declarations keeps every earlier record key |
| `FeatureDeps.ImplyAll` | src/features.rs:279-284 | the feature side of the pass keeps every existing feature unchanged |
| `FeatureDeps.AddAll` | src/features.rs:279-284 | the pass over a stream: nothing changes for an empty stream, no record or feature is lost, and existing features are untouched |
| `FeatureDeps.AddAllIsSequential` | src/features.rs:279-284 | computing the two sides separately is the same as applying `add_dependency` to each declaration in turn |
| `FeatureDeps.AddAllKeys` | src/features.rs:279-284 | after the stream, a dependency is recorded exactly when some declaration of it was recordable when it came |
| `FeatureDeps.AddAllHasDetail` | src/features.rs:279-284 | every recorded dependency has at least one record |
| `FeatureDeps.AddAllCrateName` | src/features.rs:293-298 | the first recorded declaration fixes the crate name: its package rename, or the key |
| `FeatureDeps.AddAllFeatures` | src/features.rs:279-284 | a new feature appears exactly when some declaration implies it, and it is the implied feature |
| `FeatureDeps.UntargetedRequiredWins` | src/features.rs:299-323 | once a non-optional declaration for all targets is recorded, that kind's record stays required and untargeted |
| `FeatureGraph.BinName` | src/features.rs:383 | a binary's name, or the package name when it has none |
| `FeatureGraph.RequireBin` | src/features.rs:382-388 | only `required_by_bins` changes, by appending |
| `FeatureGraph.SetRequiredByBins` | src/features.rs:380-390 | keys are unchanged and only `required_by_bins` grows |
| `FeatureGraph.RequiredByBinsContents` | src/features.rs:380-390 | a name is appended to a feature exactly when some binary of that name requires it |
| `FeatureGraph.Enablers` | src/features.rs:394-400 | exactly the features that enable the given key |
| `FeatureGraph.SetEnabledBy` | src/features.rs:393-408 | only `enabled_by` changes; every enabler is recorded; a rewritten set lists only true enablers |
| `FeatureGraph.SetEnabledByConverse` | src/features.rs:393-408 | starting from no stray enablers, `enabled_by` becomes exactly the converse of `enables_features` |
| `FeatureGraph.SetEnabledByIdempotent` | src/features.rs:393-408 | recomputing the reverse edges changes nothing |
| `FeatureGraph.RemovedKeys` | src/features.rs:414-424 | exactly the hidden features that enable no dependency, are not kept by the caller and enable no hidden feature |
| `FeatureGraph.Removable` | src/features.rs:414-418 | a removable feature is never `default` and never enables itself |
| `FeatureGraph.RemoveHiddenFeatures` | src/features.rs:412-445 | exactly the removable features are dropped, and the flag says whether any was |
| `FeatureGraph.SpliceAll` | src/features.rs:429-443 | splicing the dropped features out never adds or removes a surviving key |
| `FeatureGraph.SpliceStep` | src/features.rs:429-443 | splicing out one more dropped feature moves a survivor to the closed form for the larger set |
| `FeatureGraph.SpliceAllClosedForm` | src/features.rs:429-443 | splicing in any order gives the closed form |
| `FeatureGraph.RemoveHiddenFeaturesSplices` | src/features.rs:412-445 | for every iteration order, each survivor enables what the dropped features it enabled enabled, loses their dependency actions, and inherits their enablers |
| `FeatureGraph.RemoveHiddenFeaturesKeepsConverse` | src/features.rs:412-445 | the reverse edges stay exact and no survivor still names a dropped feature |
| `Resolver.Section` | src/features.rs:279-284 | reads the first 1000 entries of a table, in order, as declarations of one kind and target |
| `Resolver.TargetSections` | src/features.rs:368-375 | target sections carry their target, and the dev pass reads only dev tables |
| `Resolver.TargetSectionsContents` | src/features.rs:368-375 | the target sections hold exactly the first 1000 declarations of each target's tables of the kinds the pass visits, each under that target's cfg |
| `Resolver.SectionContents` | src/features.rs:279-284 | a section holds exactly the first 1000 entries of its table, as declarations of its kind and target |
| `Resolver.DepStream` | src/features.rs:361-377 | the stream starts with the first 1000 normal dependencies, in table order |
| `Resolver.DepStreamContents` | src/features.rs:361-377 | the stream holds exactly the declarations the manifest makes: the first 1000 entries of its own and of each target's tables |
| `Resolver.DepStreamDevLast` | src/features.rs:361-377 | every normal and build declaration comes before every dev one |
| `Resolver.DepStreamUntargetedFirst` | src/features.rs:361-377 | within a kind, every untargeted declaration comes before every targeted one |
| `Resolver.FeaturesCovered` | src/features.rs:155-158 | an order that lists all declared keys, `default` and all dependency keys lists every feature the resolver builds |
| `Resolver.Linked` | src/features.rs:155-171 | the graph before removal has the declared features (as the corrected parse reads them) and the implied ones |
| `Resolver.Resolve` | src/features.rs:155-179 | the result keeps exactly the features of the graph before removal that are not removable, and reports removal exactly when one was |
| `Resolver.LinkedIsConverse` | src/features.rs:155-171 | before removal, `enabled_by` is exactly the converse of `enables_features` |
| `Resolver.ResolveRemoves` | src/features.rs:155-179 | the result is the graph before removal with hidden features spliced out |
| `Resolver.ResolveHasDefault` | src/features.rs:155-179 | with the corrected parse, the result always has a `default` feature |
| `Resolver.ResolveIsConverse` | src/features.rs:155-179 | in the result, `enabled_by` is exactly the converse of `enables_features` |
| `Resolver.ResolveDepsHaveDetail` | src/features.rs:155-179 | every recorded dependency has a record, so `detail` never panics |
| `Resolver.ResolveInvariants` | src/features.rs:155-179 | the three result invariants together, `default` by the corrected parse |
| `Resolver.ImpliedFeatureSurvives` | src/features.rs:279-344 | an optional dependency that is not a feature and that no feature names with `dep:`/`?` ends up as an implied feature enabling just itself |
| `Resolver.KeepsDependencyAction` | src/features.rs:412-445 | a feature that enables a dependency and no feature is never dropped |
| `Resolver.ParseCustom` | src/features.rs:184-206 | with the corrected parse, the result has `default`, exact reverse edges and complete dependency records, and no feature lists a binary |
| `Resolver.NoBinsRecorded` | src/features.rs:184-206 | without binaries, no feature records one |
| `Resolver.Parse` | src/features.rs:155-179 | with the corrected parse, the result has `default`, exact reverse edges and complete dependency records |

## Left out

- Reading TOML and serde (de)serialization. The codecs work on an explicit
  TOML value type. Paths through the filesystem (`src/afs.rs`), workspace
  discovery, completion and autoset are not part of this model.
- Joining a path onto the workspace directory (`Path::join`, `display`) is
  a function parameter of `Dependencies.InheritEntry`.
- Errors are `Common.Error`. It has `InheritedUnknownValue` and
  `Other` from the enum in `src/error.rs`, plus `WorkspaceIntegrity`,
  which `src/cargo_toml.rs:662` raises; the enum at `src/error.rs:6-11`
  does not list it. The `Parse` and `Io` variants are left out with TOML
  reading and the filesystem, and so is formatting messages.
- The hasher type parameter, lifetimes and borrowing are left out. So is the
  resolver's constructor, which only stores the keep-callback; the callback
  is the `keep` parameter.
- `as_mut` and `get_mut` in `src/inheritable.rs` are the same as `as_ref` and
  `get` in a value model. `detail_mut` and `req` only add a panic on top of
  `try_detail_mut` and `try_req`.
- Iteration order of hash maps is an explicit `order` parameter. Several
  results require an order that lists every key (`Resolver.Covers`); the Rust
  code visits every key by construction.
- Panics (`unwrap` on an inherited value, `is_crates_io` on an inherited
  entry, `package()` without `[package]`, edition 2024) are preconditions.
- When inheritance fails part-way, the source has already rewritten earlier
  entries in place; the model returns only the error.
- The `unstable` table of a dependency is carried through but not
  interpreted.
- `sort_products` uses an unstable sort. The model proves ordering and
  permutation, not the placement of products whose name and path are equal.
- The test files and the example program are not part of this model.
- `parse_custom` takes a hash map of features. The model reads it as a table
  whose order is the sequence order.
- `Resolver.Parse`: does not state `Resolver.ParseCustom`'s promise about
  empty `required_by_bins`, because `parse` does record binaries; the
  binary contents are `FeatureGraph.RequiredByBinsContents`.
- `FeatureDeps.NamedUsingDepSyntax`: its own contract gives only the
  feature keys. What else it contains is stated by
  `FeatureDeps.NamedUsingDepSyntaxContents` and
  `FeatureDeps.NamedUsingDepSyntaxComplete`, because the value of a name
  that features disagree on depends on the iteration order.
- `Resolver.Linked`: its contract gives only its keys; the reverse edges are
  `Resolver.LinkedIsConverse`. It reads the features with the corrected
  `FeatureSyntax.ParseFeatures` (see Findings), not as `src/features.rs`
  writes it.
- `Resolver.Parse`, `Resolver.ParseCustom`, `Resolver.Resolve`: built on
  the corrected `FeatureSyntax.ParseFeatures`. They agree with the source
  exactly when the features table has no `default` or has it among its
  first 1000 entries (`FeatureSyntax.AsWrittenAgrees`); every other pass
  reads the table only through the parsed features. For a `default` past
  entry 1000 the source's graph may lack `default`.
- `Resolver.ResolveHasDefault`: holds for the corrected parse only; under
  the source's reading it holds when `FeatureSyntax.AsWrittenAgrees`'
  condition does.
- `Resolver.ResolveInvariants`: its `default` conjunct is about the
  corrected parse, like `Resolver.ResolveHasDefault`.

Three behaviours of the code that a reader might not expect, which the
model keeps:

- The `dep:`/`?` flag of a dependency that several actions of a feature
  name comes from the first such action (`src/features.rs:255-262`).
- `set_enabled_by` keeps a feature that enables itself among its own
  enablers. It also leaves `enabled_by` untouched on a feature nobody
  enables (`src/features.rs:393-408`).
- Hidden-feature removal only splices (`src/features.rs:429-443`). It does
  not prune dangling references, compute transitive closures, or merge
  dependency actions.

## Findings

| source | as written | input that shows it | evidently intended | confidence | as-written member | corrected member |
|---|---|---|---|---|---|---|
| src/features.rs:155-158 | `default` is added only when the whole features table lacks it, but only the first 1000 entries are parsed | a features table with more than 1000 entries whose `default` entry comes after the 1000th in key order | every resolved graph has a `default` feature | not executed | `FeatureSyntax.ParseFeaturesAsWritten` (shown by `FeatureSyntax.LateDefaultIsLost`) | `FeatureSyntax.ParseFeatures` |
