/**
 A dependency entry of a manifest (`Dependency`), its accessors, and the
 copying of `{ workspace = true }` entries from the workspace's
 `[workspace.dependencies]` table.
 */
module Dependencies {
  import opened Common

  /** `DependencyDetail`: the table form of a dependency. */
  datatype DependencyDetail = DependencyDetail(
    version: Option<string>,
    registry: Option<string>,
    registryIndex: Option<string>,
    path: Option<string>,
    inherited: bool,
    git: Option<string>,
    branch: Option<string>,
    tag: Option<string>,
    rev: Option<string>,
    features: seq<string>,
    optional: bool,
    defaultFeatures: bool,
    package: Option<string>,
    unstable: map<string, Value>)

  /** `InheritedDependencyDetail`: what a `{ workspace = true }` entry may
      add on top of the workspace's template. */
  datatype InheritedDependencyDetail = InheritedDependencyDetail(
    features: seq<string>,
    optional: bool,
    workspace: bool)

  datatype Dependency =
    | Simple(req: string)
    | Inherited(overrides: InheritedDependencyDetail)
    | Detailed(detail: DependencyDetail)

  /** `DependencyDetail::default()`: note `default_features` is `true`. */
  function DefaultDetail(): (d: DependencyDetail)
    ensures d.defaultFeatures && !d.optional && !d.inherited
    ensures d.version.None? && d.package.None? && |d.features| == 0
    ensures NoLocator(d)
  {
    DependencyDetail(None, None, None, None, false, None, None, None, None, [], false, true, None, map[])
  }

  /** `detail`: the table form, if the entry has one. */
  function Detail(d: Dependency): (r: Option<DependencyDetail>)
    ensures r.Some? <==> d.Detailed?
    ensures r.Some? ==> r.value == d.detail
  {
    match d
    case Detailed(det) => Some(det)
    case _ => None
  }

  /** `try_detail_mut`: the table form the entry has after the call, which
      turns a bare version string into a table. The entry itself becomes
      `Detailed(r.value)` on success and is left alone on failure. */
  function TryDetailMut(d: Dependency): (r: Result<DependencyDetail>)
    ensures r.Ok? <==> !d.Inherited?
    ensures d.Inherited? ==> r == Err(InheritedUnknownValue)
    ensures d.Detailed? ==> r == Ok(d.detail)
    ensures d.Simple? ==> r == Ok(DefaultDetail().(version := Some(d.req)))
    ensures d.Simple? ==> r.value.version == Some(d.req)
    ensures d.Simple? ==> r.value.defaultFeatures && !r.value.optional && !r.value.inherited && NoLocator(r.value)
  {
    match d
    case Detailed(det) => Ok(det)
    case Simple(ver) => Ok(DefaultDetail().(version := Some(ver)))
    case Inherited(_) => Err(InheritedUnknownValue)
  }

  /** `try_req`: the version requirement; a table without one means any
      version. */
  function TryReq(d: Dependency): (r: Result<string>)
    ensures r.Ok? <==> !d.Inherited?
    ensures d.Inherited? ==> r.error == InheritedUnknownValue
    ensures d.Simple? ==> r == Ok(d.req)
    ensures d.Detailed? ==> r == Ok(d.detail.version.UnwrapOr("*"))
  {
    match d
    case Simple(v) => Ok(v)
    case Detailed(det) => Ok(det.version.UnwrapOr("*"))
    case Inherited(_) => Err(InheritedUnknownValue)
  }

  /** `req_features`: extra features requested of the dependency. */
  function ReqFeatures(d: Dependency): (r: seq<string>)
    ensures d.Simple? ==> r == []
    ensures !d.Inherited? ==> r == TryDetailMut(d).value.features
    ensures d.Inherited? ==> r == d.overrides.features
  {
    match d
    case Simple(_) => []
    case Detailed(det) => det.features
    case Inherited(o) => o.features
  }

  /** `optional`: a bare version string is never optional. */
  function Optional(d: Dependency): (r: bool)
    ensures d.Simple? ==> !r
    ensures !d.Inherited? ==> r == TryDetailMut(d).value.optional
    ensures d.Inherited? ==> r == d.overrides.optional
  {
    match d
    case Simple(_) => false
    case Detailed(det) => det.optional
    case Inherited(o) => o.optional
  }

  /** `package`: the crate name override, only a table can carry one. */
  function Package(d: Dependency): (r: Option<string>)
    ensures r.Some? ==> d.Detailed?
    ensures !d.Inherited? ==> r == TryDetailMut(d).value.package
  {
    match d
    case Detailed(det) => det.package
    case _ => None
  }

  /** `git`: the git URL, if any. */
  function Git(d: Dependency): (r: Option<string>)
    ensures r.Some? ==> d.Detailed? && d.detail.git == r
    ensures d.Detailed? ==> r == d.detail.git
  {
    match Detail(d)
    case Some(det) => det.git
    case None => None
  }

  /** `git_rev`: the git commit, if any. */
  function GitRev(d: Dependency): (r: Option<string>)
    ensures r.Some? ==> d.Detailed? && d.detail.rev == r
    ensures d.Detailed? ==> r == d.detail.rev
  {
    match Detail(d)
    case Some(det) => det.rev
    case None => None
  }

  /** A table form that points nowhere but crates.io. */
  predicate NoLocator(det: DependencyDetail) {
    && det.path.None? && det.registry.None? && det.registryIndex.None?
    && det.git.None? && det.tag.None? && det.branch.None? && det.rev.None?
  }

  /** `is_crates_io`: the entry's table form has no path, alternative
      registry or git source; a bare version is from crates.io. The
      inherited case panics. */
  function IsCratesIo(d: Dependency): (r: bool)
    requires !d.Inherited?
    ensures r <==> NoLocator(TryDetailMut(d).value)
  {
    match d
    case Simple(_) => true
    case Detailed(det) =>
      && det.path.None?
      && det.registry.None?
      && det.registryIndex.None?
      && det.git.None?
      && det.tag.None?
      && det.branch.None?
      && det.rev.None?
  }

  /** Turning an entry into its table form changes none of what the
      accessors report about it, and doing it again changes nothing. */
  lemma TryDetailMutPreservesMeaning(d: Dependency)
    requires !d.Inherited?
    ensures var e := Detailed(TryDetailMut(d).value);
      && TryReq(e) == TryReq(d)
      && ReqFeatures(e) == ReqFeatures(d)
      && Optional(e) == Optional(d)
      && Package(e) == Package(d)
      && IsCratesIo(e) == IsCratesIo(d)
      && TryDetailMut(e) == TryDetailMut(d)
  {
  }

  /** One entry of `inherit_dependencies`: an inherited entry becomes a copy
      of the workspace template with the entry's overrides applied; a
      template in table form is marked inherited and its path is joined
      onto the workspace directory. */
  function InheritEntry(key: string, dep: Dependency, workspace: Option<map<string, Dependency>>,
                        basePath: string, join: (string, string) -> string): (r: Result<Dependency>)
    ensures !dep.Inherited? ==> r == Ok(dep)
    ensures dep.Inherited? && (workspace.None? || key !in workspace.value) ==>
      r == Err(WorkspaceIntegrity("workspace dependencies are missing `" + key + "`"))
    ensures dep.Inherited? && workspace.Some? && key in workspace.value ==>
      var template := workspace.value[key];
      var o := dep.overrides;
      && (r.Ok? <==> !template.Inherited? || (!o.optional && |o.features| == 0))
      && (r.Err? ==> r.error == InheritedUnknownValue)
      && (r.Ok? ==>
            && Optional(r.value) == (Optional(template) || o.optional)
            && ReqFeatures(r.value) == ReqFeatures(template) + o.features
            && TryReq(r.value) == TryReq(template)
            && Package(r.value) == Package(template)
            && (r.value.Detailed? ==> r.value.detail.inherited)
            && (template.Detailed? ==> r.value.Detailed?)
            && (template.Detailed? ==> r.value.detail.path == JoinPath(template.detail.path, basePath, join)))
      && (!template.Detailed? && !o.optional && |o.features| == 0 ==> r == Ok(template))
      && (r.Ok? && r.value.Detailed? ==>
            var det := TryDetailMut(template).value;
            r.value.detail == det.(optional := det.optional || o.optional, features := det.features + o.features,
                                   inherited := true, path := JoinPath(det.path, basePath, join)))
  {
    if !dep.Inherited? then Ok(dep)
    else if workspace.None? || key !in workspace.value then
      Err(WorkspaceIntegrity("workspace dependencies are missing `" + key + "`"))
    else
      var overrides := dep.overrides;
      var template := workspace.value[key];
      var withOptional :- if overrides.optional then SetOptional(template) else Ok(template);
      var withFeatures :- if |overrides.features| > 0 then AppendFeatures(withOptional, overrides.features)
                          else Ok(withOptional);
      match withFeatures
      case Detailed(det) => Ok(Detailed(det.(inherited := true, path := JoinPath(det.path, basePath, join))))
      case _ => Ok(withFeatures)
  }

  /** Inheriting never changes where a dependency comes from: the result
      points at the same git source as the template, and is from crates.io
      exactly when the template is. */
  lemma InheritKeepsSource(key: string, dep: Dependency, workspace: Option<map<string, Dependency>>,
                           basePath: string, join: (string, string) -> string)
    requires dep.Inherited? && workspace.Some? && key in workspace.value && !workspace.value[key].Inherited?
    ensures var r := InheritEntry(key, dep, workspace, basePath, join);
      && r.Ok? && !r.value.Inherited?
      && Git(r.value) == Git(workspace.value[key])
      && GitRev(r.value) == GitRev(workspace.value[key])
      && IsCratesIo(r.value) == IsCratesIo(workspace.value[key])
  {
    var r := InheritEntry(key, dep, workspace, basePath, join);
    var template := workspace.value[key];
    if r.value.Detailed? {
      assert r.value.detail.path.None? <==> TryDetailMut(template).value.path.None?;
    }
  }

  function JoinPath(path: Option<string>, basePath: string, join: (string, string) -> string): Option<string> {
    match path
    case Some(p) => Some(join(basePath, p))
    case None => None
  }

  function SetOptional(d: Dependency): Result<Dependency> {
    var det :- TryDetailMut(d);
    Ok(Detailed(det.(optional := true)))
  }

  function AppendFeatures(d: Dependency, extra: seq<string>): Result<Dependency> {
    var det :- TryDetailMut(d);
    Ok(Detailed(det.(features := det.features + extra)))
  }

  /** `inherit_dependencies` over one dependency table, in key order: the
      first entry that cannot be completed decides the error. */
  function InheritDependencies(deps: Table<Dependency>, workspace: Option<map<string, Dependency>>,
                               basePath: string, join: (string, string) -> string): (r: Result<Table<Dependency>>)
    ensures r.Ok? <==> forall i :: 0 <= i < |deps| ==> InheritEntry(deps[i].0, deps[i].1, workspace, basePath, join).Ok?
    ensures r.Ok? ==> |r.value| == |deps| && forall i :: 0 <= i < |deps| ==>
      r.value[i] == (deps[i].0, InheritEntry(deps[i].0, deps[i].1, workspace, basePath, join).value)
    ensures r.Ok? ==> forall i :: 0 <= i < |deps| && !deps[i].1.Inherited? ==> r.value[i] == deps[i]
    ensures r.Err? ==> exists i :: 0 <= i < |deps| && FirstFailure(deps, i, workspace, basePath, join, r.error)
  {
    if |deps| == 0 then Ok([])
    else
      var first := InheritEntry(deps[0].0, deps[0].1, workspace, basePath, join);
      if first.Err? then
        assert FirstFailure(deps, 0, workspace, basePath, join, first.error);
        Err(first.error)
      else
        var rest := InheritDependencies(deps[1..], workspace, basePath, join);
        if rest.Err? then
          FirstFailureShift(deps, workspace, basePath, join, rest.error);
          Err(rest.error)
        else
          Ok([(deps[0].0, first.value)] + rest.value)
  }

  lemma FirstFailureShift(deps: Table<Dependency>, workspace: Option<map<string, Dependency>>,
                          basePath: string, join: (string, string) -> string, e: Error)
    requires |deps| > 0 && InheritEntry(deps[0].0, deps[0].1, workspace, basePath, join).Ok?
    requires exists i :: 0 <= i < |deps| - 1 && FirstFailure(deps[1..], i, workspace, basePath, join, e)
    ensures exists i :: 0 <= i < |deps| && FirstFailure(deps, i, workspace, basePath, join, e)
  {
    var i :| 0 <= i < |deps| - 1 && FirstFailure(deps[1..], i, workspace, basePath, join, e);
    assert FirstFailure(deps, i + 1, workspace, basePath, join, e);
  }

  /** Entry `i` is the first that cannot be completed, failing with `e`. */
  ghost predicate FirstFailure(deps: Table<Dependency>, i: int, workspace: Option<map<string, Dependency>>,
                               basePath: string, join: (string, string) -> string, e: Error)
    requires 0 <= i < |deps|
  {
    && InheritEntry(deps[i].0, deps[i].1, workspace, basePath, join) == Err(e)
    && forall j :: 0 <= j < i ==> InheritEntry(deps[j].0, deps[j].1, workspace, basePath, join).Ok?
  }

  /** After a successful inheritance no entry is waiting for the workspace,
      unless the workspace template itself was such an entry. */
  lemma {:induction false} InheritedEntriesResolved(deps: Table<Dependency>, workspace: map<string, Dependency>,
                                                     basePath: string, join: (string, string) -> string)
    requires forall k :: k in workspace ==> !workspace[k].Inherited?
    requires InheritDependencies(deps, Some(workspace), basePath, join).Ok?
    ensures forall i :: 0 <= i < |deps| ==>
      !InheritDependencies(deps, Some(workspace), basePath, join).value[i].1.Inherited?
  {
    var r := InheritDependencies(deps, Some(workspace), basePath, join).value;
    forall i | 0 <= i < |deps|
      ensures !r[i].1.Inherited?
    {
      var e := InheritEntry(deps[i].0, deps[i].1, Some(workspace), basePath, join);
      assert r[i].1 == e.value;
    }
  }
}
