/** Install and uninstall bookkeeping on the store. The download and the file
    removals themselves are outside the model: install receives the version
    record the finished download produced, and uninstall reports the paths it
    would remove, in order. */
module Lifecycle {
  import opened Wrappers
  import opened Store
  import opened Listing

  /** A finished download is recorded: the version is appended and becomes
      the default engine only when it is the first installed version. */
  function OnInstallClicked(s: Store, v: InstalledVersion): (r: Store)
    ensures r.versions == s.versions + [v]
    ensures |r.versions| == 1 ==> r.settings.defaultEngine == v.id
    ensures |r.versions| != 1 ==> r.settings.defaultEngine == s.settings.defaultEngine
    ensures r.settings.(defaultEngine := s.settings.defaultEngine) == s.settings
    ensures r.remote == s.remote && r.projects == s.projects
    ensures r.saves == s.saves + 1
  {
    var versions := s.versions + [v];
    var settings :=
      if |versions| == 1 then s.settings.(defaultEngine := versions[0].id) else s.settings;
    s.(versions := versions, settings := settings).Save()
  }

  /** Position of the first element equal to `v`. */
  function FirstIndex(vs: seq<InstalledVersion>, v: InstalledVersion): (i: nat)
    requires v in vs
    ensures i < |vs| && vs[i] == v && v !in vs[..i]
  {
    if vs[0] == v then 0
    else
      var i := 1 + FirstIndex(vs[1..], v);
      assert vs[..i] == [vs[0]] + vs[1..][..i - 1];
      i
  }

  /** Removal of the first element equal to `v`, keeping the order of the
      others; nothing changes when `v` is absent. */
  function RemoveFirst(vs: seq<InstalledVersion>, v: InstalledVersion): (r: seq<InstalledVersion>)
    ensures v in vs ==> multiset(r) == multiset(vs) - multiset{v}
    ensures v in vs ==> |r| == |vs| - 1 && forall j :: 0 <= j < |r| ==>
      r[j] == (if j < FirstIndex(vs, v) then vs[j] else vs[j + 1])
    ensures v !in vs ==> r == vs
  {
    if v in vs then
      var i := FirstIndex(vs, v);
      assert vs == vs[..i] + [v] + vs[i + 1..];
      vs[..i] + vs[i + 1..]
    else vs
  }

  /** Every project that refers to `id` is reset to the empty GUID. */
  function DetachProjects(ps: seq<Project>, id: string): (r: seq<Project>)
    ensures |r| == |ps|
    ensures forall i :: 0 <= i < |ps| ==>
      && r[i].name == ps[i].name
      && (ps[i].godotVersion == id ==> r[i].godotVersion == EmptyGuid)
      && (ps[i].godotVersion != id ==> r[i] == ps[i])
  {
    seq(|ps|, i requires 0 <= i < |ps| =>
      if ps[i].godotVersion == id then ps[i].(godotVersion := EmptyGuid) else ps[i])
  }

  /** The list entry an uninstall is triggered on: the entry's source path and
      the installed version it shows. */
  datatype LineEntry = LineEntry(source: string, version: InstalledVersion)

  /** The wording of the confirmation prompt. */
  datatype Prompt = RemoveReference | Uninstall

  /** The effect of an uninstall: the store afterwards, the prompt shown, the
      paths removed in order, whether the entry's download/uninstall toggle
      was re-enabled, and whether the handler stopped on an exception. */
  datatype UninstallOutcome = UninstallOutcome(
    store: Store, prompt: Prompt, removed: seq<string>, reenabled: bool, aborted: bool)

  /** The prompt speaks of removing a reference when the entry's source is the
      version's own location, and of uninstalling otherwise. */
  function PromptFor(e: LineEntry): Prompt {
    if e.source == e.version.location then RemoveReference else Uninstall
  }

  /** The store after a confirmed uninstall of `v`. */
  function Forget(s: Store, v: InstalledVersion): (r: Store)
    ensures r.versions == RemoveFirst(s.versions, v)
    ensures r.projects == DetachProjects(s.projects, v.id)
    ensures r.settings.defaultEngine ==
      (if s.settings.defaultEngine == v.id then EmptyGuid else s.settings.defaultEngine)
    ensures r.settings.(defaultEngine := s.settings.defaultEngine) == s.settings
    ensures r.remote == s.remote && r.saves == s.saves + 1
  {
    var settings :=
      if s.settings.defaultEngine == v.id then s.settings.(defaultEngine := EmptyGuid) else s.settings;
    s.(projects := DetachProjects(s.projects, v.id), settings := settings,
       versions := RemoveFirst(s.versions, v)).Save()
  }

  /** Uninstall of the entry's version, given the user's answer, the mapping
      from stored paths to file-system paths, the path normalization the
      listing applies, and the tree found at the normalized install location
      (None when it cannot be enumerated).
      A declined confirmation changes nothing and re-enables the entry.
      A confirmed uninstall of a local reference leaves the files alone and
      forgets the version. Otherwise the install tree is listed first: when
      that fails the handler stops with nothing removed and the store as it
      was; when it succeeds the listing and then the mapped cache location
      are removed and the version is forgotten. */
  function OnUninstallClicked(s: Store, e: LineEntry, confirmed: bool,
                              globalize: string -> string, normalize: string -> string,
                              install: Option<Dir>): (r: UninstallOutcome)
    requires install.Some? ==> install.value.path == normalize(globalize(e.version.location))
    ensures r.prompt == PromptFor(e)
    ensures !confirmed ==> r.store == s && r.removed == [] && r.reenabled && !r.aborted
    ensures confirmed ==> !r.reenabled
    ensures confirmed && e.version.IsLocalReference() ==>
      r.store == Forget(s, e.version) && r.removed == [] && !r.aborted
    ensures confirmed && !e.version.IsLocalReference() && install.None? ==>
      r.store == s && r.removed == [] && r.aborted
    ensures confirmed && !e.version.IsLocalReference() && install.Some? ==>
      && r.store == Forget(s, e.version)
      && !r.aborted
      && r.removed == RecursiveListDir(install.value) + [globalize(e.version.cacheLocation)]
      && r.removed[|r.removed| - 2] == normalize(globalize(e.version.location))
      && r.removed[|r.removed| - 1] == globalize(e.version.cacheLocation)
  {
    var prompt := PromptFor(e);
    if !confirmed then UninstallOutcome(s, prompt, [], true, false)
    else if e.version.IsLocalReference() then UninstallOutcome(Forget(s, e.version), prompt, [], false, false)
    else
      match install
      case None => UninstallOutcome(s, prompt, [], false, true)
      case Some(tree) =>
        var removed := RecursiveListDir(tree) + [globalize(e.version.cacheLocation)];
        UninstallOutcome(Forget(s, e.version), prompt, removed, false, false)
  }

  /** Installing keeps every weak reference valid. */
  lemma InstallPreservesNoDangling(s: Store, v: InstalledVersion)
    requires NoDangling(s)
    ensures NoDangling(OnInstallClicked(s, v))
  {
    var r := OnInstallClicked(s, v);
    assert forall id :: HasVersionId(s.versions, id) ==> HasVersionId(r.versions, id) by {
      forall id | HasVersionId(s.versions, id)
        ensures HasVersionId(r.versions, id)
      {
        var i :| 0 <= i < |s.versions| && s.versions[i].id == id;
        assert r.versions[i] == s.versions[i];
      }
    }
    assert r.versions[|s.versions|] == v;
  }

  /** Removing one element keeps every element that differs from it. */
  lemma RemoveFirstKeepsOthers(vs: seq<InstalledVersion>, v: InstalledVersion, w: InstalledVersion)
    requires w in vs && w != v
    ensures w in RemoveFirst(vs, v)
  {
    assert multiset(vs)[w] > 0;
    if v in vs {
      assert multiset(RemoveFirst(vs, v))[w] == multiset(vs)[w];
    }
  }

  /** Uninstalling, confirmed or not, keeps every weak reference valid: the
      references to the removed id are reset, and any other id still names a
      version that was not removed. */
  lemma UninstallPreservesNoDangling(s: Store, e: LineEntry, confirmed: bool,
                                     globalize: string -> string, normalize: string -> string,
                                     install: Option<Dir>)
    requires install.Some? ==> install.value.path == normalize(globalize(e.version.location))
    requires NoDangling(s)
    ensures NoDangling(OnUninstallClicked(s, e, confirmed, globalize, normalize, install).store)
  {
    if confirmed && (e.version.IsLocalReference() || install.Some?) {
      var v := e.version;
      var r := Forget(s, v);
      forall id | id != v.id && HasVersionId(s.versions, id)
        ensures HasVersionId(r.versions, id)
      {
        var i :| 0 <= i < |s.versions| && s.versions[i].id == id;
        RemoveFirstKeepsOthers(s.versions, v, s.versions[i]);
        var j :| 0 <= j < |r.versions| && r.versions[j] == s.versions[i];
      }
      forall i | 0 <= i < |r.projects|
        ensures ValidRef(r, r.projects[i].godotVersion)
      {
        assert ValidRef(s, s.projects[i].godotVersion);
      }
    }
  }

  lemma RemoveAppended(vs: seq<InstalledVersion>, v: InstalledVersion)
    requires v !in vs
    ensures RemoveFirst(vs + [v], v) == vs
  {
    var ws := vs + [v];
    assert ws[|vs|] == v;
    var i := FirstIndex(ws, v);
    assert i == |vs| by {
      if i < |vs| {
        assert false;
      }
    }
  }

  /** Uninstalling a version right after installing it restores the store,
      save count aside, when nothing referred to its id before. */
  lemma InstallThenUninstall(s: Store, v: InstalledVersion, source: string,
                             globalize: string -> string, normalize: string -> string,
                             install: Option<Dir>)
    requires install.Some? ==> install.value.path == normalize(globalize(v.location))
    requires v.IsLocalReference() || install.Some?
    requires v !in s.versions
    requires forall i :: 0 <= i < |s.projects| ==> s.projects[i].godotVersion != v.id
    requires s.settings.defaultEngine != v.id
    requires s.versions == [] ==> s.settings.defaultEngine == EmptyGuid
    ensures OnUninstallClicked(OnInstallClicked(s, v), LineEntry(source, v), true, globalize, normalize, install).store
      == s.(saves := s.saves + 2)
  {
    var installed := OnInstallClicked(s, v);
    RemoveAppended(s.versions, v);
    assert DetachProjects(s.projects, v.id) == s.projects;
  }
}
