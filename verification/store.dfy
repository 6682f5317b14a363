/** The persisted version store the panel reads and writes: known remote
    releases, installed engine versions, projects that refer to an installed
    version by id, and the settings that drive the default engine and the
    update-check policy. Saving the database is modelled by a save counter. */
module Store {
  import opened Wrappers

  /** The string form of the empty GUID, used as the "unset" reference. */
  const EmptyGuid: string := "00000000-0000-0000-0000-000000000000"

  /** A raw release record as returned by the release API. Only its name is
      inspected by the panel; the rest of the payload is opaque. */
  datatype Release = Release(name: string, payload: string)

  /** A normalized remote version, derived from one raw release. */
  datatype RemoteVersion = RemoteVersion(name: string, release: Release)

  /** A version known from the second download host; opaque here. */
  datatype TuxfamilyVersion = TuxfamilyVersion(name: string)

  /** An installed (or locally referenced) engine version. A user-added local
      reference has neither a GitHub nor a TuxFamily origin. */
  datatype InstalledVersion = InstalledVersion(
    id: string,
    tag: string,
    location: string,
    cacheLocation: string,
    isMono: bool,
    github: Option<RemoteVersion>,
    tuxfamily: Option<TuxfamilyVersion>)
  {
    predicate IsLocalReference() {
      github.None? && tuxfamily.None?
    }
  }

  /** A project record; `godotVersion` is a weak reference by id. */
  datatype Project = Project(name: string, godotVersion: string)

  /** Times and durations are integer ticks. */
  datatype Settings = Settings(
    defaultEngine: string,
    checkForUpdates: bool,
    lastCheck: int,
    checkInterval: int)

  datatype Store = Store(
    remote: seq<RemoteVersion>,
    versions: seq<InstalledVersion>,
    projects: seq<Project>,
    settings: Settings,
    saves: nat)
  {
    /** The database write: the whole store is persisted once more. */
    function Save(): (s: Store)
      ensures s.saves == saves + 1
      ensures s.(saves := saves) == this
    {
      this.(saves := saves + 1)
    }
  }

  /** Normalization of a raw release into a remote version. The source's
      conversion is not part of this model beyond keeping the release's name. */
  function FromApi(r: Release): (v: RemoteVersion)
    ensures v.name == r.name
  {
    RemoteVersion(r.name, r)
  }

  /** One remote version per release, in order, with no deduplication. */
  function FromApiAll(rs: seq<Release>): (vs: seq<RemoteVersion>)
    ensures |vs| == |rs|
    ensures forall i :: 0 <= i < |rs| ==> vs[i] == FromApi(rs[i])
  {
    seq(|rs|, i requires 0 <= i < |rs| => FromApi(rs[i]))
  }

  /** True when some installed version carries this id. */
  predicate HasVersionId(versions: seq<InstalledVersion>, id: string) {
    exists i :: 0 <= i < |versions| && versions[i].id == id
  }

  /** True when a remote version with this name is already known. */
  predicate KnowsName(remote: seq<RemoteVersion>, name: string) {
    exists i :: 0 <= i < |remote| && remote[i].name == name
  }

  /** A weak reference is valid when it is unset or names an installed version. */
  predicate ValidRef(s: Store, id: string) {
    id == EmptyGuid || HasVersionId(s.versions, id)
  }

  /** Neither the default engine nor any project refers to a version that is
      not installed. */
  predicate NoDangling(s: Store) {
    && ValidRef(s, s.settings.defaultEngine)
    && forall i :: 0 <= i < |s.projects| ==> ValidRef(s, s.projects[i].godotVersion)
  }
}
