/** The three-group list presentation: one available entry per remote
    version, one installed entry per installed version (flagged when it is the
    default engine), and name-based hiding of available entries that are
    already installed. How an entry computes its label is not part of this
    model: the labelling is a parameter. */
module Presentation {
  import opened Store

  datatype AvailableEntry = AvailableEntry(remote: RemoteVersion, mono: bool, caption: string, visible: bool)

  datatype InstalledEntry = InstalledEntry(version: InstalledVersion, caption: string, isDefault: bool)

  datatype Lists = Lists(installed: seq<InstalledEntry>, available: seq<AvailableEntry>)

  /** Some installed entry shows exactly this label. */
  predicate LabelInstalled(installed: seq<InstalledEntry>, caption: string) {
    exists j :: 0 <= j < |installed| && installed[j].caption == caption
  }

  /** Recompute visibility: an available entry is hidden exactly when an
      installed entry carries the same label; nothing else about it changes. */
  function UpdateVisibility(installed: seq<InstalledEntry>, available: seq<AvailableEntry>): (r: seq<AvailableEntry>)
    ensures |r| == |available|
    ensures forall i :: 0 <= i < |r| ==>
      && r[i].(visible := available[i].visible) == available[i]
      && (r[i].visible <==> !LabelInstalled(installed, available[i].caption))
  {
    var names := set e | e in installed :: e.caption;
    seq(|available|, i requires 0 <= i < |available| =>
      available[i].(visible := available[i].caption !in names))
  }

  /** Entries are flagged default exactly when they show the default engine. */
  predicate DefaultFlagsAgree(s: Store, installed: seq<InstalledEntry>) {
    forall i :: 0 <= i < |installed| ==>
      (installed[i].isDefault <==> installed[i].version.id == s.settings.defaultEngine)
  }

  /** Rebuild both groups from the store and recompute visibility. */
  function PopulateList(s: Store, useMono: bool,
                        availableLabel: (RemoteVersion, bool) -> string,
                        installedLabel: InstalledVersion -> string): (r: Lists)
    ensures |r.installed| == |s.versions| && |r.available| == |s.remote|
    ensures forall i :: 0 <= i < |s.versions| ==>
      r.installed[i].version == s.versions[i] && r.installed[i].caption == installedLabel(s.versions[i])
    ensures DefaultFlagsAgree(s, r.installed)
    ensures forall i :: 0 <= i < |s.remote| ==>
      && r.available[i].remote == s.remote[i]
      && r.available[i].mono == useMono
      && r.available[i].caption == availableLabel(s.remote[i], useMono)
      && (r.available[i].visible <==> !LabelInstalled(r.installed, r.available[i].caption))
  {
    var installed := seq(|s.versions|, i requires 0 <= i < |s.versions| =>
      var v := s.versions[i];
      InstalledEntry(v, installedLabel(v), s.settings.defaultEngine == v.id));
    var available := seq(|s.remote|, i requires 0 <= i < |s.remote| =>
      AvailableEntry(s.remote[i], useMono, availableLabel(s.remote[i], useMono), true));
    Lists(installed, UpdateVisibility(installed, available))
  }

  /** Make the `k`-th installed entry the default engine. Selecting the entry
      that already is the default does nothing; otherwise the default becomes
      its id, it is the only entry flagged default, and the store is saved. */
  function OnDefaultSelected(s: Store, installed: seq<InstalledEntry>, k: nat): (r: (Store, seq<InstalledEntry>))
    requires k < |installed|
    ensures installed[k].version.id == s.settings.defaultEngine ==> r == (s, installed)
    ensures installed[k].version.id != s.settings.defaultEngine ==>
      && r.0 == s.(settings := s.settings.(defaultEngine := installed[k].version.id), saves := s.saves + 1)
      && |r.1| == |installed|
      && forall i :: 0 <= i < |installed| ==>
           r.1[i].(isDefault := installed[i].isDefault) == installed[i] && (r.1[i].isDefault <==> i == k)
  {
    var id := installed[k].version.id;
    if id == s.settings.defaultEngine then (s, installed)
    else
      var cleared := seq(|installed|, i requires 0 <= i < |installed| =>
        if installed[i].isDefault then installed[i].(isDefault := false) else installed[i]);
      var flagged := cleared[k := cleared[k].(isDefault := true)];
      (s.(settings := s.settings.(defaultEngine := id)).Save(), flagged)
  }

  /** Recomputing visibility a second time changes nothing. */
  lemma VisibilityIdempotent(installed: seq<InstalledEntry>, available: seq<AvailableEntry>)
    ensures var once := UpdateVisibility(installed, available);
      UpdateVisibility(installed, once) == once
  {
    var once := UpdateVisibility(installed, available);
    var twice := UpdateVisibility(installed, once);
    assert forall i :: 0 <= i < |once| ==> twice[i] == once[i];
  }

  /** With "3.5-stable" installed and "3.5-stable" and "3.6-stable" available,
      only "3.6-stable" stays visible. */
  lemma VisibilityExample(v: InstalledVersion, a: AvailableEntry, b: AvailableEntry)
    requires a.caption == "3.5-stable" && b.caption == "3.6-stable"
    ensures var r := UpdateVisibility([InstalledEntry(v, "3.5-stable", true)], [a, b]);
      !r[0].visible && r[1].visible
  {
    var r := UpdateVisibility([InstalledEntry(v, "3.5-stable", true)], [a, b]);
    assert !LabelInstalled([InstalledEntry(v, "3.5-stable", true)], "3.6-stable");
  }

  /** Distinct installed versions carry distinct ids. */
  predicate DistinctVersionIds(vs: seq<InstalledVersion>) {
    forall i, j :: 0 <= i < j < |vs| ==> vs[i].id != vs[j].id
  }

  /** The versions the installed entries show, in order. */
  function VersionsOf(installed: seq<InstalledEntry>): seq<InstalledVersion> {
    seq(|installed|, i requires 0 <= i < |installed| => installed[i].version)
  }

  /** Selecting a default keeps the flags in agreement with the store: after
      a fresh rebuild, exactly the entries showing the default are flagged,
      and a selection leaves exactly the selected entry flagged. */
  lemma SelectionKeepsFlagsAgreeing(s: Store, installed: seq<InstalledEntry>, k: nat)
    requires k < |installed|
    requires DefaultFlagsAgree(s, installed) && DistinctVersionIds(VersionsOf(installed))
    ensures var r := OnDefaultSelected(s, installed, k);
      && DefaultFlagsAgree(r.0, r.1)
      && r.0.settings.defaultEngine == installed[k].version.id
      && forall i :: 0 <= i < |r.1| ==> (r.1[i].isDefault <==> i == k)
  {
    var vs := VersionsOf(installed);
    forall i | 0 <= i < |installed| && i != k
      ensures installed[i].version.id != installed[k].version.id
    {
      assert vs[i] == installed[i].version && vs[k] == installed[k].version;
      assert vs[i].id != vs[k].id;
    }
  }

  /** Selecting the same entry twice is the same as selecting it once. */
  lemma SelectTwiceIsSelectOnce(s: Store, installed: seq<InstalledEntry>, k: nat)
    requires k < |installed|
    ensures var once := OnDefaultSelected(s, installed, k);
      OnDefaultSelected(once.0, once.1, k) == once
  {
  }

  /** After a rebuild from a store whose default names an installed version
      and whose ids are distinct, exactly one installed entry is flagged
      default, and it shows the default engine. */
  lemma PopulateFlagsOneDefault(s: Store, useMono: bool,
                                availableLabel: (RemoteVersion, bool) -> string,
                                installedLabel: InstalledVersion -> string)
    requires DistinctVersionIds(s.versions) && HasVersionId(s.versions, s.settings.defaultEngine)
    ensures var r := PopulateList(s, useMono, availableLabel, installedLabel).installed;
      exists k :: 0 <= k < |r| && r[k].isDefault && r[k].version.id == s.settings.defaultEngine &&
        forall i :: 0 <= i < |r| && r[i].isDefault ==> i == k
  {
    var r := PopulateList(s, useMono, availableLabel, installedLabel).installed;
    var k :| 0 <= k < |s.versions| && s.versions[k].id == s.settings.defaultEngine;
    assert r[k].isDefault;
  }

  /** Selecting a default on freshly rebuilt entries keeps the flags in
      agreement with the store, and leaves exactly the selected entry flagged. */
  lemma PopulateThenSelect(s: Store, useMono: bool,
                           availableLabel: (RemoteVersion, bool) -> string,
                           installedLabel: InstalledVersion -> string, k: nat)
    requires DistinctVersionIds(s.versions) && k < |s.versions|
    ensures var lists := PopulateList(s, useMono, availableLabel, installedLabel);
      var r := OnDefaultSelected(s, lists.installed, k);
      && DefaultFlagsAgree(r.0, r.1)
      && r.0.settings.defaultEngine == s.versions[k].id
      && forall i :: 0 <= i < |r.1| ==> (r.1[i].isDefault <==> i == k)
  {
    var lists := PopulateList(s, useMono, availableLabel, installedLabel);
    assert VersionsOf(lists.installed) == s.versions;
    SelectionKeepsFlagsAgreeing(s, lists.installed, k);
  }
}
