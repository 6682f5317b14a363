/** The update-check scheduler and the reconciler. The panel keeps, besides
    the persisted store, its own buffer of raw releases, which every fetch
    appends to and nothing ever clears; a gather converts the WHOLE buffer into
    remote versions and appends them to the store. */
module Updates {
  import opened Wrappers
  import opened Store
  import opened Fetch

  /** The panel's state: the persisted store and the release buffer. */
  datatype Panel = Panel(store: Store, releases: seq<Release>)

  /** The effect of one handler: the panel afterwards, the API calls made,
      whether a connection alert was raised, and the release offered in the
      "new version" dialog, if any. */
  datatype Step = Step(panel: Panel, requests: seq<Request>, alerted: bool, offered: Option<Release>)

  /** Fetch every page into the buffer, append one remote version per
      buffered release (no deduplication) and save. Whatever was buffered
      before a failed page is still converted and saved. */
  function GatherReleases(p: Panel, pages: seq<Option<seq<Release>>>): (r: Step)
    requires Terminating(pages)
    ensures r.panel.releases == p.releases + Concat(pages[..FirstStop(pages)])
    ensures r.panel.store.remote == p.store.remote + FromApiAll(r.panel.releases)
    ensures r.panel.store.versions == p.store.versions
    ensures r.panel.store.projects == p.store.projects
    ensures r.panel.store.settings == p.store.settings
    ensures r.panel.store.saves == p.store.saves + 1
    ensures |r.requests| == FirstStop(pages) + 1
    ensures forall j :: 0 <= j < |r.requests| ==> r.requests[j] == ReleasePage(PageSize, j + 1)
    ensures r.alerted <==> pages[FirstStop(pages)].None?
    ensures r.offered.None?
  {
    var fetched := GetReleases(pages, p.releases);
    var store := p.store.(remote := p.store.remote + FromApiAll(fetched.buffer)).Save();
    Step(Panel(store, fetched.buffer), fetched.requests, fetched.failed, None)
  }

  /** Ask for the latest release. If a remote version of that name is already
      known nothing else happens; otherwise the remote set is cleared, a full
      gather rebuilds it and the release is offered for download. Either way
      the check time becomes `now`, the clock read taken once the check has
      finished, and the store is saved. */
  function CheckForUpdates(p: Panel, latest: Release, pages: seq<Option<seq<Release>>>, now: int): (r: Step)
    requires Terminating(pages)
    ensures |r.requests| > 0 && r.requests[0] == LatestRelease
    ensures r.panel.store.settings == p.store.settings.(lastCheck := now)
    ensures r.panel.store.versions == p.store.versions
    ensures r.panel.store.projects == p.store.projects
    ensures KnowsName(p.store.remote, latest.name) ==>
      && r.panel == Panel(p.store.(settings := p.store.settings.(lastCheck := now), saves := p.store.saves + 1), p.releases)
      && r.requests == [LatestRelease]
      && !r.alerted
      && r.offered.None?
    ensures !KnowsName(p.store.remote, latest.name) ==>
      && r.panel.releases == p.releases + Concat(pages[..FirstStop(pages)])
      && r.panel.store.remote == FromApiAll(r.panel.releases)
      && r.panel.store.saves == p.store.saves + 2
      && |r.requests| == FirstStop(pages) + 2
      && (forall j :: 1 <= j < |r.requests| ==> r.requests[j] == ReleasePage(PageSize, j))
      && (r.alerted <==> pages[FirstStop(pages)].None?)
      && r.offered == Some(latest)
  {
    var gv := FromApi(latest);
    var checked :=
      if KnowsName(p.store.remote, gv.name) then Step(p, [LatestRelease], false, None)
      else
        var cleared := p.(store := p.store.(remote := []));
        var gathered := GatherReleases(cleared, pages);
        Step(gathered.panel, [LatestRelease] + gathered.requests, gathered.alerted, Some(latest));
    var store := checked.panel.store.(settings := checked.panel.store.settings.(lastCheck := now)).Save();
    checked.(panel := checked.panel.(store := store))
  }

  /** True when the update policy asks for a check at time `now`. */
  predicate CheckDue(s: Settings, now: int) {
    s.checkForUpdates && now - s.lastCheck >= s.checkInterval
  }

  /** The panel became (or did not become) the visible tab. With no remote
      versions a full gather runs whatever the policy says and the check time
      is left alone; otherwise an update check runs only when it is due at
      `now`, and records `checkedAt`, the second clock read, taken when it has
      finished. */
  function OnPageChanged(p: Panel, active: bool, now: int, checkedAt: int,
                         latest: Release, pages: seq<Option<seq<Release>>>): (r: Step)
    requires Terminating(pages)
    ensures !active ==> r == Step(p, [], false, None)
    ensures active && |p.store.remote| == 0 ==>
      && r == GatherReleases(p, pages)
      && r.panel.store.settings.lastCheck == p.store.settings.lastCheck
    ensures active && |p.store.remote| > 0 ==>
      (|r.requests| > 0 <==> CheckDue(p.store.settings, now))
    ensures active && |p.store.remote| > 0 && CheckDue(p.store.settings, now) ==>
      r == CheckForUpdates(p, latest, pages, checkedAt)
    ensures active && |p.store.remote| > 0 && !CheckDue(p.store.settings, now) ==>
      r == Step(p, [], false, None)
  {
    if !active then Step(p, [], false, None)
    else if |p.store.remote| == 0 then GatherReleases(p, pages)
    else if CheckDue(p.store.settings, now) then CheckForUpdates(p, latest, pages, checkedAt)
    else Step(p, [], false, None)
  }

  /** On first load the update policy plays no part: whatever
      CheckForUpdates, LastCheck and CheckInterval say, the same full gather
      runs and LastCheck keeps its value. */
  lemma FirstLoadIgnoresPolicy(p: Panel, policy: Settings, now: int, checkedAt: int,
                                latest: Release, pages: seq<Option<seq<Release>>>)
    requires Terminating(pages)
    requires |p.store.remote| == 0
    ensures var q := p.(store := p.store.(settings := policy));
      var a := OnPageChanged(p, true, now, checkedAt, latest, pages);
      var b := OnPageChanged(q, true, now, checkedAt, latest, pages);
      && a.requests == b.requests
      && a.panel.releases == b.panel.releases
      && a.panel.store.remote == b.panel.store.remote
      && b.panel.store.settings == policy
  {
  }

  /** With a non-empty remote set and update checks switched off, activating
      the page makes no API call and changes nothing. */
  lemma DisabledChecksMakeNoCalls(p: Panel, now: int, checkedAt: int,
                                  latest: Release, pages: seq<Option<seq<Release>>>)
    requires Terminating(pages)
    requires |p.store.remote| > 0 && !p.store.settings.checkForUpdates
    ensures OnPageChanged(p, true, now, checkedAt, latest, pages) == Step(p, [], false, None)
  {
  }

  /** A check whose latest release is already known leaves the remote set and
      the buffer alone, so checking again right away finds it known again and
      again changes nothing but the check time. */
  lemma KnownLatestIsIdempotent(p: Panel, latest: Release, pages: seq<Option<seq<Release>>>, now: int, later: int)
    requires Terminating(pages)
    requires KnowsName(p.store.remote, latest.name)
    ensures var once := CheckForUpdates(p, latest, pages, now);
      var twice := CheckForUpdates(once.panel, latest, pages, later);
      && once.panel.store.remote == p.store.remote
      && twice.panel.store.remote == p.store.remote
      && twice.panel.releases == p.releases
      && twice.panel.store.settings == p.store.settings.(lastCheck := later)
      && twice.requests == [LatestRelease]
  {
    var once := CheckForUpdates(p, latest, pages, now);
    assert KnowsName(once.panel.store.remote, latest.name);
  }

  /** First load of a catalog holding only `a`. */
  lemma FirstLoadOfOne(p: Panel, a: Release, pages: seq<Option<seq<Release>>>, now: int)
    requires p.store.remote == [] && p.releases == []
    requires pages == [Some([a]), Some([])]
    ensures Terminating(pages)
    ensures var first := OnPageChanged(p, true, now, now, a, pages);
      first.panel.releases == [a] && first.panel.store.remote == [FromApi(a)]
  {
    assert Stops(pages[1]);
    assert FirstStop(pages) == 1;
    assert pages[..1] == [Some([a])];
    assert Concat(pages[..1]) == [a];
  }

  /** A due check finds `b` unknown and rebuilds from the buffer `[a]` plus a
      fresh catalog listing `b` and `a`. */
  lemma UpdateAfterOne(p: Panel, a: Release, b: Release, pages: seq<Option<seq<Release>>>, now: int, checkedAt: int)
    requires p.releases == [a] && p.store.remote == [FromApi(a)] && a.name != b.name
    requires pages == [Some([b, a]), Some([])]
    requires CheckDue(p.store.settings, now)
    ensures Terminating(pages)
    ensures OnPageChanged(p, true, now, checkedAt, b, pages).panel.store.remote == [FromApi(a), FromApi(b), FromApi(a)]
  {
    assert Stops(pages[1]);
    assert FirstStop(pages) == 1;
    assert pages[..1] == [Some([b, a])];
    assert Concat(pages[..1]) == [b, a];
    assert !KnowsName(p.store.remote, b.name);
    var update := CheckForUpdates(p, b, pages, checkedAt);
    assert update.panel.releases == [a, b, a];
  }

  /** Because the release buffer is never cleared, the rebuild after a
      detected update re-appends every release fetched by earlier gathers:
      a first load of release A followed by an update to B yields the remote
      names A, B, A. */
  lemma RebuildKeepsStaleBuffer()
    ensures var a := Release("3.5-stable", "");
      var b := Release("3.6-stable", "");
      var empty := Store([], [], [], Settings(EmptyGuid, true, 0, 10), 0);
      var firstPages := [Some([a]), Some([])];
      var updatePages := [Some([b, a]), Some([])];
      && Terminating(firstPages)
      && Terminating(updatePages)
      && var first := OnPageChanged(Panel(empty, []), true, 0, 0, a, firstPages);
      && var update := OnPageChanged(first.panel, true, 10, 12, b, updatePages);
      && first.panel.store.remote == [FromApi(a)]
      && update.panel.store.remote == [FromApi(a), FromApi(b), FromApi(a)]
  {
    var a := Release("3.5-stable", "");
    var b := Release("3.6-stable", "");
    var empty := Store([], [], [], Settings(EmptyGuid, true, 0, 10), 0);
    var firstPages := [Some([a]), Some([])];
    var updatePages := [Some([b, a]), Some([])];
    FirstLoadOfOne(Panel(empty, []), a, firstPages, 0);
    var first := OnPageChanged(Panel(empty, []), true, 0, 0, a, firstPages);
    assert first.panel.store.settings == empty.settings;
    UpdateAfterOne(first.panel, a, b, updatePages, 10, 12);
  }
}
