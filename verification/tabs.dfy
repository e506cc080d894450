/**
 Browser tabs and the two selection rules that read the active tab: the
 inactive-tab classifier shared by the popup (popup/popup.js:46-62) and the
 background worker (background.js:56-69), and the popup's "close all"
 selection (popup/popup.js:429-430).
 */
module Tabs {
  import opened Basics
  import opened Seqs

  /** Host-assigned tab identifier. */
  type TabId = int

  /** A snapshot of one tab as `chrome.tabs.query` reports it. `lastAccessed`
      is in milliseconds since the epoch, or `None` when the host leaves it
      out; an absent title is `""`. */
  datatype Tab = Tab(
    id: TabId,
    url: string,
    title: string,
    lastAccessed: Option<int>,
    pinned: bool,
    active: bool)

  const MillisPerMinute: int := 60 * 1000

  /** `tabs.map(tab => tab.id)` */
  function Ids(tabs: seq<Tab>): (ids: seq<TabId>)
    ensures |ids| == |tabs|
    ensures forall i :: 0 <= i < |tabs| ==> ids[i] == tabs[i].id
    ensures forall t :: t in tabs ==> t.id in ids
    ensures forall id :: id in ids ==> exists t :: t in tabs && t.id == id
  {
    var ids := seq(|tabs|, i requires 0 <= i < |tabs| => tabs[i].id);
    assert forall t :: t in tabs ==> exists i :: 0 <= i < |tabs| && tabs[i] == t;
    assert forall id :: id in ids ==> exists i :: 0 <= i < |ids| && ids[i] == id;
    ids
  }

  /** Tab identifiers are unique while the tabs exist. */
  predicate UniqueIds(tabs: seq<Tab>) {
    forall i, j :: 0 <= i < j < |tabs| ==> tabs[i].id != tabs[j].id
  }

  /** Index of the first active tab at or after `from`. */
  function FirstActiveFrom(tabs: seq<Tab>, from: nat): (r: Option<nat>)
    requires from <= |tabs|
    ensures r.Some? ==> from <= r.value < |tabs| && tabs[r.value].active
    ensures r.Some? ==> forall j :: from <= j < r.value ==> !tabs[j].active
    ensures r.None? ==> forall j :: from <= j < |tabs| ==> !tabs[j].active
    decreases |tabs| - from
  {
    if from == |tabs| then None
    else if tabs[from].active then Some(from)
    else FirstActiveFrom(tabs, from + 1)
  }

  /** `tabs.find(tab => tab.active)`: the first active tab, if any. */
  function FindActive(tabs: seq<Tab>): (r: Option<Tab>)
    ensures r.None? <==> forall t :: t in tabs ==> !t.active
    ensures r.Some? ==> r.value in tabs && r.value.active
    ensures r.Some? ==> exists i :: 0 <= i < |tabs| && tabs[i] == r.value
                                    && forall j :: 0 <= j < i ==> !tabs[j].active
  {
    match FirstActiveFrom(tabs, 0)
    case Some(i) => Some(tabs[i])
    case None => None
  }

  /** `currentTab.id`, when there is a current tab. */
  function ActiveId(tabs: seq<Tab>): Option<TabId> {
    match FindActive(tabs)
    case Some(t) => Some(t.id)
    case None => None
  }

  /** Tabs last used strictly before this instant count as inactive. */
  function Cutoff(now: int, minutes: int): int {
    now - minutes * MillisPerMinute
  }

  /** `tab.lastAccessed < cutoff`. A missing `lastAccessed` compares as
      `undefined`, and every comparison with it is false. */
  predicate UsedBefore(t: Tab, cutoff: int) {
    t.lastAccessed.Some? && t.lastAccessed.value < cutoff
  }

  /** The predicate the filter applies once the active tab's id is known. */
  function InactiveAgainst(cutoff: int, activeId: TabId): Tab -> bool {
    (t: Tab) => UsedBefore(t, cutoff) && t.id != activeId && !t.pinned
  }

  /** The filter at popup/popup.js:54-59 and background.js:64-69. The
      predicate reads `currentTab.id` only after `lastAccessed < cutoff`
      holds, which it never does for a tab without `lastAccessed`. So with no
      active tab the callback throws exactly when some tab is stale, and
      otherwise returns an empty list. */
  function Classify(tabs: seq<Tab>, minutes: int, now: int): (r: Outcome<seq<Tab>>)
    ensures r.Threw? <==>
              && (forall t :: t in tabs ==> !t.active)
              && (exists t :: t in tabs && UsedBefore(t, Cutoff(now, minutes)))
    ensures r.Returned? ==> forall t ::
              t in r.value <==>
                && t in tabs
                && UsedBefore(t, Cutoff(now, minutes))
                && !t.pinned
                && ActiveId(tabs) != Some(t.id)
    ensures r.Returned? ==> IsSubsequence(r.value, tabs)
  {
    var cutoff := Cutoff(now, minutes);
    match FindActive(tabs)
    case Some(current) =>
      var kept := Filter(tabs, InactiveAgainst(cutoff, current.id));
      FilterIsSubsequence(tabs, InactiveAgainst(cutoff, current.id));
      Returned(kept)
    case None =>
      if exists t :: t in tabs && UsedBefore(t, cutoff) then Threw
      else Returned([])
  }

  /** The popup's `getInactiveTabs` (popup/popup.js:46-62), given the
      threshold as `parseInt` read it (popup/popup.js:384, 404): `None` is
      `NaN`. A failed query reads as no inactive tabs. A `NaN` threshold
      makes the cutoff `NaN`, so no tab passes `lastAccessed < cutoff` and
      the filter never reads `currentTab.id`. Otherwise the shared
      classifier decides. */
  function GetInactiveTabs(query: Reply<seq<Tab>>, minutes: Option<int>, now: int): (r: Outcome<seq<Tab>>)
    ensures query.HostError? || minutes.None? ==> r == Returned([])
    ensures query.Ok? && minutes.Some? ==>
              (r.Threw? <==> && (forall t :: t in query.value ==> !t.active)
                             && (exists t :: t in query.value && UsedBefore(t, Cutoff(now, minutes.value))))
    ensures query.Ok? && minutes.Some? && r.Returned? ==> forall t ::
              t in r.value <==>
                && t in query.value
                && UsedBefore(t, Cutoff(now, minutes.value))
                && !t.pinned
                && ActiveId(query.value) != Some(t.id)
    ensures query.Ok? && minutes.Some? && r.Returned? ==> IsSubsequence(r.value, query.value)
  {
    match query
    case Ok(tabs) =>
      if minutes.None? then Returned([]) else Classify(tabs, minutes.value, now)
    case HostError => Returned([])
  }

  /** `tab => tab.id !== currentTab.id` */
  function OtherThan(activeId: TabId): Tab -> bool {
    (t: Tab) => t.id != activeId
  }

  /** The "close all" selection: every tab but the active one, pinned tabs
      included, as ids in tab order. The filter reads `currentTab.id` for
      every tab, so with no active tab it throws unless there are no tabs. */
  function CloseAllIds(tabs: seq<Tab>): (r: Outcome<seq<TabId>>)
    ensures r.Threw? <==> |tabs| > 0 && forall t :: t in tabs ==> !t.active
    ensures r.Returned? ==> forall i :: 0 <= i < |tabs| ==>
              (tabs[i].id in r.value <==> ActiveId(tabs) != Some(tabs[i].id))
    ensures r.Returned? ==> IsSubsequence(r.value, Ids(tabs))
  {
    match FindActive(tabs)
    case Some(current) =>
      var others := Filter(tabs, OtherThan(current.id));
      FilterIsSubsequence(tabs, OtherThan(current.id));
      IdsOfSubsequence(others, tabs);
      Returned(Ids(others))
    case None =>
      if |tabs| > 0 then Threw else Returned([])
  }

  /** Taking ids keeps the order relation between two tab lists. */
  lemma {:induction false} IdsOfSubsequence(ys: seq<Tab>, xs: seq<Tab>)
    requires IsSubsequence(ys, xs)
    ensures IsSubsequence(Ids(ys), Ids(xs))
    decreases |xs|
  {
    if |ys| > 0 {
      assert Ids(xs)[1..] == Ids(xs[1..]);
      if ys[0] == xs[0] && IsSubsequence(ys[1..], xs[1..]) {
        IdsOfSubsequence(ys[1..], xs[1..]);
        assert Ids(ys)[1..] == Ids(ys[1..]);
      } else {
        IdsOfSubsequence(ys, xs[1..]);
      }
    }
  }

  lemma {:induction false} DropOneId(tabs: seq<Tab>, a: Tab)
    requires UniqueIds(tabs)
    requires a in tabs
    ensures |Filter(tabs, OtherThan(a.id))| == |tabs| - 1
    decreases |tabs|
  {
    var rest := tabs[1..];
    assert UniqueIds(rest);
    if tabs[0].id == a.id {
      assert forall t :: t in rest ==> t.id != a.id by {
        forall t | t in rest ensures t.id != a.id {
          var j :| 0 <= j < |rest| && rest[j] == t;
          assert tabs[j + 1] == t;
        }
      }
      FilterKeepsAll(rest, OtherThan(a.id));
    } else {
      assert a in rest;
      DropOneId(rest, a);
    }
  }

  /** With unique ids and a current tab, "close all" closes all but one tab. */
  lemma CloseAllSparesExactlyOne(tabs: seq<Tab>)
    requires UniqueIds(tabs)
    requires exists t :: t in tabs && t.active
    ensures CloseAllIds(tabs).Returned?
    ensures |CloseAllIds(tabs).value| == |tabs| - 1
  {
    DropOneId(tabs, FindActive(tabs).value);
  }

  /** A longer threshold never selects more tabs. */
  lemma ClassifyMonotone(tabs: seq<Tab>, shorter: int, longer: int, now: int)
    requires shorter <= longer
    requires Classify(tabs, shorter, now).Returned?
    ensures Classify(tabs, longer, now).Returned?
    ensures forall t :: t in Classify(tabs, longer, now).value ==> t in Classify(tabs, shorter, now).value
  {
    assert Cutoff(now, longer) <= Cutoff(now, shorter);
    assert forall t :: UsedBefore(t, Cutoff(now, longer)) ==> UsedBefore(t, Cutoff(now, shorter));
  }

  /** Only the FIRST active tab is spared: with two windows, the other
      window's active tab is classified like any other tab. */
  lemma OnlyFirstActiveTabIsSpared()
    ensures
      var a := Tab(1, "https://a.example/", "a", Some(0), false, true);
      var b := Tab(2, "https://b.example/", "b", Some(0), false, true);
      Classify([a, b], 1, MillisPerMinute + 1) == Returned([b])
  {
    var a := Tab(1, "https://a.example/", "a", Some(0), false, true);
    var b := Tab(2, "https://b.example/", "b", Some(0), false, true);
    var p := InactiveAgainst(1, 1);
    assert FirstActiveFrom([a, b], 0) == Some(0);
    assert Filter([b], p) == [b];
    assert Filter([a, b], p) == Filter([a, b][1..], p);
    assert [a, b][1..] == [b];
  }

  /** Tabs the host reports without `lastAccessed` are never stale: they are
      not selected, and even with no active tab they never make the filter
      throw. */
  lemma UntimedTabsNeverSelected(tabs: seq<Tab>, minutes: int, now: int)
    requires forall t :: t in tabs ==> t.lastAccessed.None?
    ensures Classify(tabs, minutes, now) == Returned([])
  {
  }

  /** With no active tab, any stale tab makes the filter throw. */
  lemma NoActiveTabThrows()
    ensures
      var t := Tab(1, "https://a.example/", "a", Some(0), false, false);
      Classify([t], 1, MillisPerMinute + 1).Threw?
  {
  }

  /** Scenario: an active tab, a pinned stale tab, a stale tab and a recent
      tab with a 60-minute threshold: only the stale unpinned tab is chosen. */
  lemma OneHourScenario()
    ensures
      var active := Tab(1, "a", "a", Some(36000000), false, true);
      var pinned := Tab(2, "b", "b", Some(28800000), true, false);
      var stale := Tab(3, "c", "c", Some(28800000), false, false);
      var recent := Tab(4, "d", "d", Some(35400000), false, false);
      Classify([active, pinned, stale, recent], 60, 36000000) == Returned([stale])
  {
    var active := Tab(1, "a", "a", Some(36000000), false, true);
    var pinned := Tab(2, "b", "b", Some(28800000), true, false);
    var stale := Tab(3, "c", "c", Some(28800000), false, false);
    var recent := Tab(4, "d", "d", Some(35400000), false, false);
    var tabs := [active, pinned, stale, recent];
    assert Cutoff(36000000, 60) == 32400000;
    var p := InactiveAgainst(32400000, 1);
    assert FirstActiveFrom(tabs, 0) == Some(0);
    assert Filter([recent], p) == [];
    assert [stale, recent][1..] == [recent];
    assert Filter([stale, recent], p) == [stale];
    assert [pinned, stale, recent][1..] == [stale, recent];
    assert Filter([pinned, stale, recent], p) == [stale];
    assert tabs[1..] == [pinned, stale, recent];
    assert Filter(tabs, p) == [stale];
  }
}
