/**
 Duplicate-tab detection (popup/popup.js:447-456): walk the tabs in order,
 remember every URL seen, and report a tab when its URL was seen before.
 */
module Duplicates {
  import opened Tabs

  /** Some earlier tab has the same URL as tab `i`. */
  ghost predicate SeenEarlier(tabs: seq<Tab>, i: int)
    requires 0 <= i < |tabs|
  {
    exists j :: 0 <= j < i && tabs[j].url == tabs[i].url
  }

  /** The URLs of `tabs`. */
  ghost function UrlsOf(tabs: seq<Tab>): set<string> {
    set t | t in tabs :: t.url
  }

  /** Reference definition: ids of the tabs among the first `n` whose URL
      occurred earlier, in tab order. */
  ghost function ReportedUpTo(tabs: seq<Tab>, n: nat): seq<TabId>
    requires n <= |tabs|
  {
    if n == 0 then []
    else ReportedUpTo(tabs, n - 1) + (if SeenEarlier(tabs, n - 1) then [tabs[n - 1].id] else [])
  }

  /** The tabs among the first `n` that are NOT reported: the first tab of
      each URL. */
  ghost function KeptUpTo(tabs: seq<Tab>, n: nat): seq<Tab>
    requires n <= |tabs|
  {
    if n == 0 then []
    else KeptUpTo(tabs, n - 1) + (if SeenEarlier(tabs, n - 1) then [] else [tabs[n - 1]])
  }

  lemma UrlsOfPrefix(tabs: seq<Tab>, i: nat)
    requires i < |tabs|
    ensures UrlsOf(tabs[..i + 1]) == UrlsOf(tabs[..i]) + {tabs[i].url}
    ensures tabs[i].url in UrlsOf(tabs[..i]) <==> SeenEarlier(tabs, i)
    ensures ReportedUpTo(tabs, i + 1) ==
              ReportedUpTo(tabs, i) + (if SeenEarlier(tabs, i) then [tabs[i].id] else [])
  {
    assert tabs[..i + 1] == tabs[..i] + [tabs[i]];
    if tabs[i].url in UrlsOf(tabs[..i]) {
      var t :| t in tabs[..i] && t.url == tabs[i].url;
      var j :| 0 <= j < i && tabs[..i][j] == t;
      assert tabs[j].url == tabs[i].url;
    }
    if SeenEarlier(tabs, i) {
      var j :| 0 <= j < i && tabs[j].url == tabs[i].url;
      assert tabs[..i][j] == tabs[j];
    }
  }

  /** The popup's loop: a URL set and the list of duplicate ids. */
  method FindDuplicates(tabs: seq<Tab>) returns (duplicateIds: seq<TabId>)
    ensures duplicateIds == ReportedUpTo(tabs, |tabs|)
    ensures |duplicateIds| == |tabs| - |UrlsOf(tabs)|
  {
    var urlSet: set<string> := {};
    duplicateIds := [];
    for i := 0 to |tabs|
      invariant urlSet == UrlsOf(tabs[..i])
      invariant duplicateIds == ReportedUpTo(tabs, i)
      invariant |duplicateIds| == i - |urlSet|
    {
      UrlsOfPrefix(tabs, i);
      if tabs[i].url in urlSet {
        assert UrlsOf(tabs[..i + 1]) == urlSet;
        duplicateIds := duplicateIds + [tabs[i].id];
      } else {
        assert |urlSet + {tabs[i].url}| == |urlSet| + 1;
        urlSet := urlSet + {tabs[i].url};
      }
    }
    assert tabs[..|tabs|] == tabs;
  }

  /** Tab `i`'s id is reported exactly when an earlier tab has its URL; so
      the first tab of each URL is never reported, and active or pinned tabs
      get no exemption. */
  lemma {:induction false} ReportedIff(tabs: seq<Tab>, n: nat, i: nat)
    requires UniqueIds(tabs)
    requires n <= |tabs|
    requires i < |tabs|
    ensures tabs[i].id in ReportedUpTo(tabs, n) <==> i < n && SeenEarlier(tabs, i)
    decreases n
  {
    if n > 0 {
      ReportedIff(tabs, n - 1, i);
      if i != n - 1 {
        assert tabs[i].id != tabs[n - 1].id;
      }
    }
  }

  lemma UrlsOfAppend(prev: seq<Tab>, t: Tab)
    ensures UrlsOf(prev + [t]) == UrlsOf(prev) + {t.url}
  {
    assert forall u :: u in prev + [t] <==> u in prev || u == t;
  }

  /** The tabs left after closing the reported ones carry every URL of the
      window. */
  lemma {:induction false} KeptCoversAllUrls(tabs: seq<Tab>, n: nat)
    requires n <= |tabs|
    ensures UrlsOf(KeptUpTo(tabs, n)) == UrlsOf(tabs[..n])
    decreases n
  {
    if n > 0 {
      KeptCoversAllUrls(tabs, n - 1);
      UrlsOfPrefix(tabs, n - 1);
      var prev := KeptUpTo(tabs, n - 1);
      if !SeenEarlier(tabs, n - 1) {
        UrlsOfAppend(prev, tabs[n - 1]);
      }
    }
  }

  /** ... and no URL twice. */
  lemma {:induction false} KeptUrlsDistinct(tabs: seq<Tab>, n: nat)
    requires n <= |tabs|
    ensures forall a, b :: 0 <= a < b < |KeptUpTo(tabs, n)| ==>
              KeptUpTo(tabs, n)[a].url != KeptUpTo(tabs, n)[b].url
    decreases n
  {
    if n > 0 {
      KeptUrlsDistinct(tabs, n - 1);
      var prev := KeptUpTo(tabs, n - 1);
      if !SeenEarlier(tabs, n - 1) {
        KeptCoversAllUrls(tabs, n - 1);
        UrlsOfPrefix(tabs, n - 1);
        forall a | 0 <= a < |prev|
          ensures prev[a].url != tabs[n - 1].url
        {
          assert prev[a] in prev;
        }
      }
    }
  }

  /** Every tab is either reported or kept. */
  lemma {:induction false} ReportedPlusKept(tabs: seq<Tab>, n: nat)
    requires n <= |tabs|
    ensures |KeptUpTo(tabs, n)| + |ReportedUpTo(tabs, n)| == n
    decreases n
  {
    if n > 0 {
      ReportedPlusKept(tabs, n - 1);
    }
  }
}
