/**
 Grouping tabs by domain (popup/popup.js:281-343): the domain key of a tab,
 the buckets of unpinned tabs per domain in first-occurrence order, and the
 group requests made for buckets of two or more tabs with cycling colours.
 */
module Domains {
  import opened Basics
  import opened Seqs
  import opened Tabs

  const WwwPrefix: string := "www."
  const FallbackDomain: string := "other"

  /** `getDomainFromUrl`: the URL's hostname with one leading `www.`
      removed, or `"other"` when the URL does not parse. `host` is the
      result of `new URL(url).hostname` (`None` when the constructor throws). */
  function DomainKey(host: Option<string>): (key: string)
    ensures host.None? ==> key == FallbackDomain
    ensures host.Some? ==> host.value == key || host.value == WwwPrefix + key
    ensures host.Some? ==>
              (|host.value| >= 4 && host.value[..4] == WwwPrefix <==> host.value == WwwPrefix + key)
  {
    match host
    case None => FallbackDomain
    case Some(h) =>
      if |h| >= 4 && h[..4] == WwwPrefix then
        assert h == WwwPrefix + h[4..];
        h[4..]
      else h
  }

  /** Only one `www.` is removed: the regular expression is anchored and
      not global. */
  lemma StripsOnePrefixOnly()
    ensures DomainKey(Some("www.www.example.com")) == "www.example.com"
  {
    assert "www.www.example.com"[..4] == WwwPrefix;
    assert "www.www.example.com"[4..] == "www.example.com";
  }

  /** The domain key of a tab, given the host's URL parser. */
  function DomainOf(t: Tab, hostOf: string -> Option<string>): string {
    DomainKey(hostOf(t.url))
  }

  /** One entry of `domainGroups`: a domain and its tabs in tab order. */
  datatype Bucket = Bucket(domain: string, members: seq<Tab>)

  function BucketDomains(bs: seq<Bucket>): (ds: seq<string>)
    ensures |ds| == |bs|
    ensures forall i :: 0 <= i < |bs| ==> ds[i] == bs[i].domain
  {
    seq(|bs|, i requires 0 <= i < |bs| => bs[i].domain)
  }

  /** The tabs filed under `key` (none when there is no such bucket). */
  function MembersOf(bs: seq<Bucket>, key: string): seq<Tab> {
    if |bs| == 0 then []
    else if bs[0].domain == key then bs[0].members
    else MembersOf(bs[1..], key)
  }

  lemma ConsDomains(b: Bucket, bs: seq<Bucket>)
    ensures BucketDomains([b] + bs) == [b.domain] + BucketDomains(bs)
  {
  }

  lemma ConsMembers(b: Bucket, bs: seq<Bucket>, k: string)
    ensures MembersOf([b] + bs, k) == if b.domain == k then b.members else MembersOf(bs, k)
  {
    assert ([b] + bs)[1..] == bs;
  }

  /** `domainGroups[domain].push(tab)`, creating the bucket at the end when
      the domain is new. */
  function AddTab(bs: seq<Bucket>, key: string, t: Tab): seq<Bucket>
    decreases |bs|
  {
    if |bs| == 0 then [Bucket(key, [t])]
    else if bs[0].domain == key then [Bucket(key, bs[0].members + [t])] + bs[1..]
    else [bs[0]] + AddTab(bs[1..], key, t)
  }

  /** Filing a tab adds its domain at the end of the domain list when the
      domain is new, and changes the list in no other way. */
  lemma {:induction false} AddTabDomains(bs: seq<Bucket>, key: string, t: Tab)
    ensures BucketDomains(AddTab(bs, key, t)) == BucketDomains(bs) + (if key in BucketDomains(bs) then [] else [key])
    decreases |bs|
  {
    if |bs| > 0 {
      var head := bs[0];
      assert bs == [head] + bs[1..];
      ConsDomains(head, bs[1..]);
      if head.domain == key {
        ConsDomains(Bucket(key, head.members + [t]), bs[1..]);
      } else {
        AddTabDomains(bs[1..], key, t);
        ConsDomains(head, AddTab(bs[1..], key, t));
      }
    }
  }

  /** Filing a tab appends it to its domain's tabs; every other domain's
      tabs stay as they were. */
  lemma {:induction false} AddTabFiles(bs: seq<Bucket>, key: string, t: Tab, k: string)
    ensures MembersOf(AddTab(bs, key, t), k) == MembersOf(bs, k) + (if k == key then [t] else [])
    decreases |bs|
  {
    if |bs| > 0 {
      var head := bs[0];
      assert bs == [head] + bs[1..];
      ConsMembers(head, bs[1..], k);
      if head.domain == key {
        ConsMembers(Bucket(key, head.members + [t]), bs[1..], k);
      } else {
        AddTabFiles(bs[1..], key, t, k);
        ConsMembers(head, AddTab(bs[1..], key, t), k);
      }
    }
  }

  /** No bucket is ever empty. */
  lemma {:induction false} AddTabNonEmpty(bs: seq<Bucket>, key: string, t: Tab)
    requires forall i :: 0 <= i < |bs| ==> |bs[i].members| > 0
    ensures forall i :: 0 <= i < |AddTab(bs, key, t)| ==> |AddTab(bs, key, t)[i].members| > 0
    decreases |bs|
  {
    if |bs| > 0 && bs[0].domain != key {
      AddTabNonEmpty(bs[1..], key, t);
      var r := AddTab(bs, key, t);
      forall i | 1 <= i < |r| ensures |r[i].members| > 0 {
        assert r[i] == AddTab(bs[1..], key, t)[i - 1];
      }
    }
  }

  lemma DistinctAppendNew(xs: seq<string>, x: string)
    requires Distinct(xs) && x !in xs
    ensures Distinct(xs + [x])
  {
    var ys := xs + [x];
    forall i, j | 0 <= i < j < |ys| ensures ys[i] != ys[j] {
      assert ys[i] == xs[i];
      if j < |xs| { assert ys[j] == xs[j]; }
    }
  }

  /** No domain ever has two buckets. */
  lemma AddTabKeepsDistinct(bs: seq<Bucket>, key: string, t: Tab)
    requires Distinct(BucketDomains(bs))
    ensures Distinct(BucketDomains(AddTab(bs, key, t)))
  {
    AddTabDomains(bs, key, t);
    if key !in BucketDomains(bs) {
      DistinctAppendNew(BucketDomains(bs), key);
    }
  }

  /** The tabs that belong in the bucket for `key`: unpinned, on that domain. */
  function OnDomain(hostOf: string -> Option<string>, key: string): Tab -> bool {
    (t: Tab) => !t.pinned && DomainOf(t, hostOf) == key
  }

  /** The domains of the unpinned tabs, in tab order, repeats included. */
  function UnpinnedDomains(tabs: seq<Tab>, hostOf: string -> Option<string>): seq<string>
    decreases |tabs|
  {
    if |tabs| == 0 then []
    else
      var t := tabs[|tabs| - 1];
      UnpinnedDomains(tabs[..|tabs| - 1], hostOf) + (if t.pinned then [] else [DomainOf(t, hostOf)])
  }

  /** The `forEach` at popup/popup.js:304-315: pinned tabs are set aside, every
      other tab is filed under its domain; buckets appear in the order their
      domain first occurs. Each bucket holds exactly the unpinned tabs of its
      domain, in tab order, and no domain has two buckets. This is the outcome
      when no key is in `PrototypeKeys`; `GroupTabsByDomain` handles the
      other case. */
  function Bucketize(tabs: seq<Tab>, hostOf: string -> Option<string>): (bs: seq<Bucket>)
    ensures Distinct(BucketDomains(bs))
    ensures forall i :: 0 <= i < |bs| ==> |bs[i].members| > 0
    ensures forall k :: MembersOf(bs, k) == Filter(tabs, OnDomain(hostOf, k))
    decreases |tabs|
  {
    if |tabs| == 0 then []
    else
      var init := tabs[..|tabs| - 1];
      var t := tabs[|tabs| - 1];
      assert tabs == init + [t];
      var prev := Bucketize(init, hostOf);
      forall k ensures Filter(tabs, OnDomain(hostOf, k)) ==
                       Filter(init, OnDomain(hostOf, k)) + (if OnDomain(hostOf, k)(t) then [t] else []) {
        FilterAppend(init, t, OnDomain(hostOf, k));
      }
      if t.pinned then prev
      else
        forall k ensures MembersOf(AddTab(prev, DomainOf(t, hostOf), t), k)
                           == MembersOf(prev, k) + (if k == DomainOf(t, hostOf) then [t] else []) {
          AddTabFiles(prev, DomainOf(t, hostOf), t, k);
        }
        AddTabNonEmpty(prev, DomainOf(t, hostOf), t);
        AddTabKeepsDistinct(prev, DomainOf(t, hostOf), t);
        AddTab(prev, DomainOf(t, hostOf), t)
  }

  /** Buckets come in the order their domain first occurs among the
      unpinned tabs, the order `Object.entries` lists them in. */
  lemma {:induction false} BucketsInFirstOccurrenceOrder(tabs: seq<Tab>, hostOf: string -> Option<string>)
    ensures BucketDomains(Bucketize(tabs, hostOf)) == Dedup(UnpinnedDomains(tabs, hostOf))
    decreases |tabs|
  {
    if |tabs| > 0 {
      var init := tabs[..|tabs| - 1];
      var t := tabs[|tabs| - 1];
      BucketsInFirstOccurrenceOrder(init, hostOf);
      var prev := Bucketize(init, hostOf);
      var before := UnpinnedDomains(init, hostOf);
      if t.pinned {
        assert Bucketize(tabs, hostOf) == prev;
        assert UnpinnedDomains(tabs, hostOf) == before;
      } else {
        var key := DomainOf(t, hostOf);
        assert Bucketize(tabs, hostOf) == AddTab(prev, key, t);
        AddTabDomains(prev, key, t);
        assert UnpinnedDomains(tabs, hostOf) == before + [key];
        DedupAppend(before, key);
      }
    }
  }

  lemma {:induction false} MembersOfBucket(bs: seq<Bucket>, i: nat)
    requires Distinct(BucketDomains(bs))
    requires i < |bs|
    ensures MembersOf(bs, bs[i].domain) == bs[i].members
    decreases |bs|
  {
    if i > 0 {
      assert BucketDomains(bs)[0] != BucketDomains(bs)[i];
      assert BucketDomains(bs[1..]) == BucketDomains(bs)[1..];
      MembersOfBucket(bs[1..], i - 1);
    }
  }

  lemma {:induction false} MembersOfFound(bs: seq<Bucket>, key: string)
    requires MembersOf(bs, key) != []
    ensures key in BucketDomains(bs)
    decreases |bs|
  {
    assert BucketDomains(bs)[0] == bs[0].domain;
    if bs[0].domain != key {
      assert BucketDomains(bs[1..]) == BucketDomains(bs)[1..];
      MembersOfFound(bs[1..], key);
    }
  }

  /** Pinned tabs are in no bucket; every other tab is in exactly the bucket
      of its own domain, and that bucket exists. */
  lemma EveryUnpinnedTabInOneBucket(tabs: seq<Tab>, hostOf: string -> Option<string>, t: Tab)
    requires t in tabs
    ensures var bs := Bucketize(tabs, hostOf);
            forall i :: 0 <= i < |bs| ==> (t in bs[i].members <==> !t.pinned && bs[i].domain == DomainOf(t, hostOf))
    ensures !t.pinned ==> DomainOf(t, hostOf) in BucketDomains(Bucketize(tabs, hostOf))
  {
    var bs := Bucketize(tabs, hostOf);
    forall i | 0 <= i < |bs|
      ensures t in bs[i].members <==> !t.pinned && bs[i].domain == DomainOf(t, hostOf)
    {
      MembersOfBucket(bs, i);
    }
    if !t.pinned {
      var key := DomainOf(t, hostOf);
      assert t in Filter(tabs, OnDomain(hostOf, key));
      MembersOfFound(bs, key);
    }
  }

  /** The eight colours of `getGroupColors`, in order. */
  datatype Color = Blue | Red | Yellow | Green | Pink | Purple | Cyan | Orange

  const Palette: seq<Color> := [Blue, Red, Yellow, Green, Pink, Purple, Cyan, Orange]

  /** The arguments of one `chrome.tabs.group` + `chrome.tabGroups.update`. */
  datatype GroupRequest = GroupRequest(title: string, tabIds: seq<TabId>, color: Color)

  /** A bucket gets a group when it has at least two tabs. */
  predicate HasTwoTabs(b: Bucket) {
    |b.members| >= 2
  }

  /** `colors[colorIndex % colors.length]` */
  function ColorAt(colorIndex: nat): Color {
    Palette[colorIndex % 8]
  }

  /** The request made for bucket `b` when the colour index is `colorIndex`. */
  function RequestFor(b: Bucket, colorIndex: nat): GroupRequest {
    GroupRequest(b.domain, Ids(b.members), ColorAt(colorIndex))
  }

  /** The `Object.entries(domainGroups).forEach` loop: a bucket with fewer than
      two tabs returns early, before `colorIndex++`, so only grouped buckets
      advance the colour. */
  function PlanFrom(bs: seq<Bucket>, colorIndex: nat): (plan: seq<GroupRequest>)
    ensures |plan| <= |bs|
    ensures forall k :: 0 <= k < |plan| ==> |plan[k].tabIds| >= 2
    decreases |bs|
  {
    if |bs| == 0 then []
    else if |bs[0].members| < 2 then PlanFrom(bs[1..], colorIndex)
    else [RequestFor(bs[0], colorIndex)] + PlanFrom(bs[1..], colorIndex + 1)
  }

  /** Prepending one matched request keeps requests and buckets matched,
      with colour numbers shifted by one. */
  lemma MatchedCons(first: GroupRequest, b: Bucket, restPlan: seq<GroupRequest>, restEligible: seq<Bucket>, colorIndex: nat)
    requires first == RequestFor(b, colorIndex)
    requires |restPlan| == |restEligible|
    requires forall j :: 0 <= j < |restPlan| ==> restPlan[j] == RequestFor(restEligible[j], colorIndex + 1 + j)
    ensures forall k :: 0 <= k < |restPlan| + 1 ==>
              ([first] + restPlan)[k] == RequestFor(([b] + restEligible)[k], colorIndex + k)
  {
    forall k | 1 <= k < |restPlan| + 1
      ensures ([first] + restPlan)[k] == RequestFor(([b] + restEligible)[k], colorIndex + k)
    {
      var j := k - 1;
      assert ([first] + restPlan)[k] == restPlan[j];
      assert ([b] + restEligible)[k] == restEligible[j];
      assert colorIndex + 1 + j == colorIndex + k;
    }
  }

  /** The buckets with two or more tabs, in order. */
  function Eligible(bs: seq<Bucket>): seq<Bucket>
    decreases |bs|
  {
    if |bs| == 0 then []
    else if |bs[0].members| >= 2 then [bs[0]] + Eligible(bs[1..])
    else Eligible(bs[1..])
  }

  lemma {:induction false} EligibleIsFilter(bs: seq<Bucket>)
    ensures Eligible(bs) == Filter(bs, HasTwoTabs)
    decreases |bs|
  {
    if |bs| > 0 {
      EligibleIsFilter(bs[1..]);
    }
  }

  /** The k-th request made is for the k-th bucket with two or more tabs, and
      it gets colour number `colorIndex + k`, cycling through eight. */
  lemma {:induction false} PlanMatchesEligible(bs: seq<Bucket>, colorIndex: nat)
    ensures |PlanFrom(bs, colorIndex)| == |Eligible(bs)|
    ensures forall k :: 0 <= k < |PlanFrom(bs, colorIndex)| ==>
              PlanFrom(bs, colorIndex)[k] == RequestFor(Eligible(bs)[k], colorIndex + k)
    decreases |bs|
  {
    if |bs| > 0 {
      if |bs[0].members| < 2 {
        PlanMatchesEligible(bs[1..], colorIndex);
      } else {
        PlanMatchesEligible(bs[1..], colorIndex + 1);
        MatchedCons(RequestFor(bs[0], colorIndex), bs[0],
                    PlanFrom(bs[1..], colorIndex + 1), Eligible(bs[1..]), colorIndex);
      }
    }
  }

  /** Where the `k`-th bucket with two or more tabs sits among all buckets. */
  lemma {:induction false} EligibleAt(bs: seq<Bucket>, k: nat) returns (i: nat)
    requires k < |Eligible(bs)|
    ensures i < |bs| && bs[i] == Eligible(bs)[k] && |bs[i].members| >= 2
    decreases |bs|
  {
    if |bs[0].members| >= 2 && k == 0 {
      i := 0;
    } else {
      var j := EligibleAt(bs[1..], if |bs[0].members| >= 2 then k - 1 else k);
      i := j + 1;
    }
  }

  /** Over buckets with distinct domains, request `k` carries colour
      `k mod 8` and all the tabs filed under its title, at least two. */
  lemma PlanRequestOfBuckets(bs: seq<Bucket>, k: nat)
    requires Distinct(BucketDomains(bs))
    requires k < |PlanFrom(bs, 0)|
    ensures var req := PlanFrom(bs, 0)[k];
            && req.color == Palette[k % 8]
            && |req.tabIds| >= 2
            && req.tabIds == Ids(MembersOf(bs, req.title))
  {
    PlanMatchesEligible(bs, 0);
    var i := EligibleAt(bs, k);
    MembersOfBucket(bs, i);
  }

  /** Request `k` of the plan carries colour `k mod 8` and exactly the
      unpinned tabs of its domain, at least two of them. */
  lemma PlanRequest(tabs: seq<Tab>, hostOf: string -> Option<string>, k: nat)
    requires k < |PlanFrom(Bucketize(tabs, hostOf), 0)|
    ensures var req := PlanFrom(Bucketize(tabs, hostOf), 0)[k];
            && req.color == Palette[k % 8]
            && |req.tabIds| >= 2
            && req.tabIds == Ids(Filter(tabs, OnDomain(hostOf, req.title)))
  {
    var bs := Bucketize(tabs, hostOf);
    PlanRequestOfBuckets(bs, k);
    var req := PlanFrom(bs, 0)[k];
    assert MembersOf(bs, req.title) == Filter(tabs, OnDomain(hostOf, req.title));
  }

  /** The domains the requests are made for, in request order. */
  function Titles(plan: seq<GroupRequest>): (ts: seq<string>)
    ensures |ts| == |plan|
    ensures forall k :: 0 <= k < |plan| ==> ts[k] == plan[k].title
  {
    seq(|plan|, k requires 0 <= k < |plan| => plan[k].title)
  }

  /** A domain with two or more unpinned tabs. */
  function Crowded(tabs: seq<Tab>, hostOf: string -> Option<string>): string -> bool {
    (key: string) => |Filter(tabs, OnDomain(hostOf, key))| >= 2
  }

  /** When `p` holds of exactly the domains with two or more tabs, the
      eligible buckets' domains are `BucketDomains(bs)` filtered by `p`. */
  lemma {:induction false} EligibleDomains(bs: seq<Bucket>, p: string -> bool)
    requires forall i :: 0 <= i < |bs| ==> (p(bs[i].domain) <==> |bs[i].members| >= 2)
    ensures BucketDomains(Eligible(bs)) == Filter(BucketDomains(bs), p)
    decreases |bs|
  {
    if |bs| > 0 {
      var rest := bs[1..];
      forall i | 0 <= i < |rest| ensures p(rest[i].domain) <==> |rest[i].members| >= 2 {
        assert rest[i] == bs[i + 1];
      }
      EligibleDomains(rest, p);
      assert BucketDomains(bs)[1..] == BucketDomains(rest);
      if |bs[0].members| >= 2 {
        ConsDomains(bs[0], Eligible(rest));
      }
    }
  }

  /** The requests' titles are the eligible buckets' domains. */
  lemma TitlesAreEligibleDomains(bs: seq<Bucket>)
    ensures Titles(PlanFrom(bs, 0)) == BucketDomains(Eligible(bs))
  {
    var plan := PlanFrom(bs, 0);
    PlanMatchesEligible(bs, 0);
    forall k | 0 <= k < |plan| ensures Titles(plan)[k] == BucketDomains(Eligible(bs))[k] {
      assert plan[k] == RequestFor(Eligible(bs)[k], k);
    }
  }

  /** Over buckets that file each domain's unpinned tabs once, the
      requests' titles are the bucket domains that are crowded. */
  lemma TitlesOfBuckets(tabs: seq<Tab>, hostOf: string -> Option<string>, bs: seq<Bucket>)
    requires Distinct(BucketDomains(bs))
    requires forall k :: MembersOf(bs, k) == Filter(tabs, OnDomain(hostOf, k))
    ensures Titles(PlanFrom(bs, 0)) == Filter(BucketDomains(bs), Crowded(tabs, hostOf))
  {
    TitlesAreEligibleDomains(bs);
    forall i | 0 <= i < |bs| ensures Crowded(tabs, hostOf)(bs[i].domain) <==> |bs[i].members| >= 2 {
      MembersOfBucket(bs, i);
    }
    EligibleDomains(bs, Crowded(tabs, hostOf));
  }

  /** The requests come in the order each domain first occurs among the
      unpinned tabs, and exactly the domains with two or more unpinned tabs
      get one. */
  lemma GroupTitlesInOrder(tabs: seq<Tab>, hostOf: string -> Option<string>)
    ensures Titles(PlanFrom(Bucketize(tabs, hostOf), 0))
              == Filter(Dedup(UnpinnedDomains(tabs, hostOf)), Crowded(tabs, hostOf))
  {
    TitlesOfBuckets(tabs, hostOf, Bucketize(tabs, hostOf));
    BucketsInFirstOccurrenceOrder(tabs, hostOf);
  }

  /** The property names every plain object inherits from `Object.prototype`.
      For such a key `domainGroups[domain]` is already truthy (a function, or
      the prototype itself for `__proto__`), so no array is created and the
      following `push` is not a function. */
  const PrototypeKeys: set<string> := {
    "constructor", "hasOwnProperty", "isPrototypeOf", "propertyIsEnumerable",
    "toLocaleString", "toString", "valueOf", "__proto__",
    "__defineGetter__", "__defineSetter__", "__lookupGetter__", "__lookupSetter__"
  }

  /** What `groupTabsByDomain` does: report a failed tab query, stop when
      filing a tab throws, or request the planned groups. */
  datatype Grouping = QueryFailed | Aborted | Requests(plan: seq<GroupRequest>)

  /** `groupTabsByDomain`: an error from the tab query yields no requests
      (the popup shows an alert). An unpinned tab whose key names an
      inherited property makes `domainGroups[domain].push(tab)` throw a
      `TypeError` inside the `forEach`, so the callback stops before any
      group is requested. Otherwise every crowded domain is requested. */
  function GroupTabsByDomain(query: Reply<seq<Tab>>, hostOf: string -> Option<string>): (r: Grouping)
    ensures r.QueryFailed? <==> query.HostError?
    ensures r.Aborted? <==>
              && query.Ok?
              && exists t :: t in query.value && !t.pinned && DomainOf(t, hostOf) in PrototypeKeys
    ensures r.Requests? ==> forall k :: 0 <= k < |r.plan| ==>
              && r.plan[k].color == Palette[k % 8]
              && |r.plan[k].tabIds| >= 2
              && r.plan[k].tabIds == Ids(Filter(query.value, OnDomain(hostOf, r.plan[k].title)))
    ensures r.Requests? ==>
              && Titles(r.plan) == Filter(Dedup(UnpinnedDomains(query.value, hostOf)), Crowded(query.value, hostOf))
              && Distinct(Titles(r.plan))
  {
    match query
    case HostError => QueryFailed
    case Ok(tabs) =>
      if exists t :: t in tabs && !t.pinned && DomainOf(t, hostOf) in PrototypeKeys then Aborted
      else
        var plan := PlanFrom(Bucketize(tabs, hostOf), 0);
        forall k | 0 <= k < |plan|
          ensures plan[k].color == Palette[k % 8]
          ensures |plan[k].tabIds| >= 2
          ensures plan[k].tabIds == Ids(Filter(tabs, OnDomain(hostOf, plan[k].title)))
        {
          PlanRequest(tabs, hostOf, k);
        }
        GroupTitlesInOrder(tabs, hostOf);
        FilterKeepsDistinct(Dedup(UnpinnedDomains(tabs, hostOf)), Crowded(tabs, hostOf));
        Requests(plan)
  }

  /** A tab on `www.constructor` files under `constructor` and aborts the
      grouping, however many ordinary domains are crowded. */
  lemma ConstructorHostAborts(tabs: seq<Tab>, hostOf: string -> Option<string>, t: Tab)
    requires t in tabs && !t.pinned && hostOf(t.url) == Some("www.constructor")
    ensures GroupTabsByDomain(Ok(tabs), hostOf) == Aborted
  {
    assert "www.constructor"[..4] == WwwPrefix;
    assert "www.constructor"[4..] == "constructor";
    assert DomainOf(t, hostOf) in PrototypeKeys;
  }

  lemma CrowdedDomainIsGrouped(tabs: seq<Tab>, hostOf: string -> Option<string>, key: string)
    requires |Filter(tabs, OnDomain(hostOf, key))| >= 2
    ensures exists k :: 0 <= k < |PlanFrom(Bucketize(tabs, hostOf), 0)| &&
                        PlanFrom(Bucketize(tabs, hostOf), 0)[k].title == key
  {
    var bs := Bucketize(tabs, hostOf);
    var eligible := Eligible(bs);
    PlanMatchesEligible(bs, 0);
    EligibleIsFilter(bs);
    MembersOfFound(bs, key);
    var i :| 0 <= i < |bs| && BucketDomains(bs)[i] == key;
    MembersOfBucket(bs, i);
    assert bs[i] in eligible;
    var k :| 0 <= k < |eligible| && eligible[k] == bs[i];
    assert PlanFrom(bs, 0)[k].title == key;
  }

  /** A domain gets a group exactly when it has at least two unpinned tabs,
      whenever the grouping is not aborted. */
  lemma GroupedExactlyCrowdedDomains(tabs: seq<Tab>, hostOf: string -> Option<string>, key: string)
    ensures var r := GroupTabsByDomain(Ok(tabs), hostOf);
            r.Requests? ==>
              ((exists k :: 0 <= k < |r.plan| && r.plan[k].title == key)
                 <==> |Filter(tabs, OnDomain(hostOf, key))| >= 2)
  {
    var r := GroupTabsByDomain(Ok(tabs), hostOf);
    if r.Requests? {
      assert r.plan == PlanFrom(Bucketize(tabs, hostOf), 0);
      if |Filter(tabs, OnDomain(hostOf, key))| >= 2 {
        CrowdedDomainIsGrouped(tabs, hostOf, key);
      }
    }
  }
}
