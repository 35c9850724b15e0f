/** The service worker of the application: it names the cache generation of
    the running version, fills it from a fixed manifest on install, sweeps
    away the stores of other versions on activate, and answers requests
    cache-first with network fallback. */
module ServiceWorker {
  import opened CacheStorage

  const Prefix: string := "superSplat-v"

  /** The store name of the generation of `appVersion`. */
  function CacheName(appVersion: string): (name: string)
    ensures |name| == |Prefix| + |appVersion|
    ensures name[..|Prefix|] == Prefix && name[|Prefix|..] == appVersion
  {
    Prefix + appVersion
  }

  /** Two versions share a store name exactly when they are the same
      version, so the name depends on the version and on nothing else. */
  lemma CacheNameDetermines(v1: string, v2: string)
    ensures CacheName(v1) == CacheName(v2) <==> v1 == v2
  {
  }

  /** The assets every generation is filled with, in manifest order. */
  const CacheUrls: seq<Url> := [
    "./",
    "./index.css",
    "./index.html",
    "./index.js",
    "./index.js.map",
    "./jszip.js",
    "./manifest.json",
    "./static/icons/logo-192.png",
    "./static/icons/logo-512.png",
    "./static/images/screenshot-narrow.jpg",
    "./static/images/screenshot-wide.jpg",
    "./static/lib/lodepng/lodepng.js",
    "./static/lib/lodepng/lodepng.wasm"
  ]

  /** The manifest has thirteen entries and names no asset twice, so the
      order in which its adds settle cannot matter. */
  lemma ManifestDistinct()
    ensures |CacheUrls| == 13 && Distinct(CacheUrls)
  {
  }

  // ---------------------------------------------------------------- install

  /** How a promise settled. */
  datatype Settled = Fulfilled | Rejected

  /** The settled result of `cache.add` for one manifest entry. */
  function Settle(o: FetchOutcome): Settled
  {
    if AddAccepts(o) then Fulfilled else Rejected
  }

  /** A store after adding `urls[i]` with network outcome `outcomes[i]`, for
      each `i` in turn. */
  function Populate(store: Store, urls: seq<Url>, outcomes: seq<FetchOutcome>): Store
    requires |urls| == |outcomes|
    decreases |urls|
  {
    if |urls| == 0 then store
    else
      var n := |urls| - 1;
      PutIfAccepted(Populate(store, urls[..n], outcomes[..n]), urls[n], outcomes[n])
  }

  /** Some add of `u` in the manifest succeeded. */
  predicate Succeeded(urls: seq<Url>, outcomes: seq<FetchOutcome>, u: Url)
    requires |urls| == |outcomes|
  {
    exists i :: 0 <= i < |urls| && urls[i] == u && AddAccepts(outcomes[i])
  }

  /** After populating, a URL is stored exactly when it was stored before or
      one of its adds succeeded: nothing is removed, nothing else is added. */
  lemma {:induction false} PopulateHas(store: Store, urls: seq<Url>, outcomes: seq<FetchOutcome>, u: Url)
    requires |urls| == |outcomes|
    ensures u in Populate(store, urls, outcomes) <==> u in store || Succeeded(urls, outcomes, u)
    decreases |urls|
  {
    if |urls| > 0 {
      var n := |urls| - 1;
      PopulateHas(store, urls[..n], outcomes[..n], u);
      if Succeeded(urls[..n], outcomes[..n], u) {
        var i :| 0 <= i < n && urls[..n][i] == u && AddAccepts(outcomes[..n][i]);
        assert urls[i] == u && AddAccepts(outcomes[i]);
      }
      if Succeeded(urls, outcomes, u) && !(urls[n] == u && AddAccepts(outcomes[n])) {
        var i :| 0 <= i < |urls| && urls[i] == u && AddAccepts(outcomes[i]);
        assert urls[..n][i] == u && AddAccepts(outcomes[..n][i]);
      }
    }
  }

  /** An entry whose URL no successful add names keeps its response. */
  lemma {:induction false} PopulateKeeps(store: Store, urls: seq<Url>, outcomes: seq<FetchOutcome>, u: Url)
    requires |urls| == |outcomes|
    requires u in store && !Succeeded(urls, outcomes, u)
    ensures u in Populate(store, urls, outcomes) && Populate(store, urls, outcomes)[u] == store[u]
    decreases |urls|
  {
    if |urls| > 0 {
      var n := |urls| - 1;
      PopulateKeeps(store, urls[..n], outcomes[..n], u);
    }
  }

  /** With a manifest that names no URL twice, a successful add leaves its
      own response stored under its URL. */
  lemma {:induction false} PopulateStores(store: Store, urls: seq<Url>, outcomes: seq<FetchOutcome>, i: nat)
    requires |urls| == |outcomes| && Distinct(urls)
    requires i < |urls| && AddAccepts(outcomes[i])
    ensures urls[i] in Populate(store, urls, outcomes)
    ensures Populate(store, urls, outcomes)[urls[i]] == outcomes[i].response
    decreases |urls|
  {
    var n := |urls| - 1;
    if i < n {
      assert Distinct(urls[..n]);
      assert urls[..n][i] == urls[i] && outcomes[..n][i] == outcomes[i];
      PopulateStores(store, urls[..n], outcomes[..n], i);
      assert urls[n] != urls[i];
    }
  }

  /** Running the install again against the same store never loses an
      entry the first run stored, whatever the network does the second time. */
  lemma ReinstallKeeps(store: Store, first: seq<FetchOutcome>, second: seq<FetchOutcome>, u: Url)
    requires |first| == |CacheUrls| && |second| == |CacheUrls|
    requires u in Populate(store, CacheUrls, first)
    ensures u in Populate(Populate(store, CacheUrls, first), CacheUrls, second)
  {
    PopulateHas(Populate(store, CacheUrls, first), CacheUrls, second, u);
  }

  /** The `forEach` over the settled results: the indices of the rejected
      ones, in increasing order, each of which warns about `CacheUrls[k]`. */
  method ReportFailures(results: seq<Settled>) returns (warned: seq<nat>)
    ensures forall k: nat :: k in warned <==> k < |results| && results[k] == Rejected
    ensures forall a, b :: 0 <= a < b < |warned| ==> warned[a] < warned[b]
  {
    warned := [];
    var i := 0;
    while i < |results|
      invariant 0 <= i <= |results|
      invariant forall k: nat :: k in warned <==> k < i && results[k] == Rejected
      invariant forall a :: 0 <= a < |warned| ==> warned[a] < i
      invariant forall a, b :: 0 <= a < b < |warned| ==> warned[a] < warned[b]
    {
      if results[i] == Rejected {
        warned := warned + [i];
      }
      i := i + 1;
    }
  }

  /** `Promise.allSettled(urls.map(url => cache.add(url)))` on the store
      `name`: every URL is added, whatever became of the others, and the
      result of each add is reported at its own index. */
  method AddAll(caches: Caches, name: string, urls: seq<Url>, network: seq<FetchOutcome>)
    returns (results: seq<Settled>)
    requires caches.Valid() && name in caches.stores && |network| == |urls|
    modifies caches
    ensures caches.Valid() && caches.names == old(caches.names)
    ensures caches.stores == old(caches.stores)[name := Populate(old(caches.stores)[name], urls, network)]
    ensures |results| == |urls| && forall i :: 0 <= i < |urls| ==> results[i] == Settle(network[i])
  {
    ghost var before := caches.stores[name];
    results := [];
    var i := 0;
    while i < |urls|
      invariant 0 <= i <= |urls|
      invariant caches.Valid() && caches.names == old(caches.names)
      invariant caches.stores == old(caches.stores)[name := Populate(before, urls[..i], network[..i])]
      invariant |results| == i
      invariant forall j :: 0 <= j < i ==> results[j] == Settle(network[j])
    {
      var ok := caches.Add(name, urls[i], network[i]);
      assert urls[..i + 1][..i] == urls[..i] && network[..i + 1][..i] == network[..i];
      results := results + [if ok then Fulfilled else Rejected];
      i := i + 1;
    }
    assert urls[..i] == urls && network[..i] == network;
  }

  /** What the install handler leaves behind: how the promise handed to
      `waitUntil` settled, whether the open failure was logged, the settled
      result of each add, and the manifest indices that were warned about. */
  datatype InstallReport = InstallReport(
    completion: Settled,
    errorLogged: bool,
    results: seq<Settled>,
    warned: seq<nat>)

  /** The install handler. `openOk` says whether `caches.open` succeeds and
      `network[i]` is what fetching `CacheUrls[i]` produces. */
  method Install(caches: Caches, appVersion: string, openOk: bool, network: seq<FetchOutcome>)
    returns (report: InstallReport)
    requires caches.Valid() && |network| == |CacheUrls|
    modifies caches
    ensures caches.Valid()
    ensures report.completion == Fulfilled
    ensures report.errorLogged == !openOk
    ensures !openOk ==>
      caches.names == old(caches.names) && caches.stores == old(caches.stores) &&
      report.results == [] && report.warned == []
    ensures openOk ==>
      var name := CacheName(appVersion);
      var before: Store := if name in old(caches.stores) then old(caches.stores)[name] else map[];
      && caches.names == (if name in old(caches.stores) then old(caches.names) else old(caches.names) + [name])
      && caches.stores == old(caches.stores)[name := Populate(before, CacheUrls, network)]
    ensures openOk ==>
      |report.results| == |CacheUrls| &&
      forall i :: 0 <= i < |CacheUrls| ==> report.results[i] == Settle(network[i])
    ensures forall k: nat :: k in report.warned <==> k < |report.results| && report.results[k] == Rejected
    ensures forall a, b :: 0 <= a < b < |report.warned| ==> report.warned[a] < report.warned[b]
  {
    var name := CacheName(appVersion);
    var results: seq<Settled> := [];
    var warned: seq<nat> := [];
    var inner: Settled;
    var success := caches.Open(name, openOk);
    if success {
      results := AddAll(caches, name, CacheUrls, network);
      warned := ReportFailures(results);
      inner := Fulfilled;
    } else {
      inner := Rejected;
    }
    // the `.catch` logs an open failure and resolves
    report := InstallReport(Fulfilled, inner == Rejected, results, warned);
  }

  // --------------------------------------------------------------- activate

  /** The store names left by the sweep: the current one, and every stale
      one whose deletion fails. */
  function Survivors(names: seq<string>, current: string, undeletable: set<string>): seq<string>
    decreases |names|
  {
    if |names| == 0 then []
    else
      var n := |names| - 1;
      Survivors(names[..n], current, undeletable)
        + (if names[n] == current || names[n] in undeletable then [names[n]] else [])
  }

  /** A name survives exactly when it was there and is current or could not
      be deleted. */
  lemma {:induction false} SurvivorsHas(names: seq<string>, current: string, undeletable: set<string>, x: string)
    ensures x in Survivors(names, current, undeletable)
        <==> x in names && (x == current || x in undeletable)
    decreases |names|
  {
    if |names| > 0 {
      var n := |names| - 1;
      SurvivorsHas(names[..n], current, undeletable, x);
      assert names == names[..n] + [names[n]];
    }
  }

  /** With every deletion successful only the current store remains: the
      names left are the old names intersected with the current one. */
  lemma {:induction false} SweepLeavesCurrent(names: seq<string>, current: string)
    requires Distinct(names)
    ensures Survivors(names, current, {}) == if current in names then [current] else []
    decreases |names|
  {
    if |names| > 0 {
      var n := |names| - 1;
      assert names == names[..n] + [names[n]];
      assert Distinct(names[..n]);
      SweepLeavesCurrent(names[..n], current);
      if current in names[..n] {
        var k :| 0 <= k < n && names[..n][k] == current;
        assert names[k] == current;
      }
    }
  }

  /** When no name is stale (or every stale one fails to delete), the sweep
      changes nothing. */
  lemma {:induction false} SweepNoop(names: seq<string>, current: string, undeletable: set<string>)
    requires forall i :: 0 <= i < |names| ==> names[i] == current || names[i] in undeletable
    ensures Survivors(names, current, undeletable) == names
    decreases |names|
  {
    if |names| > 0 {
      var n := |names| - 1;
      assert names == names[..n] + [names[n]];
      SweepNoop(names[..n], current, undeletable);
    }
  }

  /** Extending the names looked at by one adds that name to the survivors
      exactly when it is current or cannot be deleted. */
  lemma SurvivorsSnoc(names: seq<string>, i: nat, current: string, undeletable: set<string>)
    requires i < |names|
    ensures Survivors(names[..i + 1], current, undeletable)
      == Survivors(names[..i], current, undeletable)
        + (if names[i] == current || names[i] in undeletable then [names[i]] else [])
  {
    assert names[..i + 1][..i] == names[..i];
  }

  lemma DistinctSplit(names: seq<string>, i: nat)
    requires Distinct(names) && i < |names|
    ensures names[i] !in names[..i] && names[i] !in names[i + 1..]
    ensures names[i..] == [names[i]] + names[i + 1..]
  {
  }

  /** Removing a name that occurs once, between `kept` and `rest`, leaves
      `kept` followed by `rest`. */
  lemma {:induction false} RemoveMiddle(kept: seq<string>, x: string, rest: seq<string>)
    requires x !in kept && x !in rest
    ensures Remove(kept + ([x] + rest), x) == kept + rest
  {
    var s := kept + ([x] + rest);
    if kept == [] {
      assert s == [x] + rest && s[0] == x && s[1..] == rest;
      RemoveAbsent(rest, x);
    } else {
      assert s[0] == kept[0] && s[1..] == kept[1..] + ([x] + rest);
      RemoveMiddle(kept[1..], x, rest);
      assert kept == [kept[0]] + kept[1..];
    }
  }

  /** One turn of the sweep: deleting `names[i]` from the names still to be
      looked at, when it is stale and deletable, moves the sweep one on. */
  lemma SweepStep(names: seq<string>, i: nat, current: string, undeletable: set<string>)
    requires Distinct(names) && i < |names|
    ensures var before := Survivors(names[..i], current, undeletable) + names[i..];
      Survivors(names[..i + 1], current, undeletable) + names[i + 1..]
        == if names[i] == current || names[i] in undeletable then before else Remove(before, names[i])
  {
    var name := names[i];
    var kept := Survivors(names[..i], current, undeletable);
    SurvivorsSnoc(names, i, current, undeletable);
    DistinctSplit(names, i);
    if name != current && name !in undeletable {
      SurvivorsHas(names[..i], current, undeletable, name);
      RemoveMiddle(kept, name, names[i + 1..]);
    }
  }

  /** One turn of the sweep's loop: deletes `names[i]` unless it is the
      current store, the deletion failing for the names in `undeletable`. */
  method SweepOne(caches: Caches, names: seq<string>, i: nat, current: string, undeletable: set<string>)
    requires caches.Valid() && Distinct(names) && i < |names|
    requires caches.names == Survivors(names[..i], current, undeletable) + names[i..]
    modifies caches
    ensures caches.Valid()
    ensures caches.names == Survivors(names[..i + 1], current, undeletable) + names[i + 1..]
    ensures forall n :: n in caches.stores ==> n in old(caches.stores) && caches.stores[n] == old(caches.stores)[n]
  {
    SweepStep(names, i, current, undeletable);
    if names[i] != current {
      var _ := caches.Delete(names[i], names[i] !in undeletable);
    }
  }

  /** The `for` loop of the activate handler over a snapshot `names` of the
      store names: deletes each one that is not `current`. */
  method Sweep(caches: Caches, names: seq<string>, current: string, undeletable: set<string>)
    requires caches.Valid() && caches.names == names
    modifies caches
    ensures caches.Valid()
    ensures caches.names == Survivors(names, current, undeletable)
    ensures forall n :: n in caches.stores ==> n in old(caches.stores) && caches.stores[n] == old(caches.stores)[n]
  {
    var i := 0;
    while i < |names|
      invariant 0 <= i <= |names|
      invariant caches.Valid()
      invariant caches.names == Survivors(names[..i], current, undeletable) + names[i..]
      invariant forall n :: n in caches.stores ==> n in old(caches.stores) && caches.stores[n] == old(caches.stores)[n]
    {
      SweepOne(caches, names, i, current, undeletable);
      i := i + 1;
    }
    assert names[..i] == names;
  }

  /** The activate handler: deletes every store not named for `appVersion`.
      `undeletable` holds the names whose deletion fails. */
  method Activate(caches: Caches, appVersion: string, undeletable: set<string>)
    requires caches.Valid()
    modifies caches
    ensures caches.Valid()
    ensures caches.names == Survivors(old(caches.names), CacheName(appVersion), undeletable)
    ensures forall n :: n in caches.stores ==> n in old(caches.stores) && caches.stores[n] == old(caches.stores)[n]
    ensures CacheName(appVersion) in old(caches.stores) ==>
      CacheName(appVersion) in caches.stores &&
      caches.stores[CacheName(appVersion)] == old(caches.stores)[CacheName(appVersion)]
    ensures undeletable == {} ==>
      caches.names == if CacheName(appVersion) in old(caches.names) then [CacheName(appVersion)] else []
  {
    var current := CacheName(appVersion);
    var names := caches.Keys();
    Sweep(caches, names, current, undeletable);
    SurvivorsHas(names, current, undeletable, current);
    if undeletable == {} {
      SweepLeavesCurrent(names, current);
    }
  }

  // ------------------------------------------------------------------ fetch

  /** The fetch handler: the response `caches.match` finds, and otherwise
      the outcome of the one network fetch, passed on unchanged. `matchOk`
      says whether `caches.match` itself settles; when it rejects, the
      `.then` never runs, so no fetch is made and the page gets the error.
      The handler changes no store (it modifies nothing at all). */
  method HandleFetch(caches: Caches, request: Request, matchOk: bool, network: FetchOutcome)
    returns (response: FetchOutcome, usedNetwork: bool)
    ensures !matchOk ==> response == NetworkError && !usedNetwork
    ensures matchOk ==>
      var hit := CachesMatch(caches.names, caches.stores, request);
      && (hit.Some? ==> response == Fetched(hit.value) && !usedNetwork)
      && (hit.None? ==> response == network && usedNetwork)
  {
    if !matchOk {
      return NetworkError, false;
    }
    var hit := caches.Match(request);
    if hit.Some? {
      response, usedNetwork := Fetched(hit.value), false;
    } else {
      response, usedNetwork := network, true;
    }
  }

  /** After an install whose add of manifest entry `i` succeeded, and a
      sweep that left only the current store, a GET for that entry is
      answered from the cache with the response the install fetched. */
  lemma CachedAssetServed(before: Store, network: seq<FetchOutcome>, current: string, i: nat)
    requires |network| == |CacheUrls| && i < |CacheUrls| && AddAccepts(network[i])
    ensures CachesMatch([current], map[current := Populate(before, CacheUrls, network)], Request("GET", CacheUrls[i]))
      == Some(network[i].response)
  {
    ManifestDistinct();
    PopulateStores(before, CacheUrls, network, i);
  }
}
