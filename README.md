# Versioned asset cache of the SuperSplat service worker

This project models, in Dafny, the service worker `src/sw.ts` of the
SuperSplat editor and proves properties of the model. The service worker
keeps one cache generation per application version:

- **Naming.** The current generation's store is called `superSplat-v`
  followed by the application version.
- **Install.** It opens that store and adds each of the 13 manifest assets,
  each one independently. It warns, by manifest index, about every add that
  was rejected. A failure to open the store is caught and logged, so the
  promise given to `waitUntil` always resolves.
- **Activate.** It lists every store name and deletes each one that is not
  the current name. The deletes are best-effort: one may fail and leave its
  store in place.
- **Fetch.** It answers each request from the cache if any store matches,
  and otherwise with one network fetch. It never writes to the cache.

The browser's CacheStorage is modelled as the class `CacheStorage.Caches`.
It holds the store names in creation order (`names`) and a map from
store name to store (`stores`); a store maps a URL to a response. Anything
that would come from outside is a parameter:

- the application version;
- whether `caches.open` succeeds;
- what the network returns for each manifest URL and for the fetched request;
- whether `caches.match` settles or rejects;
- which stale stores fail to delete.

Files:

- `cache_storage.dfy`: module `CacheStorage`. It holds the data types, the
  `Caches` class with `keys`, `open`, `add`, `delete` and `match`, and the
  lemmas about `match`.
- `service_worker.dfy`: module `ServiceWorker`. It holds the store name, the
  manifest, the install, activate and fetch handlers, and the lemmas about
  them.

Two facts about the code shape the model:

- A failure to open the store does not fail install: the `.catch` at
  src/sw.ts:43-45 logs it and resolves, so `Install` always reports
  `completion == Fulfilled` and records that the error was logged.
- `caches.match` (src/sw.ts:64) searches every store in creation order, not
  only the current one. So the model's lookup, `CachesMatch`/`FirstMatch`,
  returns the response from the first store, old or current, that holds the
  URL. Once a sweep with no failed deletion has run, only the current store
  remains, and the match comes from it (`CachedAssetServed`).

`cache.add` rejects in three cases: a network error, a status outside
200–299, and status 206. This follows the W3C Service Workers
specification's definition of `addAll` on the `Cache` interface
(section 5.4). The same specification defines `match` on the
`CacheStorage` interface (section 5.5). It queries each cache in turn, and
a cache query never matches a request whose method is not `GET`.

## Model

| member | source | states |
|---|---|---|
| ServiceWorker.CacheName | src/sw.ts:6 | The store name is `superSplat-v` followed by the version: its first 12 characters are the prefix and the rest is the version. |
| ServiceWorker.CacheNameDetermines | src/sw.ts:6 | Two versions give the same store name exactly when they are equal. |
| ServiceWorker.ManifestDistinct | src/sw.ts:8-22 | The manifest has 13 entries and none is repeated. |
| CacheStorage.Caches.Open | src/sw.ts:29 | Opening a missing store appends an empty store to the end of the order. Opening an existing store changes nothing. A failed open changes nothing. |
| CacheStorage.Caches.Add | src/sw.ts:33 | `cache.add` succeeds exactly when the fetch returned an acceptable response. Then it stores that response under the URL. Otherwise nothing changes. |
| ServiceWorker.AddAll | src/sw.ts:32-34 | Every URL is added, even after earlier ones failed. Result `i` is the settlement of add `i`. The store ends as `Populate` of the old store, and no other store or name changes. |
| ServiceWorker.PopulateHas | src/sw.ts:32-34 | After install, a URL is in the store exactly when it was there before or one of its adds succeeded. No entry is removed, and no failed URL is added. |
| ServiceWorker.PopulateKeeps | src/sw.ts:32-34 | An entry whose URL had no successful add keeps its old response. |
| ServiceWorker.PopulateStores | src/sw.ts:33 | If the manifest has no repeated URL, a successful add leaves its own fetched response under its URL. |
| ServiceWorker.ReinstallKeeps | src/sw.ts:28-41 | Running install a second time against the same store keeps every entry the first run stored. |
| ServiceWorker.ReportFailures | src/sw.ts:36-40 | The warned indices are exactly the indices of rejected results, in increasing order. So a warning for `cacheUrls[k]` is issued exactly when the k-th add was rejected. |
| ServiceWorker.Install | src/sw.ts:24-47 | The `waitUntil` promise always resolves. The error is logged exactly when open fails, and then nothing changes. Otherwise there is one result per manifest URL, the warnings correspond to the rejected results by index, and the current store becomes `Populate(old contents, manifest, network)`. |
| CacheStorage.Caches.Keys | src/sw.ts:53 | `caches.keys()` returns the store names in creation order, with no name repeated. |
| CacheStorage.Caches.Delete | src/sw.ts:56 | A successful delete removes the name from the order and its store from the map. A failed delete changes nothing. The delete reports whether the store existed. |
| ServiceWorker.SweepOne | src/sw.ts:55-57 | One pass of the loop deletes the name unless it is current or its delete fails. No other store changes. |
| ServiceWorker.Sweep | src/sw.ts:54-58 | After the loop over a snapshot of the names, the remaining names are `Survivors` of the snapshot. Every remaining store keeps its contents. |
| ServiceWorker.SurvivorsHas | src/sw.ts:53-59 | A name remains after the sweep exactly when it existed and is either current or could not be deleted. |
| ServiceWorker.SweepLeavesCurrent | src/sw.ts:53-59 | If every delete succeeds, the names left are the old names intersected with the current name: `[current]` if it existed, else none. |
| ServiceWorker.SweepNoop | src/sw.ts:53-59 | If no name is stale (or every stale delete fails), the sweep changes nothing. |
| ServiceWorker.Activate | src/sw.ts:49-60 | The names left are `Survivors` of the old names. Remaining stores are unchanged, including the current one. If no delete fails, only the current name is left. |
| CacheStorage.Caches.Match | src/sw.ts:64 | The loop over the stores returns `CachesMatch`: no match for a non-GET request, else the first store in creation order that holds the URL. |
| CacheStorage.FirstMatchNone | src/sw.ts:64 | `caches.match` finds nothing exactly when no store holds the URL. |
| CacheStorage.FirstMatchFirst | src/sw.ts:64 | The match is the response from the first store, in creation order, that holds the URL. |
| ServiceWorker.HandleFetch | src/sw.ts:62-67 | If `caches.match` rejects, the page gets the error and no fetch is made. On a match, the stored response is returned and the network is not used. Otherwise there is exactly one network fetch, and its response or error is returned unchanged. The handler modifies no state. |
| ServiceWorker.CachedAssetServed | src/sw.ts:28-65 | After a successful add of manifest entry `i`, and a sweep that left only the current store, a GET for that entry is served from the cache with the response install fetched. |

## Left out

- `src/ui/editor.ts` is not part of this model: it is user-interface wiring
  with no cache logic.
- The `package.json` import: the application version is a parameter.
- The real Cache API and the network. Their outcomes are parameters: one
  network outcome per manifest index and per request, an open flag, and a set
  of names whose delete fails.
- Promise interleaving. The `Promise.allSettled` fan-out of adds and the
  deletes, which are not awaited, are run one after another in the order of
  the manifest and of the snapshot. The manifest has no repeated URL
  (`ManifestDistinct`) and the snapshot no repeated name, so the final state
  does not depend on that order.
- The host's lifecycle: `waitUntil`/`respondWith` semantics, install running
  before activate, and requests that arrive during the handover. The activate
  handler does not call `waitUntil`. The model runs its sweep to completion
  within the handler.
- `console.log`, `console.warn` and `console.error`. The model records only
  the warned manifest indices and whether the install error was logged.
- Request identity is the URL string as the manifest writes it. The model
  does not resolve relative URLs against the worker's location. It ignores
  `Vary` headers and match options, and it does not model response body
  streams or cloning.
- `cache.add` fails only on the fetch outcome. Storage failures such as a full
  quota, and the `Vary: *` rejection, are not modelled.
- CacheStorage.Caches.Add: requires the store to still exist under its name.
  A real `Cache` object stays usable after its store has been deleted. In
  this model, where install and activate do not overlap, no deletion runs
  during install, so install never meets that case.
- A rejection of `caches.keys()` (src/sw.ts:53) is not a separate input: it
  skips the whole sweep, which `Activate` already reproduces when
  `undeletable` holds every stale name (`SweepNoop`).
