# pad: pad bookkeeping, key/value store and offline worker, in Dafny

This project models the core of the "pad" note editor. The editor is a list of named
markdown pads kept in the browser's IndexedDB. A service worker keeps the page usable offline.
The model covers three parts:

- `sidb.dfy` (module `SimpleIndexedDB`) models `sidb.js`. It is the promise-style key/value
  façade over one object store, written as the class `KvStore`:
  - Fields: the memoised connection, a count of open requests, and the entries as a `map`.
  - Operations: `set`, `get`, `delete`, `clear`, `keys` and `size`, plus the helper
    `dbTransaction` that every call goes through.
  - `tx` is modelled as the requests its callback issues.
  - The cursor scans `forEach`/`rofEach` are driven by `cursor.continue()` over the live store.
    The visitor is a function that answers, for each (value, key), keep, update or delete.
- `key_order.dfy` (module `KeyOrder`) models IndexedDB's order on string keys. It also holds
  the cursor's "next key" step and the sorted key listing that `getAllKeys` returns.
- `pad.dfy` (module `Pads`) models `md.js`. The Vue component becomes the class `App`:
  - Fields: `pads`, `selected`, an editor buffer, the legacy `localStorage` map, and the store.
  - Methods: `savePad`, `getPad`, `addPad`, `removePad`, `savePadList`, `loadPadList`,
    `foundLegacyStorage` and `downloadPad`'s file name.
  - The `selected` watcher is the explicit method `Switch(from, to)`, called only when the
    value really changed.
  - The answers of `prompt` and `confirm` are method inputs.
- `service_worker.dfy` (module `ServiceWorker`) models `service-worker.js`. `CacheStorage` holds
  the cache regions: a map from region name to a map from URL to response, with names kept in
  creation order because `caches.match` searches in that order. The install, fetch and activate
  handlers are methods, and each takes the network's answers as an input.
- `optional.dfy` holds the `Option` type, which plays the role of `undefined`.

Stored values are the datatype `Pads.Val`, one of:
- `null`;
- a text;
- `Json(names)`, which stands for `JSON.stringify(names)` of a list of pad names.

JSON text itself is not modelled. `JSON.parse` succeeds exactly on `Json(names)`. Pad text goes
under `"mdp_pad_" + name` and the list under `"mdp_list"`. `PadKeyInjective` shows that these
keys never collide.

The editor widget is a string buffer. Loading a value into it (`mde.value(v)`) replaces the
buffer when `v` is a text, and a `Json(names)` value, being a text too, is shown as its
serialization. It leaves the buffer as it was when `v` is `undefined`, because the
widget's `value()` with no argument is a getter. It also leaves it unchanged for `null`, which
the widget does not accept as text.

## Model

| member | source | states |
|---|---|---|
| KeyOrder.BelowIrreflexive | sidb.js:93 | no key sorts before itself |
| KeyOrder.BelowTransitive | sidb.js:93 | the key order is transitive |
| KeyOrder.BelowTotal | sidb.js:93 | any two distinct keys are ordered one way or the other, so a cursor has a well-defined next key |
| KeyOrder.Least | sidb.js:93 | the first key of a non-empty key set in cursor direction: a member, before every other member |
| KeyOrder.NextKey | sidb.js:104 | `cursor.continue()`: the first key strictly after the cursor's position; nothing exactly when no key lies after it |
| KeyOrder.OrderedDistinct | sidb.js:125-127 | a strictly ordered key list has no repeats |
| KeyOrder.OrderedCount | sidb.js:125-127 | a strictly ordered list holding exactly the keys of a set has one element per key |
| KeyOrder.SortedKeys | sidb.js:125-127 | every key of the set exactly once, strictly ordered in the chosen direction |
| SimpleIndexedDB.ApplyAllAppend | sidb.js:131-133 | running two request batches one after the other equals running their concatenation in one transaction |
| SimpleIndexedDB.ReadsChangeNothing | sidb.js:116-130 | a batch with no put, delete or clear leaves the store unchanged |
| SimpleIndexedDB.UntouchedKey | sidb.js:131-133 | a batch that neither clears nor puts or deletes `key` leaves `key`'s entry as it was |
| SimpleIndexedDB.Visited | sidb.js:91-110 | after a full scan, a key survives unless its visitor said delete, and holds the visitor's update or else its old value |
| SimpleIndexedDB.PartlyStep | sidb.js:98-104 | the visitor's update or delete changes only the entry under the cursor, which still holds its original value when visited |
| SimpleIndexedDB.ScanStep | sidb.js:98-104 | one cursor step: the entry under the cursor still holds its original value, the visitor's action on it gives the store after that key, and the keys after the cursor are then exactly the ones still to come |
| SimpleIndexedDB.CursorSees | sidb.js:95-105 | in the middle of a scan, the keys after the cursor in the live store are exactly the keys not yet visited |
| SimpleIndexedDB.KvStore.constructor | sidb.js:15-17 | `simpleIndexedDB()`: no connection yet, no open issued, and the entries are what the database already held |
| SimpleIndexedDB.KvStore.Init | sidb.js:24-46 | one open request; the connection is memoised exactly when the host can open the database |
| SimpleIndexedDB.KvStore.Connect | sidb.js:60 | an open request is issued only when no connection is memoised; afterwards the connection is set iff the host opens |
| SimpleIndexedDB.KvStore.Execute | sidb.js:112-130 | one object-store request: put upserts and yields the stored key, delete removes, clear empties, get yields the value or `undefined`, getAllKeys the ascending keys, count the number of entries |
| SimpleIndexedDB.KvStore.DbTransaction | sidb.js:58-81 | "rw" gives a readwrite transaction and anything else a readonly one that cannot change the store. The requests apply in order. The call yields the returned request's result (the stored key for a put, the value or `undefined` for a get, `undefined` for delete and clear), or `undefined` in multiple-action mode (`transaction.result`). A failed open changes nothing |
| SimpleIndexedDB.KvStore.Set | sidb.js:113-115 | upserts `value` at `key` and resolves with `key`; every other key is unchanged |
| SimpleIndexedDB.KvStore.Get | sidb.js:116-118 | yields the stored value or `undefined`, and never changes the store |
| SimpleIndexedDB.KvStore.Delete | sidb.js:119-121 | removes `key`; deleting an absent key succeeds and changes nothing |
| SimpleIndexedDB.KvStore.Clear | sidb.js:122-124 | the store becomes empty |
| SimpleIndexedDB.KvStore.Keys | sidb.js:125-127 | every key exactly once in ascending order, no key repeated, as many keys as entries; the store is unchanged |
| SimpleIndexedDB.KvStore.Size | sidb.js:128-130 | the number of entries; the store is unchanged |
| SimpleIndexedDB.KvStore.Tx | sidb.js:131-133 | the callback's requests run in one readwrite transaction, and the call yields `undefined`, never the callback's value |
| SimpleIndexedDB.KvStore.ForEach | sidb.js:91-110 | visits every original key exactly once (no key repeated, as many visits as keys) in ascending order, or descending if `reverse`; the final store is the visitor's actions applied |
| SimpleIndexedDB.KvStore.RofEach | sidb.js:135-137 | forEach in descending key order |
| SimpleIndexedDB.KvStore.SetThenGet | sidb.js:113-118 | `set(k, v)` then `get(k)` yields `v`, and every other key keeps its entry |
| SimpleIndexedDB.KvStore.ClearThenMeasure | sidb.js:122-130 | after `clear()`, `size()` is 0 and `keys()` is empty |
| Pads.PadKeyInjective | md.js:11-12 | two pads share a store key only if they have the same name, and no pad key is the list key |
| Pads.Without | md.js:64 | `pads.filter(el => el != old)`: the name is gone, and every other name occurs as often as before |
| Pads.WithoutSplits | md.js:64 | filtering a concatenation is the concatenation of the filtered parts: the survivors keep their original order, repeats included |
| Pads.WithoutOne | md.js:64 | a single name survives exactly when it differs from the removed one |
| Pads.DownloadNameStem | md.js:80 | the export file name is the pad name followed by ".md", so different pads get different file names |
| Pads.CopiedContent | md.js:118-126 | after the migration copy, each listed pad's new key holds its legacy "smde_" value and all other keys are unchanged |
| Pads.App.constructor | md.js:5-14 | the initial data: no pads, "home" selected |
| Pads.App.SavePad | md.js:71-74 | the editor text is written to `"mdp_pad_" + name`, and no other key changes |
| Pads.App.GetPad | md.js:75-78 | yields the value stored at `"mdp_pad_" + name`, or `undefined`; the store is unchanged |
| Pads.App.SavePadList | md.js:94-97 | the list is written, as JSON, to "mdp_list", and no other key changes |
| Pads.App.LoadPadList | md.js:98-103 | a truthy stored list replaces `pads`; without one `pads` becomes `["home"]`; a list that does not parse changes nothing |
| Pads.App.AddPad | md.js:52-60 | a non-empty answer is appended even if already present, becomes `selected`, and the list is saved; a cancelled or empty answer changes nothing |
| Pads.App.RemovePad | md.js:61-70 | on confirmation: every occurrence of the selected name leaves `pads`, the list is saved, the pad's key is deleted, and "home" is selected; otherwise nothing changes |
| Pads.App.Switch | md.js:16-27 | the old pad is saved only if `pads` still contains it; the editor then shows the new pad's stored text |
| Pads.App.RemovePadAndSwitch | md.js:61-70 | remove followed by the watcher it triggers: the removed pad's key stays deleted, because the watcher does not save a pad no longer in the list |
| Pads.App.SaveThenLoadPadList | md.js:94-103 | `savePadList` then `loadPadList` restores the same list |
| Pads.App.FoundLegacyStorage | md.js:104-135 | with a truthy legacy "mdp-list": `pads` becomes that list and is saved, each "smde_" pad is copied to its "mdp_pad_" key, localStorage is emptied, and the call answers true; otherwise it answers false and changes nothing |
| Pads.App.MigrateTwice | md.js:104-135 | `selected` and the editor are unchanged; after a migration that found legacy data, `pads` is the parsed legacy list, the store is the saved list plus the copied legacy texts, every listed pad holds its legacy text, and a second run finds nothing and changes nothing |
| Pads.App.DownloadPad | md.js:79-81 | the file name is `selected + ".md"` and the data is the editor text |
| ServiceWorker.Drop | service-worker.js:100 | a name list with the deleted regions removed: exactly the others, still without repeats |
| ServiceWorker.DropSplits | service-worker.js:100 | dropping from a concatenation drops from each part, so the remaining regions keep their creation order |
| ServiceWorker.DropOne | service-worker.js:100 | a single region name stays exactly when it is not deleted |
| ServiceWorker.Select | service-worker.js:96-98 | the filter over region names keeps exactly the names whose "starts with the version" test has the asked value |
| ServiceWorker.UnableToResolve | service-worker.js:74-83 | the fallback reply: status 503 (not a success), statusText "Service Unavailable", Content-Type text/html, body `<h1>Service unavailable</h1>` |
| ServiceWorker.FirstMatchFinds | service-worker.js:49-50 | `caches.match` finds an entry exactly when some region holds the URL, and the entry it yields is one of those regions' entries |
| ServiceWorker.CacheStorage.Open | service-worker.js:29 | `caches.open`: an absent region is created empty after the existing ones; an existing one is untouched |
| ServiceWorker.CacheStorage.Put | service-worker.js:65 | `cache.put` stores the response under the URL in that region only |
| ServiceWorker.CacheStorage.AddAll | service-worker.js:31 | all manifest entries land, or, if one fetch fails or is not 2xx, none does; on success the region is its old entries overridden by the fetched ones |
| ServiceWorker.CacheStorage.Match | service-worker.js:49-50 | the entry of the first region, in creation order, that holds the URL |
| ServiceWorker.CacheStorage.Delete | service-worker.js:100 | `caches.delete` removes the region and answers whether it existed |
| ServiceWorker.Install | service-worker.js:25-37 | the region "md-1.0.0fundamentals" exists afterwards, appended to the region names if it was new. It is its previous contents (empty if new) plus every manifest URL's response when every fetch succeeded, and its previous contents otherwise; other regions are untouched |
| ServiceWorker.FetchedFromNetwork | service-worker.js:58-72 | the network response is stored in "md-1.0.0pages" under the URL, the rest of that region and every other region unchanged, the region appended to the names if it was new, and the response passed on unchanged |
| ServiceWorker.HandleFetch | service-worker.js:40-86 | non-GET requests are not intercepted. A GET is answered from the cache on a hit, else with the network response, else with 503 "Service Unavailable" and Content-Type text/html. Any network response is stored in the pages region under the URL, even on a hit, and nothing else in the cache changes except that a new pages region is appended to the names |
| ServiceWorker.DeleteRegions | service-worker.js:95-101 | deletes exactly the listed regions and leaves the others |
| ServiceWorker.ActivateAsWritten | service-worker.js:89-107 | as written: deletes exactly the regions whose name starts with "md-1.0.0" and keeps all others |
| ServiceWorker.AsWrittenLosesCurrent | service-worker.js:96-100 | as written, a URL held only by current-version regions (the manifest after a first install, when no older region holds it) is no longer in the cache after activation |
| ServiceWorker.AsWrittenServesStale | service-worker.js:96-100 | as written, after an update from "md-0.9.0" a manifest URL is answered with the previous version's copy; with the corrected filter it is answered with the current copy |
| ServiceWorker.AsWrittenCounterexample | service-worker.js:98 | with "md-0.9.0fundamentals" and "md-1.0.0fundamentals" present, activation as written keeps only the old version's region |
| ServiceWorker.Activate | service-worker.js:97 | corrected: only regions whose name starts with the version remain, and every such region is kept |
| ServiceWorker.ManifestSurvivesActivate | service-worker.js:97 | corrected: whatever install put in the fundamentals region is still served from the cache after activation |

## Findings

| source | as written | input that shows it | evidently intended | confidence | as-written member | corrected member |
|---|---|---|---|---|---|---|
| service-worker.js:97-98 | `filter(key => key.startsWith(version))` picks the current version's regions, and line 100 deletes them | regions "md-0.9.0fundamentals" and "md-1.0.0fundamentals": activation deletes the second and keeps the first, so a request for "/pad/md.js" is answered with the previous version's copy. On a first install, with no older region, the manifest is gone and an offline request gets the 503 | delete the regions whose name does not start with the version, as the comment on line 97 says | not executed; high | ServiceWorker.ActivateAsWritten, ServiceWorker.AsWrittenCounterexample, ServiceWorker.AsWrittenServesStale | ServiceWorker.Activate, ServiceWorker.ManifestSurvivesActivate |

Behaviour of the code that a reader might not expect, which the model follows:
- **Install is not atomic at the region level.** `caches.open` creates the fundamentals region
  before `addAll` runs, so a failed install leaves the region as it was, which is an empty region
  when it did not exist before. `addAll` itself adds all entries or none.
- **Every network response is stored, whatever its status.** The page cache is not limited to
  successful responses.
- **`keys()` is ordered.** IndexedDB's `getAllKeys` lists keys in ascending order, and the model
  promises that order.
- **`addPad` has no duplicate-name check.** It accepts any truthy name, and md.js has no rename.

## Left out

- Editor widget construction and configuration (`newMDE`, SimpleMDE options, highlight.js), and
  the `mounted` start-up sequence built on them (md.js:137-146). Each step `mounted` calls is
  modelled on its own.
- Periodic save and `onbeforeunload` (md.js:148-165): timer-driven, fire-and-forget work.
- Vue reactivity. In the page, assigning `selected` schedules the watcher. In the model,
  `AddPad` and `RemovePad` only assign it, and the watcher is the separate call `Switch`
  (composed in `RemovePadAndSwitch`).
- `verbose` logging and all console output.
- The Blob, object URL and link handling in `downloadPad`. Only the file name and the data are
  modelled.
- The order of promises that are not awaited. The migration's `savePadList()` is modelled as
  completing before the copy loop. The list key is never a pad key (`PadKeyInjective`), so any
  interleaving ends in the same store.
- JSON text. `Json(names)` stands for the serialized list, and a stored text is treated as not
  parsing as a list. When the editor shows a serialized list, the characters `JSON.stringify`
  would escape inside a name are not escaped.
- Pads.App: every method requires that the host can open the database. When it cannot, every
  store call fails without writing anything (proved for `KvStore`). The page's reaction, an
  unhandled rejection partway through the method, is not modelled.
- IndexedDB plumbing:
  - the open and upgrade events;
  - transaction failures other than a failed open (quota, engine errors);
  - the value `forEach` resolves with;
  - isolation between overlapping transactions.
  Calls run one at a time, so two calls issued before the first open completes, which would
  each send their own open request, are not modelled.
- A `forEach` visitor or a `tx` callback that throws. In the source this does not abort the
  transaction. In `forEach` the exception rejects the async `onsuccess` handler (sidb.js:95-104),
  and nothing observes that rejection. `cursor.continue()` is skipped, the updates and deletes made
  so far commit, and the call resolves (sidb.js:77). In `tx` the async executor (sidb.js:62-68)
  rejects before `oncomplete` is set. The requests already issued commit, and the returned
  promise never settles. Neither call is atomic in that case.
- Visitor: it is a pure function that gives one action per entry. A visitor that calls both
  `update` and `delete`, or issues other requests, is not modelled.
- Keys: only string keys are modelled. They are ordered by Unicode code point, whereas IndexedDB
  compares UTF-16 code units. The two orders differ only between characters above U+FFFF and
  those in U+E000-U+FFFF.
- Cache and Fetch API details:
  - `Response.clone`;
  - `cache.put`'s refusal of 206 responses;
  - matching on anything but the URL (method, `Vary`);
  - `addAll`'s duplicate check;
  - the `.catch` path taken when `fetchedFromNetwork` throws;
  - `waitUntil`/`respondWith`;
  - the fact that the page-cache write lands after the reply was sent.
- A region deletion that fails during activate (which makes `Promise.all` reject) is not
  modelled. Deletions always succeed.
