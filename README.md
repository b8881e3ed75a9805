# Sprite cache and user-list pool of the random-users Unity app

This project models two stateful parts of the app in Dafny and proves properties about them.

**The keyed single-flight sprite cache.** This is `AssetController`, together with the sprite-download side of `NetworkController`.
- `FetchSprite(url, data, callback)` first writes the url and callback into the caller's request record.
- A cached url is answered at once with the cached sprite.
- A url that is already loading has the record queued behind its download.
- Any other url is marked loading, and exactly one download starts.
- When the download ends, `SpriteFromNetwork` does four things in order: it caches the sprite, runs the initiator's callback, clears the loading mark, and runs every queued callback in queue order with the same sprite.

A failed download hands back a null sprite. That null is cached like any other sprite, so the url is never downloaded again: later requests for it are answered with null from the cache.

**The list-cell object pool of `ScrollUsersWindow`.**
- Each pooled `User` cell is abstracted to its active flag.
- `GetUserObject` reuses the first inactive cell. When every cell is active, it appends a new one.
- `ReturnAllUserObjectsToPool` deactivates every cell and removes none.
- `CleanUpScrollWindow` resets the pool, the active list, the `AllUsers` dictionary and the scrollbar.
- `OnPropertiesSet` takes one cell per entry of `AllUsers`.
- `HandleUserData` adds a page of results to `AllUsers`, keyed by email, before laying out the list.

Layout:

- `wrappers.dfy`: `Option`, `Result` and `Outcome`. These model null references and thrown exceptions as values.
- `collections.dfy`: `Distinct`, `Retains` (map inclusion) and `RemoveAt` (`List.RemoveAt`).
- `sprite_cache_spec.dfy` (module `SpriteCacheSpec`): the cache as a state machine on values.
  - The `State` holds the three dictionaries and the downloads in flight.
  - It also holds three ghost histories: urls sent to the network, callback invocations with the record each received, and stamped requests.
  - `Run` replays any interleaving of calls and download completions.
  - The invariant `Inv` holds after every step. It is proved together with the single-flight, exactly-once, fan-out and no-eviction properties.
- `asset_controller.dfy` (module `AssetControl`): classes `SpriteFetcher` and `AssetController`.
  - Their fields are updated in place.
  - `AssetController.FetchSprite` and `AssetController.OnSpriteDownloaded` are proved equal, through `Model()`, to the `Fetch` and `Deliver` steps of `SpriteCacheSpec`; `SpriteFromNetwork` is proved equal to `Complete` when its Add into the cache does not throw. So the spec lemmas apply to the objects.
  - `SpriteFetcher.GetSprite` and `SpriteFetcher.Finish` state their own effect on the list of downloads in flight; they are the parts of those steps that happen in the fetcher.
- `user_pool_spec.dfy` (module `UserPoolSpec`): the pool and the `AllUsers` insert loop as functions, with their lemmas.
- `scroll_users_window.dfy` (module `ScrollableUserScreen`): class `ScrollUsersWindow`.
  - Its methods update the pool, the active list, `AllUsers` and the scrollbar.
  - Each method is proved against `UserPoolSpec`.
  - The bookkeeping invariant `Valid` says a cell is active exactly when it is in the active list once, and every email shown is a key of `AllUsers`. The constructor, `CleanUpScrollWindow`, `OnPropertiesSet` and `HandleUserData` keep it. `GetUserObject`, `ReturnAllUserObjectsToPool`, `ShowUser` and `ShowAll` are steps inside those operations and break it on their own: a cell is activated before it is listed, or deactivated while still listed.

## Model

| member | source | states |
|---|---|---|
| SpriteCacheSpec.Drain | Assets/Scripts/AssetController/AssetController.cs:55-59 | the queued callbacks receive one record each, in queue order, each keeping its own url, callback and context, all carrying the same sprite |
| SpriteCacheSpec.Fetch | Assets/Scripts/AssetController/AssetController.cs:16-43 | FetchSprite as a step: stamp the record with the url and callback; a cached url is answered with its cached sprite; a loading url queues the record, creating the queue if missing; any other url is marked loading and one download carrying the record starts |
| SpriteCacheSpec.Complete | Assets/Scripts/AssetController/AssetController.cs:48-62 | SpriteFromNetwork past its Add: the sprite is cached, the initiator is answered, the loading mark goes, the queued records are answered in order with the same sprite, and the queue is dropped |
| SpriteCacheSpec.Loaded | Assets/Scripts/AssetController/AssetController.cs:46-63 | SpriteFromNetwork as a whole: the Add throws a duplicate-key fault when the url is cached already, otherwise the Complete step |
| SpriteCacheSpec.Deliver | Assets/Scripts/GeneralControllers/NetworkController.cs:84-92 | download i ends: its result, null on failure, is written into its record, the download leaves the in-flight list, and the record goes to SpriteFromNetwork |
| SpriteCacheSpec.Step | Assets/Scripts/AssetController/AssetController.cs:16-63 | one event of the single-threaded main loop: a FetchSprite call, or the end of a download in flight |
| SpriteCacheSpec.Run | Assets/Scripts/AssetController/AssetController.cs:16-63 | any sequence of calls and download completions, one after another |
| SpriteCacheSpec.InitInv | Assets/Scripts/AssetController/AssetController.cs:10-12 | the empty dictionaries satisfy the cache invariant |
| SpriteCacheSpec.FetchKeepsInv | Assets/Scripts/AssetController/AssetController.cs:16-43 | after FetchSprite, five things still hold: a url is never cached and loading at once; exactly one download is in flight per loading url; no url is ever sent twice; every answer carries the cached sprite; every request is answered once or waits in exactly one queue |
| SpriteCacheSpec.FetchGrows | Assets/Scripts/AssetController/AssetController.cs:16-43 | FetchSprite never changes the cache; the callback, dispatch and request histories only grow |
| SpriteCacheSpec.DeliverKeepsInv | Assets/Scripts/AssetController/AssetController.cs:46-63 | when a download ends, the Add into the cache never throws and the cache invariant still holds |
| SpriteCacheSpec.DeliverGrows | Assets/Scripts/AssetController/AssetController.cs:46-63 | a completion keeps every existing cache entry unchanged; the histories only grow |
| SpriteCacheSpec.StepKeepsInv | Assets/Scripts/AssetController/AssetController.cs:16-63 | any call or completion keeps the invariant and every cache entry |
| SpriteCacheSpec.RunKeepsInv | Assets/Scripts/AssetController/AssetController.cs:16-63 | over any interleaving of calls and completions, the invariant holds, no cache entry is removed or overwritten, and the histories only grow |
| SpriteCacheSpec.NotifiedAtMostOnce | Assets/Scripts/AssetController/AssetController.cs:22-59 | no request is ever answered more often than it was made |
| SpriteCacheSpec.QuiescentAllNotified | Assets/Scripts/AssetController/AssetController.cs:46-63 | with no download in flight, nothing is loading or queued, and every request has been answered exactly once |
| SpriteCacheSpec.CachedUrlNeverRefetched | Assets/Scripts/AssetController/AssetController.cs:22-26 | a cached url keeps its entry through any later run and is never sent to the network again; this includes a null entry left by a failed download |
| SpriteCacheSpec.BurstSingleFlight | Assets/Scripts/AssetController/AssetController.cs:28-42 | N calls for a url that is neither cached nor loading start exactly one download, carrying the first caller's record; the other N-1 records are queued in call order; nobody is answered and no other url's queue changes |
| SpriteCacheSpec.BurstFanOut | Assets/Scripts/AssetController/AssetController.cs:46-63 | when that download ends with a sprite or with null, all N callers are answered once each, in call order, with that value, and nobody else is answered |
| SpriteCacheSpec.BurstCachesResult | Assets/Scripts/AssetController/AssetController.cs:46-63 | after that download ends, its value is cached for the url even when it is null, the url is no longer loading, and the whole burst sent the url to the network once |
| AssetControl.SpriteFetcher.GetSprite | Assets/Scripts/GeneralControllers/NetworkController.cs:72-75 | starts one download of the url, carrying the record |
| AssetControl.SpriteFetcher.Finish | Assets/Scripts/GeneralControllers/NetworkController.cs:78-94 | download i ends, and its result (null on failure) is written into its record; that record is handed back and the download leaves the in-flight list |
| AssetControl.AssetController.constructor | Assets/Scripts/AssetController/AssetController.cs:10-12 | the controller starts with empty dictionaries and satisfies the cache invariant |
| AssetControl.AssetController.FetchSprite | Assets/Scripts/AssetController/AssetController.cs:16-43 | the new state is the spec's Fetch step, and a controller that satisfied the invariant still does; a hit answers at once with the cached sprite; a join appends the record to the url's queue and creates the queue if missing; a miss marks the url loading and starts one download; the cache is never touched |
| AssetControl.AssetController.SpriteFromNetwork | Assets/Scripts/AssetController/AssetController.cs:46-63 | fails with the duplicate-key exception, changing nothing, when the url is cached already; otherwise the new state is the spec's Complete step: cache the sprite, answer the initiator, clear loading, answer the queue in order, drop the queue |
| AssetControl.AssetController.OnSpriteDownloaded | Assets/Scripts/GeneralControllers/NetworkController.cs:84-92 | the end of download i is the spec's Deliver step and keeps the invariant |
| UserPoolSpec.FirstInactive | Assets/Scripts/Screens/ScrollableUserScreen/ScrollUsersWindow.cs:138-145 | the index of the first inactive cell, with every cell before it active; it is the pool length when all cells are active |
| UserPoolSpec.Acquire | Assets/Scripts/Screens/ScrollableUserScreen/ScrollUsersWindow.cs:136-152 | first fit: every cell before the one handed out is active; the cell handed out is now active; either it was inactive and the pool length is unchanged, or every cell was active and the pool grew by exactly this one new cell; no other cell changes |
| UserPoolSpec.AcquireMany | Assets/Scripts/Screens/ScrollableUserScreen/ScrollUsersWindow.cs:110-116 | n calls of GetUserObject one after another: n cells handed out in order, and the pool never shrinks |
| UserPoolSpec.AcquireCount | Assets/Scripts/Screens/ScrollableUserScreen/ScrollUsersWindow.cs:136-152 | handing out a cell uses up one inactive cell, or none when none was inactive |
| UserPoolSpec.AcquireManySize | Assets/Scripts/Screens/ScrollableUserScreen/ScrollUsersWindow.cs:110-116 | laying out n entries grows the pool only by the shortfall of inactive cells, so the pool never shrinks |
| UserPoolSpec.AcquireManyCells | Assets/Scripts/Screens/ScrollableUserScreen/ScrollUsersWindow.cs:110-116 | the n cells handed out are distinct; each was inactive or is new and is now active; active cells stay active; nothing else becomes active |
| UserPoolSpec.AcquireManyKeepsValid | Assets/Scripts/Screens/ScrollableUserScreen/ScrollUsersWindow.cs:110-116 | appending the handed-out cells to the active list keeps the rule that a cell is active exactly when it is listed once |
| UserPoolSpec.RefillFromCleanPool | Assets/Scripts/Screens/ScrollableUserScreen/ScrollUsersWindow.cs:136-151 | after a clean-up leaves m inactive cells, showing n users reuses cells 0..n-1 in pool order and creates cells only past the end; the pool length becomes max(m, n) |
| UserPoolSpec.AddUsers | Assets/Scripts/Screens/ScrollableUserScreen/ScrollUsersWindow.cs:49-53 | the insert loop: each result is added under its email in order, and the loop stops at the first email already present; the count added is at most the page length |
| UserPoolSpec.AddUsersStops | Assets/Scripts/Screens/ScrollableUserScreen/ScrollUsersWindow.cs:49-53 | the insert loop adds the longest prefix of the results whose emails are fresh; it stops exactly at the first result whose email is already a key |
| UserPoolSpec.AddUsersKeys | Assets/Scripts/Screens/ScrollableUserScreen/ScrollUsersWindow.cs:49-53 | the keys afterwards are the earlier keys plus the emails of the users added |
| UserPoolSpec.AddUsersValues | Assets/Scripts/Screens/ScrollableUserScreen/ScrollUsersWindow.cs:49-53 | earlier entries are unchanged, and each added result is stored under its email |
| UserPoolSpec.AddUsersCompletes | Assets/Scripts/Screens/ScrollableUserScreen/ScrollUsersWindow.cs:47-55 | the loop runs to the end exactly when the page's emails are pairwise distinct and none is already a key |
| ScrollableUserScreen.ScrollUsersWindow.constructor | Assets/Scripts/Screens/ScrollableUserScreen/ScrollUsersWindow.cs:24-26 | the window starts with an empty pool and an empty active list, and the bookkeeping holds |
| ScrollableUserScreen.ScrollUsersWindow.GetUserObject | Assets/Scripts/Screens/ScrollableUserScreen/ScrollUsersWindow.cs:136-152 | the new pool and the returned cell are those of Acquire: first inactive cell reused, else one new cell appended |
| ScrollableUserScreen.ScrollUsersWindow.ReturnAllUserObjectsToPool | Assets/Scripts/Screens/ScrollableUserScreen/ScrollUsersWindow.cs:155-161 | every cell becomes inactive; pool length and order are unchanged |
| ScrollableUserScreen.ScrollUsersWindow.CleanUpScrollWindow | Assets/Scripts/Screens/ScrollableUserScreen/ScrollUsersWindow.cs:127-133 | the pool is all inactive and the active list is empty. Then either AllUsers is empty and the scrollbar is 1, or, when AllUsers is null, the call throws with the scrollbar unchanged |
| ScrollableUserScreen.LayoutKeepsValid | Assets/Scripts/Screens/ScrollableUserScreen/ScrollUsersWindow.cs:110-116 | laying out every entry of AllUsers after a valid list takes one cell per entry, shows each entry once, keeps the pool bookkeeping, and shows only emails that are keys |
| ScrollableUserScreen.ScrollUsersWindow.ShowUser | Assets/Scripts/Screens/ScrollableUserScreen/ScrollUsersWindow.cs:112-115 | one pass of the layout loop: the pool and the new cell are Acquire's, the cell is appended to the active list, and it shows the given email |
| ScrollableUserScreen.ScrollUsersWindow.ShowAll | Assets/Scripts/Screens/ScrollableUserScreen/ScrollUsersWindow.cs:110-116 | the loop visits every key of AllUsers once, in some order; the pool and the active list become those of handing out one cell per key |
| ScrollableUserScreen.ScrollUsersWindow.OnPropertiesSet | Assets/Scripts/Screens/ScrollableUserScreen/ScrollUsersWindow.cs:95-117 | with a null AllUsers, nothing changes. Otherwise each entry takes one cell, as AcquireMany does, and the cell joins the active list showing that entry once; a valid window stays valid |
| ScrollableUserScreen.ScrollUsersWindow.HandleUserData | Assets/Scripts/Screens/ScrollableUserScreen/ScrollUsersWindow.cs:47-55 | AllUsers becomes what the insert loop gives. A duplicate email throws, keeping earlier inserts and leaving the list alone; so does a null AllUsers with a non-empty page. Otherwise the list is laid out as OnPropertiesSet does |

## Left out

- Network I/O and texture decoding are left out. A download's outcome is a parameter: a sprite, or `None` for the null a failed request leaves.
- The order in which downloads end is not fixed. Any download in flight may end next, chosen by its index.
- `SpriteCacheSpec.Step`: a completion event naming no download in flight is skipped. The network cannot produce one, so this is a convention of the event model, not app behaviour.
- What callbacks do is left out. This includes a callback that calls `FetchSprite` again from inside `SpriteFromNetwork`, and a callback that throws. Each invocation is recorded with the record it received.
- Request records are values. A record object reused across two fetches in flight, with one fetch overwriting the other's url or callback, is not captured. Every caller in the app creates a fresh record per call (Assets/Scripts/Screens/User.cs:31, ScrollUsersWindow.cs:73).
- The record's subclass payload, the e-mail of `SpriteSendProperties`, is an opaque `context` number.
- `ProfilePictureCallBack` and `ShowUserDetailScreen` are left out. Their type test, the lookup of `AllUsers[email]`, setting `UserData.image` and opening the detail screen are UI plumbing.
- `ServiceLocator` lookups are left out. The fetcher is handed to the `AssetController` constructor.
- The Unity main loop runs one operation at a time, so every operation is atomic. No other concurrency is modelled.
- `ScrollableUserScreen.ScrollUsersWindow.GetUserObject`: a cell created by `Instantiate` is taken to be active, as a clone of the active prefab. The prefab's state is not part of this model.
- `ScrollableUserScreen.ScrollUsersWindow.OnPropertiesSet`: `User.Initialize` is left out, including the thumbnail `FetchSprite` it issues. What is modelled is the email each list cell shows. The dictionary's iteration order is an arbitrary choice.
- `ScrollableUserScreen.ScrollUsersWindow.HandleUserData`: a null `results` list, a null email (`Dictionary.Add` throws `ArgumentNullException`) and a null name, birth date or picture are not modelled, because strings and records are never null here.
- A null `Properties` and a null `Properties.AllUsers` are one case, `allUsers == None`. Both make the same statements log an error or throw.
- The scrollbar value is a `real`. `UI_Close`, `CloseScrollUsersWindowBtn`, `FetchUsersDataCoroutine`, `HandleNetworkError` and `GetUsersData` are UI or network plumbing with nothing to state.
- `UserData.image`, the sprite the detail screen fills in, is not part of this model.
