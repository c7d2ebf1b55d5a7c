# hcm-map place store, modelled in Dafny

The map editor keeps the markers a user saves in one in-memory list
(`customPlaces`). It keeps that list in step with two other stores: a
write-through copy in the browser's `localStorage` (key `"customPlaces"`)
and a remote spreadsheet endpoint that accepts or rejects each request. Four
things change the list:

- startup reads the cached copy;
- refresh (`loadPlacesFromAPI`) replaces the list with the remote's, or falls back to the cache;
- save (`savePlaceData`) validates the form, then either updates the place being edited or adds a new one;
- delete (`deletePlace`) finds the first place matching the clicked position and removes every place that carries its id.

This project models those operations and proves what each one guarantees.

Files:

- `wrappers.dfy`: `Option` and `Result`.
- `js_text.dfy` (module `JsText`): JavaScript's `String.prototype.trim`, which the save form applies to the name and address.
- `places.dfy` (module `Places`): the `Place` record, plus the array operations the store uses. These are `findIndex` by id, `find` by a test, and `filter` on id.
- `remote.dfy` (module `Remote`): the replies of the endpoint and the `ok` check shared by `apiGet` and `apiPost`. The HTTP exchange is not modelled: each operation is given the reply the endpoint produced.
- `sync.dfy` (module `Sync`): the list and the cache together as a `Snapshot` value. Each operation is a step function on it: `RefreshStep`, `SaveStep`, `DeleteStep` and `StartupSnapshot`. The lemmas here state the guarantees: all-or-nothing on remote failure, order preservation, first-match replacement, append-by-one, and the invariant that the list mirrors the cache.
- `store.dfy` (module `Store`): class `PlaceStore`, whose fields `places` and `cache` the methods update in place, step by step, as the source does. Each method promises the change its step function describes. Each also keeps `Valid()`: the list equals what the cache reads back as.

Coordinates are `real` values that are only carried, never computed with. The user's confirmation and the coordinate test that picks a delete target are parameters. So are the form's inputs, the clock reading for `timestamp` and the remote's reply.

Behaviour of the code worth knowing:

- Unlike the startup read (src/map.js:401-406), which catches a parse error and starts empty, the refresh fallback parses the cache without a `try` (src/map.js:148-149). So when the remote fails and the cache cannot be parsed, the refresh throws and the list stays as it was (`CacheUnreadable`).
- An update that the remote accepts but that matches no local place leaves the list unchanged. It still rewrites the cache (src/map.js:259-267).
- An add that the remote accepts but whose reply has no `data` throws at `data.id` (src/map.js:262-263). The list and cache stay unchanged although the remote stored the place (`AckWithoutData`).
- Nothing in the code keeps ids unique. The model proves that they stay unique when the remote hands out fresh ids (`SaveKeepsIdsUnique`, `DeleteKeepsIdsUnique`).

## Model

| member | source | states |
|---|---|---|
| JsText.Trim | src/map.js:228-229 | the trimmed text is a slice of the input with only trimmable characters cut from each end, and it neither starts nor ends with one |
| JsText.TrimEmptyIffAllTrimmable | src/map.js:228-235 | the trimmed name is empty, so the save is refused, exactly when every character typed is white space or a line terminator |
| JsText.TrimIdempotent | src/map.js:228-229 | trimming an already trimmed input changes nothing |
| Places.IndexOfId | src/map.js:259 | `findIndex` by id gives the first position carrying the id, and none exactly when no place carries it |
| Places.FindIndex | src/map.js:340-342 | `find` with the coordinate test gives the first place the test accepts, and none exactly when it accepts no place |
| Places.WithoutId | src/map.js:351 | the filtered list keeps a place exactly when it was in the list and does not carry the id, and is no longer |
| Places.WithoutIdAppend | src/map.js:351 | filtering distributes over concatenation, so the kept places keep their relative order |
| Places.WithoutIdAbsent | src/map.js:351 | filtering a list in which no place carries the id returns it unchanged |
| Places.WithoutIdIdempotent | src/map.js:351 | filtering again on the same id removes nothing more |
| Places.WithoutIdLength | src/map.js:351 | the filter removes exactly as many places as carry the id |
| Places.WithoutIdKeepsUnique | src/map.js:351 | filtering a list whose ids are unique leaves them unique |
| Remote.CheckOk | src/map.js:32-49 | a reply yields its data exactly when its body says `ok`; otherwise the failure carries the body's `error`, or the fixed fallback text when that is empty |
| Remote.ApiGet | src/map.js:32-37 | a GET yields its data exactly when the body says `ok`; a failing body gives its `error`, or "API GET failed" when that is empty |
| Remote.ApiPost | src/map.js:39-49 | a POST yields the body's `data` (the only part any caller reads) exactly when the body says `ok`; a failing body gives its `error`, or "API POST failed" when that is empty |
| Sync.StartupSnapshot | src/map.js:398-407 | the page starts with the cached list, or with an empty list when the cache is absent or cannot be parsed, and so the list mirrors the cache |
| Sync.SaveSendsForm | src/map.js:241-262 | with a non-empty trimmed name and a clicked position, the record built from the form is posted whatever the reply: as an update when the edited place has an id, as an add otherwise |
| Sync.SavedRecord | src/map.js:228-264 | a saved record's name is the typed name with white space cut from both ends and is non-empty. Its address is trimmed the same way. It sits at the clicked position with the form's colour and timestamp. Its id is the edited place's id on an update and the reply's id on an add |
| Sync.RefreshStep | src/map.js:138-154 | a refresh always sends the GET; it reports `Refreshed` exactly when the reply is `ok`, and then writes the whole new list to the cache, and otherwise leaves the cache as it was. Its further guarantees are `RefreshAdoptsRemote`, `RefreshFallsBack`, `RefreshIdempotent` and `RefreshKeepsMirror` |
| Sync.RefreshAdoptsRemote | src/map.js:141-145 | after a good GET the list is the reply's array (empty if `data` is not an array), and the whole list is written to the cache |
| Sync.RefreshFallsBack | src/map.js:146-150 | after a failed GET the cache is not written. The list becomes the cached list (empty without one), or stays as it was when the cache cannot be parsed |
| Sync.RefreshIdempotent | src/map.js:138-154 | refreshing twice against the same reply leaves the same list and cache as refreshing once |
| Sync.FailedRefreshIsNoOpWhenMirrored | src/map.js:146-150 | when the list already mirrors the cache, a failed refresh changes nothing |
| Sync.SaveStep | src/map.js:227-277 | a save sends nothing exactly when it reports invalid input; what it sends is an update exactly when the edited place has an id, and an add otherwise; unless it reports `Saved`, list and cache are unchanged. Its further guarantees are `SaveValidatesFirst`, `SaveSendsForm`, `SavedRecord`, `SaveAllOrNothing`, `UpdateReplacesFirstMatch`, `AddAppends`, `SaveKeepsIdsUnique` and `SaveKeepsMirror` |
| Sync.ReplaceFirst | src/map.js:259-260 | the record replaces the place at the first position carrying the id, and a list without the id is returned unchanged |
| Sync.SaveValidatesFirst | src/map.js:228-239 | a save sends a request exactly when the trimmed name is non-empty and a position was clicked. A missing name is reported first, then a missing position. An unsent save changes nothing |
| Sync.SaveAllOrNothing | src/map.js:255-273 | a save either succeeds with the remote's consent and leaves the cache mirroring the list, or leaves list and cache exactly as before. A rejected request always leaves them as before |
| Sync.UpdateReplacesFirstMatch | src/map.js:256-260 | an accepted update sends the record with its id and keeps the length. It replaces only the first place carrying that id and no other place. A list without the id is unchanged, and the cache is written |
| Sync.AddAppends | src/map.js:261-267 | an accepted add with reply data appends the record, with the returned id, after the unchanged old list. The length grows by one and the cache is written |
| Sync.SaveKeepsIdsUnique | src/map.js:256-264 | a save keeps ids unique: an update always does, and an add does when the id the reply returns is new to the list |
| Sync.DeleteStep | src/map.js:337-361 | a delete sends nothing exactly when it was cancelled or found no target id; what it sends is a delete of the reported id; unless it reports `Deleted`, list and cache are unchanged. Its further guarantees are `DeleteNeedsTargetId`, `DeleteSendsTarget`, `DeleteOnSuccess`, `DeleteAllOrNothing`, `DeleteFilters`, `DeleteKeepsIdsUnique` and `DeleteKeepsMirror` |
| Sync.DeleteNeedsTargetId | src/map.js:337-346 | a delete sends a request exactly when confirmed and the first place at the position has an id. Otherwise nothing changes |
| Sync.DeleteSendsTarget | src/map.js:340-350 | a confirmed delete posts the id of the first place the position matches whatever the reply, when that place has one |
| Sync.DeleteOnSuccess | src/map.js:340-352 | when the user confirms, the first place the position matches carries an id, and the remote accepts, a delete of that id is sent, `Deleted` is reported, the list becomes exactly the old places without that id, and the cache is written with it |
| Sync.DeleteAllOrNothing | src/map.js:348-358 | a delete either succeeds with the remote's consent and leaves the cache mirroring the list, or changes nothing |
| Sync.DeleteFilters | src/map.js:350-352 | an accepted delete leaves exactly the places whose id differs from the target's, in their original order. The target was the first place the position matches, and the length drops by the number of places carrying the id |
| Sync.DeleteKeepsIdsUnique | src/map.js:351 | a delete keeps ids unique |
| Sync.RefreshKeepsMirror | src/map.js:141-150 | a refresh keeps the list equal to what the cache reads back as |
| Sync.SaveKeepsMirror | src/map.js:255-273 | a save keeps the list equal to what the cache reads back as |
| Sync.DeleteKeepsMirror | src/map.js:349-358 | a delete keeps the list equal to what the cache reads back as |
| Sync.DeleteExample | src/map.js:350-352 | deleting "2" from places "1", "2", "3" sends a delete for "2" and leaves "1", "3" in that order |
| Sync.AddExample | src/map.js:261-267 | adding "A" against a remote that returns id "7" appends a place named "A" with id "7" |
| Store.PlaceStore.Startup | src/map.js:398-407 | the new store holds the startup list and the cache entry, and it is valid (the list mirrors the cache) |
| Store.PlaceStore.Refresh | src/map.js:138-154 | the new list, cache and outcome are those of `RefreshStep` on the old ones, and validity is kept; on a valid store, a refresh that does not succeed changes neither list nor cache |
| Store.PlaceStore.Save | src/map.js:227-277 | the request sent, the new list and cache, and the outcome are those of `SaveStep` on the old state, and validity is kept |
| Store.PlaceStore.Delete | src/map.js:337-361 | the request sent, the new list and cache, and the outcome are those of `DeleteStep` on the old state, and validity is kept |

## Left out

- Map rendering with Leaflet is not modelled: the tile layer, the district boundaries (`loadDistricts`) and the markers and popups (`refreshMarkers`). These are calls into an external library.
- The modal form, `alert`, `confirm`, the loading indicator and the export button are user interface. Their values are parameters: the form's fields, the confirmation and the outcome a method reports.
- `editPlace` and the map-click handler only fill the form. Their result is the `Form.editing` and `Form.at` parameters.
- `closeModal`, which clears the form after a successful save, is not modelled.
- `fetch`, HTTP headers, `JSON.stringify`/`JSON.parse` and the `appKey` field are not modelled. A reply is given as an abstract `Reply` value. The cache holds a place list rather than text. The only decode failure modelled is `Undecodable`; cached JSON that parses to something other than an array is not represented.
- The approximate coordinate match (tolerance 0.0001) of `editPlace`/`deletePlace` is a floating-point comparison. It is a caller-supplied test `near`. The model keeps the fact that only the first match is the target.
- Timestamps from `new Date().toISOString()` are an opaque text parameter.
- Ids are non-empty strings compared by equality. JavaScript's distinction between `"7"` and `7` under `===` is not represented, and every falsy id is `None`.
- A `localStorage.setItem` that throws (for example, when the quota is exceeded) is not modelled. Cache writes always succeed here.
- Refresh, save and delete run as whole steps. The asynchronous interleavings of a refresh with a save or delete are not modelled.
