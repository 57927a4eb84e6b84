# Dashboard tile layout, modelled in Dafny

This project models the tile-layout engine of a personal browser dashboard (`dash.js`).
A fixed registry, `allTiles`, maps each tile id to a display name and the address its
embedded frame loads. The dashboard element holds the rendered tiles in display order.
One local-storage record, `tileOrder`, holds their ids in that order. The engine

- rebuilds the dashboard from the saved order at page load, skipping ids the registry
  does not know (`loadTiles`);
- writes the current order back after every change (`saveLayout`);
- detaches a tile when its close button is pressed (`removeTile`);
- offers, in a picker, every registry tile not currently shown, and appends the one
  clicked;
- saves the order after the drag library finishes a reorder.

Files and modules:

- `tiles.dfy` (module `Tiles`): the registry (`Registry`, `AllTiles`), the rendered
  tile (`Tile`), `CreateTile` and the predicate `Shows`, which says a tile displays what
  the registry holds for its id.
- `storage.dfy` (module `Storage`): `Option` and `SavedOrder`. `SavedOrder` is what
  `loadTiles` reads when the record is present or absent.
- `layout.dfy` (module `Layout`): the pure descriptions and their lemmas. They cover the
  id capture of `saveLayout` (`IdsOf`), the filtering of `loadTiles` (`KnownIds`,
  `Loaded`), the removal (`RemoveFirst`) and the picker listing (`PickerEntries`).
  `Filter` is the order-preserving selection both the loader and the picker use.
  `CurrentIds` (the picker's `current` set) and `NoDupIffSingleCounts` are helpers.
- `dashboard.dfy` (module `Dash`): the class `Dashboard`. Its fields are the
  dashboard's children, the `tileOrder` record, the picker's visibility and the picker's
  buttons. Its methods are the handlers of `dash.js`, each proved against the functions
  of `Layout`. The object invariant `Valid()` says three things. The registry enumerates
  each of its keys once. Every shown tile is one the registry describes. While the picker is shown, every button names a registry tile
  that is not on the dashboard. Module-level methods model opening the page
  (`OpenPage`) and saving followed by reopening (`ReopenAfterSave`).
  `AddFromPickerSession` walks the picker flow with the real registry in two steps.
  `OpenWithStaleId` skips a stale id. `AddTheOther` has `tileexample2` offered and added,
  and `["tileexample1", "tileexample2"]` saved.
- `prototype_lookup.dfy` (module `PrototypeLookup`): the registry test of `loadTiles`
  as the code writes it; see "## Findings".

Modelling choices:

- The browser's storage holds the id list directly. The record is `None` when the key is
  absent.
- A drag is any rearrangement of the same tiles (`multiset(arranged) ==
  multiset(tiles)`), followed by `saveLayout`.
- `document.getElementById(id)` is the first dashboard child with that id. No registry
  id collides with the ids of the page's other elements.
- A dashboard can hold two tiles with one id if the saved order repeats it. The model
  allows this. Distinct ids are therefore not part of `Valid()`. Instead, the ids of the tiles a
  load renders are `KnownIds` of the saved order (`Loaded`), and `KnownIdsSpec` proves
  them distinct when the saved order has no repeats. Each handler after the load
  (`RemoveTile`, `PickEntry`, `DragEnd`) proves that it keeps the ids distinct when they
  were distinct before. `LoadTiles` and `OpenPage` themselves state no such clause.
- Facts about dash.js that the model follows:
  - With no saved order, the code renders nothing and writes no order (dash.js:56-62).
  - A stored record that is not valid JSON makes `JSON.parse` throw (dash.js:56).
  - The picker lists only the registry tiles that are not shown (dash.js:85-88). The
    code has no other check against adding a tile twice.
  - Removal detaches the tile at once (dash.js:67-68). There is no timed fade-out.
  - The code has no custom tiles, tile settings, or delete confirmation.

## Model

| member | source | states |
|---|---|---|
| Tiles.AllTilesValid | dash.js:2-12 | in the registry as declared, every key is enumerated exactly once, and there are two entries |
| Tiles.CreateTile | dash.js:30-47 | the element built for a registry id carries that id, shows the registry's name and frame address, and its close button removes that id |
| Tiles.ShowsIsCreateTile | dash.js:34-42 | a tile displays its registry entry exactly when it is the element `createTile` builds for its id |
| Layout.FilterMembers | dash.js:58-62 | an id is kept by the order-preserving selection exactly when it is in the input and passes the test |
| Layout.FilterIsSubsequence | dash.js:58-62 | the selection keeps the kept ids in their input order |
| Layout.FilterNoDup | dash.js:58-62 | selecting from a list without repeats gives a list without repeats |
| Layout.IdsOf | dash.js:51 | the captured list has one id per child, the id of the child at the same position |
| Layout.RenderAll | dash.js:58-62 | rendering ids gives one tile per id, the one `createTile` builds for the id at the same position |
| Layout.CaptureAfterRender | dash.js:50-63 | capturing the ids of the tiles rendered for known ids gives those ids back, and every rendered tile shows its registry entry |
| Layout.RenderAfterCapture | dash.js:50-63 | rendering the ids captured from registry-described tiles rebuilds exactly those tiles |
| Layout.NoDupIdsIffNoDupTiles | dash.js:34-42 | for registry-described tiles, distinct ids and distinct tiles coincide |
| Layout.KnownIds | dash.js:58-62 | every id the loader keeps is a registry key |
| Layout.KnownIdsSpec | dash.js:58-62 | the loader keeps exactly the saved ids that are registry keys, in saved order, and keeps no repeats when the saved order has none |
| Layout.KnownIdsSnoc | dash.js:58-62 | one more saved id is appended when it is a registry key and skipped otherwise |
| Layout.KnownIdsOfKnown | dash.js:58-62 | when every saved id is known, nothing is skipped |
| Layout.Loaded | dash.js:55-63 | the loaded tiles show their registry entries, and their ids are the known saved ids |
| Layout.LoadedSnoc | dash.js:58-62 | one more saved id appends its registry tile when it is a key and appends nothing otherwise |
| Layout.AllShownAppend | dash.js:60 | appending registry-described tiles to registry-described tiles keeps every tile registry-described |
| Layout.LoadAfterSave | dash.js:50-63 | loading the order saved from registry-described tiles reproduces those tiles in order |
| Layout.SaveAfterLoad | dash.js:50-63 | after a load, the captured order is the saved order minus the unknown ids; saving it and loading again changes nothing; with no unknown ids it is the saved order |
| Layout.RemoveFirst | dash.js:67-68 | removal takes out at most one tile |
| Layout.RemoveFirstSubMultiset | dash.js:67-68 | removal only takes tiles away (the result's multiset is contained in the input's) |
| Layout.RemoveFirstAbsent | dash.js:67-68 | removing an id no tile has leaves the tiles unchanged |
| Layout.RemoveFirstAt | dash.js:67-68 | removing a shown id takes out exactly its first tile, and all other tiles keep their relative order |
| Layout.DropAtKeepsLayout | dash.js:66-72 | after a tile is taken out, every tile still shows its registry entry, no new id appears, and distinct ids stay distinct |
| Layout.DetachKeepsLayout | dash.js:66-72 | whether or not a tile had the id, what the removal leaves is registry-described, keeps distinct ids distinct, and leaves every picker button naming an unshown tile |
| Layout.Unshown | dash.js:87-88 | no id the picker keeps is in `current` |
| Layout.Labelled | dash.js:89-91 | each picker button carries its id and shows that id's registry name |
| Layout.PickerEntries | dash.js:85-99 | the picker has at most one button per enumerated id |
| Layout.OffersUnshownAfterShrink | dash.js:66-72 | picker buttons that named unshown tiles still do after tiles are removed |
| Layout.PickerEntriesSnoc | dash.js:87-99 | one more enumerated id adds a button exactly when that id is not shown |
| Layout.OrderKnown | dash.js:87 | in a well-formed registry every enumerated id is a key |
| Layout.PickerListing | dash.js:85-99 | the picker offers exactly the registry ids not shown, each once, in registry enumeration order, each labelled with its registry name |
| Layout.AppendUnshownKeepsNoDup | dash.js:88-93 | appending a tile whose id is not shown keeps the dashboard's ids distinct |
| Layout.AppendPicked | dash.js:92-96 | the id of a clicked button is a registry key that is not shown; appending its tile keeps every tile registry-described and keeps distinct ids distinct |
| Layout.PermutationKeepsLayout | dash.js:22-27 | a drag rearrangement keeps every tile registry-described, keeps the set of shown ids, and keeps distinct ids distinct |
| Dash.Dashboard.constructor | dash.js:1 | before loading, the dashboard is empty, storage is as an earlier session left it, and the picker is hidden and empty |
| Dash.Dashboard.SaveLayout | dash.js:50-53 | the `tileOrder` record becomes the dashboard's ids in display order |
| Dash.Dashboard.LoadTiles | dash.js:55-63 | appends the registry tiles of the saved ids that are keys, in saved order, and skips the rest; an absent record (read as `[]` by the fallback at dash.js:56) appends nothing; the record is not rewritten; the invariant is kept |
| Dash.Dashboard.GetElementById | dash.js:67 | finds a tile exactly when one has the id, and then finds the first such tile |
| Dash.Dashboard.DetachFirst | dash.js:67-68 | the children become the old children with the first tile of that id removed; it reports whether a tile had the id and where the removed tile stood; with no such tile nothing changes |
| Dash.Dashboard.RemoveTile | dash.js:66-72 | removes the first tile with the id, or changes nothing when there is none; rewrites `tileOrder` to the new order in either case; keeps the invariant and distinct ids |
| Dash.Dashboard.ListAvailable | dash.js:83-99 | the picker loop builds exactly `PickerEntries` over the registry order: buttons for the unshown registry ids, each once, each with its registry name |
| Dash.Dashboard.OpenPicker | dash.js:82-102 | the picker's list is rebuilt from the current dashboard and shown |
| Dash.Dashboard.PickEntry | dash.js:92-96 | clicking a button appends the registry tile it names, whose id was not shown; saves the new order; hides the picker; leaves existing tiles untouched; keeps ids distinct |
| Dash.Dashboard.ClosePicker | dash.js:105 | the picker is hidden and nothing else changes |
| Dash.Dashboard.DragEnd | dash.js:21-27 | after a drop, the children are the rearranged tiles and `tileOrder` is their ids; the invariant and distinct ids are kept |
| Dash.ListUnshown | dash.js:87-99 | the loop over the registry builds exactly the picker buttons `PickerEntries` describes for the ids not in `current` |
| Dash.OpenPage | dash.js:15-19 | the page opens showing the loaded tiles for what storage holds; an absent record (read as `[]` by the fallback at dash.js:56) shows nothing |
| Dash.ReopenAfterSave | dash.js:50-63 | saving, then opening the page from the saved record, shows the same tiles in the same order |
| Dash.StaleIdSkipped | dash.js:55-63 | with the registry of dash.js, loading `["tileexample1", "retired"]` renders only `tileexample1` |
| Dash.PickerOffersTheOther | dash.js:82-99 | with the registry of dash.js and `tileexample1` shown, the picker offers only `tileexample2`, labelled "Tile Example 2" |
| Dash.OpenWithStaleId | dash.js:15-19 | with the registry of dash.js and the saved order `["tileexample1", "retired"]`, the page opens showing only `tileexample1`, with the picker hidden |
| Dash.AddTheOther | dash.js:82-99 | with `tileexample1` shown, opening the picker and clicking its one button shows both example tiles in that order and saves `["tileexample1", "tileexample2"]` |
| PrototypeLookup.KnownIdsAsWritten | dash.js:59 | the test as written keeps registry keys and also every property name inherited from `Object.prototype` |
| PrototypeLookup.InheritedNameRendered | dash.js:59 | a saved `"constructor"` passes the test as written, although it is no registry key; the intended test skips it |
| PrototypeLookup.AsWrittenAgreesWithoutInheritedNames | dash.js:59 | the test as written and the intended test agree on every saved order without inherited names that are not keys |

## Left out

- JSON encoding: `JSON.stringify` and `JSON.parse` are not modelled. The record holds the
  id list itself. The model does not represent stored values the page never writes.
  Invalid JSON makes `JSON.parse` throw (dash.js:56). A falsy JSON value (`null`,
  `false`, `0`, `""`) reads as `[]` through `|| []` (dash.js:56). A truthy value that is
  not an array has no `forEach`, so `saved.forEach` throws (dash.js:58).
- Registry enumeration order: `for…in` lists integer-like keys first in ascending
  order, then the other keys in insertion order. `Registry.order` is the enumeration
  order, and for the declared registry it is the declaration order.
- `getElementById` search scope: the real call searches the whole document. The model
  searches only the dashboard's children.
- The drag gesture itself belongs to the Sortable library and is not modelled. Only its
  result, a rearrangement of the same tiles, is.
- Markup and styling are not modelled: HTML templating, CSS classes, and the picker's
  show/hide past one boolean.
- The picker buttons' click closures are not modelled as closures. A button is an
  `Entry` holding the id its closure captured.
- `initSortable` and `setupAddTileMenu` only install handlers. Those handlers are the
  methods `DragEnd`, `OpenPicker`, `PickEntry` and `ClosePicker`.
- `tiles/MP3_Player/tile.js` (audio playback and its animation loop) is not part of this
  model.
- `tiles/Notes/tile.js` (a text area copied to its own storage key) is not part of this
  model.
- Dash.Dashboard.LoadTiles: requires the picker to be hidden. The code calls it once, from
  the `DOMContentLoaded` handler, before the picker's handlers exist.
- Dash.Dashboard.PickEntry: requires the picker to be shown and the button to exist. A
  click can only reach a button of the visible list.

## Findings

| source | as written | input that shows it | evidently intended | confidence | as-written member | corrected member |
|---|---|---|---|---|---|---|
| dash.js:59 | `if (allTiles[id])` is a property lookup, so it also passes for names inherited from `Object.prototype` | a `tileOrder` record holding `["constructor"]` (it passes the test, and a tile is built from `Object`) | render only ids that are own keys of the registry | not executed; the lookup semantics are certain, but `saveLayout` never writes such an id, so only a record edited outside the page triggers it | PrototypeLookup.InheritedNameRendered | Layout.KnownIdsSpec |
