/** The dashboard page of dash.js: the children of the `#dashboard` element, the
    `tileOrder` record in local storage and the tile picker, with the handlers that
    change them. */
module Dash {
  import opened Tiles
  import opened Storage
  import opened Layout

  class Dashboard {
    /** `allTiles`; the page never changes it. */
    const registry: Registry
    /** The children of `#dashboard`, in document order. */
    var tiles: seq<Tile>
    /** The `tileOrder` record in local storage. */
    var tileOrder: Option<seq<string>>
    /** Whether `#tilePicker` is shown (lacks the `hidden` class). */
    var pickerVisible: bool
    /** The buttons in `#tileList`. */
    var tileList: seq<Entry>

    /** The registry enumerates each of its keys once, every shown tile is one the
        registry describes, and while the picker is shown each of its buttons names a
        registry tile that is not on the dashboard. */
    ghost predicate Valid()
      reads this
    {
      && registry.Valid()
      && AllShown(registry, tiles)
      && (pickerVisible ==> OffersUnshown(registry, tileList, tiles))
    }

    /** The page before `DOMContentLoaded` runs: an empty dashboard, local storage as an
        earlier session left it, and a hidden, empty picker. */
    constructor (reg: Registry, stored: Option<seq<string>>)
      requires reg.Valid()
      ensures Valid()
      ensures registry == reg && tiles == [] && tileOrder == stored
      ensures !pickerVisible && tileList == []
    {
      registry := reg;
      tiles := [];
      tileOrder := stored;
      pickerVisible := false;
      tileList := [];
    }

    /** `saveLayout`: the record is overwritten with the ids on the dashboard, in order. */
    method SaveLayout()
      modifies this`tileOrder
      ensures tileOrder == Some(IdsOf(tiles))
    {
      tileOrder := Some(IdsOf(tiles));
    }

    /** `loadTiles`: appends a tile for every saved id that is a registry key, in saved
        order, and skips the others; an absent record counts as the empty list. It runs
        once, from the `DOMContentLoaded` handler, before the picker can be opened, and
        it does not write the record back. */
    method LoadTiles()
      requires Valid() && !pickerVisible
      modifies this`tiles
      ensures Valid()
      ensures tiles == old(tiles) + Loaded(registry, SavedOrder(tileOrder))
      ensures tileOrder.None? ==> tiles == old(tiles)
    {
      var saved := SavedOrder(tileOrder);
      var i := 0;
      while i < |saved|
        invariant 0 <= i <= |saved|
        invariant tiles == old(tiles) + Loaded(registry, saved[..i])
      {
        assert saved[..i + 1] == saved[..i] + [saved[i]];
        LoadedSnoc(registry, saved[..i], saved[i]);
        if saved[i] in registry.defs {
          tiles := tiles + [CreateTile(registry, saved[i])];
        }
        i := i + 1;
      }
      assert saved[..i] == saved;
      AllShownAppend(registry, old(tiles), Loaded(registry, saved));
    }

    /** `document.getElementById(id)`: the first tile in document order with that id. */
    method GetElementById(id: string) returns (found: bool, k: nat)
      ensures found <==> id in IdsOf(tiles)
      ensures found ==> k < |tiles| && tiles[k].id == id
      ensures found ==> forall j :: 0 <= j < k ==> tiles[j].id != id
    {
      k := 0;
      while k < |tiles| && tiles[k].id != id
        invariant k <= |tiles|
        invariant forall j :: 0 <= j < k ==> tiles[j].id != id
      {
        k := k + 1;
      }
      found := k < |tiles|;
    }

    /** `document.getElementById(id)?.remove()`: detaches the first tile with that id,
        if there is one, and says where it was. */
    method DetachFirst(id: string) returns (found: bool, k: nat)
      modifies this`tiles
      ensures tiles == RemoveFirst(old(tiles), id)
      ensures found <==> id in IdsOf(old(tiles))
      ensures found ==> k < |old(tiles)| && tiles == old(tiles)[..k] + old(tiles)[k + 1..]
      ensures !found ==> tiles == old(tiles)
    {
      found, k := GetElementById(id);
      if found {
        RemoveFirstAt(tiles, id, k);
        tiles := tiles[..k] + tiles[k + 1..];
      } else {
        RemoveFirstAbsent(tiles, id);
      }
    }

    /** `removeTile(id)`: detaches the first tile with that id, if any, then saves. */
    method RemoveTile(id: string)
      requires Valid()
      modifies this`tiles, this`tileOrder
      ensures Valid()
      ensures tiles == RemoveFirst(old(tiles), id)
      ensures id !in IdsOf(old(tiles)) ==> tiles == old(tiles)
      ensures tileOrder == Some(IdsOf(tiles))
      ensures NoDup(IdsOf(old(tiles))) ==> NoDup(IdsOf(tiles))
    {
      ghost var before := tiles;
      var found, k := DetachFirst(id);
      DetachKeepsLayout(registry, before, tiles, found, k, tileList);
      assert Valid();
      SaveLayout();
    }

    /** The add button's handler, up to showing the picker: a button for every registry
        id not on the dashboard, in enumeration order, showing its name. */
    method ListAvailable() returns (entries: seq<Entry>)
      requires Valid()
      ensures entries == PickerEntries(registry, registry.order, CurrentIds(tiles))
      ensures OffersUnshown(registry, entries, tiles)
      ensures forall id :: id in registry.defs && id !in CurrentIds(tiles) ==> id in EntryIds(entries)
      ensures NoDup(EntryIds(entries))
    {
      OrderKnown(registry);
      entries := ListUnshown(registry, CurrentIds(tiles));
      PickerListing(registry, tiles);
    }

    /** The add button's handler: rebuilds the picker's list and shows it. */
    method OpenPicker()
      requires Valid()
      modifies this`tileList, this`pickerVisible
      ensures Valid() && pickerVisible
      ensures tileList == PickerEntries(registry, registry.order, CurrentIds(tiles))
    {
      tileList := ListAvailable();
      pickerVisible := true;
    }

    /** A picker button's handler: appends the tile it names, saves and hides the picker.
        A button can only be clicked while the picker is shown. */
    method PickEntry(k: nat)
      requires Valid() && pickerVisible && k < |tileList|
      modifies this`tiles, this`tileOrder, this`pickerVisible
      ensures Valid() && !pickerVisible
      ensures tileList[k].id !in IdsOf(old(tiles))
      ensures tiles == old(tiles) + [CreateTile(registry, tileList[k].id)]
      ensures tileOrder == Some(IdsOf(tiles))
      ensures NoDup(IdsOf(old(tiles))) ==> NoDup(IdsOf(tiles))
    {
      AppendPicked(registry, tileList, tiles, k);
      tiles := tiles + [CreateTile(registry, tileList[k].id)];
      SaveLayout();
      pickerVisible := false;
    }

    /** The close button's handler. */
    method ClosePicker()
      requires Valid()
      modifies this`pickerVisible
      ensures Valid() && !pickerVisible
    {
      pickerVisible := false;
    }

    /** A drop that ends a drag: the drag library has rearranged the children into some
        order of the same tiles, and its `onEnd` hook is `saveLayout`. */
    method DragEnd(arranged: seq<Tile>)
      requires Valid() && multiset(arranged) == multiset(tiles)
      modifies this`tiles, this`tileOrder
      ensures Valid()
      ensures tiles == arranged && tileOrder == Some(IdsOf(arranged))
      ensures NoDup(IdsOf(old(tiles))) ==> NoDup(IdsOf(tiles))
    {
      PermutationKeepsLayout(registry, tiles, arranged);
      tiles := arranged;
      SaveLayout();
    }
  }

  /** The `for (const id in allTiles)` loop of the add button's handler: walks the
      registry in enumeration order and adds a button, labelled with the registry name,
      for every id not in `current`. */
  method ListUnshown(reg: Registry, current: set<string>) returns (entries: seq<Entry>)
    requires AllKnown(reg, reg.order)
    ensures entries == PickerEntries(reg, reg.order, current)
  {
    var order := reg.order;
    entries := [];
    var i := 0;
    while i < |order|
      invariant 0 <= i <= |order|
      invariant AllKnown(reg, order[..i])
      invariant entries == PickerEntries(reg, order[..i], current)
    {
      var id := order[i];
      assert order[..i + 1] == order[..i] + [id];
      PickerEntriesSnoc(reg, order[..i], id, current);
      if id !in current {
        entries := entries + [Entry(id, reg.defs[id].name)];
      }
      i := i + 1;
    }
    assert order[..i] == order;
  }

  /** Opening the page: the `DOMContentLoaded` handler's `loadTiles` over whatever local
      storage holds. An absent record gives an empty dashboard. */
  method OpenPage(reg: Registry, stored: Option<seq<string>>) returns (page: Dashboard)
    requires reg.Valid()
    ensures fresh(page) && page.Valid() && page.registry == reg
    ensures page.tiles == Loaded(reg, SavedOrder(stored))
    ensures stored.None? ==> page.tiles == []
    ensures page.tileOrder == stored && !page.pickerVisible
  {
    page := new Dashboard(reg, stored);
    page.LoadTiles();
  }

  /** Saving and opening the page again from what was saved shows the same tiles in the
      same order. */
  method ReopenAfterSave(page: Dashboard) returns (next: Dashboard)
    requires page.Valid()
    modifies page
    ensures page.tiles == old(page.tiles) && page.tileOrder == Some(IdsOf(page.tiles))
    ensures fresh(next) && next.Valid() && next.registry == page.registry
    ensures next.tiles == page.tiles && next.tileOrder == page.tileOrder
  {
    page.SaveLayout();
    next := OpenPage(page.registry, page.tileOrder);
    LoadAfterSave(page.registry, page.tiles);
  }

  /** The ids the session's dashboards show: `tileexample1` alone, then both tiles. */
  lemma SessionIds()
    ensures CurrentIds([CreateTile(AllTiles, "tileexample1")]) == {"tileexample1"}
    ensures IdsOf([CreateTile(AllTiles, "tileexample1"), CreateTile(AllTiles, "tileexample2")])
         == ["tileexample1", "tileexample2"]
  {
    assert IdsOf([CreateTile(AllTiles, "tileexample1")]) == ["tileexample1"];
  }

  /** Loading `["tileexample1", "retired"]` with the registry of dash.js skips the
      retired id. */
  lemma StaleIdSkipped()
    ensures Loaded(AllTiles, ["tileexample1", "retired"]) == [CreateTile(AllTiles, "tileexample1")]
  {
    KnownIdsSnoc(AllTiles, [], "tileexample1");
    KnownIdsSnoc(AllTiles, ["tileexample1"], "retired");
    assert [] + ["tileexample1"] == ["tileexample1"];
    assert ["tileexample1"] + ["retired"] == ["tileexample1", "retired"];
  }

  /** With `tileexample1` shown, the picker of dash.js offers only `tileexample2`. */
  lemma PickerOffersTheOther()
    ensures AllKnown(AllTiles, AllTiles.order)
    ensures PickerEntries(AllTiles, AllTiles.order, {"tileexample1"}) == [Entry("tileexample2", "Tile Example 2")]
  {
    AllTilesValid();
    PickerEntriesSnoc(AllTiles, [], "tileexample1", {"tileexample1"});
    PickerEntriesSnoc(AllTiles, ["tileexample1"], "tileexample2", {"tileexample1"});
    assert [] + ["tileexample1"] == ["tileexample1"];
    assert ["tileexample1"] + ["tileexample2"] == AllTiles.order;
  }

  /** Opening the page with the registry of dash.js and the saved order
      `["tileexample1", "retired"]`: the stale id is skipped. */
  method OpenWithStaleId() returns (page: Dashboard)
    ensures fresh(page) && page.Valid() && page.registry == AllTiles && !page.pickerVisible
    ensures page.tiles == [CreateTile(AllTiles, "tileexample1")]
  {
    AllTilesValid();
    StaleIdSkipped();
    page := OpenPage(AllTiles, Some(["tileexample1", "retired"]));
  }

  /** With `tileexample1` shown, opening the picker and clicking its one button appends
      `tileexample2` and saves both ids. */
  method AddTheOther(page: Dashboard)
    requires page.Valid() && page.registry == AllTiles && !page.pickerVisible
    requires page.tiles == [CreateTile(AllTiles, "tileexample1")]
    modifies page
    ensures page.Valid() && !page.pickerVisible
    ensures page.tiles == [CreateTile(AllTiles, "tileexample1"), CreateTile(AllTiles, "tileexample2")]
    ensures page.tileOrder == Some(["tileexample1", "tileexample2"])
  {
    PickerOffersTheOther();
    SessionIds();
    page.OpenPicker();
    assert page.tileList == [Entry("tileexample2", "Tile Example 2")];
    page.PickEntry(0);
  }

  /** A session with the registry of dash.js: a stale saved id is skipped, the picker
      offers the one tile not shown, and picking it appends and saves it. */
  method AddFromPickerSession() {
    var page := OpenWithStaleId();
    AddTheOther(page);
    assert page.tileOrder == Some(["tileexample1", "tileexample2"]);
  }
}
