/** The tile registry (`allTiles` in dash.js) and the tile elements built from it. */
module Tiles {

  /** A registry entry: the text shown in a tile's header and the address its frame loads. */
  datatype TileDef = TileDef(name: string, src: string)

  /** The registry: definitions keyed by tile id, together with the order in which
      `for (const id in allTiles)` enumerates the keys. For an object literal whose keys
      are not integer-like that is the declaration order. */
  datatype Registry = Registry(order: seq<string>, defs: map<string, TileDef>) {

    /** Every key is enumerated exactly once, and nothing else is. */
    ghost predicate Valid() {
      NoDup(order) && forall id :: id in defs <==> id in order
    }
  }

  /** The registry exactly as declared at dash.js:2-12. */
  const AllTiles: Registry :=
    Registry(
      ["tileexample1", "tileexample2"],
      map[
        "tileexample1" := TileDef("Tile Example 1", "tiles/tileexample1/index.html"),
        "tileexample2" := TileDef("Tile Example 2", "tiles/tileexample2/index.html")
      ])

  lemma AllTilesValid()
    ensures AllTiles.Valid()
    ensures |AllTiles.order| == 2
  {
  }

  /** No element occurs twice. */
  ghost predicate NoDup<T>(s: seq<T>) {
    forall i, j :: 0 <= i < j < |s| ==> s[i] != s[j]
  }

  /** A rendered tile element: its DOM id, the name in its header, the address of its
      frame, and the id its close button passes to `removeTile`. */
  datatype Tile = Tile(id: string, name: string, src: string, closes: string)

  /** `t` is a tile as the registry describes it: a known id, the registry's name and
      address, and a close button bound to its own id. */
  ghost predicate Shows(reg: Registry, t: Tile) {
    && t.id in reg.defs
    && t.name == reg.defs[t.id].name
    && t.src == reg.defs[t.id].src
    && t.closes == t.id
  }

  /** `createTile(id)`: the element for a registry id. */
  function CreateTile(reg: Registry, id: string): (t: Tile)
    requires id in reg.defs
    ensures t.id == id && Shows(reg, t)
  {
    var def := reg.defs[id];
    Tile(id, def.name, def.src, id)
  }

  /** A tile the registry describes is exactly the one `CreateTile` builds for its id,
      so two such tiles with the same id are the same tile. */
  lemma ShowsIsCreateTile(reg: Registry, t: Tile)
    ensures Shows(reg, t) <==> t.id in reg.defs && t == CreateTile(reg, t.id)
  {
  }
}
