/** The registry test of `loadTiles` as written: `if (allTiles[id])` is a property
    lookup, and a property lookup on an object literal also finds what the object
    inherits from `Object.prototype`. Those inherited values are functions and objects,
    so the test passes for their names although they are no registry keys. The rest of
    the model uses the intended test, `Layout.KnownIds`, which admits registry keys only. */
module PrototypeLookup {
  import opened Tiles
  import opened Layout

  /** The properties every object literal inherits from `Object.prototype`. */
  const InheritedNames: set<string> := {
    "constructor", "hasOwnProperty", "isPrototypeOf", "propertyIsEnumerable",
    "toLocaleString", "toString", "valueOf", "__proto__",
    "__defineGetter__", "__defineSetter__", "__lookupGetter__", "__lookupSetter__"
  }

  /** `allTiles[id]` is truthy: an own registry entry (always an object) or an inherited one. */
  predicate LookupIsTruthy(reg: Registry, id: string) {
    id in reg.defs || id in InheritedNames
  }

  /** The saved ids the `forEach` of `loadTiles` passes to `createTile`, as written. */
  function KnownIdsAsWritten(reg: Registry, saved: seq<string>): (kept: seq<string>)
    ensures forall id :: id in kept <==> id in saved && (id in reg.defs || id in InheritedNames)
  {
    FilterMembers(saved, id => LookupIsTruthy(reg, id));
    Filter(saved, id => LookupIsTruthy(reg, id))
  }

  /** A saved `"constructor"` passes the test as written and would be rendered, although
      no registry entry has that id; the intended test skips it. */
  lemma InheritedNameRendered()
    ensures KnownIdsAsWritten(AllTiles, ["constructor"]) == ["constructor"]
    ensures "constructor" !in AllTiles.defs
    ensures KnownIds(AllTiles, ["constructor"]) == []
  {
    assert ["constructor"][1..] == [];
  }

  /** The test as written and the intended one agree on every saved order that holds no
      inherited name that is not also a registry key; in particular on every order that
      `saveLayout` writes from a dashboard the registry describes. */
  lemma {:induction false} AsWrittenAgreesWithoutInheritedNames(reg: Registry, saved: seq<string>)
    requires forall i :: 0 <= i < |saved| ==> saved[i] in reg.defs || saved[i] !in InheritedNames
    ensures KnownIdsAsWritten(reg, saved) == KnownIds(reg, saved)
  {
    if saved != [] {
      AsWrittenAgreesWithoutInheritedNames(reg, saved[1..]);
    }
  }
}
