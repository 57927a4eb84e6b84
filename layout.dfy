/** Pure descriptions of what the layout operations of dash.js compute: the id capture of
    `saveLayout`, the filtering of `loadTiles`, the removal of `removeTile` and the listing
    of the tile picker. The class in dashboard.dfy is proved against these. */
module Layout {
  import opened Tiles

  // ---------------------------------------------------------------------------------
  // Order-preserving selection, shared by `loadTiles` and the picker
  // ---------------------------------------------------------------------------------

  /** The elements of `s` that satisfy `keep`, in the order of `s`. */
  function Filter(s: seq<string>, keep: string -> bool): (r: seq<string>)
    ensures |r| <= |s|
    ensures forall i :: 0 <= i < |r| ==> keep(r[i])
  {
    if s == [] then []
    else (if keep(s[0]) then [s[0]] else []) + Filter(s[1..], keep)
  }

  /** Selection keeps exactly the elements that satisfy `keep`. */
  lemma {:induction false} FilterMembers(s: seq<string>, keep: string -> bool)
    ensures forall x :: x in Filter(s, keep) <==> x in s && keep(x)
  {
    if s != [] {
      FilterMembers(s[1..], keep);
      assert s == [s[0]] + s[1..];
    }
  }

  /** Selecting from two lists one after the other. */
  lemma {:induction false} FilterAppend(a: seq<string>, b: seq<string>, keep: string -> bool)
    ensures Filter(a + b, keep) == Filter(a, keep) + Filter(b, keep)
  {
    if a == [] {
      assert a + b == b;
    } else {
      assert (a + b)[0] == a[0];
      assert (a + b)[1..] == a[1..] + b;
      FilterAppend(a[1..], b, keep);
    }
  }

  /** Selection keeps everything when everything qualifies. */
  lemma {:induction false} FilterAll(s: seq<string>, keep: string -> bool)
    requires forall i :: 0 <= i < |s| ==> keep(s[i])
    ensures Filter(s, keep) == s
  {
    if s != [] {
      FilterAll(s[1..], keep);
    }
  }

  /** Selection introduces no repetitions. */
  lemma {:induction false} FilterNoDup(s: seq<string>, keep: string -> bool)
    requires NoDup(s)
    ensures NoDup(Filter(s, keep))
  {
    if s != [] {
      var tail := s[1..];
      assert NoDup(tail) by {
        forall i, j | 0 <= i < j < |tail| ensures tail[i] != tail[j] {
          assert tail[i] == s[i + 1] && tail[j] == s[j + 1];
        }
      }
      FilterNoDup(tail, keep);
      FilterMembers(tail, keep);
      assert s[0] !in tail by {
        forall i | 0 <= i < |tail| ensures tail[i] != s[0] {
          assert tail[i] == s[i + 1];
        }
      }
      var head := if keep(s[0]) then [s[0]] else [];
      var rest := Filter(tail, keep);
      assert Filter(s, keep) == head + rest;
      forall i, j | 0 <= i < j < |head + rest| ensures (head + rest)[i] != (head + rest)[j] {
        if i < |head| {
          assert (head + rest)[j] == rest[j - |head|];
        } else {
          assert (head + rest)[i] == rest[i - |head|] && (head + rest)[j] == rest[j - |head|];
        }
      }
    }
  }

  /** `pos` places every element of `s` in `t`, at strictly increasing positions. */
  ghost predicate IsEmbedding<T>(s: seq<T>, t: seq<T>, pos: seq<int>) {
    && |pos| == |s|
    && (forall i :: 0 <= i < |s| ==> 0 <= pos[i] < |t| && s[i] == t[pos[i]])
    && (forall i, j :: 0 <= i < j < |s| ==> pos[i] < pos[j])
  }

  /** `s` is `t` with some elements left out and the rest in their original order. */
  ghost predicate IsSubsequence<T>(s: seq<T>, t: seq<T>) {
    exists pos :: IsEmbedding(s, t, pos)
  }

  /** Every position moved one place on. */
  function Shift(pos: seq<int>): (moved: seq<int>)
    ensures |moved| == |pos|
    ensures forall i :: 0 <= i < |pos| ==> moved[i] == pos[i] + 1
  {
    if pos == [] then [] else [pos[0] + 1] + Shift(pos[1..])
  }

  /** An embedding into `t` is one into `[x] + t` one place on, and it extends to `x`. */
  lemma EmbeddingCons<T>(x: T, s: seq<T>, t: seq<T>, pos: seq<int>)
    requires IsEmbedding(s, t, pos)
    ensures IsEmbedding(s, [x] + t, Shift(pos))
    ensures IsEmbedding([x] + s, [x] + t, [0] + Shift(pos))
  {
    var moved := Shift(pos);
    forall i | 0 <= i < |s| ensures s[i] == ([x] + t)[moved[i]] {
      assert ([x] + t)[pos[i] + 1] == t[pos[i]];
    }
    var full := [0] + moved;
    forall i | 0 <= i < |s| + 1 ensures 0 <= full[i] < |t| + 1 && ([x] + s)[i] == ([x] + t)[full[i]] {
      if i > 0 {
        assert full[i] == moved[i - 1] && ([x] + s)[i] == s[i - 1];
      }
    }
    forall i, j | 0 <= i < j < |s| + 1 ensures full[i] < full[j] {
      assert full[j] == moved[j - 1];
      if i > 0 {
        assert full[i] == moved[i - 1];
      }
    }
  }

  /** The positions in `s` of what the selection keeps. */
  lemma {:induction false} FilterPositions(s: seq<string>, keep: string -> bool) returns (pos: seq<int>)
    ensures IsEmbedding(Filter(s, keep), s, pos)
  {
    if s == [] {
      pos := [];
    } else {
      var tail := s[1..];
      var p := FilterPositions(tail, keep);
      EmbeddingCons(s[0], Filter(tail, keep), tail, p);
      assert s == [s[0]] + tail;
      pos := if keep(s[0]) then [0] + Shift(p) else Shift(p);
    }
  }

  /** Selection keeps the relative order of what it keeps. */
  lemma FilterIsSubsequence(s: seq<string>, keep: string -> bool)
    ensures IsSubsequence(Filter(s, keep), s)
  {
    var pos := FilterPositions(s, keep);
  }

  // ---------------------------------------------------------------------------------
  // Capturing and rendering
  // ---------------------------------------------------------------------------------

  /** `[...dashboard.children].map(tile => tile.id)`: the ids of the tiles, in order. */
  function IdsOf(tiles: seq<Tile>): (ids: seq<string>)
    ensures |ids| == |tiles|
    ensures forall i :: 0 <= i < |tiles| ==> ids[i] == tiles[i].id
  {
    if tiles == [] then [] else [tiles[0].id] + IdsOf(tiles[1..])
  }

  /** `new Set(ids)`: the set of ids currently shown. */
  function CurrentIds(tiles: seq<Tile>): (current: set<string>)
    ensures forall id :: id in current <==> id in IdsOf(tiles)
  {
    var ids := IdsOf(tiles);
    set i | 0 <= i < |ids| :: ids[i]
  }

  /** Every id is a registry key. */
  ghost predicate AllKnown(reg: Registry, ids: seq<string>) {
    forall i :: 0 <= i < |ids| ==> ids[i] in reg.defs
  }

  /** Every tile is one the registry describes. */
  ghost predicate AllShown(reg: Registry, tiles: seq<Tile>) {
    forall i :: 0 <= i < |tiles| ==> Shows(reg, tiles[i])
  }

  /** The tiles `createTile` builds for `ids`, in the same order. */
  function RenderAll(reg: Registry, ids: seq<string>): (tiles: seq<Tile>)
    requires AllKnown(reg, ids)
    ensures |tiles| == |ids|
    ensures forall i :: 0 <= i < |ids| ==> tiles[i] == CreateTile(reg, ids[i])
  {
    if ids == [] then [] else [CreateTile(reg, ids[0])] + RenderAll(reg, ids[1..])
  }

  /** Capturing the ids of rendered tiles gives back the ids that were rendered. */
  lemma CaptureAfterRender(reg: Registry, ids: seq<string>)
    requires AllKnown(reg, ids)
    ensures AllShown(reg, RenderAll(reg, ids))
    ensures IdsOf(RenderAll(reg, ids)) == ids
  {
  }

  /** Rendering the captured ids of tiles the registry describes gives back those tiles. */
  lemma RenderAfterCapture(reg: Registry, tiles: seq<Tile>)
    requires AllShown(reg, tiles)
    ensures AllKnown(reg, IdsOf(tiles))
    ensures RenderAll(reg, IdsOf(tiles)) == tiles
  {
    forall i | 0 <= i < |tiles| ensures RenderAll(reg, IdsOf(tiles))[i] == tiles[i] {
      ShowsIsCreateTile(reg, tiles[i]);
    }
  }

  /** For tiles the registry describes, distinct ids and distinct tiles are the same thing. */
  lemma NoDupIdsIffNoDupTiles(reg: Registry, tiles: seq<Tile>)
    requires AllShown(reg, tiles)
    ensures NoDup(IdsOf(tiles)) <==> NoDup(tiles)
  {
    var ids := IdsOf(tiles);
    if NoDup(tiles) {
      forall i, j | 0 <= i < j < |ids| ensures ids[i] != ids[j] {
        ShowsIsCreateTile(reg, tiles[i]);
        ShowsIsCreateTile(reg, tiles[j]);
      }
    }
  }

  // ---------------------------------------------------------------------------------
  // loadTiles
  // ---------------------------------------------------------------------------------

  /** The saved ids that name registry entries, in saved order: the ids `loadTiles` renders. */
  function KnownIds(reg: Registry, saved: seq<string>): (known: seq<string>)
    ensures AllKnown(reg, known)
  {
    Filter(saved, id => id in reg.defs)
  }

  /** `loadTiles` renders exactly the saved ids that are registry keys, in saved order. */
  lemma KnownIdsSpec(reg: Registry, saved: seq<string>)
    ensures forall id :: id in KnownIds(reg, saved) <==> id in saved && id in reg.defs
    ensures IsSubsequence(KnownIds(reg, saved), saved)
    ensures NoDup(saved) ==> NoDup(KnownIds(reg, saved))
  {
    FilterMembers(saved, id => id in reg.defs);
    FilterIsSubsequence(saved, id => id in reg.defs);
    if NoDup(saved) {
      FilterNoDup(saved, id => id in reg.defs);
    }
  }

  /** Loading one saved id after another. */
  lemma KnownIdsSnoc(reg: Registry, saved: seq<string>, id: string)
    ensures KnownIds(reg, saved + [id]) == KnownIds(reg, saved) + (if id in reg.defs then [id] else [])
  {
    FilterAppend(saved, [id], id => id in reg.defs);
  }

  /** Nothing is skipped when every saved id is known. */
  lemma KnownIdsOfKnown(reg: Registry, saved: seq<string>)
    requires AllKnown(reg, saved)
    ensures KnownIds(reg, saved) == saved
  {
    FilterAll(saved, id => id in reg.defs);
  }

  /** The tiles `loadTiles` appends for a saved order. */
  function Loaded(reg: Registry, saved: seq<string>): (tiles: seq<Tile>)
    ensures AllShown(reg, tiles)
    ensures IdsOf(tiles) == KnownIds(reg, saved)
  {
    RenderAll(reg, KnownIds(reg, saved))
  }

  /** Loading one more saved id appends its tile when it is a registry key. */
  lemma LoadedSnoc(reg: Registry, saved: seq<string>, id: string)
    ensures Loaded(reg, saved + [id])
         == Loaded(reg, saved) + (if id in reg.defs then [CreateTile(reg, id)] else [])
  {
    KnownIdsSnoc(reg, saved, id);
    var known := KnownIds(reg, saved);
    if id in reg.defs {
      assert RenderAll(reg, known + [id]) == RenderAll(reg, known) + [CreateTile(reg, id)];
    }
  }

  /** Appending tiles the registry describes keeps every tile described. */
  lemma AllShownAppend(reg: Registry, a: seq<Tile>, b: seq<Tile>)
    requires AllShown(reg, a) && AllShown(reg, b)
    ensures AllShown(reg, a + b)
  {
    forall i | 0 <= i < |a + b| ensures Shows(reg, (a + b)[i]) {
      if i >= |a| {
        assert (a + b)[i] == b[i - |a|];
      }
    }
  }

  /** Save then load: loading the ids captured from tiles the registry describes
      rebuilds exactly those tiles, in the same order. */
  lemma LoadAfterSave(reg: Registry, tiles: seq<Tile>)
    requires AllShown(reg, tiles)
    ensures Loaded(reg, IdsOf(tiles)) == tiles
  {
    RenderAfterCapture(reg, tiles);
    KnownIdsOfKnown(reg, IdsOf(tiles));
  }

  /** Load then save: the order captured after loading is the saved order without the
      unknown ids; saving it again and reloading changes nothing more. */
  lemma SaveAfterLoad(reg: Registry, saved: seq<string>)
    ensures IdsOf(Loaded(reg, saved)) == KnownIds(reg, saved)
    ensures Loaded(reg, IdsOf(Loaded(reg, saved))) == Loaded(reg, saved)
    ensures AllKnown(reg, saved) ==> IdsOf(Loaded(reg, saved)) == saved
  {
    LoadAfterSave(reg, Loaded(reg, saved));
    if AllKnown(reg, saved) {
      KnownIdsOfKnown(reg, saved);
    }
  }

  // ---------------------------------------------------------------------------------
  // removeTile
  // ---------------------------------------------------------------------------------

  /** The children after `document.getElementById(id)?.remove()`: the first tile with
      that id is taken out, if there is one. */
  function RemoveFirst(tiles: seq<Tile>, id: string): (rest: seq<Tile>)
    ensures |tiles| - 1 <= |rest| <= |tiles|
  {
    if tiles == [] then []
    else if tiles[0].id == id then tiles[1..]
    else [tiles[0]] + RemoveFirst(tiles[1..], id)
  }

  /** Removal only takes tiles away. */
  lemma {:induction false} RemoveFirstSubMultiset(tiles: seq<Tile>, id: string)
    ensures multiset(RemoveFirst(tiles, id)) <= multiset(tiles)
  {
    if tiles != [] {
      assert tiles == [tiles[0]] + tiles[1..];
      if tiles[0].id != id {
        RemoveFirstSubMultiset(tiles[1..], id);
      }
    }
  }

  /** Removing an id nobody shows leaves the tiles as they were. */
  lemma {:induction false} RemoveFirstAbsent(tiles: seq<Tile>, id: string)
    requires id !in IdsOf(tiles)
    ensures RemoveFirst(tiles, id) == tiles
  {
    if tiles != [] {
      assert IdsOf(tiles)[0] == tiles[0].id;
      assert id !in IdsOf(tiles[1..]) by {
        forall i | 0 <= i < |tiles| - 1 ensures IdsOf(tiles[1..])[i] != id {
          assert IdsOf(tiles)[i + 1] == tiles[i + 1].id;
        }
      }
      RemoveFirstAbsent(tiles[1..], id);
    }
  }

  /** Removing a shown id takes out exactly its first tile; the others keep their order. */
  lemma {:induction false} RemoveFirstAt(tiles: seq<Tile>, id: string, k: nat)
    requires k < |tiles| && tiles[k].id == id
    requires forall j :: 0 <= j < k ==> tiles[j].id != id
    ensures RemoveFirst(tiles, id) == tiles[..k] + tiles[k + 1..]
  {
    if k == 0 {
      assert tiles[..0] + tiles[1..] == tiles[1..];
    } else {
      var tail := tiles[1..];
      assert forall j :: 0 <= j < k - 1 ==> tail[j].id != id by {
        forall j | 0 <= j < k - 1 ensures tail[j].id != id {
          assert tail[j] == tiles[j + 1];
        }
      }
      assert tail[k - 1] == tiles[k];
      RemoveFirstAt(tail, id, k - 1);
      assert RemoveFirst(tiles, id) == [tiles[0]] + RemoveFirst(tail, id);
      assert tail[..k - 1] == tiles[1..k];
      assert tail[k..] == tiles[k + 1..];
      assert [tiles[0]] + tiles[1..k] == tiles[..k];
      assert [tiles[0]] + (tiles[1..k] + tiles[k + 1..]) == ([tiles[0]] + tiles[1..k]) + tiles[k + 1..];
    }
  }

  /** Taking out the tile at `k` keeps the rest described by the registry, shows no new
      id, and keeps distinct ids distinct. */
  lemma DropAtKeepsLayout(reg: Registry, tiles: seq<Tile>, k: nat)
    requires k < |tiles| && AllShown(reg, tiles)
    ensures AllShown(reg, tiles[..k] + tiles[k + 1..])
    ensures CurrentIds(tiles[..k] + tiles[k + 1..]) <= CurrentIds(tiles)
    ensures NoDup(IdsOf(tiles)) ==> NoDup(IdsOf(tiles[..k] + tiles[k + 1..]))
  {
    var rest := tiles[..k] + tiles[k + 1..];
    var ids, restIds := IdsOf(tiles), IdsOf(rest);
    forall i | 0 <= i < |rest| ensures rest[i] == tiles[Skip(i, k)] {
      if i < k {
        assert rest[i] == tiles[..k][i];
      } else {
        assert rest[i] == tiles[k + 1..][i - k];
      }
    }
    forall i | 0 <= i < |rest| ensures Shows(reg, rest[i]) && restIds[i] == ids[Skip(i, k)] {
      assert rest[i] == tiles[Skip(i, k)];
    }
    forall x | x in CurrentIds(rest) ensures x in CurrentIds(tiles) {
      var i :| 0 <= i < |restIds| && restIds[i] == x;
      assert ids[Skip(i, k)] == x;
    }
    if NoDup(ids) {
      forall i, j | 0 <= i < j < |restIds| ensures restIds[i] != restIds[j] {
        assert restIds[i] == ids[Skip(i, k)] && restIds[j] == ids[Skip(j, k)];
      }
    }
  }

  /** What `removeTile` leaves, whether or not a tile had the id: the tiles stay described
      by the registry, distinct ids stay distinct, and picker buttons that named unshown
      tiles still do. */
  lemma DetachKeepsLayout(reg: Registry, before: seq<Tile>, after: seq<Tile>, found: bool, k: nat, entries: seq<Entry>)
    requires AllShown(reg, before)
    requires found ==> k < |before| && after == before[..k] + before[k + 1..]
    requires !found ==> after == before
    ensures AllShown(reg, after)
    ensures NoDup(IdsOf(before)) ==> NoDup(IdsOf(after))
    ensures OffersUnshown(reg, entries, before) ==> OffersUnshown(reg, entries, after)
  {
    if found {
      DropAtKeepsLayout(reg, before, k);
      if OffersUnshown(reg, entries, before) {
        OffersUnshownAfterShrink(reg, entries, before, after);
      }
    }
  }

  /** Where position `i` after taking out position `k` was before. */
  function Skip(i: nat, k: nat): (j: nat)
    ensures j == i || j == i + 1
  {
    if i < k then i else i + 1
  }

  // ---------------------------------------------------------------------------------
  // The tile picker
  // ---------------------------------------------------------------------------------

  /** A picker button: the id its click adds, and the text it shows. */
  datatype Entry = Entry(id: string, text: string)

  /** The ids of `pending` that are not in `current`, in the order of `pending`. */
  function Unshown(pending: seq<string>, current: set<string>): (ids: seq<string>)
    ensures forall i :: 0 <= i < |ids| ==> ids[i] !in current
  {
    Filter(pending, id => id !in current)
  }

  /** Buttons for `ids`, each labelled with its registry name. */
  function Labelled(reg: Registry, ids: seq<string>): (entries: seq<Entry>)
    requires AllKnown(reg, ids)
    ensures |entries| == |ids|
    ensures forall i :: 0 <= i < |ids| ==> entries[i] == Entry(ids[i], reg.defs[ids[i]].name)
  {
    if ids == [] then [] else [Entry(ids[0], reg.defs[ids[0]].name)] + Labelled(reg, ids[1..])
  }

  /** The picker's buttons for the ids of `pending` not in `current`. */
  function PickerEntries(reg: Registry, pending: seq<string>, current: set<string>): (entries: seq<Entry>)
    requires AllKnown(reg, pending)
    ensures |entries| <= |pending|
  {
    FilterMembers(pending, id => id !in current);
    Labelled(reg, Unshown(pending, current))
  }

  /** The ids the buttons add, in button order. It is the projection `IdsOf` makes of
      tiles, written again because a button is an `Entry`, not a `Tile`. */
  function EntryIds(entries: seq<Entry>): (ids: seq<string>)
    ensures |ids| == |entries|
    ensures forall i :: 0 <= i < |entries| ==> ids[i] == entries[i].id
  {
    if entries == [] then [] else [entries[0].id] + EntryIds(entries[1..])
  }

  /** Every button names a registry tile that is not shown, and shows its registry name. */
  ghost predicate OffersUnshown(reg: Registry, entries: seq<Entry>, tiles: seq<Tile>) {
    forall e :: e in entries ==>
      e.id in reg.defs && e.id !in CurrentIds(tiles) && e.text == reg.defs[e.id].name
  }

  /** Buttons that named unshown tiles still do after tiles are taken away. */
  lemma OffersUnshownAfterShrink(reg: Registry, entries: seq<Entry>, tiles: seq<Tile>, fewer: seq<Tile>)
    requires OffersUnshown(reg, entries, tiles)
    requires CurrentIds(fewer) <= CurrentIds(tiles)
    ensures OffersUnshown(reg, entries, fewer)
  {
  }

  /** Handling one more registry id in the picker loop. */
  lemma PickerEntriesSnoc(reg: Registry, pending: seq<string>, id: string, current: set<string>)
    requires AllKnown(reg, pending) && id in reg.defs
    ensures AllKnown(reg, pending + [id])
    ensures PickerEntries(reg, pending + [id], current)
         == PickerEntries(reg, pending, current) + (if id !in current then [Entry(id, reg.defs[id].name)] else [])
  {
    assert forall i :: 0 <= i < |pending| ==> pending[i] == (pending + [id])[i];
    FilterAppend(pending, [id], id => id !in current);
  }

  /** Every enumerated id of a valid registry is a key. */
  lemma OrderKnown(reg: Registry)
    requires reg.Valid()
    ensures AllKnown(reg, reg.order)
  {
    forall i | 0 <= i < |reg.order| ensures reg.order[i] in reg.defs {
      assert reg.order[i] in reg.order;
    }
  }

  /** Over a valid registry the picker offers exactly the registry ids not shown, each
      once, in enumeration order, each labelled with its registry name. */
  lemma PickerListing(reg: Registry, tiles: seq<Tile>)
    requires reg.Valid()
    ensures AllKnown(reg, reg.order)
    ensures OffersUnshown(reg, PickerEntries(reg, reg.order, CurrentIds(tiles)), tiles)
    ensures forall id :: id in reg.defs && id !in CurrentIds(tiles) ==>
              id in EntryIds(PickerEntries(reg, reg.order, CurrentIds(tiles)))
    ensures NoDup(EntryIds(PickerEntries(reg, reg.order, CurrentIds(tiles))))
    ensures IsSubsequence(EntryIds(PickerEntries(reg, reg.order, CurrentIds(tiles))), reg.order)
  {
    var current := CurrentIds(tiles);
    OrderKnown(reg);
    var ids := Unshown(reg.order, current);
    FilterMembers(reg.order, id => id !in current);
    var entries := PickerEntries(reg, reg.order, current);
    assert EntryIds(entries) == ids;
    forall e | e in entries
      ensures e.id in reg.defs && e.id !in current && e.text == reg.defs[e.id].name
    {
      var i :| 0 <= i < |entries| && entries[i] == e;
      assert e.id == ids[i] && ids[i] in ids;
    }
    FilterNoDup(reg.order, id => id !in current);
    FilterIsSubsequence(reg.order, id => id !in current);
  }

  /** Appending a tile whose id is not shown keeps the ids distinct. */
  lemma AppendUnshownKeepsNoDup(tiles: seq<Tile>, t: Tile)
    requires NoDup(IdsOf(tiles)) && t.id !in IdsOf(tiles)
    ensures NoDup(IdsOf(tiles + [t]))
  {
    var ids := IdsOf(tiles + [t]);
    forall i, j | 0 <= i < j < |ids| ensures ids[i] != ids[j] {
      if j == |tiles| {
        assert ids[i] == IdsOf(tiles)[i];
      } else {
        assert ids[i] == IdsOf(tiles)[i] && ids[j] == IdsOf(tiles)[j];
      }
    }
  }

  /** Appending the tile a picker button names: the id was not shown, the tiles stay
      described by the registry, and distinct ids stay distinct. */
  lemma AppendPicked(reg: Registry, entries: seq<Entry>, tiles: seq<Tile>, k: nat)
    requires AllShown(reg, tiles) && OffersUnshown(reg, entries, tiles) && k < |entries|
    ensures entries[k].id in reg.defs && entries[k].id !in IdsOf(tiles)
    ensures AllShown(reg, tiles + [CreateTile(reg, entries[k].id)])
    ensures NoDup(IdsOf(tiles)) ==> NoDup(IdsOf(tiles + [CreateTile(reg, entries[k].id)]))
  {
    assert entries[k] in entries;
    var t := CreateTile(reg, entries[k].id);
    assert forall i :: 0 <= i < |tiles| ==> (tiles + [t])[i] == tiles[i];
    if NoDup(IdsOf(tiles)) {
      AppendUnshownKeepsNoDup(tiles, t);
    }
  }

  // ---------------------------------------------------------------------------------
  // Reordering
  // ---------------------------------------------------------------------------------

  /** A sequence without repetitions is one whose multiset counts every element at most once. */
  lemma {:induction false} NoDupIffSingleCounts<T>(s: seq<T>)
    ensures NoDup(s) <==> forall x :: multiset(s)[x] <= 1
  {
    if s != [] {
      var tail := s[1..];
      assert s == [s[0]] + tail;
      NoDupIffSingleCounts(tail);
      if NoDup(s) {
        assert NoDup(tail) by {
          forall i, j | 0 <= i < j < |tail| ensures tail[i] != tail[j] {
            assert tail[i] == s[i + 1] && tail[j] == s[j + 1];
          }
        }
        assert s[0] !in tail by {
          forall i | 0 <= i < |tail| ensures tail[i] != s[0] {
            assert tail[i] == s[i + 1];
          }
        }
      } else {
        var i, j :| 0 <= i < j < |s| && s[i] == s[j];
        if i == 0 {
          assert s[j] == tail[j - 1];
          assert multiset(tail)[s[0]] >= 1;
          assert multiset(s)[s[0]] >= 2;
        } else {
          assert tail[i - 1] == s[i] && tail[j - 1] == s[j];
          assert !NoDup(tail);
          var x :| multiset(tail)[x] > 1;
          assert multiset(s)[x] > 1;
        }
      }
    }
  }

  /** Reordering tiles the registry describes keeps them described by it, keeps the set
      of shown ids, and keeps the ids distinct if they were. */
  lemma PermutationKeepsLayout(reg: Registry, tiles: seq<Tile>, arranged: seq<Tile>)
    requires AllShown(reg, tiles)
    requires multiset(arranged) == multiset(tiles)
    ensures AllShown(reg, arranged)
    ensures CurrentIds(arranged) == CurrentIds(tiles)
    ensures NoDup(IdsOf(tiles)) ==> NoDup(IdsOf(arranged))
  {
    forall t | t in arranged ensures t in tiles {
      assert t in multiset(arranged);
    }
    forall t | t in tiles ensures t in arranged {
      assert t in multiset(tiles);
    }
    forall i | 0 <= i < |arranged| ensures Shows(reg, arranged[i]) {
      assert arranged[i] in arranged;
      var j :| 0 <= j < |tiles| && tiles[j] == arranged[i];
    }
    forall id | id in CurrentIds(tiles) ensures id in CurrentIds(arranged) {
      var i :| 0 <= i < |tiles| && IdsOf(tiles)[i] == id;
      assert tiles[i] in tiles;
      var j :| 0 <= j < |arranged| && arranged[j] == tiles[i];
      assert IdsOf(arranged)[j] == id;
    }
    forall id | id in CurrentIds(arranged) ensures id in CurrentIds(tiles) {
      var i :| 0 <= i < |arranged| && IdsOf(arranged)[i] == id;
      assert arranged[i] in arranged;
      var j :| 0 <= j < |tiles| && tiles[j] == arranged[i];
      assert IdsOf(tiles)[j] == id;
    }
    if NoDup(IdsOf(tiles)) {
      NoDupIdsIffNoDupTiles(reg, tiles);
      NoDupIffSingleCounts(tiles);
      NoDupIffSingleCounts(arranged);
      NoDupIdsIffNoDupTiles(reg, arranged);
    }
  }
}
