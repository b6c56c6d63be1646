/**
 * The sidebar's list of saved mind maps: deleting a map from the stored list and
 * choosing what to show next, and ordering the displayed list newest first.
 */
module MapSidebar {
  import opened Wrappers
  import opened Lists

  /**
   * A saved map as the `ideaSparkMaps` entry of local storage holds it. Its dates are
   * ISO strings there; `createdAt` and `updatedAt` are the instants they denote, in
   * milliseconds since the epoch.
   */
  datatype MapSummary = MapSummary(id: string, title: string, createdAt: int, updatedAt: int)

  /**
   * A date in the sidebar's state: a `Date` object, or the ISO string that `JSON.parse`
   * leaves in its place. `ms` is the instant either one stands for.
   */
  datatype Stamp = Date(ms: int) | IsoText(ms: int)

  /** A saved map as the sidebar holds it in its state. */
  datatype ShownMap = ShownMap(id: string, title: string, createdAt: Stamp, updatedAt: Stamp)

  /** A parsed map with both dates turned back into `Date` objects, as the loaders do. */
  function Revived(m: MapSummary): (s: ShownMap)
    ensures s.id == m.id && s.title == m.title
    ensures s.createdAt == Date(m.createdAt) && s.updatedAt == Date(m.updatedAt)
  {
    ShownMap(m.id, m.title, Date(m.createdAt), Date(m.updatedAt))
  }

  /** A parsed map as `JSON.parse` returns it, with both dates still strings. */
  function AsParsed(m: MapSummary): (s: ShownMap)
    ensures s.id == m.id && s.title == m.title
    ensures s.createdAt == IsoText(m.createdAt) && s.updatedAt == IsoText(m.updatedAt)
  {
    ShownMap(m.id, m.title, IsoText(m.createdAt), IsoText(m.updatedAt))
  }

  /**
   * The render's sort throws a `TypeError`: there are two maps or more, so every map
   * takes part in a comparison, and the comparator calls `getTime` on an `updatedAt`
   * that is a string.
   */
  predicate SortThrows(maps: seq<ShownMap>) {
    |maps| >= 2 && exists i :: 0 <= i < |maps| && maps[i].updatedAt.IsoText?
  }

  /** `maps.filter(map => map.id !== id)`. */
  function Without(maps: seq<MapSummary>, id: string): (r: seq<MapSummary>)
    ensures |r| <= |maps|
    ensures forall m :: m in r <==> m in maps && m.id != id
  {
    var r := Filter(maps, (m: MapSummary) => m.id != id);
    assert forall m :: m in r <==> m in maps && m.id != id by {
      forall m | m in maps && m.id != id ensures m in r {
        var i :| 0 <= i < |maps| && maps[i] == m;
      }
      forall m | m in r ensures m in maps && m.id != id {
        var i :| 0 <= i < |r| && r[i] == m;
      }
    }
    r
  }

  /** Removal works map by map, so the maps that stay keep their stored order. */
  lemma WithoutConcat(a: seq<MapSummary>, b: seq<MapSummary>, id: string)
    ensures Without(a + b, id) == Without(a, id) + Without(b, id)
  {
    FilterConcat(a, b, (m: MapSummary) => m.id != id);
  }

  /** Removing the same id a second time changes nothing. */
  lemma WithoutTwice(maps: seq<MapSummary>, id: string)
    ensures Without(Without(maps, id), id) == Without(maps, id)
  {
    var once := Without(maps, id);
    forall i | 0 <= i < |once| ensures once[i].id != id {
      assert once[i] in once;
    }
    FilterAll(once, (m: MapSummary) => m.id != id);
  }

  /** A removal looks at the first stored map, then at the rest. */
  lemma WithoutCons(maps: seq<MapSummary>, id: string)
    requires maps != []
    ensures Without(maps, id) == (if maps[0].id != id then [maps[0]] else []) + Without(maps[1..], id)
  {
  }

  /** Nothing is left after a removal exactly when every stored map has that id. */
  lemma {:induction false} WithoutEmpty(maps: seq<MapSummary>, id: string)
    ensures Without(maps, id) == [] <==> forall i :: 0 <= i < |maps| ==> maps[i].id == id
  {
    if maps != [] {
      WithoutCons(maps, id);
      WithoutEmpty(maps[1..], id);
      assert forall i :: 1 <= i < |maps| ==> maps[i] == maps[1..][i - 1];
    }
  }

  /** The first map left after a removal is the first stored map with another id. */
  lemma {:induction false} FirstRemaining(maps: seq<MapSummary>, id: string)
    requires Without(maps, id) != []
    ensures exists i :: (0 <= i < |maps| && maps[i] == Without(maps, id)[0] && maps[i].id != id
      && forall j :: 0 <= j < i ==> maps[j].id == id)
  {
    WithoutCons(maps, id);
    if maps[0].id == id {
      var rest := maps[1..];
      FirstRemaining(rest, id);
      var i :| 0 <= i < |rest| && rest[i] == Without(rest, id)[0] && rest[i].id != id
        && forall j :: 0 <= j < i ==> rest[j].id == id;
      assert maps[i + 1] == rest[i];
      assert forall j :: 1 <= j < i + 1 ==> maps[j] == rest[j - 1];
    } else {
      assert maps[0] == Without(maps, id)[0];
    }
  }

  /** The displayed list is ordered by `updatedAt`, newest first. */
  ghost predicate NewestFirst(maps: seq<ShownMap>) {
    forall i, j :: 0 <= i < j < |maps| ==> maps[i].updatedAt.ms >= maps[j].updatedAt.ms
  }

  /** In a list ordered newest first, no map is more recent than the first. */
  lemma HeadIsNewest(maps: seq<ShownMap>)
    requires maps != [] && NewestFirst(maps)
    ensures forall x :: x in maps ==> x.updatedAt.ms <= maps[0].updatedAt.ms
  {
    forall x | x in maps ensures x.updatedAt.ms <= maps[0].updatedAt.ms {
      var k :| 0 <= k < |maps| && maps[k] == x;
    }
  }

  /** A map at least as recent as every map of an ordered list can go in front of it. */
  lemma ConsNewest(h: ShownMap, rest: seq<ShownMap>)
    requires NewestFirst(rest) && forall x :: x in rest ==> x.updatedAt.ms <= h.updatedAt.ms
    ensures NewestFirst([h] + rest)
  {
    var r := [h] + rest;
    forall i, j | 0 <= i < j < |r| ensures r[i].updatedAt.ms >= r[j].updatedAt.ms {
      assert r[j] == rest[j - 1] && rest[j - 1] in rest;
      if i > 0 {
        assert r[i] == rest[i - 1];
      }
    }
  }

  /**
   * Insert `m` into a list ordered newest first, after every map at least as recent,
   * so maps with equal times keep the order they came in.
   */
  function Insert(m: ShownMap, maps: seq<ShownMap>): (r: seq<ShownMap>)
    ensures multiset(r) == multiset(maps) + multiset{m}
    ensures forall x :: x in r ==> x == m || x in maps
    ensures NewestFirst(maps) ==> NewestFirst(r)
  {
    if maps == [] then [m]
    else if maps[0].updatedAt.ms < m.updatedAt.ms then
      assert NewestFirst(maps) ==> NewestFirst([m] + maps) by {
        if NewestFirst(maps) {
          HeadIsNewest(maps);
          ConsNewest(m, maps);
        }
      }
      [m] + maps
    else
      var rest := Insert(m, maps[1..]);
      InsertBehind(m, maps, rest);
      [maps[0]] + rest
  }

  /** Putting the first map back in front of the rest with `m` inserted keeps the order. */
  lemma InsertBehind(m: ShownMap, maps: seq<ShownMap>, rest: seq<ShownMap>)
    requires maps != [] && m.updatedAt.ms <= maps[0].updatedAt.ms
    requires multiset(rest) == multiset(maps[1..]) + multiset{m}
    requires forall x :: x in rest ==> x == m || x in maps[1..]
    requires NewestFirst(maps[1..]) ==> NewestFirst(rest)
    ensures multiset([maps[0]] + rest) == multiset(maps) + multiset{m}
    ensures forall x :: x in [maps[0]] + rest ==> x == m || x in maps
    ensures NewestFirst(maps) ==> NewestFirst([maps[0]] + rest)
  {
    assert maps == [maps[0]] + maps[1..];
    if NewestFirst(maps) {
      HeadIsNewest(maps);
      assert NewestFirst(maps[1..]) by {
        forall i, j | 0 <= i < j < |maps[1..]| ensures maps[1..][i].updatedAt.ms >= maps[1..][j].updatedAt.ms {
          assert maps[1..][i] == maps[i + 1] && maps[1..][j] == maps[j + 1];
        }
      }
      ConsNewest(maps[0], rest);
    }
  }

  class Sidebar {
    /** The maps the sidebar holds in its state, in the order it displays them. */
    var maps: seq<ShownMap>
    /** The `ideaSparkMaps` entry of local storage, when it is present and parses as a list. */
    var stored: Option<seq<MapSummary>>
    /** The id of the map being edited (`currentMapId`), if any. */
    var current: Option<string>

    /**
     * The initial load and `updateMapsFromStorage`: when a stored list is there, the
     * state takes it with its dates turned back into `Date` objects.
     */
    method LoadFromStorage()
      modifies this
      ensures old(stored).Some? ==> maps == Map(old(stored).value, Revived)
      ensures old(stored).None? ==> maps == old(maps)
      ensures stored == old(stored) && current == old(current)
    {
      if stored.Some? {
        maps := Map(stored.value, Revived);
      }
    }

    /** `createNewMap`: the home page draws a new id (`freshId`) and makes it the current map. */
    method CreateNewMap(freshId: string) returns (newId: string)
      modifies this
      ensures newId == freshId && current == Some(freshId)
      ensures maps == old(maps) && stored == old(stored)
    {
      current := Some(freshId);
      newId := freshId;
    }

    /**
     * The end of `deleteMap`: when the deleted map was the current one, the first
     * remaining map in stored order becomes current, or a new map (`freshId`) when
     * none remain.
     */
    method Reselect(id: string, remaining: seq<MapSummary>, freshId: string)
      modifies this
      ensures current == (if old(current) != Some(id) then old(current)
                          else if remaining != [] then Some(remaining[0].id)
                          else Some(freshId))
      ensures maps == old(maps) && stored == old(stored)
    {
      if current == Some(id) {
        if |remaining| > 0 {
          current := Some(remaining[0].id);
        } else {
          var newId := CreateNewMap(freshId);
        }
      }
    }

    /**
     * `deleteMap(id)` as written: unless the user confirms and a stored list is there,
     * nothing happens. Otherwise every stored map with that id is removed, the rest is
     * saved, and the state takes the parsed maps as they are, dates still strings.
     */
    method DeleteMapAsWritten(id: string, confirmed: bool, freshId: string)
      modifies this
      ensures !confirmed || old(stored).None? ==>
        maps == old(maps) && stored == old(stored) && current == old(current)
      ensures confirmed && old(stored).Some? ==>
        var remaining := Without(old(stored).value, id);
        && stored == Some(remaining) && maps == Map(remaining, AsParsed)
        && current == (if old(current) != Some(id) then old(current)
                       else if remaining != [] then Some(remaining[0].id)
                       else Some(freshId))
    {
      if !confirmed || stored.None? {
        return;
      }
      var updated := Without(stored.value, id);
      stored := Some(updated);
      maps := Map(updated, AsParsed);
      Reselect(id, updated, freshId);
    }

    /**
     * `deleteMap(id)` with the remaining maps' dates turned back into `Date` objects
     * before they go into the state, as the loaders do.
     */
    method DeleteMap(id: string, confirmed: bool, freshId: string)
      modifies this
      ensures !confirmed || old(stored).None? ==>
        maps == old(maps) && stored == old(stored) && current == old(current)
      ensures confirmed && old(stored).Some? ==>
        var remaining := Without(old(stored).value, id);
        && stored == Some(remaining) && maps == Map(remaining, Revived)
        && current == (if old(current) != Some(id) then old(current)
                       else if remaining != [] then Some(remaining[0].id)
                       else Some(freshId))
    {
      if !confirmed || stored.None? {
        return;
      }
      var updated := Without(stored.value, id);
      stored := Some(updated);
      maps := Map(updated, Revived);
      Reselect(id, updated, freshId);
    }

    /**
     * `maps.sort((a, b) => b.updatedAt.getTime() - a.updatedAt.getTime())`, which
     * reorders the state list in place: each map in turn is inserted into the maps
     * sorted so far. When a date is a string the comparator throws instead.
     */
    method SortNewestFirst() returns (threw: bool)
      modifies this
      ensures threw <==> SortThrows(old(maps))
      ensures !threw ==> NewestFirst(maps) && multiset(maps) == multiset(old(maps))
      ensures stored == old(stored) && current == old(current)
    {
      if SortThrows(maps) {
        return true;
      }
      threw := false;
      var sorted: seq<ShownMap> := [];
      var i := 0;
      while i < |maps|
        invariant 0 <= i <= |maps|
        invariant NewestFirst(sorted) && multiset(sorted) == multiset(maps[..i])
      {
        assert maps[..i + 1] == maps[..i] + [maps[i]];
        sorted := Insert(maps[i], sorted);
        i := i + 1;
      }
      assert maps[..i] == maps;
      maps := sorted;
    }
  }

  /**
   * Once `deleteMap` as written leaves two maps or more, the next render's sort
   * throws.
   */
  lemma DeleteThenSortThrows(stored: seq<MapSummary>, id: string)
    ensures |Without(stored, id)| >= 2 ==> SortThrows(Map(Without(stored, id), AsParsed))
  {
    var shown := Map(Without(stored, id), AsParsed);
    if |shown| >= 2 {
      assert shown[0].updatedAt.IsoText?;
    }
  }

  /** Three stored maps, one of them deleted: the render after the delete throws. */
  lemma ThreeMapsOneDeleted(a: MapSummary, b: MapSummary, c: MapSummary)
    requires a.id != c.id && b.id != c.id
    ensures SortThrows(Map(Without([a, b, c], c.id), AsParsed))
  {
    WithoutCons([a, b, c], c.id);
    WithoutCons([b, c], c.id);
    WithoutCons([c], c.id);
    assert Without([], c.id) == [];
    DeleteThenSortThrows([a, b, c], c.id);
  }

  /** Maps whose dates have been turned back into `Date` objects sort without throwing. */
  lemma RevivedSorts(stored: seq<MapSummary>)
    ensures !SortThrows(Map(stored, Revived))
  {
  }

  /**
   * After a confirmed delete of the current map, the map that becomes current is the
   * first stored map with another id, and a new map is drawn only when no such map is
   * stored.
   */
  lemma DeleteReselects(stored: seq<MapSummary>, id: string)
    ensures Without(stored, id) != [] ==>
      exists i :: (0 <= i < |stored| && stored[i].id == Without(stored, id)[0].id && stored[i].id != id
        && forall j :: 0 <= j < i ==> stored[j].id == id)
    ensures Without(stored, id) == [] <==> forall m :: m in stored ==> m.id == id
  {
    WithoutEmpty(stored, id);
    if Without(stored, id) != [] {
      FirstRemaining(stored, id);
    }
  }
}
