/**
 * The tileset-level accessor (`InfoAccessorX`): a whole model carries one
 * title and one description; it keeps the list of each attached tileset's
 * loaded tiles, hovering a tileset paints all its tiles with the highlight
 * colour, clicking paints them with the selection colour and shows the
 * model's title and description in the info box. Each tile keeps the colour
 * it had before its last painting in its own `originalColor` property, which
 * clearing writes back.
 */
module TilesetAccessor {
  import opened Wrappers
  import opened ColorSwap
  import opened JsArrays
  import opened Pointer
  import opened Scene

  /** The title and description shown for a whole model. */
  datatype ModelInfo = ModelInfo(title: string, description: string)

  /** The options `attach` reads; an absent entry falls back to its default. */
  datatype InfoOptions = InfoOptions(title: Option<string>, description: Option<string>)

  const DefaultTitle := "Model"
  const DefaultDescription := "Model description."

  /** What the accessor keeps for an attached tileset. */
  datatype TilesetInfo = TilesetInfo(tiles: seq<Tile>, info: ModelInfo)

  /** Every listed tile belongs to the tileset it is listed under. */
  predicate TilesOwned(tilesets: map<Tileset, TilesetInfo>) {
    forall ts, t :: ts in tilesets && t in tilesets[ts].tiles ==> t.tileset == ts
  }

  /** The tiles listed for `ts`; none for null or a tileset not attached. */
  function ListedTiles(tilesets: map<Tileset, TilesetInfo>, ts: Tileset?): seq<Tile> {
    if ts != null && ts in tilesets then tilesets[ts].tiles else []
  }

  /** Two different tilesets never share a listed tile. */
  lemma SeparateTiles(tilesets: map<Tileset, TilesetInfo>, a: Tileset?, b: Tileset?)
    requires TilesOwned(tilesets) && (a == null || a != b)
    ensures forall t :: t in ListedTiles(tilesets, a) ==> t !in ListedTiles(tilesets, b)
  {
    forall t | t in ListedTiles(tilesets, a)
      ensures t !in ListedTiles(tilesets, b)
    {
      assert t.tileset == a;
    }
  }

  /** `tiles.splice(tiles.findIndex(item => item === tile), 1)` */
  function Unlisted(tiles: seq<Tile>, tile: Tile): (r: seq<Tile>)
    ensures |r| == if tiles == [] then 0 else |tiles| - 1
    ensures multiset(r) <= multiset(tiles)
  {
    SpliceOne(tiles, FindIndex(tiles, (t: Tile) => t == tile))
  }

  /** Unlisting a tile keeps only tiles that were listed. */
  lemma UnlistedShrinks(tiles: seq<Tile>, tile: Tile)
    ensures forall t :: t in Unlisted(tiles, tile) ==> t in tiles
  {
    var u := Unlisted(tiles, tile);
    forall t | t in u ensures t in tiles {
      assert multiset(u)[t] > 0;
    }
  }

  /** Unloading a listed tile removes one occurrence of it and nothing else. */
  lemma UnlistedFound(tiles: seq<Tile>, tile: Tile)
    requires tile in tiles
    ensures multiset(Unlisted(tiles, tile)) == multiset(tiles) - multiset{tile}
  {
    var i :| 0 <= i < |tiles| && tiles[i] == tile;
    SpliceFound(tiles, (t: Tile) => t == tile, i);
  }

  /**
   * Unloading a tile that was never listed (one loaded before its tileset was
   * attached) removes the LAST listed tile instead.
   */
  lemma UnlistedMissing(tiles: seq<Tile>, tile: Tile)
    requires tile !in tiles
    ensures tiles != [] ==> Unlisted(tiles, tile) == tiles[..|tiles| - 1]
    ensures tiles == [] ==> Unlisted(tiles, tile) == []
  {
    assert FindIndex(tiles, (t: Tile) => t == tile) == -1;
    SpliceNotFound(tiles);
  }

  /** A tile listed once is counted once. */
  lemma {:induction false} DistinctCountsOnce<T>(s: seq<T>, x: T)
    requires Distinct(s) && x in s
    ensures multiset(s)[x] == 1
  {
    var n := |s|;
    assert s == s[..n - 1] + [s[n - 1]];
    if s[n - 1] == x {
      assert x !in s[..n - 1];
    } else {
      assert Distinct(s[..n - 1]);
      DistinctCountsOnce(s[..n - 1], x);
    }
  }

  /** A tile listed twice is counted more than once. */
  lemma RepeatedCountsTwice<T>(s: seq<T>, i: nat, j: nat)
    requires i < j < |s| && s[i] == s[j]
    ensures multiset(s)[s[i]] > 1
  {
    assert s == s[..j] + s[j..];
    assert s[i] in s[..j];
    assert s[j] in s[j..];
  }

  /**
   * The colour a painting leaves in `originalColor` of a listed tile: the
   * tile's own previous colour, unless the tile is listed more than once, when
   * the second visit records the paint already applied.
   */
  function CapturedColor(tiles: seq<Tile>, t: Tile, paint: Color, previous: Color): Color {
    if multiset(tiles)[t] > 1 then paint else previous
  }

  /**
   * Painting a list without repeats and restoring it gives every tile back
   * its previous colour.
   */
  lemma RestoreUndoesTilePaint(tiles: seq<Tile>, t: Tile, paint: Color, previous: Color)
    requires Distinct(tiles) && t in tiles
    ensures CapturedColor(tiles, t, paint, previous) == previous
  {
    DistinctCountsOnce(tiles, t);
  }

  /** A tile listed twice stays painted after the restore. */
  lemma RepeatedTileStaysPainted(tiles: seq<Tile>, i: nat, j: nat, paint: Color, previous: Color)
    requires i < j < |tiles| && tiles[i] == tiles[j]
    ensures CapturedColor(tiles, tiles[i], paint, previous) == paint
  {
    RepeatedCountsTwice(tiles, i, j);
  }

  class InfoAccessorX {
    var tilesets: map<Tileset, TilesetInfo>
    var picking: bool
    var selectedTileset: Tileset?
    var highlightedTileset: Tileset?
    var buttons: Buttons
    var highlightColor: Color
    var selectedColor: Color
    const selectedEntity: Entity
    const viewer: Viewer

    /**
     * The highlighted and selected tilesets are attached, and never the same
     * one; every tile is listed under its own tileset.
     */
    predicate Valid()
      reads this
    {
      && (highlightedTileset != null ==> highlightedTileset in tilesets)
      && (selectedTileset != null ==> selectedTileset in tilesets)
      && (highlightedTileset != null ==> highlightedTileset != selectedTileset)
      && TilesOwned(tilesets)
    }

    /** The tiles listed for `ts`; none for null or a tileset not attached. */
    function TileList(ts: Tileset?): seq<Tile>
      reads this`tilesets
    {
      ListedTiles(tilesets, ts)
    }

    function Tiles(ts: Tileset?): set<Tile>
      reads this`tilesets
    {
      set t | t in TileList(ts)
    }

    constructor (viewer: Viewer, options: Options)
      ensures Valid()
      ensures tilesets == map[] && picking && selectedTileset == null && highlightedTileset == null
      ensures buttons == AllUp && this.viewer == viewer && fresh(selectedEntity)
      ensures highlightColor == options.highlightColor.GetOr(Yellow)
      ensures selectedColor == options.selectedColor.GetOr(Lime)
    {
      tilesets := map[];
      picking := true;
      selectedTileset := null;
      highlightedTileset := null;
      buttons := AllUp;
      highlightColor := options.highlightColor.GetOr(Yellow);
      selectedColor := options.selectedColor.GetOr(Lime);
      selectedEntity := new Entity();
      this.viewer := viewer;
    }

    /**
     * `attach`: a tileset not yet attached gets an empty tile list, its title
     * and description (defaults for absent options) and the REPLACE colour
     * blend mode; anything that is not a tileset is refused.
     */
    method Attach(p: Primitive, options: InfoOptions) returns (attached: bool)
      requires Valid()
      modifies this`tilesets, PrimitiveTilesets(p)
      ensures Valid()
      ensures attached <==> p.TilesetPrimitive?
      ensures p.OtherPrimitive? ==> tilesets == old(tilesets)
      ensures p.TilesetPrimitive? && p.tileset in old(tilesets) ==> tilesets == old(tilesets) && unchanged(p.tileset)
      ensures p.TilesetPrimitive? && p.tileset !in old(tilesets) ==>
        && tilesets.Keys == old(tilesets).Keys + {p.tileset}
        && (forall ts :: ts in old(tilesets) ==> tilesets[ts] == old(tilesets)[ts])
        && tilesets[p.tileset].tiles == []
        && tilesets[p.tileset].info.title == options.title.GetOr(DefaultTitle)
        && tilesets[p.tileset].info.description == options.description.GetOr(DefaultDescription)
        && p.tileset.blendReplace
    {
      if !p.TilesetPrimitive? {
        return false;
      }
      if p.tileset in tilesets {
        return true;
      }
      var info := ModelInfo(options.title.GetOr(DefaultTitle), options.description.GetOr(DefaultDescription));
      tilesets := tilesets[p.tileset := TilesetInfo([], info)];
      p.tileset.blendReplace := true;
      attached := true;
    }

    /** A tile of an attached tileset was loaded: list it. */
    method OnTileLoad(tile: Tile)
      requires Valid()
      modifies this`tilesets
      ensures Valid()
      ensures tile.tileset !in old(tilesets) ==> tilesets == old(tilesets)
      ensures tile.tileset in old(tilesets) ==>
        var info := old(tilesets[tile.tileset]);
        tilesets == old(tilesets)[tile.tileset := info.(tiles := info.tiles + [tile])]
    {
      if tile.tileset !in tilesets {
        return;
      }
      var info := tilesets[tile.tileset];
      tilesets := tilesets[tile.tileset := info.(tiles := info.tiles + [tile])];
    }

    /** A tile of an attached tileset was unloaded: splice it out of the list. */
    method OnTileUnload(tile: Tile)
      requires Valid()
      modifies this`tilesets
      ensures Valid()
      ensures tile.tileset !in old(tilesets) ==> tilesets == old(tilesets)
      ensures tile.tileset in old(tilesets) ==>
        var info := old(tilesets[tile.tileset]);
        tilesets == old(tilesets)[tile.tileset := info.(tiles := Unlisted(info.tiles, tile))]
    {
      if tile.tileset !in tilesets {
        return;
      }
      var info := tilesets[tile.tileset];
      UnlistedShrinks(info.tiles, tile);
      tilesets := tilesets[tile.tileset := info.(tiles := Unlisted(info.tiles, tile))];
    }

    /**
     * `_setTilesColor`: every listed tile records its current colour in
     * `originalColor` and takes `c`, in list order.
     */
    method SetTilesColor(ts: Tileset, c: Color)
      requires ts in tilesets
      modifies Tiles(ts)
      ensures forall t :: t in TileList(ts) ==>
        t.color == c && t.originalColor == Some(CapturedColor(TileList(ts), t, c, old(t.color)))
    {
      var tiles := tilesets[ts].tiles;
      var i := 0;
      while i < |tiles|
        invariant 0 <= i <= |tiles|
        invariant forall t :: t in tiles && t !in tiles[..i] ==>
          t.color == old(t.color) && t.originalColor == old(t.originalColor)
        invariant forall t :: t in tiles[..i] ==>
          t.color == c && t.originalColor == Some(if multiset(tiles[..i])[t] > 1 then c else old(t.color))
      {
        var tile := tiles[i];
        assert tiles[..i + 1] == tiles[..i] + [tile];
        tile.originalColor := Some(tile.color);
        tile.color := c;
        i := i + 1;
      }
      assert tiles[..i] == tiles;
    }

    /** `_restoreTilesColor`: every listed tile with a recorded colour takes it back. */
    method RestoreTilesColor(ts: Tileset)
      requires ts in tilesets
      modifies Tiles(ts)
      ensures forall t :: t in TileList(ts) ==>
        t.color == old(t.originalColor).GetOr(old(t.color)) && t.originalColor == old(t.originalColor)
    {
      var tiles := tilesets[ts].tiles;
      var i := 0;
      while i < |tiles|
        invariant 0 <= i <= |tiles|
        invariant forall t :: t in tiles ==> t.originalColor == old(t.originalColor)
        invariant forall t :: t in tiles ==>
          t.color == if t in tiles[..i] then old(t.originalColor).GetOr(old(t.color)) else old(t.color)
      {
        var tile := tiles[i];
        assert tiles[..i + 1] == tiles[..i] + [tile];
        if tile.originalColor.Some? {
          tile.color := tile.originalColor.value;
        }
        i := i + 1;
      }
      assert tiles[..i] == tiles;
    }

    /** Drop the highlight and restore the highlighted tileset's tiles. */
    method ClearHighlighted()
      requires Valid()
      modifies this`highlightedTileset, Tiles(highlightedTileset)
      ensures Valid() && highlightedTileset == null
      ensures forall t :: t in old(TileList(highlightedTileset)) ==>
        t.color == old(t.originalColor.GetOr(t.color)) && t.originalColor == old(t.originalColor)
    {
      if highlightedTileset != null {
        RestoreTilesColor(highlightedTileset);
        highlightedTileset := null;
      }
    }

    /**
     * Drop the selection and restore the selected tileset's tiles. As
     * written, the highlight is dropped too without restoring its tiles, so a
     * tileset hovered while another was selected keeps the highlight colour.
     * The info box is closed when it shows this accessor's entity.
     */
    method ClearSelected()
      requires Valid()
      modifies this`selectedTileset, this`highlightedTileset, Tiles(selectedTileset), viewer`selectedEntity
      ensures Valid() && selectedTileset == null
      ensures highlightedTileset == if old(selectedTileset) != null then null else old(highlightedTileset)
      ensures forall t :: t in old(TileList(selectedTileset)) ==>
        t.color == old(t.originalColor.GetOr(t.color)) && t.originalColor == old(t.originalColor)
      ensures forall t :: t in old(TileList(highlightedTileset)) ==> unchanged(t)
      ensures viewer.selectedEntity == if old(viewer.selectedEntity) == selectedEntity then null else old(viewer.selectedEntity)
    {
      SeparateTiles(tilesets, highlightedTileset, selectedTileset);
      if selectedTileset != null {
        RestoreTilesColor(selectedTileset);
        selectedTileset := null;
        highlightedTileset := null;
      }
      if viewer.selectedEntity == selectedEntity {
        viewer.selectedEntity := null;
      }
    }

    /**
     * Highlight the tileset `ts`: nothing happens when it is already
     * highlighted; otherwise the old highlight is cleared and, unless `ts` is
     * the selected tileset, its tiles take the highlight colour. The selected
     * tileset's tiles are never touched.
     */
    method SetHighlighted(ts: Tileset)
      requires Valid() && ts in tilesets
      modifies this`highlightedTileset, Tiles(highlightedTileset), Tiles(ts)
      ensures Valid()
      ensures ts == old(highlightedTileset) ==>
        highlightedTileset == ts && forall t :: t in TileList(ts) ==> unchanged(t)
      ensures ts != old(highlightedTileset) ==>
        && highlightedTileset == (if ts == selectedTileset then null else ts)
        && forall t :: t in old(TileList(highlightedTileset)) ==>
             t.color == old(t.originalColor.GetOr(t.color)) && t.originalColor == old(t.originalColor)
      ensures ts != old(highlightedTileset) && ts != selectedTileset ==>
        forall t :: t in TileList(ts) ==>
          t.color == highlightColor && t.originalColor == Some(CapturedColor(TileList(ts), t, highlightColor, old(t.color)))
      ensures forall t :: t in TileList(selectedTileset) ==> unchanged(t)
    {
      if ts == highlightedTileset {
        return;
      }
      SeparateTiles(tilesets, highlightedTileset, ts);
      SeparateTiles(tilesets, highlightedTileset, selectedTileset);
      ClearHighlighted();
      if ts == selectedTileset {
        return;
      }
      SeparateTiles(tilesets, ts, selectedTileset);
      highlightedTileset := ts;
      SetTilesColor(ts, highlightColor);
    }

    /**
     * Select the tileset `ts`: nothing happens when it is already selected;
     * otherwise the highlight and the selection are cleared, the info box
     * shows the model's title and description, and the tiles take the
     * selection colour, recording the colours the clearing restored.
     */
    method SetSelected(ts: Tileset)
      requires Valid() && ts in tilesets
      modifies this`selectedTileset, this`highlightedTileset, Tiles(selectedTileset), Tiles(highlightedTileset), Tiles(ts)
      modifies selectedEntity, viewer`selectedEntity
      ensures Valid()
      ensures ts == old(selectedTileset) ==>
        && selectedTileset == ts && highlightedTileset == old(highlightedTileset)
        && unchanged(selectedEntity, viewer)
        && forall t :: t in TileList(ts) || t in TileList(highlightedTileset) ==> unchanged(t)
      ensures ts != old(selectedTileset) ==>
        && selectedTileset == ts && highlightedTileset == null
        && selectedEntity.name == tilesets[ts].info.title
        && selectedEntity.description == Markup(tilesets[ts].info.description)
        && viewer.selectedEntity == selectedEntity
      ensures ts != old(selectedTileset) ==>
        forall t :: t in TileList(ts) ==>
          && t.color == selectedColor
          && t.originalColor == Some(CapturedColor(TileList(ts), t, selectedColor,
               if ts == old(highlightedTileset) then old(t.originalColor.GetOr(t.color)) else old(t.color)))
      ensures ts != old(selectedTileset) ==>
        forall t :: (t in old(TileList(selectedTileset)) || t in old(TileList(highlightedTileset))) && t !in TileList(ts) ==>
          t.color == old(t.originalColor.GetOr(t.color)) && t.originalColor == old(t.originalColor)
    {
      if ts == selectedTileset {
        return;
      }
      ClearForSelection(ts);
      selectedTileset := ts;
      var info := tilesets[ts].info;
      selectedEntity.name := info.title;
      selectedEntity.description := Markup(info.description);
      viewer.selectedEntity := selectedEntity;
      SetTilesColor(ts, selectedColor);
    }

    /**
     * The clearing that precedes a new selection of `ts`: the highlight,
     * then the selection. The tiles of `ts` end with the colours they had
     * before any accessor painting when `ts` was highlighted, and unchanged
     * otherwise.
     */
    method ClearForSelection(ts: Tileset)
      requires Valid() && ts in tilesets && ts != selectedTileset
      modifies this`selectedTileset, this`highlightedTileset, Tiles(selectedTileset), Tiles(highlightedTileset)
      modifies viewer`selectedEntity
      ensures Valid() && selectedTileset == null && highlightedTileset == null
      ensures forall t :: t in TileList(ts) ==>
        && t.color == (if ts == old(highlightedTileset) then old(t.originalColor.GetOr(t.color)) else old(t.color))
        && t.originalColor == old(t.originalColor)
      ensures forall t :: (t in old(TileList(selectedTileset)) || t in old(TileList(highlightedTileset))) && t !in TileList(ts) ==>
        t.color == old(t.originalColor.GetOr(t.color)) && t.originalColor == old(t.originalColor)
    {
      SeparateTiles(tilesets, highlightedTileset, selectedTileset);
      SeparateTiles(tilesets, ts, selectedTileset);
      if highlightedTileset != ts {
        SeparateTiles(tilesets, highlightedTileset, ts);
      }
      ClearHighlighted();
      ClearSelected();
    }

    /**
     * Round trip of a hover: highlighting a tileset whose tile list has no
     * repeats, with nothing highlighted before, and then clearing the
     * highlight gives every tile of it back its colour.
     */
    method HoverAndLeave(ts: Tileset)
      requires Valid() && ts in tilesets && highlightedTileset == null && Distinct(TileList(ts))
      modifies this`highlightedTileset, Tiles(ts)
      ensures Valid() && highlightedTileset == null
      ensures forall t :: t in TileList(ts) ==> t.color == old(t.color)
    {
      SetHighlighted(ts);
      ClearHighlighted();
      forall t | t in TileList(ts)
        ensures t.color == old(t.color)
      {
        if ts != selectedTileset {
          RestoreUndoesTilePaint(TileList(ts), t, highlightColor, old(t.color));
        }
      }
    }

    /** `_checkPickedFeature`: a tile feature of an attached tileset. */
    predicate Hit(pick: Pick)
      reads this`tilesets
    {
      pick.TileFeature? && pick.feature.tileset in tilesets
    }

    /** The tiles a hover or click on `pick` may paint. */
    function PickedTiles(pick: Pick): set<Tile>
      reads this`tilesets
    {
      if pick.TileFeature? then Tiles(pick.feature.tileset) else {}
    }

    /**
     * The pointer moved over `pick`: ignored while picking is off or a
     * button is held; otherwise highlight the picked tileset, or clear the
     * highlight when nothing of ours is under the pointer.
     */
    method OnMouseMove(pick: Pick)
      requires Valid()
      modifies this`highlightedTileset, Tiles(highlightedTileset), PickedTiles(pick)
      ensures Valid()
      ensures !picking || AnyDown(buttons) ==>
        highlightedTileset == old(highlightedTileset) && unchanged(Tiles(old(highlightedTileset)), PickedTiles(pick))
      ensures picking && !AnyDown(buttons) && Hit(pick) ==>
        highlightedTileset == if pick.feature.tileset == selectedTileset then null else pick.feature.tileset
      ensures picking && !AnyDown(buttons) && !Hit(pick) ==>
        && highlightedTileset == null
        && forall t :: t in old(TileList(highlightedTileset)) ==> t.color == old(t.originalColor.GetOr(t.color))
    {
      if !picking || AnyDown(buttons) {
        return;
      }
      if Hit(pick) {
        SetHighlighted(pick.feature.tileset);
      } else {
        ClearHighlighted();
      }
    }

    /**
     * A left click on `pick`: select the picked tileset (clicking the
     * selected one again changes nothing), or clear the selection when
     * nothing of ours was clicked.
     */
    method OnLeftClick(pick: Pick)
      requires Valid()
      modifies this`selectedTileset, this`highlightedTileset, Tiles(selectedTileset), Tiles(highlightedTileset)
      modifies PickedTiles(pick), selectedEntity, viewer`selectedEntity
      ensures Valid()
      ensures !picking ==>
        && selectedTileset == old(selectedTileset) && highlightedTileset == old(highlightedTileset)
        && unchanged(selectedEntity, viewer)
        && unchanged(Tiles(old(selectedTileset)), Tiles(old(highlightedTileset)), PickedTiles(pick))
      ensures picking && Hit(pick) ==> selectedTileset == pick.feature.tileset
      ensures picking && Hit(pick) && pick.feature.tileset != old(selectedTileset) ==>
        && highlightedTileset == null && viewer.selectedEntity == selectedEntity
        && selectedEntity.name == tilesets[pick.feature.tileset].info.title
      ensures picking && !Hit(pick) ==>
        && selectedTileset == null
        && highlightedTileset == (if old(selectedTileset) != null then null else old(highlightedTileset))
        && viewer.selectedEntity == (if old(viewer.selectedEntity) == selectedEntity then null else old(viewer.selectedEntity))
        && forall t :: t in old(TileList(selectedTileset)) ==> t.color == old(t.originalColor.GetOr(t.color))
      ensures picking && !Hit(pick) ==>
        unchanged(selectedEntity) && forall t :: t in old(TileList(highlightedTileset)) ==> unchanged(t)
    {
      if !picking {
        return;
      }
      if Hit(pick) {
        SetSelected(pick.feature.tileset);
      } else {
        ClearSelected();
      }
    }

    /**
     * A right click on `pick`: on a tileset of ours the camera flies to it
     * (outside this model); on anything else the selection is cleared.
     */
    method OnRightClick(pick: Pick)
      requires Valid()
      modifies this`selectedTileset, this`highlightedTileset, Tiles(selectedTileset), viewer`selectedEntity
      ensures Valid()
      ensures !picking || Hit(pick) ==>
        && selectedTileset == old(selectedTileset) && highlightedTileset == old(highlightedTileset)
        && unchanged(Tiles(old(selectedTileset)), viewer)
      ensures picking && !Hit(pick) ==>
        && selectedTileset == null
        && highlightedTileset == (if old(selectedTileset) != null then null else old(highlightedTileset))
        && viewer.selectedEntity == (if old(viewer.selectedEntity) == selectedEntity then null else old(viewer.selectedEntity))
        && forall t :: t in old(TileList(selectedTileset)) ==> t.color == old(t.originalColor.GetOr(t.color))
    {
      if !picking {
        return;
      }
      if !Hit(pick) {
        ClearSelected();
      }
    }

    /** The press and release handlers: each sets or clears its own flag. */
    method OnButton(e: ButtonEvent)
      modifies this`buttons
      ensures buttons == After(old(buttons), e)
    {
      buttons := After(buttons, e);
    }
  }
}
