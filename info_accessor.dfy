/**
 * The per-component accessor (`InfoAccessor`): it keeps, for every attached
 * tileset, the index from DbId to the loaded features carrying it; hovering a
 * feature paints every feature of its DbId with the highlight colour,
 * clicking paints them with the selection colour and fills the info box with
 * the component's property table. Each painting writes down the colours it
 * replaced so that clearing can write them back.
 */
module FeatureAccessor {
  import opened Wrappers
  import opened ColorSwap
  import opened JsArrays
  import opened Decimal
  import opened Sidecar
  import opened FeatureIndex
  import opened PropsTable
  import opened Pointer
  import opened Scene

  /** What the info box says while the property document is on its way. */
  const Loading := "Loading <div class=\"cesium-infoBox-loading\"></div>"

  /** The info-box title shown while the properties of `dbId` load. */
  function LoadingTitle(dbId: nat): (name: string)
    ensures |name| > 19 && name[..19] == "Load info for node "
    ensures forall i :: 19 <= i < |name| ==> IsDigit(name[i])
    ensures DigitsValue(name[19..]) == dbId
  {
    var digits := NatToString(dbId);
    DigitsOfNatToString(dbId);
    var name := "Load info for node " + digits;
    assert name[19..] == digits;
    name
  }

  /**
   * What the info box ends up describing for a document: its table, or the
   * TypeError that rendering throws when a double property holds no number.
   */
  function Described(node: PropsNode, fmt: NumberFormat): (c: Content)
    ensures c.Markup? <==> Renderable(node)
    ensures c.Markup? ==> Table(node, fmt) == Some(c.html)
    ensures c.Error? ==> c.error == TypeError
  {
    TableDefinedIffRenderable(node, fmt);
    match Table(node, fmt)
    case Some(html) => Markup(html)
    case None => Error(TypeError)
  }

  /** The outcome of the sidecar request, once its promise settles. */
  datatype Response =
    | Received(data: map<int, PropsNode>)  // the `data` object of the parsed JSON, keyed by DbId
    | Rejected(error: JsError)             // the request or the JSON parsing failed

  /** The features of a list, as a set (the objects a painting loop writes). */
  function FeatureSet(features: seq<Feature>): set<Feature> {
    set f | f in features
  }

  /** Every listed feature sits under its own DbId in the index of its own tileset. */
  predicate IndexConsistent(tilesets: map<Tileset, TilesetInfo<Feature>>) {
    forall ts, d, f :: ts in tilesets && d in tilesets[ts].dbIdToFeatures && f in tilesets[ts].dbIdToFeatures[d] ==>
      f.dbId == d && f.tileset == ts
  }

  /** The features the index of `ts` lists under `dbId`, or none when either is missing. */
  function Listed(tilesets: map<Tileset, TilesetInfo<Feature>>, ts: Tileset, dbId: int): seq<Feature> {
    if ts in tilesets then FeaturesOf(tilesets[ts].dbIdToFeatures, dbId) else []
  }

  /** In a consistent index, every feature found under a DbId carries it. */
  lemma ListedCarryDbId(tilesets: map<Tileset, TilesetInfo<Feature>>, ts: Tileset, dbId: int)
    requires IndexConsistent(tilesets)
    ensures forall f :: f in Listed(tilesets, ts, dbId) ==> f.dbId == dbId && f.tileset == ts
  {
  }

  /** So every record the painting loop writes for them names a feature of that DbId. */
  lemma RecordsCarryDbId(tilesets: map<Tileset, TilesetInfo<Feature>>, ts: Tileset, dbId: int, paint: Color, before: map<Feature, Color>)
    requires IndexConsistent(tilesets)
    requires forall f :: f in Listed(tilesets, ts, dbId) ==> f in before
    ensures forall r :: r in Captured(Listed(tilesets, ts, dbId), paint, before) ==> r.item.dbId == dbId
  {
    ListedCarryDbId(tilesets, ts, dbId);
    CapturedItems(Listed(tilesets, ts, dbId), paint, before);
  }

  /**
   * The painting loop: append `{feature, originalColor}` for each feature,
   * then give the feature the paint colour. `before` holds the colours the
   * features have when it starts.
   */
  method Paint(records0: seq<Record<Feature>>, features: seq<Feature>, paint: Color, ghost before: map<Feature, Color>)
    returns (records: seq<Record<Feature>>)
    requires forall f :: f in features ==> f in before && f.color == before[f]
    modifies FeatureSet(features)
    ensures records == records0 + Captured(features, paint, before)
    ensures forall f :: f in features ==> f.color == paint && f.show == old(f.show)
  {
    records := records0;
    for i := 0 to |features|
      invariant records == records0 + Captured(features[..i], paint, before)
      invariant forall f :: f in features ==> f.color == (if f in features[..i] then paint else before[f]) && f.show == old(f.show)
    {
      var f := features[i];
      assert features[..i + 1] == features[..i] + [f];
      CapturedSnoc(features[..i], f, paint, before);
      records := records + [Record(f, f.color)];
      f.color := paint;
    }
    assert features[..|features|] == features;
  }

  /** The restoring loop: give each recorded feature, in order, the colour its record holds. */
  method Restore(records: seq<Record<Feature>>)
    modifies Items(records)
    ensures forall f :: f in Items(records) ==> f.color == old(RestoredColor(records, f, f.color)) && f.show == old(f.show)
  {
    for i := 0 to |records|
      invariant forall f :: f in Items(records) ==> f.color == old(RestoredColor(records[..i], f, f.color)) && f.show == old(f.show)
    {
      assert records[..i + 1][..i] == records[..i];
      assert records[i] in records;
      records[i].item.color := records[i].originalColor;
    }
    assert records[..|records|] == records;
  }

  class InfoAccessor {
    /** `_tilesets`: the bookkeeping of every attached tileset. */
    var tilesets: map<Tileset, TilesetInfo<Feature>>
    /** `_tileset`: the tileset of the last highlight or selection. */
    var tileset: Tileset?
    var picking: bool
    var selected: seq<Record<Feature>>
    var selectedDbId: int
    var highlighted: seq<Record<Feature>>
    var highlightedDbId: int
    var buttons: Buttons
    var highlightColor: Color
    var selectedColor: Color
    /** The entity the info box shows for a selection. */
    const selectedEntity: Entity
    const viewer: Viewer
    /** The host's number formatting used by the property table. */
    const fmt: NumberFormat

    /**
     * What the accessor keeps true between events: a negative DbId has no
     * records, every record names a feature of the recorded DbId, the
     * selected DbId is never highlighted, and the index files every feature
     * under its own DbId and tileset.
     */
    predicate Valid()
      reads this
    {
      && (highlightedDbId < 0 ==> highlighted == [])
      && (selectedDbId < 0 ==> selected == [])
      && (highlightedDbId == selectedDbId ==> highlighted == [])
      && (forall r :: r in highlighted ==> r.item.dbId == highlightedDbId)
      && (forall r :: r in selected ==> r.item.dbId == selectedDbId)
      && IndexConsistent(tilesets)
    }

    /** The features listed under `dbId` in the index of `ts`, or none. */
    function FeaturesIn(ts: Tileset, dbId: int): seq<Feature>
      reads this`tilesets
    {
      Listed(tilesets, ts, dbId)
    }

    constructor (viewer: Viewer, options: Options, fmt: NumberFormat)
      ensures Valid()
      ensures this.viewer == viewer && this.fmt == fmt && fresh(selectedEntity)
      ensures tilesets == map[] && tileset == null && picking
      ensures selected == [] && selectedDbId == -1 && highlighted == [] && highlightedDbId == -1
      ensures buttons == AllUp
      ensures highlightColor == options.highlightColor.GetOr(Yellow)
      ensures selectedColor == options.selectedColor.GetOr(Lime)
    {
      tilesets := map[];
      tileset := null;
      picking := true;
      selected := [];
      selectedDbId := -1;
      highlighted := [];
      highlightedDbId := -1;
      buttons := AllUp;
      selectedEntity := new Entity();
      this.viewer := viewer;
      this.fmt := fmt;
      highlightColor := options.highlightColor.GetOr(Yellow);
      selectedColor := options.selectedColor.GetOr(Lime);
    }

    /** Write back the highlight records and forget the highlighted DbId. */
    method ClearHighlighted()
      requires Valid()
      modifies this`highlighted, this`highlightedDbId, Items(highlighted)
      ensures Valid()
      ensures old(highlightedDbId) < 0 ==> highlightedDbId == old(highlightedDbId)
      ensures old(highlightedDbId) >= 0 ==> highlightedDbId == -1
      ensures highlighted == []
      ensures forall f :: f in Items(old(highlighted)) ==>
        f.color == old(RestoredColor(highlighted, f, f.color)) && f.show == old(f.show)
    {
      if highlightedDbId < 0 {
        return;
      }
      if |highlighted| > 0 {
        Restore(highlighted);
        highlighted := [];
      }
      highlightedDbId := -1;
    }

    /** Write back the selection records, forget the selected DbId and close our info box. */
    method ClearSelected()
      requires Valid()
      modifies this`selected, this`selectedDbId, Items(selected), viewer`selectedEntity
      ensures Valid()
      ensures selected == [] && selectedDbId == -1
      ensures forall f :: f in Items(old(selected)) ==>
        f.color == old(RestoredColor(selected, f, f.color)) && f.show == old(f.show)
      ensures viewer.selectedEntity == if old(viewer.selectedEntity) == selectedEntity then null else old(viewer.selectedEntity)
    {
      if |selected| > 0 {
        Restore(selected);
        selected := [];
      }
      selectedDbId := -1;
      if viewer.selectedEntity == selectedEntity {
        viewer.selectedEntity := null;
      }
    }

    /** Whether hovering `dbId` paints: a valid DbId that is not the selected one. */
    predicate Paints(dbId: int)
      reads this`selectedDbId
    {
      dbId >= 0 && dbId != selectedDbId
    }

    /**
     * Hovering the features of `dbId` in `ts`: unless that is already the
     * highlight, clear the old highlight, remember the new one and, when it
     * is a valid DbId other than the selected one, paint its features.
     */
    method SetHighlighted(ts: Tileset, dbId: int)
      requires Valid()
      modifies this`tileset, this`highlighted, this`highlightedDbId, Items(highlighted), FeatureSet(FeaturesIn(ts, dbId))
      ensures Valid()
      ensures old(ts == tileset && dbId == highlightedDbId) ==>
        && tileset == old(tileset) && highlightedDbId == old(highlightedDbId) && highlighted == old(highlighted)
        && unchanged(Items(old(highlighted))) && unchanged(FeatureSet(FeaturesIn(ts, dbId)))
      ensures !old(ts == tileset && dbId == highlightedDbId) ==> tileset == ts && highlightedDbId == dbId
      ensures !old(ts == tileset && dbId == highlightedDbId) && !Paints(dbId) ==> highlighted == []
      ensures !old(ts == tileset && dbId == highlightedDbId) && Paints(dbId) ==>
        highlighted == Captured(FeaturesIn(ts, dbId), highlightColor, old(Cleared(highlighted, FeaturesIn(ts, dbId))))
      ensures !old(ts == tileset && dbId == highlightedDbId) && Paints(dbId) ==>
        forall f :: f in FeaturesIn(ts, dbId) ==> f.color == highlightColor && f.show == old(f.show)
      ensures !old(ts == tileset && dbId == highlightedDbId) ==>
        forall f :: f in Items(old(highlighted)) && !(Paints(dbId) && f in FeaturesIn(ts, dbId)) ==>
          f.color == old(RestoredColor(highlighted, f, f.color)) && f.show == old(f.show)
      ensures !Paints(dbId) ==> forall f :: f in FeaturesIn(ts, dbId) ==> f.color == old(f.color) && f.show == old(f.show)
    {
      if ts == tileset && dbId == highlightedDbId {
        return;
      }
      ghost var cleared := Cleared(highlighted, FeaturesIn(ts, dbId));
      ClearedUnnamed(highlighted, FeaturesIn(ts, dbId));
      if !Paints(dbId) {
        UnpaintedUnrecorded(ts, dbId);
      }
      ClearHighlighted();
      Highlight(ts, dbId, cleared);
    }

    /**
     * No highlight record names a feature of a DbId that does not paint:
     * records carry the highlighted DbId, and a negative or selected DbId is
     * never the highlighted one while records exist.
     */
    lemma UnpaintedUnrecorded(ts: Tileset, dbId: int)
      requires Valid() && !Paints(dbId)
      ensures forall f :: f in FeaturesIn(ts, dbId) ==> f !in Items(highlighted)
    {
      ListedCarryDbId(tilesets, ts, dbId);
      forall f | f in FeaturesIn(ts, dbId)
        ensures f !in Items(highlighted)
      {
        assert forall r :: r in highlighted ==> r.item.dbId != f.dbId;
      }
    }

    /**
     * The highlight and the selection never name the same feature: their
     * records carry the highlighted and the selected DbId, which differ
     * while highlight records exist.
     */
    lemma HighlightApartFromSelection()
      requires Valid()
      ensures Items(highlighted) !! Items(selected)
    {
      forall f | f in Items(highlighted)
        ensures f !in Items(selected)
      {
        var h :| h in highlighted && h.item == f;
        assert f.dbId == highlightedDbId != selectedDbId;
      }
    }

    /**
     * The highlight proper, once the old one is cleared: remember `ts` and
     * `dbId` and, when `dbId` paints, paint its features, whose colours are
     * `before`.
     */
    method Highlight(ts: Tileset, dbId: int, ghost before: map<Feature, Color>)
      requires Valid() && highlighted == [] && highlightedDbId < 0
      requires forall f :: f in FeaturesIn(ts, dbId) ==> f in before && f.color == before[f]
      modifies this`tileset, this`highlighted, this`highlightedDbId, FeatureSet(FeaturesIn(ts, dbId))
      ensures Valid()
      ensures tileset == ts && highlightedDbId == dbId
      ensures !Paints(dbId) ==> highlighted == [] && unchanged(FeatureSet(FeaturesIn(ts, dbId)))
      ensures Paints(dbId) ==> highlighted == Captured(FeaturesIn(ts, dbId), highlightColor, before)
      ensures Paints(dbId) ==> forall f :: f in FeaturesIn(ts, dbId) ==> f.color == highlightColor && f.show == old(f.show)
    {
      tileset := ts;
      highlightedDbId := dbId;
      if highlightedDbId == selectedDbId || highlightedDbId < 0 {
        return;
      }
      var features := FeaturesIn(ts, dbId);
      RecordsCarryDbId(tilesets, ts, dbId, highlightColor, before);
      highlighted := Paint(highlighted, features, highlightColor, before);
    }

    /**
     * Show a property document in the info box: its name (or "<null>") as
     * the title and its table as the description. `ok` is false when the
     * table cannot be rendered, which the host reports by throwing; the
     * title is already set then and the description is left alone.
     */
    method ShowProps(node: PropsNode) returns (ok: bool)
      modifies selectedEntity
      ensures selectedEntity.name == DisplayName(node.name)
      ensures ok <==> Renderable(node)
      ensures ok ==> selectedEntity.description == Described(node, fmt)
      ensures !ok ==> selectedEntity.description == old(selectedEntity.description)
    {
      selectedEntity.name := DisplayName(node.name);
      var html := RenderTable(node, fmt);
      TableDefinedIffRenderable(node, fmt);
      if html.None? {
        return false;
      }
      selectedEntity.description := Markup(html.value);
      ok := true;
    }

    /**
     * Clicking the features of `dbId` in `ts`, where `feature` is the one
     * picked: unless that is already the selection, clear the highlight and
     * the selection, remember the new one and, for a valid DbId, open the
     * info box and paint the DbId's features. A document that cannot be
     * rendered throws before the painting: `Failure(TypeError)`.
     * `Success(Some(url))` is the request started.
     */
    method SetSelected(ts: Tileset, dbId: int, feature: Feature) returns (r: Result<Option<string>, JsError>)
      requires Valid()
      modifies this`tileset, this`selected, this`selectedDbId, this`highlighted, this`highlightedDbId
      modifies Items(highlighted), Items(selected), FeatureSet(FeaturesIn(ts, dbId)), selectedEntity, viewer`selectedEntity
      ensures Valid()
      ensures old(ts == tileset && dbId == selectedDbId) ==>
        && r == Success(None) && unchanged(this, selectedEntity, viewer)
        && unchanged(Items(old(highlighted)), Items(old(selected)), FeatureSet(FeaturesIn(ts, dbId)))
      ensures !old(ts == tileset && dbId == selectedDbId) ==>
        tileset == ts && selectedDbId == dbId && highlighted == [] && highlightedDbId < 0
      ensures !old(ts == tileset && dbId == selectedDbId) && dbId < 0 ==>
        && r == Success(None) && selected == [] && unchanged(selectedEntity)
        && viewer.selectedEntity == if old(viewer.selectedEntity) == selectedEntity then null else old(viewer.selectedEntity)
      ensures !old(ts == tileset && dbId == selectedDbId) && dbId >= 0 ==> InfoBoxOpened(dbId, feature, r)
      ensures !old(ts == tileset && dbId == selectedDbId) && dbId >= 0 && r.Success? ==>
        && selected == Captured(FeaturesIn(ts, dbId), selectedColor, old(Cleared(highlighted + selected, FeaturesIn(ts, dbId))))
        && forall f :: f in FeaturesIn(ts, dbId) ==> f.color == selectedColor && f.show == old(f.show)
      ensures !old(ts == tileset && dbId == selectedDbId) && (dbId < 0 || r.Failure?) ==> selected == []
      ensures !old(ts == tileset && dbId == selectedDbId) ==>
        forall f :: f in Items(old(highlighted)) + Items(old(selected)) && f !in FeaturesIn(ts, dbId) ==>
          f.color == old(RestoredColor(highlighted + selected, f, f.color)) && f.show == old(f.show)
      ensures !old(ts == tileset && dbId == selectedDbId) && (dbId < 0 || r.Failure?) ==>
        forall f :: f in FeaturesIn(ts, dbId) ==>
          f.color == old(Cleared(highlighted + selected, FeaturesIn(ts, dbId)))[f] && f.show == old(f.show)
    {
      if ts == tileset && dbId == selectedDbId {
        return Success(None);
      }
      r := Reselect(ts, dbId, feature);
    }

    /** A selection that differs from the current one. */
    method Reselect(ts: Tileset, dbId: int, feature: Feature) returns (r: Result<Option<string>, JsError>)
      requires Valid()
      modifies this`tileset, this`selected, this`selectedDbId, this`highlighted, this`highlightedDbId
      modifies Items(highlighted), Items(selected), FeatureSet(FeaturesIn(ts, dbId)), selectedEntity, viewer`selectedEntity
      ensures Valid()
      ensures tileset == ts && selectedDbId == dbId && highlighted == [] && highlightedDbId < 0
      ensures dbId < 0 ==>
        && r == Success(None) && selected == [] && unchanged(selectedEntity)
        && viewer.selectedEntity == if old(viewer.selectedEntity) == selectedEntity then null else old(viewer.selectedEntity)
      ensures dbId >= 0 ==> InfoBoxOpened(dbId, feature, r)
      ensures dbId >= 0 && r.Success? ==>
        && selected == Captured(FeaturesIn(ts, dbId), selectedColor, old(Cleared(highlighted + selected, FeaturesIn(ts, dbId))))
        && forall f :: f in FeaturesIn(ts, dbId) ==> f.color == selectedColor && f.show == old(f.show)
      ensures (dbId < 0 || r.Failure?) ==> selected == []
      ensures forall f :: f in Items(old(highlighted)) + Items(old(selected)) && f !in FeaturesIn(ts, dbId) ==>
          f.color == old(RestoredColor(highlighted + selected, f, f.color)) && f.show == old(f.show)
      ensures dbId < 0 || r.Failure? ==>
        forall f :: f in FeaturesIn(ts, dbId) ==>
          f.color == old(Cleared(highlighted + selected, FeaturesIn(ts, dbId)))[f] && f.show == old(f.show)
    {
      ghost var cleared := Cleared(highlighted + selected, FeaturesIn(ts, dbId));
      ClearForSelection(ts, dbId);
      if dbId < 0 {
        return Success(None);
      }
      r := OpenSelection(ts, dbId, feature, cleared);
    }

    /**
     * The selection of a valid DbId, once the highlight and the old
     * selection are cleared and the new one remembered: open the info box
     * and, unless that threw, paint the DbId's features, whose colours are
     * `before`.
     */
    method OpenSelection(ts: Tileset, dbId: nat, feature: Feature, ghost before: map<Feature, Color>)
      returns (r: Result<Option<string>, JsError>)
      requires Valid() && highlighted == [] && highlightedDbId < 0 && selected == [] && selectedDbId == dbId
      requires forall f :: f in FeaturesIn(ts, dbId) ==> f in before && f.color == before[f]
      modifies this`selected, FeatureSet(FeaturesIn(ts, dbId)), selectedEntity, viewer`selectedEntity
      ensures Valid()
      ensures InfoBoxOpened(dbId, feature, r)
      ensures r.Success? ==>
        && selected == Captured(FeaturesIn(ts, dbId), selectedColor, before)
        && forall f :: f in FeaturesIn(ts, dbId) ==> f.color == selectedColor && f.show == old(f.show)
      ensures r.Failure? ==> selected == [] && unchanged(FeatureSet(FeaturesIn(ts, dbId)))
    {
      r := Announce(dbId, feature);
      if r.Success? {
        PaintSelection(ts, dbId, before);
      }
    }

    /** The painting that ends a selection: the DbId's features, whose colours are `before`. */
    method PaintSelection(ts: Tileset, dbId: int, ghost before: map<Feature, Color>)
      requires Valid() && selected == [] && selectedDbId == dbId >= 0
      requires forall f :: f in FeaturesIn(ts, dbId) ==> f in before && f.color == before[f]
      modifies this`selected, FeatureSet(FeaturesIn(ts, dbId))
      ensures Valid()
      ensures selected == Captured(FeaturesIn(ts, dbId), selectedColor, before)
      ensures forall f :: f in FeaturesIn(ts, dbId) ==> f.color == selectedColor && f.show == old(f.show)
    {
      var features := FeaturesIn(ts, dbId);
      RecordsCarryDbId(tilesets, ts, dbId, selectedColor, before);
      selected := Paint(selected, features, selectedColor, before);
    }

    /**
     * The info box once a selection of `dbId` opened it: it is the viewer's
     * selected entity; with no embedded document it shows the loading title
     * and message and `r` names the sidecar file requested; with one, it
     * shows the document's name and, when the table renders, its table
     * (otherwise the loading message stays and `r` is the TypeError thrown).
     */
    predicate InfoBoxOpened(dbId: nat, feature: Feature, r: Result<Option<string>, JsError>)
      reads selectedEntity, viewer
    {
      && viewer.selectedEntity == selectedEntity
      && (feature.props.None? ==>
            && r == Success(Some(SidecarUrl(BasePath(feature.baseUrl), dbId)))
            && selectedEntity.name == LoadingTitle(dbId) && selectedEntity.description == Markup(Loading))
      && (feature.props.Some? ==>
            && selectedEntity.name == DisplayName(feature.props.value.name)
            && (r.Success? <==> Renderable(feature.props.value))
            && (r.Success? ==> r.value == None && selectedEntity.description == Described(feature.props.value, fmt))
            && (r.Failure? ==> r.error == TypeError && selectedEntity.description == Markup(Loading)))
    }

    /**
     * The clearing that opens a selection of `dbId` in `ts`: the highlight
     * when a DbId is highlighted, then the selection, after which the new
     * tileset and DbId are remembered. The colours both clearings leave
     * behind are those of writing back the highlight records and then the
     * selection records, also for the features about to be painted.
     */
    method ClearForSelection(ts: Tileset, dbId: int)
      requires Valid()
      modifies this`tileset, this`selected, this`selectedDbId, this`highlighted, this`highlightedDbId
      modifies Items(highlighted), Items(selected), viewer`selectedEntity
      ensures Valid()
      ensures highlighted == [] && highlightedDbId < 0 && selected == []
      ensures tileset == ts && selectedDbId == dbId
      ensures viewer.selectedEntity == if old(viewer.selectedEntity) == selectedEntity then null else old(viewer.selectedEntity)
      ensures forall f :: f in Items(old(highlighted)) + Items(old(selected)) ==>
        f.color == old(RestoredColor(highlighted + selected, f, f.color)) && f.show == old(f.show)
      ensures forall f :: f in FeaturesIn(ts, dbId) ==>
        f.color == old(Cleared(highlighted + selected, FeaturesIn(ts, dbId)))[f] && f.show == old(f.show)
    {
      ghost var hl, sel, features := highlighted, selected, FeaturesIn(ts, dbId);
      if highlightedDbId >= 0 {
        ClearHighlighted();
      }
      label HighlightCleared:
      ClearSelected();
      forall f | f in Items(hl) + Items(sel) + FeatureSet(features)
        ensures f.color == old(RestoredColor(hl + sel, f, f.color)) && f.show == old(f.show)
      {
        RestoredColorAppend(hl, sel, f, old(f.color));
        if f !in Items(hl) {
          RestoredColorUnnamed(hl, f, old(f.color));
        }
        if f !in Items(sel) {
          RestoredColorUnnamed(sel, f, old@HighlightCleared(f.color));
        }
      }
      tileset := ts;
      selectedDbId := dbId;
    }

    /**
     * Opening the info box for a valid DbId: the loading title and message,
     * the viewer's selected entity, and then the embedded document shown
     * (`Failure(TypeError)` when it cannot be rendered) or the sidecar file
     * named for the request.
     */
    method Announce(dbId: nat, feature: Feature) returns (r: Result<Option<string>, JsError>)
      modifies selectedEntity, viewer`selectedEntity
      ensures InfoBoxOpened(dbId, feature, r)
    {
      selectedEntity.name := LoadingTitle(dbId);
      selectedEntity.description := Markup(Loading);
      viewer.selectedEntity := selectedEntity;
      var basePath := BasePath(feature.baseUrl);
      if feature.props.Some? {
        var ok := ShowProps(feature.props.value);
        r := if ok then Success(None) else Failure(TypeError);
      } else {
        r := Success(Some(SidecarUrl(basePath, dbId)));
      }
    }

    /**
     * The sidecar request for `dbId` settled. Unless the selection moved on
     * to another DbId meanwhile, show the component's document from the
     * file, or put the error in the info box: the request's own error, or a
     * TypeError when the file has no entry for the DbId or its document
     * cannot be rendered.
     */
    method ApplyFetched(dbId: int, response: Response)
      modifies selectedEntity
      ensures selectedDbId != dbId ==> unchanged(selectedEntity)
      ensures selectedDbId == dbId && response.Rejected? ==>
        selectedEntity.name == old(selectedEntity.name) && selectedEntity.description == Error(response.error)
      ensures selectedDbId == dbId && response.Received? && dbId !in response.data ==>
        selectedEntity.name == old(selectedEntity.name) && selectedEntity.description == Error(TypeError)
      ensures selectedDbId == dbId && response.Received? && dbId in response.data ==>
        var node := response.data[dbId];
        && selectedEntity.name == DisplayName(node.name)
        && selectedEntity.description == Described(node, fmt)
    {
      if selectedDbId != dbId {
        return;
      }
      match response
      case Rejected(error) =>
        selectedEntity.description := Error(error);
      case Received(data) =>
        if dbId !in data {
          selectedEntity.description := Error(TypeError);
        } else {
          var ok := ShowProps(data[dbId]);
          if !ok {
            selectedEntity.description := Error(TypeError);
          }
        }
    }

    /**
     * Round trip of a hover: highlighting a DbId whose features are listed
     * without repeats, with nothing highlighted before, and then clearing the
     * highlight gives every feature of it back its colour.
     */
    method HoverAndLeave(ts: Tileset, dbId: int)
      requires Valid() && highlightedDbId < 0 && Distinct(FeaturesIn(ts, dbId))
      modifies this`tileset, this`highlighted, this`highlightedDbId, FeatureSet(FeaturesIn(ts, dbId))
      ensures Valid() && highlighted == [] && highlightedDbId < 0
      ensures forall f :: f in FeaturesIn(ts, dbId) ==> f.color == old(f.color) && f.show == old(f.show)
    {
      ghost var features := FeaturesIn(ts, dbId);
      ghost var before := Cleared(highlighted, features);
      SetHighlighted(ts, dbId);
      if Paints(dbId) {
        CapturedItems(features, highlightColor, before);
        RestoreUndoesPaintAll(features, highlightColor, before);
      }
      ClearHighlighted();
    }

    /** Whether `f`'s DbId has a list in the index of `f`'s tileset. */
    predicate Indexed(f: Feature)
      reads this`tilesets
    {
      f.tileset in tilesets && f.dbId in tilesets[f.tileset].dbIdToFeatures
    }

    /**
     * A feature of a newly loaded tile: file it under its DbId in its
     * tileset's index, and hide it when its DbId is listed as hidden. A
     * feature of a tileset that is not attached changes nothing (the host
     * throws before any update).
     */
    method LoadFeature(f: Feature)
      requires Valid()
      modifies this`tilesets, f
      ensures Valid()
      ensures f.tileset !in old(tilesets) ==> tilesets == old(tilesets) && unchanged(f)
      ensures f.tileset in old(tilesets) ==>
        var info := old(tilesets[f.tileset]);
        && tilesets == old(tilesets)[f.tileset := info.(dbIdToFeatures := Appended(info.dbIdToFeatures, f.dbId, f))]
        && f.show == (old(f.show) && f.dbId !in info.hiddenDbIds)
        && f.color == old(f.color)
    {
      if f.tileset !in tilesets {
        return;
      }
      var info := tilesets[f.tileset];
      tilesets := tilesets[f.tileset := info.(dbIdToFeatures := Appended(info.dbIdToFeatures, f.dbId, f))];
      if f.dbId in info.hiddenDbIds {
        f.show := false;
      }
    }

    /**
     * A feature of a tile being unloaded: splice its DbId's list in the
     * index (as written, the search there never matches, see
     * `RemovedAsWritten`), and drop its record from the selection or the
     * highlight when its DbId is the selected or highlighted one. Nothing
     * changes when the index has no list for it (the host throws first).
     */
    method UnloadFeature(f: Feature)
      requires Valid()
      modifies this`tilesets, this`selected, this`highlighted
      ensures Valid()
      ensures !old(Indexed(f)) ==> tilesets == old(tilesets) && selected == old(selected) && highlighted == old(highlighted)
      ensures old(Indexed(f)) ==>
        var info := old(tilesets[f.tileset]);
        tilesets == old(tilesets)[f.tileset := info.(dbIdToFeatures := RemovedAsWritten(info.dbIdToFeatures, f.dbId))]
      ensures old(Indexed(f)) ==>
        selected == if f.dbId == selectedDbId then Unrecorded(old(selected), f) else old(selected)
      ensures old(Indexed(f)) ==>
        highlighted == if f.dbId == highlightedDbId then Unrecorded(old(highlighted), f) else old(highlighted)
    {
      if !Indexed(f) {
        return;
      }
      Unindex(f);
      Unrecord(f);
    }

    /** The index half of `UnloadFeature`. */
    method Unindex(f: Feature)
      requires Valid() && Indexed(f)
      modifies this`tilesets
      ensures Valid()
      ensures var info := old(tilesets[f.tileset]);
        tilesets == old(tilesets)[f.tileset := info.(dbIdToFeatures := RemovedAsWritten(info.dbIdToFeatures, f.dbId))]
    {
      var info := tilesets[f.tileset];
      RemovalKeepsConsistent(tilesets, f.tileset, f.dbId);
      tilesets := tilesets[f.tileset := info.(dbIdToFeatures := RemovedAsWritten(info.dbIdToFeatures, f.dbId))];
    }

    /** The records half of `UnloadFeature`. */
    method Unrecord(f: Feature)
      requires Valid()
      modifies this`selected, this`highlighted
      ensures Valid()
      ensures selected == if f.dbId == selectedDbId then Unrecorded(old(selected), f) else old(selected)
      ensures highlighted == if f.dbId == highlightedDbId then Unrecorded(old(highlighted), f) else old(highlighted)
    {
      if f.dbId == selectedDbId {
        UnrecordedShrinks(selected, f);
        selected := Unrecorded(selected, f);
      }
      if f.dbId == highlightedDbId {
        UnrecordedShrinks(highlighted, f);
        highlighted := Unrecorded(highlighted, f);
      }
    }

    /**
     * `attach`: a tileset gets an empty index and the REPLACE colour blend
     * mode, once; anything that is not a tileset is refused.
     */
    method Attach(p: Primitive) returns (attached: bool)
      requires Valid()
      modifies this`tilesets, PrimitiveTilesets(p)
      ensures Valid()
      ensures attached <==> p.TilesetPrimitive?
      ensures p.OtherPrimitive? ==> tilesets == old(tilesets)
      ensures p.TilesetPrimitive? && p.tileset in old(tilesets) ==> tilesets == old(tilesets) && unchanged(p.tileset)
      ensures p.TilesetPrimitive? && p.tileset !in old(tilesets) ==>
        tilesets == old(tilesets)[p.tileset := TilesetInfo(map[], [])] && p.tileset.blendReplace
    {
      if !p.TilesetPrimitive? {
        return false;
      }
      if p.tileset in tilesets {
        return true;
      }
      tilesets := tilesets[p.tileset := TilesetInfo(map[], [])];
      p.tileset.blendReplace := true;
      attached := true;
    }

    /** `_checkPickedFeature`: a tile feature of an attached tileset. */
    predicate Hit(pick: Pick)
      reads this`tilesets
    {
      pick.TileFeature? && pick.feature.tileset in tilesets
    }

    /** The features a hover or click on `pick` may paint. */
    function PickedFeatures(pick: Pick): set<Feature>
      reads this`tilesets
    {
      if pick.TileFeature? then FeatureSet(FeaturesIn(pick.feature.tileset, pick.feature.dbId)) else {}
    }

    /**
     * The pointer moved over `pick`: ignored while picking is off or a
     * button is held; otherwise highlight the feature's DbId, or clear the
     * highlight when nothing of ours is under the pointer.
     */
    method OnMouseMove(pick: Pick)
      requires Valid()
      modifies this`tileset, this`highlighted, this`highlightedDbId, Items(highlighted), PickedFeatures(pick)
      ensures Valid()
      ensures !picking || AnyDown(buttons) ==>
        && tileset == old(tileset) && highlighted == old(highlighted) && highlightedDbId == old(highlightedDbId)
        && unchanged(Items(old(highlighted)), PickedFeatures(pick))
      ensures picking && !AnyDown(buttons) && Hit(pick) ==>
        tileset == pick.feature.tileset && highlightedDbId == pick.feature.dbId
      ensures picking && !AnyDown(buttons) && Hit(pick) && Paints(pick.feature.dbId)
              && !old(tileset == pick.feature.tileset && highlightedDbId == pick.feature.dbId) ==>
        forall f :: f in FeaturesIn(pick.feature.tileset, pick.feature.dbId) ==> f.color == highlightColor && f.show == old(f.show)
      ensures picking && !AnyDown(buttons) && Hit(pick) && !Paints(pick.feature.dbId) ==>
        forall f :: f in FeaturesIn(pick.feature.tileset, pick.feature.dbId) ==> f.color == old(f.color) && f.show == old(f.show)
      ensures picking && !AnyDown(buttons) && !Hit(pick) ==>
        && tileset == old(tileset) && highlighted == [] && highlightedDbId < 0
        && forall f :: f in Items(old(highlighted)) ==> f.color == old(RestoredColor(highlighted, f, f.color)) && f.show == old(f.show)
    {
      if !picking || AnyDown(buttons) {
        return;
      }
      if Hit(pick) {
        SetHighlighted(pick.feature.tileset, pick.feature.dbId);
      } else {
        ClearHighlighted();
      }
    }

    /**
     * A left click on `pick`: clicking the selected DbId again, or nothing of
     * ours, clears the selection; clicking another DbId selects it.
     */
    method OnLeftClick(pick: Pick) returns (r: Result<Option<string>, JsError>)
      requires Valid()
      modifies this`tileset, this`selected, this`selectedDbId, this`highlighted, this`highlightedDbId
      modifies Items(highlighted), Items(selected), PickedFeatures(pick), selectedEntity, viewer`selectedEntity
      ensures Valid()
      ensures !picking ==>
        && r == Success(None) && unchanged(this, selectedEntity, viewer)
        && unchanged(Items(old(highlighted)), Items(old(selected)), PickedFeatures(pick))
      ensures picking && (!Hit(pick) || pick.feature.dbId == old(selectedDbId)) ==>
        && r == Success(None) && selected == [] && selectedDbId == -1
        && viewer.selectedEntity == (if old(viewer.selectedEntity) == selectedEntity then null else old(viewer.selectedEntity))
        && forall f :: f in Items(old(selected)) ==> f.color == old(RestoredColor(selected, f, f.color)) && f.show == old(f.show)
      ensures picking && (!Hit(pick) || pick.feature.dbId == old(selectedDbId)) ==>
        && tileset == old(tileset) && highlighted == old(highlighted) && highlightedDbId == old(highlightedDbId)
        && unchanged(selectedEntity)
        && forall f :: f in Items(old(highlighted)) ==> f.color == old(f.color) && f.show == old(f.show)
      ensures picking && Hit(pick) && pick.feature.dbId != old(selectedDbId) ==>
        && tileset == pick.feature.tileset && selectedDbId == pick.feature.dbId && highlighted == []
        && (pick.feature.dbId >= 0 ==> InfoBoxOpened(pick.feature.dbId, pick.feature, r))
    {
      r := Success(None);
      if !picking {
        return;
      }
      HighlightApartFromSelection();
      if Hit(pick) {
        if pick.feature.dbId == selectedDbId {
          ClearSelected();
        } else {
          r := SetSelected(pick.feature.tileset, pick.feature.dbId, pick.feature);
        }
      } else {
        ClearSelected();
      }
    }

    /**
     * A right click on `pick`: on a feature of ours the camera flies to it
     * (outside this model); on anything else the selection is cleared.
     */
    method OnRightClick(pick: Pick)
      requires Valid()
      modifies this`selected, this`selectedDbId, Items(selected), viewer`selectedEntity
      ensures Valid()
      ensures !picking || Hit(pick) ==>
        selected == old(selected) && selectedDbId == old(selectedDbId) && unchanged(Items(old(selected)), viewer)
      ensures picking && !Hit(pick) ==>
        && selected == [] && selectedDbId == -1
        && viewer.selectedEntity == (if old(viewer.selectedEntity) == selectedEntity then null else old(viewer.selectedEntity))
        && forall f :: f in Items(old(selected)) ==> f.color == old(RestoredColor(selected, f, f.color)) && f.show == old(f.show)
    {
      if !picking {
        return;
      }
      if !Hit(pick) {
        ClearSelected();
      }
    }

    /** The press and release handlers: each sets or clears its own flag. */
    method OnButton(e: ButtonEvent)
      modifies this`buttons
      ensures buttons == After(old(buttons), e)
    {
      buttons := After(buttons, e);
    }
  }

  /** `item => item.feature === f`, the search for `f`'s record. */
  function RecordOf(f: Feature): Record<Feature> -> bool {
    (r: Record<Feature>) => r.item == f
  }

  /** `records.splice(records.findIndex(item => item.feature === f), 1)` */
  function Unrecorded(records: seq<Record<Feature>>, f: Feature): (r: seq<Record<Feature>>)
    ensures |r| == if records == [] then 0 else |records| - 1
    ensures multiset(r) <= multiset(records)
  {
    SpliceOne(records, FindIndex(records, RecordOf(f)))
  }

  /** Unrecording keeps only records that were there. */
  lemma UnrecordedShrinks(records: seq<Record<Feature>>, f: Feature)
    ensures forall r :: r in Unrecorded(records, f) ==> r in records
  {
    var u := Unrecorded(records, f);
    forall r | r in u ensures r in records {
      assert multiset(u)[r] > 0;
    }
  }

  /**
   * When `f` has a record, unloading `f` removes its first record and keeps
   * every other record.
   */
  lemma UnrecordedFound(records: seq<Record<Feature>>, f: Feature)
    requires f in Items(records)
    ensures var k := FindIndex(records, RecordOf(f));
      && 0 <= k && records[k].item == f
      && multiset(Unrecorded(records, f)) + multiset{records[k]} == multiset(records)
  {
    var i :| 0 <= i < |records| && records[i].item == f;
    SpliceFound(records, RecordOf(f), i);
  }

  /**
   * When `f` has no record (a feature of the selected DbId loaded after the
   * selection was painted), unloading it drops the LAST record instead.
   */
  lemma UnrecordedMissing(records: seq<Record<Feature>>, f: Feature)
    requires f !in Items(records)
    ensures records != [] ==> Unrecorded(records, f) == records[..|records| - 1]
    ensures records == [] ==> Unrecorded(records, f) == []
  {
    assert forall i :: 0 <= i < |records| ==> records[i] in records;
    assert FindIndex(records, RecordOf(f)) == -1;
    SpliceNotFound(records);
  }

  /** Splicing a list of a consistent index keeps it consistent. */
  lemma RemovalKeepsConsistent(tilesets: map<Tileset, TilesetInfo<Feature>>, ts: Tileset, dbId: int)
    requires IndexConsistent(tilesets)
    requires ts in tilesets && dbId in tilesets[ts].dbIdToFeatures
    ensures var info := tilesets[ts];
      IndexConsistent(tilesets[ts := info.(dbIdToFeatures := RemovedAsWritten(info.dbIdToFeatures, dbId))])
  {
    var info := tilesets[ts];
    var index := RemovedAsWritten(info.dbIdToFeatures, dbId);
    forall f | f in index[dbId] ensures f in info.dbIdToFeatures[dbId] {
      assert multiset(index[dbId])[f] > 0;
    }
  }

  /** A feature no record names keeps its colour. */
  lemma ClearedUnnamed(records: seq<Record<Feature>>, features: seq<Feature>)
    ensures forall f :: f in features && f !in Items(records) ==> Cleared(records, features)[f] == f.color
  {
    forall f | f in features && f !in Items(records)
      ensures Cleared(records, features)[f] == f.color
    {
      RestoredColorUnnamed(records, f, f.color);
    }
  }

  /** The colour each listed feature has once `records` are written back. */
  function Cleared(records: seq<Record<Feature>>, features: seq<Feature>): (colors: map<Feature, Color>)
    reads FeatureSet(features)
    ensures forall f :: f in features ==> f in colors
  {
    map f | f in features :: RestoredColor(records, f, f.color)
  }
}
