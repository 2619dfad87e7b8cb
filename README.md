# Cesium info accessor — a Dafny model

`src/cesium-info-accessor.js` adds hover highlighting and click selection to
the 3D Tiles tilesets shown in a Cesium viewer. There are two accessors.

- `InfoAccessor` works per component. Each attached tileset has an index
  `dbIdToFeatures` from a component's `DbId` to the loaded features that carry
  it. The index is kept in step with tile loading and unloading, and the
  tileset's `hiddenDbIds` hide features as they load. Hovering a feature paints
  every feature of its DbId with the highlight colour. Clicking paints them
  with the selection colour and fills the info box with the component's
  property table. That table comes from the feature's embedded `Props` document
  or from the sidecar file `info/<DbId / 100>.json` beside the tileset. Before
  painting, the accessor writes down one `{feature, originalColor}` record per
  feature, in `_highlighted` or `_selected`. Clearing writes those records back
  in order. Selection takes precedence over highlight:
  - the selected DbId is never highlighted;
  - a selection first clears the highlight, so its records hold the colours
    from before the highlight;
  - clicking the selected DbId again deselects it.
- `InfoAccessorX` works per tileset. Each attached tileset has the list of its
  loaded tiles and a title and description for the whole model. Hovering
  paints all the tileset's tiles, and clicking selects the tileset and shows
  the title and description. Each tile keeps the colour it had before its last
  painting in its own `originalColor` property, and clearing writes that back.

The model is imperative where the source is:
- the accessors, the features, the tiles, the info-box entity and the viewer
  are classes whose fields the methods update;
- the record lists, the indices and the tile lists are `seq` and `map` fields
  that the methods reassign;
- every painting, restoring and table-building loop is a `while`/`for` loop
  with invariants.

Each loop and each event handler is proved against a specification on values:
- `ColorSwap.Captured` says what the painting loop records;
- `ColorSwap.RestoredColor` says what colour a feature has once records are
  written back;
- `TilesetAccessor.CapturedColor` says what a tile's `originalColor` holds
  after a painting;
- `FeatureIndex.Appended` and `FeatureIndex.RemovedAsWritten` say what the
  index becomes;
- `PropsTable.Table` gives the info-box HTML.

The lemmas beside these functions prove what the design promises, and where
the code departs from that promise they prove what it does instead:
- painting and then clearing a list of distinct features gives every feature
  its colour back (`RestoreUndoesPaint`);
- a feature listed twice stays painted (`RepeatedItemStaysPainted`).

Three behaviours of the code as written are modelled as such, not corrected:
- **`_unloadFeature` removes the wrong feature.** It searches its DbId's list
  of features with `item => item.feature === feature`. Those items are
  features, not records, so the search never matches and `splice(-1, 1)`
  removes the last feature of the list (`FeatureIndex.UnloadDropsLast`,
  `FeatureIndex.UnloadOfEarlierFeatureKeepsIt`).
- **Unloading an unknown item also removes the last element.** This happens
  when a record list has no record for the unloaded feature
  (`FeatureAccessor.UnrecordedMissing`). It happens too when a tileset's tile
  list never held the unloaded tile (`TilesetAccessor.UnlistedMissing`).
- **`InfoAccessorX._clearSelected` forgets the highlighted tileset without
  restoring its tiles.** When one tileset is selected and another is
  highlighted, clearing the selection leaves the highlighted tiles in the
  highlight colour. A later highlight of that tileset then records the
  highlight colour as the tiles' original colour
  (`TilesetAccessor.InfoAccessorX.ClearSelected`).

The host engine is abstracted:
- A pick is a value (`Scene.Pick`): nothing, something that is not a tile
  feature, or a tile feature. A feature's DbId, embedded document and tileset
  URL are fixed fields of it.
- The sidecar request is split in two. `SetSelected` returns the URL it
  requests. `ApplyFetched` is the callback that runs once the promise
  settles, given the `Scene.Response` as a value.
- A rendering that throws (`toFixed` on a value that is not a number) is the
  error value `TypeError`. Where the source lets the exception escape
  `_setSelected`, the method returns `Failure(TypeError)` and, like the source,
  paints nothing.
- The source throws when a tileset is not attached or a DbId has no list.
  In both cases the source's state afterwards is the same as when nothing
  happened, or the same as looping over an empty list, and the model does
  exactly that.

## Model

| member | source | states |
|---|---|---|
| JsArrays.FindIndex | src/cesium-info-accessor.js:444 | `findIndex` gives the first index whose element satisfies the predicate, or -1 exactly when none does |
| JsArrays.SpliceStart | src/cesium-info-accessor.js:444 | `splice`'s start: a negative start counts back from the end and is clamped at 0; a start past the end is clamped to the length |
| JsArrays.SpliceOne | src/cesium-info-accessor.js:444 | `splice(start, 1)` deletes the element at the clamped start, when there is one, and shifts the rest down; the result is a sub-multiset of the input |
| JsArrays.SpliceNotFound | src/cesium-info-accessor.js:444 | `splice(-1, 1)`, what a failed `findIndex` leads to, drops the last element, and leaves an empty array empty |
| JsArrays.SpliceFound | src/cesium-info-accessor.js:641 | when some element matches, splicing at `findIndex` removes exactly the first matching element and nothing else |
| JsArrays.SpliceAt | src/cesium-info-accessor.js:641 | deleting at an index inside the array removes exactly that element, counted as a multiset |
| JsArrays.LastIndexOf | src/cesium-info-accessor.js:332 | `lastIndexOf` gives -1 exactly when the character is absent; otherwise it gives an index that holds the character, with no occurrence after it |
| Decimal.DigitChar | src/cesium-info-accessor.js:309 | the character of a decimal digit is a digit and has that value |
| Decimal.NatToString | src/cesium-info-accessor.js:341 | a non-negative integer as a template literal prints it: non-empty, all digits, no leading zero |
| Decimal.DigitsOfNatToString | src/cesium-info-accessor.js:341 | reading back the printed digits gives the number (round trip) |
| Decimal.NatToStringInjective | src/cesium-info-accessor.js:341 | two numbers print the same exactly when they are equal |
| Sidecar.BasePath | src/cesium-info-accessor.js:332-333 | the base path is "." when the URL has no `/`; otherwise it is the prefix of the URL that stops right before its last `/` |
| Sidecar.BasePathOfFile | src/cesium-info-accessor.js:332-333 | the base path of `dir/name`, for a file name without `/`, is `dir` |
| Sidecar.SidecarUrl | src/cesium-info-accessor.js:341 | the request URL is the base path, then `/info/`, then the decimal digits of `DbId / 100` (rounded down), which read back as that quotient, then `.json` |
| Sidecar.SameSidecarFile | src/cesium-info-accessor.js:341 | two DbIds are sent to the same sidecar file exactly when they fall in the same block of 100 |
| ColorSwap.Captured | src/cesium-info-accessor.js:252-258 | the painting loop writes one record per listed feature, in list order |
| ColorSwap.CapturedAt | src/cesium-info-accessor.js:252-258 | record `i` names feature `i` and holds the colour it had when the loop reached it: the paint colour if the same feature came earlier in the list, its own colour otherwise |
| ColorSwap.CapturedItems | src/cesium-info-accessor.js:252-258 | the records name exactly the features of the painted list: every record names one, and every listed feature has one |
| ColorSwap.CapturedSnoc | src/cesium-info-accessor.js:253-257 | one more loop iteration appends one record for the next feature |
| ColorSwap.RestoredColor | src/cesium-info-accessor.js:415-417 | the write-back loop leaves a feature in the colour of the last record naming it, or its current colour when no record names it; the colour is either the current one or one held by a record of that feature |
| ColorSwap.RestoredColorUnnamed | src/cesium-info-accessor.js:415-417 | writing back records that do not name a feature leaves its colour alone |
| ColorSwap.RestoredColorAppend | src/cesium-info-accessor.js:295-299 | writing back the highlight records and then the selection records is writing back their concatenation |
| ColorSwap.RestoreUndoesPaint | src/cesium-info-accessor.js:411-422 | round trip: painting distinct features and writing the records back gives each feature the colour it had before the painting |
| ColorSwap.RestoreUndoesPaintAll | src/cesium-info-accessor.js:411-422 | the same round trip for all the features of the list at once, whatever colour each has when the records are written back |
| ColorSwap.RepeatedItemStaysPainted | src/cesium-info-accessor.js:252-258 | a feature listed twice is recorded the second time with the paint colour, so after the restore it keeps the paint colour |
| FeatureIndex.Appended | src/cesium-info-accessor.js:460-464 | loading creates the list when the DbId is absent and pushes the feature onto it; every other DbId keeps its list |
| FeatureIndex.RemovedAsWritten | src/cesium-info-accessor.js:443-444 | unloading changes only the list of the feature's DbId, and only by removing elements |
| FeatureIndex.NoFeatureProperty | src/cesium-info-accessor.js:444 | the search predicate as applied to a list of features: a feature has no `feature` property, so it never matches |
| FeatureIndex.UnloadDropsLast | src/cesium-info-accessor.js:444 | whatever feature is unloaded, its DbId's list loses its last element |
| FeatureIndex.LoadThenUnload | src/cesium-info-accessor.js:439-470 | an unload right after a load of the same DbId undoes the load |
| FeatureIndex.UnloadOfEarlierFeatureKeepsIt | src/cesium-info-accessor.js:444 | with `a` loaded before `b` under one DbId, unloading `a` keeps `a` and drops `b` |
| PropsTable.DisplayName | src/cesium-info-accessor.js:372 | the title is the document's name, or "<null>" when the name is absent or empty |
| PropsTable.FormatValue | src/cesium-info-accessor.js:388-399 | booleans render as Yes/No by truthiness; doubles render with three decimals and their unit when there is one; anything else renders as text; formatting fails exactly for a double that is not a number |
| PropsTable.Table | src/cesium-info-accessor.js:374-408 | a rendered table starts with the opening `<table …><tbody>` and ends with `</tbody></table>` |
| PropsTable.RowHtml | src/cesium-info-accessor.js:384-403 | a title row always renders; a property row fails exactly when its value cannot be formatted |
| PropsTable.Html | src/cesium-info-accessor.js:374-408 | rendered rows give one HTML string per row |
| PropsTable.HtmlAppend | src/cesium-info-accessor.js:374-408 | rendering a concatenation of rows is rendering each part |
| PropsTable.HtmlDefined | src/cesium-info-accessor.js:374-408 | a list of rows renders exactly when each of its rows does |
| PropsTable.CategoryCellsDefined | src/cesium-info-accessor.js:379-403 | a category's loop finishes exactly when every considered property that is not flagged can be formatted |
| PropsTable.TableCellsDefined | src/cesium-info-accessor.js:376-404 | the category loop finishes exactly when every category's loop does |
| PropsTable.TableCellsStep | src/cesium-info-accessor.js:376-404 | one more iteration of the category loop appends what that category's inner loop pushes, or fails with it |
| PropsTable.TableDefinedIffRenderable | src/cesium-info-accessor.js:367-409 | the table renders exactly when the document is renderable |
| PropsTable.JoinAppend | src/cesium-info-accessor.js:408 | `join('')` of a concatenation is the concatenation of the joins |
| PropsTable.JoinSingle | src/cesium-info-accessor.js:408 | `join('')` of one string is that string |
| PropsTable.JoinFrame | src/cesium-info-accessor.js:374-408 | joining the opening, the rows and the closing wraps the joined rows in one table |
| PropsTable.RowsAtHtml | src/cesium-info-accessor.js:380-402 | what iteration `i` pushes is the HTML of its rows: nothing for a flagged property, else the title when no earlier property was shown, then the property's row |
| PropsTable.CategoryCellsAreRows | src/cesium-info-accessor.js:379-403 | what a category's loop pushes is the HTML of its rows |
| PropsTable.TableCellsAreRows | src/cesium-info-accessor.js:376-404 | what the category loop pushes is the HTML of all categories' rows, in order |
| PropsTable.HasUnflaggedIffListed | src/cesium-info-accessor.js:378-386 | `haveTitle` is set after `n` iterations exactly when one of the first `n` properties is not flagged |
| PropsTable.CategoryRowsShape | src/cesium-info-accessor.js:378-403 | a category contributes nothing when all its considered properties are flagged; otherwise its title row once, before the first shown property, then one row per shown property in order |
| PropsTable.UnflaggedStep | src/cesium-info-accessor.js:380-402 | one step of that shape past a property that is not flagged |
| PropsTable.RenderCategory | src/cesium-info-accessor.js:377-403 | the `count`-bounded inner loop with its `haveTitle` flag pushes exactly the category's rows, or fails when a shown double is not a number |
| PropsTable.RenderTable | src/cesium-info-accessor.js:374-408 | the whole loop builds exactly the table: opening, each category's rows, closing, joined |
| PropsTable.FailedCategory | src/cesium-info-accessor.js:395 | one category that cannot be formatted loses the whole table |
| Pointer.After | src/cesium-info-accessor.js:166-190 | each press handler sets its own flag and each release handler clears it; every other flag is kept |
| Pointer.PressedUntilReleased | src/cesium-info-accessor.js:137 | once a button is pressed, hovering stays ignored until an event on that same button arrives |
| Pointer.LastOn | src/cesium-info-accessor.js:166-190 | the last event on a button's flag is an event on that flag taken from the sequence, and there is none exactly when no event touches that flag |
| Pointer.FlagIsLastOn | src/cesium-info-accessor.js:166-190 | after any sequence of events, each flag is set exactly when the last event on its button is a press, and keeps its starting value when no event touched it |
| Pointer.ReleasingAllClears | src/cesium-info-accessor.js:137 | once each button's last event is a release, in whatever order and interleaving, no flag is set and hovering is no longer ignored, whatever came before |
| FeatureAccessor.LoadingTitle | src/cesium-info-accessor.js:309 | the loading title is "Load info for node " followed by the decimal digits of the DbId, which read back as the DbId |
| FeatureAccessor.Described | src/cesium-info-accessor.js:367-409 | the description is the table exactly when the document is renderable, and the TypeError otherwise |
| FeatureAccessor.ListedCarryDbId | src/cesium-info-accessor.js:250-251 | in a consistent index every feature listed under a DbId carries that DbId and the tileset |
| FeatureAccessor.RecordsCarryDbId | src/cesium-info-accessor.js:252-258 | every record written while painting a DbId's features names a feature of that DbId |
| FeatureAccessor.Paint | src/cesium-info-accessor.js:252-258 | the painting loop appends exactly the captured records and leaves every listed feature in the paint colour, its visibility unchanged |
| FeatureAccessor.Restore | src/cesium-info-accessor.js:415-417 | the restoring loop leaves every recorded feature in the colour of the last record that names it |
| FeatureAccessor.UnrecordedShrinks | src/cesium-info-accessor.js:447 | splicing a record list keeps only records that were there |
| FeatureAccessor.Unrecorded | src/cesium-info-accessor.js:447-451 | splicing a record list at the index `findIndex` returns always removes exactly one record from a non-empty list and adds none |
| FeatureAccessor.UnrecordedFound | src/cesium-info-accessor.js:447-451 | when the unloaded feature has a record, its first record is removed and every other record is kept |
| FeatureAccessor.UnrecordedMissing | src/cesium-info-accessor.js:447-451 | when it has none, the last record is dropped instead |
| FeatureAccessor.RemovalKeepsConsistent | src/cesium-info-accessor.js:443-444 | splicing a list of a consistent index keeps every feature under its own DbId and tileset |
| FeatureAccessor.ClearedUnnamed | src/cesium-info-accessor.js:295-299 | a feature that no record names keeps its colour through the clearing |
| FeatureAccessor.Cleared | src/cesium-info-accessor.js:295-299 | the colours after the clearing are given for every feature about to be painted |
| FeatureAccessor.InfoAccessor.constructor | src/cesium-info-accessor.js:39-73 | empty index, no tileset, picking on, no records, both DbIds -1, all buttons up, and the colours from the options, falling back to yellow and lime |
| FeatureAccessor.InfoAccessor.ClearHighlighted | src/cesium-info-accessor.js:411-422 | nothing changes while the highlighted DbId is negative; otherwise the records are written back and emptied and the DbId becomes -1 |
| FeatureAccessor.InfoAccessor.ClearSelected | src/cesium-info-accessor.js:424-437 | the records are written back and emptied and the DbId becomes -1; the viewer's entity is nulled only when it is this accessor's own |
| FeatureAccessor.InfoAccessor.SetHighlighted | src/cesium-info-accessor.js:237-259 | nothing changes for the same (tileset, DbId). Otherwise the old highlight is written back and the pair recorded. A negative or selected DbId gets no records. Any other DbId gets exactly one record per listed feature, holding its colour after the clearing, and every such feature takes the highlight colour. Selection takes precedence: hovering a negative DbId or the selected DbId leaves the colour and visibility of every feature of that DbId unchanged |
| FeatureAccessor.InfoAccessor.Highlight | src/cesium-info-accessor.js:242-258 | once the old highlight is cleared, the pair is recorded, and only a painting DbId gets records and the highlight colour |
| FeatureAccessor.InfoAccessor.UnpaintedUnrecorded | src/cesium-info-accessor.js:245-247 | no highlight record names a feature of a DbId that does not paint, so writing the highlight back cannot touch those features |
| FeatureAccessor.InfoAccessor.HighlightApartFromSelection | src/cesium-info-accessor.js:245-247 | the highlight and the selection never name the same feature, so deselecting leaves the hovered features alone |
| FeatureAccessor.InfoAccessor.HoverAndLeave | src/cesium-info-accessor.js:237-259 | round trip: with nothing highlighted before, hovering a DbId whose features are listed without repeats and then clearing the highlight gives every feature of it back its colour and visibility |
| FeatureAccessor.InfoAccessor.ShowProps | src/cesium-info-accessor.js:367-409 | the title becomes the document's name or "<null>"; the description becomes the table exactly when the document renders, and otherwise it is left as it was |
| FeatureAccessor.InfoAccessor.SetSelected | src/cesium-info-accessor.js:291-365 | nothing changes for the same (tileset, DbId). Otherwise the highlight and the selection are written back (`_highlightedDbId` ends negative) and the pair recorded. A valid DbId opens the info box; unless rendering threw, its features get records of their colours from before any painting and take the selection colour. For a negative DbId, or when rendering threw, they keep the colours the write-back left and their visibility. The result names the sidecar file requested |
| FeatureAccessor.InfoAccessor.Reselect | src/cesium-info-accessor.js:295-365 | the same, for a pair that differs from the current selection |
| FeatureAccessor.InfoAccessor.ClearForSelection | src/cesium-info-accessor.js:295-301 | the highlight is written back when a DbId is highlighted, then the selection is written back, then the new pair is recorded; the resulting colours are those of writing back both record lists in order |
| FeatureAccessor.InfoAccessor.OpenSelection | src/cesium-info-accessor.js:303-365 | the info box opens, and the features are painted unless rendering the embedded document threw |
| FeatureAccessor.InfoAccessor.PaintSelection | src/cesium-info-accessor.js:356-364 | the selection records capture the DbId's features and each of them takes the selection colour |
| FeatureAccessor.InfoAccessor.Announce | src/cesium-info-accessor.js:309-354 | the loading title and message are set and the entity becomes the viewer's. An embedded document sets the title to its name and, when it renders, the description to its table; otherwise the result is the TypeError. With no embedded document, the result is the sidecar URL beside the tileset file |
| FeatureAccessor.InfoAccessor.ApplyFetched | src/cesium-info-accessor.js:341-353 | a response for a DbId that is no longer selected changes nothing. A failed request puts its error in the description. A missing entry, or a document that cannot be rendered, puts the TypeError there. Otherwise the document's name and table are shown |
| FeatureAccessor.InfoAccessor.LoadFeature | src/cesium-info-accessor.js:455-470 | the feature is pushed onto its DbId's list, created if absent, and every other list is kept; it is hidden when its DbId is among the hidden ones and otherwise keeps its visibility |
| FeatureAccessor.InfoAccessor.UnloadFeature | src/cesium-info-accessor.js:439-453 | the DbId's list is spliced as written; the record is spliced out of the selection only when the DbId is the selected one, and out of the highlight only when it is the highlighted one |
| FeatureAccessor.InfoAccessor.Unindex | src/cesium-info-accessor.js:442-444 | the index half of the unload keeps the index consistent |
| FeatureAccessor.InfoAccessor.Unrecord | src/cesium-info-accessor.js:446-452 | the records half of the unload |
| FeatureAccessor.InfoAccessor.Attach | src/cesium-info-accessor.js:75-120 | a non-tileset is refused; an attached tileset is accepted without any reset; a new one gets an empty index and no hidden DbIds, and its colour blend mode becomes REPLACE |
| FeatureAccessor.InfoAccessor.OnMouseMove | src/cesium-info-accessor.js:135-147 | ignored while picking is off or any button is down. Otherwise a hit highlights the picked feature's DbId: its features take the highlight colour and keep their visibility, or keep their colour and visibility when the DbId is negative or selected. A miss writes the highlight back and keeps the attached tileset and the features' visibility |
| FeatureAccessor.InfoAccessor.OnLeftClick | src/cesium-info-accessor.js:149-164 | ignored while picking is off. A click on the selected DbId, or on nothing of ours, deselects: the selection is written back and the info box closes when it shows this accessor's entity, while the highlight, its features and the info box contents are kept. A click on another DbId selects it |
| FeatureAccessor.InfoAccessor.OnRightClick | src/cesium-info-accessor.js:172-184 | ignored while picking is off; on a feature of ours the selection is kept. On anything else the selection is written back and the info box closes when it shows this accessor's entity |
| FeatureAccessor.InfoAccessor.Hit | src/cesium-info-accessor.js:204-209 | `_checkPickedFeature`: the pick is a tile feature of an attached tileset |
| FeatureAccessor.InfoAccessor.OnButton | src/cesium-info-accessor.js:166-190 | each press or release handler updates only its own flag |
| TilesetAccessor.SeparateTiles | src/cesium-info-accessor.js:630-635 | two different tilesets never share a listed tile |
| TilesetAccessor.UnlistedShrinks | src/cesium-info-accessor.js:641 | unloading keeps only tiles that were listed |
| TilesetAccessor.Unlisted | src/cesium-info-accessor.js:641 | splicing a tile list at the index `findIndex` returns always removes exactly one tile from a non-empty list and adds none |
| TilesetAccessor.UnlistedFound | src/cesium-info-accessor.js:641 | unloading a listed tile removes one occurrence of it and nothing else |
| TilesetAccessor.UnlistedMissing | src/cesium-info-accessor.js:641 | unloading a tile that was never listed removes the last listed tile |
| TilesetAccessor.DistinctCountsOnce | src/cesium-info-accessor.js:707 | in a list without repeats, a listed tile is visited once |
| TilesetAccessor.RepeatedCountsTwice | src/cesium-info-accessor.js:707 | a tile listed twice is visited more than once |
| TilesetAccessor.CapturedColor | src/cesium-info-accessor.js:707-709 | the `originalColor` a painting leaves on a listed tile: its previous colour, or the paint when the tile is listed more than once and the later visit recorded the paint |
| TilesetAccessor.RestoreUndoesTilePaint | src/cesium-info-accessor.js:703-722 | round trip: painting a tile list without repeats and restoring it gives each tile back its previous colour |
| TilesetAccessor.RepeatedTileStaysPainted | src/cesium-info-accessor.js:703-722 | a tile listed twice keeps the paint colour after the restore |
| TilesetAccessor.InfoAccessorX.constructor | src/cesium-info-accessor.js:499-526 | no tilesets, picking on, nothing selected or highlighted, all buttons up, and the colours from the options, falling back to yellow and lime |
| TilesetAccessor.InfoAccessorX.Attach | src/cesium-info-accessor.js:528-540 | a non-tileset is refused; an attached tileset is accepted without any reset; a new one gets an empty tile list, the title and description with the defaults "Model" and "Model description.", and the colour blend mode REPLACE |
| TilesetAccessor.InfoAccessorX.OnTileLoad | src/cesium-info-accessor.js:630-635 | the tile is pushed onto its tileset's list; nothing else changes |
| TilesetAccessor.InfoAccessorX.OnTileUnload | src/cesium-info-accessor.js:637-642 | the tile is spliced out of its tileset's list; nothing else changes |
| TilesetAccessor.InfoAccessorX.SetTilesColor | src/cesium-info-accessor.js:703-711 | every listed tile takes the colour and records in `originalColor` the colour it had before; a tile listed twice records the paint |
| TilesetAccessor.InfoAccessorX.RestoreTilesColor | src/cesium-info-accessor.js:713-722 | every listed tile with a recorded colour takes it back; a tile without one keeps its colour |
| TilesetAccessor.InfoAccessorX.ClearHighlighted | src/cesium-info-accessor.js:684-689 | the highlighted tileset's tiles are restored and the highlight is dropped |
| TilesetAccessor.InfoAccessorX.ClearSelected | src/cesium-info-accessor.js:691-701 | with a selection, its tiles are restored and both the selected and the highlighted tileset are dropped; the highlighted tiles are not touched; the viewer's entity is nulled only when it is this accessor's own |
| TilesetAccessor.InfoAccessorX.SetHighlighted | src/cesium-info-accessor.js:655-664 | nothing changes for the highlighted tileset. Otherwise the old highlight is restored, and the selected tileset is never highlighted. Any other tileset's tiles take the highlight colour, and the selected tiles are never touched |
| TilesetAccessor.InfoAccessorX.SetSelected | src/cesium-info-accessor.js:666-682 | nothing changes for the selected tileset. Otherwise the highlight and the selection are cleared, and the info box shows the model's title and description. The tiles take the selection colour, recording their colour from before the highlight |
| TilesetAccessor.InfoAccessorX.ClearForSelection | src/cesium-info-accessor.js:670-671 | the highlight and then the selection are cleared; the new tileset's tiles are back in their colour from before the highlight |
| TilesetAccessor.InfoAccessorX.HoverAndLeave | src/cesium-info-accessor.js:655-689 | round trip: with nothing highlighted before, hovering a tileset whose tile list has no repeats and then clearing the highlight gives every tile of it back its colour; the selected tileset is never painted at all |
| TilesetAccessor.InfoAccessorX.OnMouseMove | src/cesium-info-accessor.js:579-590 | ignored while picking is off or any button is down; otherwise a hit highlights the picked tileset (never the selected one), and a miss restores the highlight |
| TilesetAccessor.InfoAccessorX.OnLeftClick | src/cesium-info-accessor.js:592-602 | ignored while picking is off. A hit selects the picked tileset. A miss restores the selected tiles and clears the selection, and the info box closes when it shows this accessor's entity; the highlighted tiles and the info box contents are kept |
| TilesetAccessor.InfoAccessorX.OnRightClick | src/cesium-info-accessor.js:610-622 | ignored while picking is off; on a tileset of ours the selection is kept. On anything else the selected tiles are restored, the selection is cleared, and the info box closes when it shows this accessor's entity |
| TilesetAccessor.InfoAccessorX.Hit | src/cesium-info-accessor.js:648-653 | `_checkPickedFeature`: the pick is a tile feature of an attached tileset |
| TilesetAccessor.InfoAccessorX.OnButton | src/cesium-info-accessor.js:604-628 | each press or release handler updates only its own flag |

## Left out

- Host picking and event wiring are not modelled: `scene.pick`, the `ScreenSpaceEventHandler` registration and the tile load/unload listeners. A pick is an input value (`Scene.Pick`), and a handler is a method call.
- `_onPrimitivesAdded` and `_onPrimitivesRemoved` are not modelled. These listeners react to the engine adding a primitive (auto-attach when it carries asset info) and to a tileset being removed.
- Camera and geometry are not modelled: `flyToBoundingSphere`, `flyTo`, `_getFeatureBoundingSphere` and `_getTilesetTransform`. The right-click handlers model only which branch runs.
- `_getTilesetBaseUrl` is not modelled. It walks the tile tree with engine type checks, so the URL it finds is a field of the feature (`Feature.baseUrl`).
- `_processContentFeatures` and `_processTileFeatures` are not modelled. These walk a tile's contents, so `LoadFeature` and `UnloadFeature` model the handling of one feature.
- The network and parsing are not modelled. This covers the `fetch` promise chain, `response.json()` and `JSON.parse` of an embedded document; the settled outcome is a `Response` value passed to `ApplyFetched`. A malformed embedded document is not modelled.
- `parseInt` of the `DbId` property is not modelled; a DbId is an integer, so a `NaN` DbId is not modelled.
- `toFixed(3)` and number-to-string conversion are not modelled. They are the functions of a `NumberFormat` parameter.
- `Decimal.NatToString`: prints a DbId in full decimal. That matches the template literal for DbIds below 2^53, not the exponent notation JavaScript uses past 10^21.
- Embedded documents are modelled by whether they are present, so an embedded `Props` property that is an empty string is treated as absent, as its falsiness makes it.
- `WeakMap` garbage collection is not modelled; the tileset tables are ordinary maps.
- Colours are values. `Cesium.Color.clone(target, feature.color)` reuses the feature's colour object, and sharing of colour objects between features is not modelled.
- The `Object.assign` option merge is modelled as one `Option` per key. An option passed explicitly as `undefined`, which overrides the default in the source, is not modelled.
- The `window` globals, the mixin and the legacy attach wrappers are not modelled, and neither is `relocationTileset`.
- Exceptions thrown for a tileset that is not attached, or for a DbId without a list, are not modelled as exceptions. `LoadFeature`, `UnloadFeature`, `OnTileLoad` and `OnTileUnload` change nothing instead, and a painting or restore over a missing list paints nothing. In each case the state is the one the source leaves when it throws.
- `FeatureAccessor.InfoAccessor.OnMouseMove`: on a hit, states the new highlighted pair and the colours and visibility of the picked DbId's features; the record contents and the write-back of the old highlight are `SetHighlighted`'s contract.
- `FeatureAccessor.InfoAccessor.OnLeftClick`: on a new DbId, states the new pair and the opened info box; the painting and the records are `SetSelected`'s contract.
- `TilesetAccessor.InfoAccessorX.OnMouseMove`: on a hit, states only the new highlighted tileset; the tile colours are `SetHighlighted`'s contract.
- `TilesetAccessor.InfoAccessorX.OnLeftClick`: on a hit, states the selected tileset and the info box; the tile colours are `SetSelected`'s contract.
- `TilesetAccessor.InfoAccessorX.OnTileLoad`: a tile loaded twice is listed twice, as in the source. No invariant keeps tile lists free of repeats; `RepeatedTileStaysPainted` states the consequence.
- `FeatureAccessor.InfoAccessor.LoadFeature`: likewise, a feature may be listed twice. The restore round trip is proved for lists without repeats (`RestoreUndoesPaint`), and `RepeatedItemStaysPainted` states what happens otherwise.
