/**
 * The host engine's objects that the accessors read and update: tilesets,
 * the features of a loaded tile, tiles, the info-box entity and the viewer.
 * Only the members the accessors touch are modelled; everything else of the
 * engine is outside the model.
 */
module Scene {
  import opened Wrappers
  import opened ColorSwap
  import opened PropsTable

  /** A 3D Tiles tileset: its identity, and whether its colour blend mode is REPLACE. */
  class Tileset {
    var blendReplace: bool

    constructor ()
      ensures !blendReplace
    {
      blendReplace := false;
    }
  }

  /**
   * A feature of a loaded tile. Its properties are fixed once the tile is
   * decoded: the tileset it belongs to, its `DbId` (already an integer), the
   * embedded `Props` document if any, and the URL of the tileset file its tile
   * was loaded from. Its colour and visibility are what the accessor changes.
   */
  class Feature {
    const tileset: Tileset
    const dbId: int
    const props: Option<PropsNode>
    const baseUrl: string
    var color: Color
    var show: bool

    constructor (tileset: Tileset, dbId: int, props: Option<PropsNode>, baseUrl: string, color: Color)
      ensures this.tileset == tileset && this.dbId == dbId && this.props == props && this.baseUrl == baseUrl
      ensures this.color == color && show
    {
      this.tileset := tileset;
      this.dbId := dbId;
      this.props := props;
      this.baseUrl := baseUrl;
      this.color := color;
      show := true;
    }
  }

  /** A loaded tile, painted as a whole by the tileset-level accessor. */
  class Tile {
    const tileset: Tileset
    var color: Color
    /** The property the tileset-level accessor adds to the tile object; None until it is first set. */
    var originalColor: Option<Color>

    constructor (tileset: Tileset, color: Color)
      ensures this.tileset == tileset && this.color == color && originalColor == None
    {
      this.tileset := tileset;
      this.color := color;
      originalColor := None;
    }
  }

  /** An error an info-box description can show. */
  datatype JsError =
    | TypeError          // thrown while reading or formatting a property document
    | FetchError(message: string)

  /** An info-box description: markup, or an error object assigned in its place. */
  datatype Content = Markup(html: string) | Error(error: JsError)

  /** The entity whose name and description the info box shows. */
  class Entity {
    var name: string
    var description: Content

    constructor ()
      ensures name == "" && description == Markup("")
    {
      name := "";
      description := Markup("");
    }
  }

  class Viewer {
    /** The entity the info box is showing, or null. */
    var selectedEntity: Entity?

    constructor ()
      ensures selectedEntity == null
    {
      selectedEntity := null;
    }
  }

  /** What `scene.pick` returned under the pointer. */
  datatype Pick =
    | Nothing                   // undefined
    | OtherObject               // something that is not a tile feature
    | TileFeature(feature: Feature)

  /** A primitive handed to `attach`. */
  datatype Primitive = TilesetPrimitive(tileset: Tileset) | OtherPrimitive

  /** The tilesets among a primitive: the primitive itself when it is one. */
  function PrimitiveTilesets(p: Primitive): set<Tileset> {
    if p.TilesetPrimitive? then {p.tileset} else {}
  }

  /** The options both accessors' constructors read; an absent colour falls back to its default. */
  datatype Options = Options(highlightColor: Option<Color>, selectedColor: Option<Color>)
}
