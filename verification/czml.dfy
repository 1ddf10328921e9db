/** The CZML values this program builds: packets with an optional "position"
    object, and the document packet that carries the clock. */
module Czml {
  import opened Wrappers

  /** An element of a position's flat sample list [t, x, y, z, t, x, y, z, ...]:
      a timestamp string, or a number carried as its literal text. The program
      converts coordinates with `float`; the model keeps the text and does not
      check that `float` would accept it. */
  datatype Sample = Text(text: string) | Number(literal: string)

  /** One key of a "position" object and the list stored under it. */
  datatype PositionField = PositionField(key: string, samples: seq<Sample>)

  /** The visual primitive a packet carries; colours, styles and the image URL
      are fixed literals and are not represented. */
  datatype Graphics =
    | PointAndPath                              // csv_to_czml: "point" and "path"
    | PolylineGraphics(references: seq<string>) // "polyline.positions.references"
    | PolygonGraphics(references: seq<string>)  // "polygon.positions.references"
    | EllipsoidGraphics(radii: seq<int>)        // "ellipsoid.radii.cartesian"
    | BillboardGraphics                         // "billboard"
    | NoGraphics

  /** A CZML packet: its "id", its "position" object if it has one (keys in
      insertion order, as a Python dict keeps them), and its graphics. */
  datatype Packet = Packet(id: string, position: Option<seq<PositionField>>, graphics: Graphics)

  datatype Clock = Clock(interval: string, multiplier: real, currentTime: string, range: string)

  /** The packet that opens a CZML document. */
  datatype DocumentPacket = DocumentPacket(id: string, version: string, clock: Clock)

  /** The three position encodings both the reader and the aggregator recognise. */
  const PositionTypes: seq<string> := ["cartesian", "cartographicDegrees", "cartographicRadians"]
}
