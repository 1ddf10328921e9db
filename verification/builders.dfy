/** The packet builders: reference-based polyline and polygon, and the two
    fixed demonstration packets. */
module Builders {
  import opened Wrappers
  import opened Timestamp
  import opened Czml

  const PositionSuffix: string := "#position"

  /** `f"{id}#position"`: a reference to another packet's position. */
  function Reference(id: string): string {
    id + PositionSuffix
  }

  /** The id a position reference points at, if the text is one. */
  function ReferencedId(reference: string): Option<string> {
    if |reference| >= |PositionSuffix| && reference[|reference| - |PositionSuffix|..] == PositionSuffix
    then Some(reference[..|reference| - |PositionSuffix|])
    else None
  }

  /** Reading a reference back gives the id it was made from, and every text
      that reads as a reference to `id` is exactly `Reference(id)`. */
  lemma ReferenceRoundTrip(id: string, reference: string)
    ensures ReferencedId(Reference(id)) == Some(id)
    ensures ReferencedId(reference) == Some(id) ==> reference == Reference(id)
  {
    var r := Reference(id);
    assert r[|r| - |PositionSuffix|..] == PositionSuffix;
    assert r[..|r| - |PositionSuffix|] == id;
    if ReferencedId(reference) == Some(id) {
      var n := |reference| - |PositionSuffix|;
      assert reference == reference[..n] + reference[n..];
    }
  }

  /** `create_entity_with_polyline(endpoint1, endpoint2)`: a line whose two
      ends follow the positions of the named packets. */
  function PolylinePacket(endpoint1: string, endpoint2: string): (p: Packet)
    ensures p.id == "polyline-" + endpoint1 + "-" + endpoint2
    ensures p.position == None && p.graphics.PolylineGraphics?
    ensures |p.graphics.references| == 2
    ensures ReferencedId(p.graphics.references[0]) == Some(endpoint1)
    ensures ReferencedId(p.graphics.references[1]) == Some(endpoint2)
  {
    ReferenceRoundTrip(endpoint1, "");
    ReferenceRoundTrip(endpoint2, "");
    Packet("polyline-" + endpoint1 + "-" + endpoint2, None,
           PolylineGraphics([Reference(endpoint1), Reference(endpoint2)]))
  }

  /** `create_entity_with_polygon(vertices)`: one reference per vertex id, in
      the caller's order (the order is the polygon's winding). */
  function PolygonPacket(vertices: seq<string>): (p: Packet)
    ensures p.id == "Polygon Entity" && p.position == None && p.graphics.PolygonGraphics?
    ensures |p.graphics.references| == |vertices|
    ensures forall i :: 0 <= i < |vertices| ==> ReferencedId(p.graphics.references[i]) == Some(vertices[i])
  {
    var references := seq(|vertices|, i requires 0 <= i < |vertices| => Reference(vertices[i]));
    assert forall i :: 0 <= i < |vertices| ==> ReferencedId(references[i]) == Some(vertices[i]) by {
      forall i | 0 <= i < |vertices|
        ensures ReferencedId(references[i]) == Some(vertices[i])
      {
        ReferenceRoundTrip(vertices[i], "");
      }
    }
    Packet("Polygon Entity", None, PolygonGraphics(references))
  }

  /** The single sample of both demonstration packets: epoch zero at (1e7, 1e7, 1e7). */
  function DemoPosition(): (position: seq<PositionField>)
    ensures position == [PositionField("cartesian",
                [Text("1970-01-01T00:00:00Z"), Number("10000000"), Number("10000000"), Number("10000000")])]
  {
    EpochZeroText();
    [PositionField("cartesian", [Text(IsoText(0)), Number("10000000"), Number("10000000"), Number("10000000")])]
  }

  /** `create_entity_with_ellipsoid()`: a fixed sphere of radius 500 at the demo position. */
  function EllipsoidPacket(): (p: Packet)
    ensures p.id == "Ellipsoid Entity" && p.graphics == EllipsoidGraphics([500, 500, 500])
    ensures p.position == Some([PositionField("cartesian",
                [Text("1970-01-01T00:00:00Z"), Number("10000000"), Number("10000000"), Number("10000000")])])
  {
    Packet("Ellipsoid Entity", Some(DemoPosition()), EllipsoidGraphics([500, 500, 500]))
  }

  /** `create_entity_with_billboard()`: a fixed marker at the demo position. */
  function BillboardPacket(): (p: Packet)
    ensures p.id == "Billboard Entity" && p.graphics == BillboardGraphics
    ensures p.position == Some([PositionField("cartesian",
                [Text("1970-01-01T00:00:00Z"), Number("10000000"), Number("10000000"), Number("10000000")])])
  {
    Packet("Billboard Entity", Some(DemoPosition()), BillboardGraphics)
  }
}
