/**
 * The JSON codec between a vehicle and its stored text. The library that
 * does the work is not part of this model, so a codec is a value holding
 * its two directions, and `Sound` states what the registry relies on.
 */
module Codecs {
  import opened Wrappers
  import opened Vehicles

  /**
   * `parse` gives the field values a JSON text decodes to, or `None` when
   * decoding throws or yields null (the two are not told apart); `render` gives the canonical text of
   * a vehicle's fields (fields in a fixed order, so equal fields always
   * give equal text).
   */
  datatype Codec = Codec(parse: string -> Option<VehicleDoc>, render: VehicleDoc -> string) {

    /** Empty text is not a vehicle, and decoding the rendered text gives the fields back. */
    ghost predicate Sound()
    {
      && parse("") == None
      && forall d :: parse(render(d)) == Some(d)
    }
  }

  /** Rendered text is never empty, so a stored rendering always counts as present. */
  lemma RenderNonEmpty(c: Codec, d: VehicleDoc)
    requires c.Sound()
    ensures c.render(d) != ""
  {
    assert c.parse(c.render(d)) == Some(d);
  }

  /**
   * Decodes `json` into a new `Vehicle` object. Which constructor the
   * decoder picks is not modelled; this model builds the object through
   * the three-argument constructor, then the current-owner setter.
   */
  method Deserialize(c: Codec, json: string) returns (r: Option<Vehicle>)
    ensures r.None? <==> c.parse(json).None?
    ensures r.Some? ==> fresh(r.value) && r.value.Doc() == c.parse(json).value
  {
    match c.parse(json)
    case None =>
      r := None;
    case Some(d) =>
      var v := new Vehicle(d.vehicleId, d.owners, d.servicingInfo);
      v.SetCurrentOwner(d.currentOwner);
      r := Some(v);
  }

  /** The canonical text of a vehicle object's current fields. */
  function Serialize(c: Codec, v: Vehicle): (json: string)
    reads v
    ensures c.Sound() ==> c.parse(json) == Some(v.Doc())
  {
    c.render(v.Doc())
  }
}
