/**
 * The vehicle contract: the transactions a client submits. Each works on
 * the world state through the chaincode stub and on `Vehicle` objects
 * decoded from it; each is proved to return, throw and write exactly what
 * the matching `Registry` function says.
 */
module Contract {
  import opened Wrappers
  import opened Ledger
  import opened Vehicles
  import opened Codecs
  import Registry

  /** The field values of a returned vehicle; a thrown failure as it is. */
  function DocOf(r: Result<Vehicle, Registry.Failure>): (d: Result<VehicleDoc, Registry.Failure>)
    reads if r.Ok? then {r.value} else {}
  {
    match r
    case Ok(v) => Ok(v.Doc())
    case Err(e) => Err(e)
  }

  class VehicleContract {
    /** The JSON codec; it holds no state of its own. */
    const codec: Codec

    constructor (codec: Codec)
      ensures this.codec == codec
    {
      this.codec := codec;
    }

    /** True iff non-null, non-empty text is stored under `vehicleId`. */
    method VehicleExists(stub: ChaincodeStub, vehicleId: string) returns (found: bool)
      ensures found <==> Registry.VehicleExists(stub.state, vehicleId)
    {
      var assetJson := stub.GetStringState(vehicleId);
      found := assetJson.Some? && assetJson.value != "";
    }

    /** Throws AlreadyExists, with its error code, when `vehicleId` exists. */
    method CheckIfVehicleExists(stub: ChaincodeStub, vehicleId: string) returns (s: Status<Registry.Failure>)
      ensures s.Fail? <==> Registry.VehicleExists(stub.state, vehicleId)
      ensures s.Fail? ==> s.error == Registry.AlreadyExists(vehicleId) && s.error.payload == Some("ASSET_ALREADY_EXISTS")
    {
      var found := VehicleExists(stub, vehicleId);
      if found {
        return Fail(Registry.AlreadyExists(vehicleId));
      }
      s := Pass;
    }

    method CreateVehicle(stub: ChaincodeStub, vehicleJson: string) returns (r: Result<Vehicle, Registry.Failure>)
      modifies stub
      ensures Registry.Create(codec, old(stub.state), vehicleJson) == Registry.Transition(DocOf(r), stub.state)
      ensures r.Ok? ==> fresh(r.value)
    {
      var decoded := Deserialize(codec, vehicleJson);
      if decoded.None? {
        return Err(Registry.DeserializationFailure);
      }
      var vehicleToBeStored := decoded.value;
      var check := CheckIfVehicleExists(stub, vehicleToBeStored.vehicleId);
      if check.Fail? {
        return Err(check.error);
      }
      stub.PutStringState(vehicleToBeStored.vehicleId, vehicleJson);
      r := Ok(vehicleToBeStored);
    }

    method ReadVehicle(stub: ChaincodeStub, vehicleId: string) returns (r: Result<Vehicle, Registry.Failure>)
      ensures DocOf(r) == Registry.Read(codec, stub.state, vehicleId)
      ensures r.Ok? ==> fresh(r.value)
    {
      var vehicleJson := stub.GetStringState(vehicleId);
      var found := VehicleExists(stub, vehicleId);
      if !found {
        return Err(Registry.DoesNotExist(vehicleId));
      }
      var decoded := Deserialize(codec, vehicleJson.value);
      if decoded.None? {
        return Err(Registry.DeserializationFailure);
      }
      r := Ok(decoded.value);
    }

    method AddOwner(stub: ChaincodeStub, vehicleId: string, owner: string) returns (r: Result<Vehicle, Registry.Failure>)
      modifies stub
      ensures Registry.AddOwner(codec, old(stub.state), vehicleId, owner) == Registry.Transition(DocOf(r), stub.state)
      ensures r.Ok? ==> fresh(r.value)
    {
      var existing := ReadVehicle(stub, vehicleId);
      if existing.Err? {
        return existing;
      }
      var existingVehicle := existing.value;
      existingVehicle.owners := existingVehicle.owners + [owner];
      var sortedJson := Serialize(codec, existingVehicle);
      stub.PutStringState(vehicleId, sortedJson);
      r := Ok(existingVehicle);
    }

    method TransferOwner(stub: ChaincodeStub, vehicleId: string, newOwner: string) returns (r: Result<Vehicle, Registry.Failure>)
      modifies stub
      ensures Registry.TransferOwner(codec, old(stub.state), vehicleId, newOwner) == Registry.Transition(DocOf(r), stub.state)
      ensures r.Ok? ==> fresh(r.value)
    {
      var existing := ReadVehicle(stub, vehicleId);
      if existing.Err? {
        return existing;
      }
      var existingVehicle := existing.value;
      existingVehicle.SetCurrentOwner(Some(newOwner));
      var notAlreadyAdded := Registry.NoneMatchIgnoreCase(existingVehicle.owners, newOwner);
      if notAlreadyAdded {
        existingVehicle.owners := existingVehicle.owners + [newOwner];
      }
      var sortedJson := Serialize(codec, existingVehicle);
      stub.PutStringState(vehicleId, sortedJson);
      r := Ok(existingVehicle);
    }

    /**
     * Scans the whole key space and decodes every value, in key order.
     * A value that does not decode makes the transaction fail.
     */
    method GetAllVehicles(stub: ChaincodeStub) returns (r: Result<seq<Vehicle>, Registry.Failure>)
      ensures r.Ok? <==> Registry.AllVehicles(codec, stub.state).Ok?
      ensures r.Err? ==> r.error == Registry.DeserializationFailure
      ensures r.Ok? ==>
        var expected := Registry.AllVehicles(codec, stub.state).value;
        |r.value| == |expected| && forall i :: 0 <= i < |expected| ==> r.value[i].Doc() == expected[i]
    {
      var results := stub.GetStateByRange("", "");
      var queryResults: seq<Vehicle> := [];
      for i := 0 to |results|
        invariant |queryResults| == i
        invariant forall j :: 0 <= j < i ==>
          codec.parse(results[j].value).Some? && Some(queryResults[j].Doc()) == codec.parse(results[j].value)
      {
        var vehicle := Deserialize(codec, results[i].value);
        if vehicle.None? {
          return Err(Registry.DeserializationFailure);
        }
        queryResults := queryResults + [vehicle.value];
      }
      r := Ok(queryResults);
    }
  }
}
