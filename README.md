# Vehicle asset registry — a Dafny model

This project models the vehicle contract of a Hyperledger Fabric chaincode:
a registry that records vehicles and their ownership history in the
ledger's key-value world state. A vehicle has an immutable `vehicleId`
(its ledger key), an ordered list of `owners`, an optional `currentOwner`
and optional servicing information that only passes through.

Per vehicle id the registry is a small state machine with two states,
Absent and Exists. A key whose stored text is null or empty counts as
Absent. `createVehicle` moves an id from Absent to Exists and refuses an id
that exists. `readVehicle` is guarded by the existence check. `addOwner` and
`transferOwner` are read-modify-write loops on Exists. `GetAllVehicles`
decodes every stored value in key order.

Files and modules:

- `wrappers.dfy` (`Wrappers`): `Option` for Java's null, `Result` and
  `Status` for a call that returns or throws.
- `lexical.dfy` (`Lexical`): the lexical key order of range scans. It proves
  the order is a strict total order and defines the sorted key sequence of
  a set of keys, unique by `SortedUnique`.
- `ledger.dfy` (`Ledger`): the chaincode stub as a class over a
  `map<string, string>` world state, with `GetStringState`,
  `PutStringState` and `GetStateByRange`. The scan is a loop proved to
  return the in-range entries in ascending key order.
- `vehicle.dfy` (`Vehicles`): the `Vehicle` class with its two
  constructors, setters, `Equals`, `HashCode` and `ToString`. It also holds
  `VehicleDoc`, the field values a vehicle's JSON document carries.
- `codec.dfy` (`Codecs`): the JSON codec. Its two directions are
  function-valued fields of a `Codec` value. `Sound()` states what the
  registry relies on: decoding rendered text gives the fields back, and
  empty text is not a vehicle. `Deserialize` builds a new `Vehicle` object;
  the model chooses the three-argument constructor and the current-owner
  setter for this.
- `registry.dfy` (`Registry`): each transaction as a pure function from
  world state to (result or failure, new world state), plus the properties
  of the state machine.
- `vehicle_contract.dfy` (`Contract`): the `VehicleContract` class. Its
  methods work on the stub and on `Vehicle` objects as the source does:
  the owners list grows in place and the current owner goes through its
  setter. Each method is proved to return, throw and write exactly what
  the matching `Registry` function gives.

Behaviour of the code a reader might not expect:

- `createVehicle` stores the caller's payload text as it came, not a
  re-encoding of the decoded record. Only `addOwner` and `transferOwner`
  store the codec's canonical rendering.
- `addOwner` appends any owner name, including an empty one and one that
  is already present. So "at most once, ignoring case" after
  `transferOwner` holds only if the name occurred at most once before
  (`Registry.TransferOwnerLeavesOneMatch`).
- The "does not exist" failure carries no error code. `ASSET_NOT_FOUND` is
  declared but never attached.
- `GetAllVehicles` fails as a whole when any stored value does not decode.

## Model

| member | source | states |
|---|---|---|
| `Contract.VehicleContract.VehicleExists` | chaincode-java/src/main/java/org/hyperledger/fabric/samples/vehicle/VehicleContract.java:142-147 | true exactly when the stored text for the id is present and non-empty; an empty string counts as absent |
| `Contract.VehicleContract.CheckIfVehicleExists` | chaincode-java/src/main/java/org/hyperledger/fabric/samples/vehicle/VehicleContract.java:134-140 | fails exactly when the id exists, with message "Vehicle <id> already exists" and payload "ASSET_ALREADY_EXISTS" |
| `Registry.Create` | chaincode-java/src/main/java/org/hyperledger/fabric/samples/vehicle/VehicleContract.java:58-65 | an undecodable payload fails; an existing decoded id fails with AlreadyExists; any failure leaves the store unchanged; on success it returns the decoded vehicle and the store gains exactly the raw payload under the decoded id, every other key unchanged |
| `Contract.VehicleContract.CreateVehicle` | chaincode-java/src/main/java/org/hyperledger/fabric/samples/vehicle/VehicleContract.java:58-65 | returns a new vehicle with the fields, or throws the failure, and leaves exactly the store that `Registry.Create` gives |
| `Registry.Read` | chaincode-java/src/main/java/org/hyperledger/fabric/samples/vehicle/VehicleContract.java:68-80 | fails with "Vehicle <id> does not exist" and no code exactly when the id is absent; fails to decode exactly when the id exists and its stored text does not decode; when the id exists and its text decodes, returns exactly the decoded stored text |
| `Contract.VehicleContract.ReadVehicle` | chaincode-java/src/main/java/org/hyperledger/fabric/samples/vehicle/VehicleContract.java:68-80 | returns a new vehicle with the fields `Registry.Read` gives, or throws its failure; writes nothing |
| `Registry.AddOwner` | chaincode-java/src/main/java/org/hyperledger/fabric/samples/vehicle/VehicleContract.java:82-92 | propagates the read failure unchanged and writes nothing; otherwise owners becomes the old owners plus the new one appended, even if present, with every other field unchanged, and only the requested key is rewritten, with the canonical rendering |
| `Contract.VehicleContract.AddOwner` | chaincode-java/src/main/java/org/hyperledger/fabric/samples/vehicle/VehicleContract.java:82-92 | appends to the decoded vehicle's owners in place and returns, throws and writes exactly what `Registry.AddOwner` gives |
| `Registry.TransferOwner` | chaincode-java/src/main/java/org/hyperledger/fabric/samples/vehicle/VehicleContract.java:95-111 | propagates the read failure and writes nothing; otherwise the current owner becomes the new owner, the old owners stay a prefix, the list grows by one (the new owner) exactly when no owner equals it ignoring case, and afterwards some owner equals it ignoring case; id and servicing information unchanged; only the requested key is rewritten |
| `Contract.VehicleContract.TransferOwner` | chaincode-java/src/main/java/org/hyperledger/fabric/samples/vehicle/VehicleContract.java:95-111 | sets the current owner through the setter, appends in place when no owner matches ignoring case, and returns, throws and writes exactly what `Registry.TransferOwner` gives |
| `Registry.CodeNameInjective` | chaincode-java/src/main/java/org/hyperledger/fabric/samples/vehicle/VehicleContract.java:42-45 | the enum declaration only: its two constants ASSET_NOT_FOUND and ASSET_ALREADY_EXISTS have different names (only ASSET_ALREADY_EXISTS is ever attached to a failure) |
| `Registry.AlreadyExists` | chaincode-java/src/main/java/org/hyperledger/fabric/samples/vehicle/VehicleContract.java:136-138 | the "already exists" failure carries the ASSET_ALREADY_EXISTS code as its payload |
| `Registry.DoesNotExist` | chaincode-java/src/main/java/org/hyperledger/fabric/samples/vehicle/VehicleContract.java:73-75 | the "does not exist" failure carries no payload |
| `Registry.FailuresIdentifyVehicle` | chaincode-java/src/main/java/org/hyperledger/fabric/samples/vehicle/VehicleContract.java:73-75 | each failure message names its vehicle: two failures of one kind are equal exactly when their ids are, and the two kinds never coincide |
| `Registry.VehicleExistsAfterWrite` | chaincode-java/src/main/java/org/hyperledger/fabric/samples/vehicle/VehicleContract.java:143-147 | after writing text under a key, that key exists exactly when the text is non-empty, and every other key exists exactly as before |
| `Registry.EqualsIgnoreCaseEquivalence` | chaincode-java/src/main/java/org/hyperledger/fabric/samples/vehicle/VehicleContract.java:103 | equality ignoring case is reflexive, symmetric and transitive |
| `Registry.NoneMatchAppend` | chaincode-java/src/main/java/org/hyperledger/fabric/samples/vehicle/VehicleContract.java:101-103 | after appending an owner, no owner matches a name exactly when none matched before and the appended one does not match |
| `Registry.AllVehicles` | chaincode-java/src/main/java/org/hyperledger/fabric/samples/vehicle/VehicleContract.java:113-132 | the listing succeeds exactly when every stored value decodes, and otherwise fails with a decoding failure; on success it has one vehicle per stored key, the i-th decoded from the value of the i-th key in ascending order |
| `Registry.DecodeAll` | chaincode-java/src/main/java/org/hyperledger/fabric/samples/vehicle/VehicleContract.java:125-129 | succeeds exactly when every scanned value decodes, then with one decoded vehicle per entry in scan order; otherwise fails with a decoding failure |
| `Contract.VehicleContract.GetAllVehicles` | chaincode-java/src/main/java/org/hyperledger/fabric/samples/vehicle/VehicleContract.java:113-132 | the loop over the full-range scan returns one vehicle per stored entry, in ascending key order, with the decoded fields, or fails when `Registry.AllVehicles` fails |
| `Ledger.ChaincodeStub.GetStringState` | chaincode-java/src/main/java/org/hyperledger/fabric/samples/vehicle/VehicleContract.java:71 | the stored text for a key, or null when nothing is stored |
| `Ledger.ChaincodeStub.PutStringState` | chaincode-java/src/main/java/org/hyperledger/fabric/samples/vehicle/VehicleContract.java:63 | the world state afterwards is the old one with only that key set to the value |
| `Ledger.ChaincodeStub.GetStateByRange` | chaincode-java/src/main/java/org/hyperledger/fabric/samples/vehicle/VehicleContract.java:119-123 | returns exactly the entries with startKey <= key < endKey, an empty bound being no bound, in ascending lexical key order |
| `Lexical.SortedKeys` | chaincode-java/src/main/java/org/hyperledger/fabric/samples/vehicle/VehicleContract.java:119-123 | a strictly ascending sequence holding exactly the given keys |
| `Lexical.SortedUnique` | chaincode-java/src/main/java/org/hyperledger/fabric/samples/vehicle/VehicleContract.java:119-123 | two strictly ascending key sequences with the same keys are equal, so the scan order is determined |
| `Lexical.Insert` | chaincode-java/src/main/java/org/hyperledger/fabric/samples/vehicle/VehicleContract.java:119-123 | inserting a new key into a strictly ascending sequence keeps it strictly ascending, adds exactly that key |
| `Lexical.LessTotal` | chaincode-java/src/main/java/org/hyperledger/fabric/samples/vehicle/VehicleContract.java:119-123 | any two different keys are ordered one way or the other |
| `Lexical.LessTransitive` | chaincode-java/src/main/java/org/hyperledger/fabric/samples/vehicle/VehicleContract.java:119-123 | the key order is transitive |
| `Codecs.Deserialize` | chaincode-java/src/main/java/org/hyperledger/fabric/samples/vehicle/VehicleContract.java:61 | fails exactly when the text does not decode; otherwise a new vehicle whose fields are the decoded ones |
| `Codecs.Serialize` | chaincode-java/src/main/java/org/hyperledger/fabric/samples/vehicle/VehicleContract.java:89 | with a sound codec, decoding the text gives back the vehicle's current fields |
| `Codecs.RenderNonEmpty` | chaincode-java/src/main/java/org/hyperledger/fabric/samples/vehicle/VehicleContract.java:89-90 | a rendered record is never empty text, so a rewritten vehicle still exists |
| `Registry.AllVehiclesEmpty` | chaincode-java/src/main/java/org/hyperledger/fabric/samples/vehicle/VehicleContract.java:117-131 | an empty world state lists no vehicles |
| `Registry.AllVehiclesInKeyOrder` | chaincode-java/src/main/java/org/hyperledger/fabric/samples/vehicle/VehicleContract.java:117-131 | in a consistent world state the listing succeeds with exactly one vehicle per entry, the i-th having the i-th key in ascending order as its id |
| `Registry.CreateThenRead` | chaincode-java/src/main/java/org/hyperledger/fabric/samples/vehicle/VehicleContract.java:58-80 | after a successful create, reading the new id returns the vehicle create returned |
| `Registry.CreateExistingFails` | chaincode-java/src/main/java/org/hyperledger/fabric/samples/vehicle/VehicleContract.java:134-140 | after a successful create, any create of a payload with the same id fails with AlreadyExists and leaves the world state unchanged |
| `Registry.CreationOrderIrrelevant` | chaincode-java/src/main/java/org/hyperledger/fabric/samples/vehicle/VehicleContract.java:63 | creating two vehicles with different ids in either order leaves the same world state, hence the same listing |
| `Registry.AddOwnerTwice` | chaincode-java/src/main/java/org/hyperledger/fabric/samples/vehicle/VehicleContract.java:86-90 | adding the same owner twice appends it twice: the owners end with it twice |
| `Registry.TransferOwnerIdempotent` | chaincode-java/src/main/java/org/hyperledger/fabric/samples/vehicle/VehicleContract.java:98-108 | a second transfer to the same owner returns the same vehicle and leaves the same world state |
| `Registry.TransferOwnerIgnoresCase` | chaincode-java/src/main/java/org/hyperledger/fabric/samples/vehicle/VehicleContract.java:100-106 | a later transfer to a name equal ignoring case only changes the current owner; the owners stay as they were |
| `Registry.NoneMatchIffCountZero` | chaincode-java/src/main/java/org/hyperledger/fabric/samples/vehicle/VehicleContract.java:101-103 | no owner matches ignoring case exactly when the case-insensitive count is zero |
| `Registry.TransferOwnerLeavesOneMatch` | chaincode-java/src/main/java/org/hyperledger/fabric/samples/vehicle/VehicleContract.java:101-106 | when the new owner occurred at most once ignoring case, it occurs exactly once after the transfer |
| `Registry.OperationsPreserveConsistent` | chaincode-java/src/main/java/org/hyperledger/fabric/samples/vehicle/VehicleContract.java:58-111 | create, addOwner and transferOwner keep every stored entry non-empty, decodable and holding the id of its key |
| `Registry.ExistenceIsPermanent` | chaincode-java/src/main/java/org/hyperledger/fabric/samples/vehicle/VehicleContract.java:58-111 | no operation takes an existing id back to absent |
| `Registry.ReadConsistent` | chaincode-java/src/main/java/org/hyperledger/fabric/samples/vehicle/VehicleContract.java:68-80 | in a consistent world state a read succeeds exactly for stored ids and returns a vehicle with that id |
| `Registry.TransferOwnerScenario` | chaincode-java/src/test/java/org/hyperledger/fabric/samples/vehicle/VehicleContractTest.java:155-167 | a vehicle "v1" owned by "owner1", transferred to "Dr Evil", has owners ["owner1", "Dr Evil"] and current owner "Dr Evil" |
| `Registry.AddOwnerScenario` | chaincode-java/src/test/java/org/hyperledger/fabric/samples/vehicle/VehicleContractTest.java:201-213 | adding "owner2" to a vehicle owned by "owner1" gives owners ["owner1", "owner2"] |
| `Registry.EmptyValueTransferFails` | chaincode-java/src/test/java/org/hyperledger/fabric/samples/vehicle/VehicleContractTest.java:181-195 | with empty text stored under "v1", a transfer fails with "Vehicle v1 does not exist" and writes nothing |
| `Registry.EmptyValueCreateSucceeds` | chaincode-java/src/test/java/org/hyperledger/fabric/samples/vehicle/VehicleContractTest.java:137-148 | with empty text stored under "v1", creating "v1" succeeds and stores the payload |
| `Vehicles.Vehicle.constructor` | chaincode-java/src/main/java/org/hyperledger/fabric/samples/vehicle/Vehicle.java:58-64 | stores the given id, owners and servicing information; no current owner |
| `Vehicles.Vehicle.OfId` | chaincode-java/src/main/java/org/hyperledger/fabric/samples/vehicle/Vehicle.java:66-70 | the given id, empty owners, no servicing information, no current owner |
| `Vehicles.Vehicle.SetServicingInfo` | chaincode-java/src/main/java/org/hyperledger/fabric/samples/vehicle/Vehicle.java:38-40 | changes the servicing information and no other field |
| `Vehicles.Vehicle.SetOwners` | chaincode-java/src/main/java/org/hyperledger/fabric/samples/vehicle/Vehicle.java:46-48 | changes the owners and no other field |
| `Vehicles.Vehicle.SetCurrentOwner` | chaincode-java/src/main/java/org/hyperledger/fabric/samples/vehicle/Vehicle.java:54-56 | changes the current owner and no other field |
| `Vehicles.Vehicle.Equals` | chaincode-java/src/main/java/org/hyperledger/fabric/samples/vehicle/Vehicle.java:72-87 | true exactly when the other object is a `Vehicle` with the same id; false for null; owners, current owner and servicing information are ignored |
| `Vehicles.EqualsReflexive` | chaincode-java/src/main/java/org/hyperledger/fabric/samples/vehicle/Vehicle.java:74-76 | every vehicle equals itself |
| `Vehicles.EqualsSymmetric` | chaincode-java/src/main/java/org/hyperledger/fabric/samples/vehicle/Vehicle.java:84-86 | equality of vehicles is symmetric |
| `Vehicles.EqualsTransitive` | chaincode-java/src/main/java/org/hyperledger/fabric/samples/vehicle/Vehicle.java:84-86 | equality of vehicles is transitive |
| `Vehicles.Vehicle.HashCode` | chaincode-java/src/main/java/org/hyperledger/fabric/samples/vehicle/Vehicle.java:89-92 | a 32-bit value computed from the id alone |
| `Vehicles.HashCodeConsistentWithEquals` | chaincode-java/src/main/java/org/hyperledger/fabric/samples/vehicle/Vehicle.java:84-92 | equal vehicles have equal hash codes |
| `Vehicles.Vehicle.ToString` | chaincode-java/src/main/java/org/hyperledger/fabric/samples/vehicle/Vehicle.java:94-97 | "Vehicle@", then non-empty hexadecimal digits without leading zeros that read back as the unsigned hash code, then " [vehicleId=<id>]" |
| `Vehicles.ToHexString` | chaincode-java/src/main/java/org/hyperledger/fabric/samples/vehicle/Vehicle.java:96 | non-empty lower-case hexadecimal digits without leading zeros ("0" for zero) whose value is the unsigned 32-bit reading of the hash |
| `Vehicles.HexRoundTrip` | chaincode-java/src/main/java/org/hyperledger/fabric/samples/vehicle/Vehicle.java:96 | reading back the hexadecimal digits gives the number |

## Left out

- JSON (de)serialisation: the library is not part of this model. A `Codec` value carries its two directions. `Codec.Sound()` is assumed wherever a round trip is needed: rendered text decodes back to the same fields, and empty text does not decode. Field ordering, which constructor the decoder picks, and the JSON text itself are not modelled.
- `Registry.Read`: stored text that decodes to null (the JSON literal `null`) fails here with a decoding failure. `readVehicle` has no null check, so in the source it returns null normally. The codec's `parse` does not tell a decoder exception from a null result, so this case is not modelled.
- `Registry.DecodeAll`: likewise, a stored value that decodes to null fails the listing here. In the source, `GetAllVehicles` puts null into the list and succeeds.
- Reference aliasing of the owners list is not modelled. The three-argument constructor and `setOwners` keep the caller's `List` object, so later appends through either reference are seen by both. In the model `owners` is a sequence value, so each vehicle holds its own copy.
- `GetAllVehicles` returns the JSON text of the list in the source. The model returns the list of `Vehicle` objects.
- The Fabric `Context`, contract annotations and transaction intents are host plumbing. The stub is reduced to its world-state map, and the scan's iterator is a sequence.
- Store transport failures, transaction isolation and concurrent writers are the host's responsibility; the code does no locking.
- `initLedger` is not modelled: it passes the bare text "v1", not JSON, to `createVehicle`, and its test is disabled.
- The `System.out.println` logging in `GetAllVehicles` and `checkIfVehicleExists` is not modelled.
- Null strings are not modelled: ids and owner names are always present. A null `owners` list, and the immutable empty list of the one-argument constructor, would make `addOwner`/`transferOwner` throw at run time. The model takes `owners` to be a present list that can be appended to.
- Case-insensitive comparison folds ASCII letters only. Java's `equalsIgnoreCase` also folds other Unicode letters.
- `Vehicles.StringHashCode` runs over Unicode code points. Java hashes UTF-16 code units, so ids with characters outside the Basic Multilingual Plane hash differently.
- `Vehicles.Vehicle.HashCode`: the contract states only that the value is a 32-bit integer that depends on the id alone. The exact value, 31 plus the id's string hash in 32-bit arithmetic, is in the body.
- The getters are not separate members: the model reads the fields directly.
- `ServiceHistory` and `ServicingInfo` are plain data holders and become datatypes; servicing information passes through unchanged.
