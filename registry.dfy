/**
 * The vehicle registry as a state machine over the ledger's world state.
 * Each function gives the outcome of one transaction (what it returns or
 * throws) and the world state it leaves; the contract class's methods are
 * proved to behave exactly so. Per vehicle id the states are Absent and
 * Exists: create moves Absent to Exists, addOwner and transferOwner loop
 * on Exists, and nothing moves back.
 */
module Registry {
  import opened Wrappers
  import opened Lexical
  import opened Ledger
  import opened Vehicles
  import opened Codecs

  /** The world state: stored text per key. */
  type Store = map<string, string>

  /** The machine-readable error codes the contract declares. */
  datatype ErrorCode = AssetNotFound | AssetAlreadyExists

  /** The enum constant's name, which is the payload an exception carries. */
  function CodeName(code: ErrorCode): (name: string)
  {
    match code
    case AssetNotFound => "ASSET_NOT_FOUND"
    case AssetAlreadyExists => "ASSET_ALREADY_EXISTS"
  }

  /** What a transaction can throw. */
  datatype Failure =
    | ChaincodeException(message: string, payload: Option<string>)
    | DeserializationFailure  // the JSON decoder rejected a payload or a stored value

  /** Different codes carry different names, so a client can tell them apart. */
  lemma CodeNameInjective(a: ErrorCode, b: ErrorCode)
    ensures CodeName(a) == CodeName(b) <==> a == b
  {
    if a != b {
      assert CodeName(a)[6] != CodeName(b)[6];
    }
  }

  /** Thrown with the ASSET_ALREADY_EXISTS code as its payload. */
  function AlreadyExists(vehicleId: string): (f: Failure)
    ensures f.ChaincodeException? && f.payload == Some(CodeName(AssetAlreadyExists))
  {
    ChaincodeException("Vehicle " + vehicleId + " already exists", Some(CodeName(AssetAlreadyExists)))
  }

  /** Thrown without a payload: the declared ASSET_NOT_FOUND code is never attached. */
  function DoesNotExist(vehicleId: string): (f: Failure)
    ensures f.ChaincodeException? && f.payload.None?
  {
    ChaincodeException("Vehicle " + vehicleId + " does not exist", None)
  }

  /** The text between a fixed prefix and a fixed suffix is determined by the whole. */
  lemma {:induction false} MiddleDetermined(pre: string, a: string, b: string, post: string)
    requires pre + a + post == pre + b + post
    ensures a == b
  {
    var s := pre + a + post;
    assert |a| == |b|;
    assert a == s[|pre|..|pre| + |a|];
    assert b == (pre + b + post)[|pre|..|pre| + |b|];
  }

  /**
   * A failure's message names the vehicle it is about: equal failures of
   * one kind concern the same id, and the two kinds never coincide.
   */
  lemma FailuresIdentifyVehicle(a: string, b: string)
    ensures AlreadyExists(a) == AlreadyExists(b) <==> a == b
    ensures DoesNotExist(a) == DoesNotExist(b) <==> a == b
    ensures AlreadyExists(a) != DoesNotExist(b)
  {
    if AlreadyExists(a) == AlreadyExists(b) {
      MiddleDetermined("Vehicle ", a, b, " already exists");
    }
    if DoesNotExist(a) == DoesNotExist(b) {
      MiddleDetermined("Vehicle ", a, b, " does not exist");
    }
  }

  /** A vehicle exists when non-null, non-empty text is stored under its id. */
  predicate VehicleExists(st: Store, vehicleId: string)
  {
    vehicleId in st && st[vehicleId] != ""
  }

  /**
   * Writing one key decides existence for that key by the text written
   * and leaves every other key's existence as it was.
   */
  lemma VehicleExistsAfterWrite(st: Store, key: string, value: string, vehicleId: string)
    ensures VehicleExists(st[key := value], vehicleId) <==>
      if vehicleId == key then value != "" else VehicleExists(st, vehicleId)
  {
  }

  /** What a transaction returns or throws, and the world state after it. */
  datatype Transition = Transition(result: Result<VehicleDoc, Failure>, state: Store)

  /**
   * createVehicle: decode the payload; refuse an id that exists; otherwise
   * store the caller's payload itself (not a re-rendering) under the
   * decoded id and return the decoded vehicle.
   */
  function Create(c: Codec, st: Store, vehicleJson: string): (t: Transition)
    ensures t.result.Err? ==> t.state == st
    ensures c.parse(vehicleJson).None? ==> t.result == Err(DeserializationFailure)
    ensures c.parse(vehicleJson).Some? ==>
      var d := c.parse(vehicleJson).value;
      && (VehicleExists(st, d.vehicleId) <==> t.result == Err(AlreadyExists(d.vehicleId)))
      && (!VehicleExists(st, d.vehicleId) <==> t.result == Ok(d))
    ensures t.result.Ok? ==>
      var id := t.result.value.vehicleId;
      && t.state.Keys == st.Keys + {id}
      && t.state[id] == vehicleJson
      && forall k :: k in st && k != id ==> t.state[k] == st[k]
  {
    match c.parse(vehicleJson)
    case None => Transition(Err(DeserializationFailure), st)
    case Some(d) =>
      if VehicleExists(st, d.vehicleId) then Transition(Err(AlreadyExists(d.vehicleId)), st)
      else Transition(Ok(d), st[d.vehicleId := vehicleJson])
  }

  /** readVehicle: the decoded stored vehicle, guarded by the existence check. */
  function Read(c: Codec, st: Store, vehicleId: string): (r: Result<VehicleDoc, Failure>)
    ensures !VehicleExists(st, vehicleId) <==> r == Err(DoesNotExist(vehicleId))
    ensures VehicleExists(st, vehicleId) && c.parse(st[vehicleId]).None? <==> r == Err(DeserializationFailure)
    ensures r.Ok? ==> vehicleId in st && c.parse(st[vehicleId]) == Some(r.value)
    ensures VehicleExists(st, vehicleId) && c.parse(st[vehicleId]).Some? ==> r == Ok(c.parse(st[vehicleId]).value)
  {
    if !VehicleExists(st, vehicleId) then Err(DoesNotExist(vehicleId))
    else match c.parse(st[vehicleId])
      case None => Err(DeserializationFailure)
      case Some(d) => Ok(d)
  }

  /**
   * addOwner: read the vehicle, append the owner to its owners whether or
   * not it is already there, store the canonical rendering under the
   * requested key and return the updated vehicle.
   */
  function AddOwner(c: Codec, st: Store, vehicleId: string, owner: string): (t: Transition)
    ensures t.result.Err? ==> t.result == Read(c, st, vehicleId) && t.state == st
    ensures t.result.Ok? <==> Read(c, st, vehicleId).Ok?
    ensures t.result.Ok? ==>
      var before := Read(c, st, vehicleId).value;
      && t.result.value == before.(owners := before.owners + [owner])
      && t.state.Keys == st.Keys
      && t.state == st[vehicleId := c.render(t.result.value)]
  {
    match Read(c, st, vehicleId)
    case Err(e) => Transition(Err(e), st)
    case Ok(existing) =>
      var updated := existing.(owners := existing.owners + [owner]);
      Transition(Ok(updated), st[vehicleId := c.render(updated)])
  }

  /** Java `Character.toLowerCase`, restricted to ASCII letters. */
  function FoldCase(ch: char): char
  {
    if 'A' <= ch <= 'Z' then (ch as int - 'A' as int + 'a' as int) as char else ch
  }

  /** Java `String.equalsIgnoreCase`, with ASCII case folding. */
  predicate EqualsIgnoreCase(a: string, b: string)
  {
    |a| == |b| && forall i :: 0 <= i < |a| ==> FoldCase(a[i]) == FoldCase(b[i])
  }

  /** No owner equals `name` ignoring case: the `noneMatch` check of transferOwner. */
  predicate NoneMatchIgnoreCase(owners: seq<string>, name: string)
  {
    forall o :: o in owners ==> !EqualsIgnoreCase(o, name)
  }

  /** Equality ignoring case is an equivalence relation. */
  lemma EqualsIgnoreCaseEquivalence(a: string, b: string, c: string)
    ensures EqualsIgnoreCase(a, a)
    ensures EqualsIgnoreCase(a, b) ==> EqualsIgnoreCase(b, a)
    ensures EqualsIgnoreCase(a, b) && EqualsIgnoreCase(b, c) ==> EqualsIgnoreCase(a, c)
  {
  }

  /**
   * Appending an owner keeps the check false exactly when the appended
   * name does not match: the check looks at every owner, old and new.
   */
  lemma NoneMatchAppend(owners: seq<string>, owner: string, name: string)
    ensures NoneMatchIgnoreCase(owners + [owner], name) <==>
      NoneMatchIgnoreCase(owners, name) && !EqualsIgnoreCase(owner, name)
  {
    assert owner in owners + [owner];
    assert forall o :: o in owners ==> o in owners + [owner];
  }

  /**
   * transferOwner: read the vehicle, make `newOwner` the current owner,
   * append it to the owners unless one of them already equals it ignoring
   * case, store the canonical rendering under the requested key and
   * return the updated vehicle.
   */
  function TransferOwner(c: Codec, st: Store, vehicleId: string, newOwner: string): (t: Transition)
    ensures t.result.Err? ==> t.result == Read(c, st, vehicleId) && t.state == st
    ensures t.result.Ok? <==> Read(c, st, vehicleId).Ok?
    ensures t.result.Ok? ==>
      var before := Read(c, st, vehicleId).value;
      var after := t.result.value;
      && after.vehicleId == before.vehicleId
      && after.servicingInfo == before.servicingInfo
      && after.currentOwner == Some(newOwner)
      && before.owners <= after.owners
      && (|after.owners| == |before.owners| + 1 <==> NoneMatchIgnoreCase(before.owners, newOwner))
      && |after.owners| <= |before.owners| + 1
      && !NoneMatchIgnoreCase(after.owners, newOwner)
      && (after.owners != before.owners ==> after.owners[|before.owners|] == newOwner)
      && t.state.Keys == st.Keys
      && t.state == st[vehicleId := c.render(after)]
  {
    match Read(c, st, vehicleId)
    case Err(e) => Transition(Err(e), st)
    case Ok(existing) =>
      var withOwner := existing.(currentOwner := Some(newOwner));
      var updated :=
        if NoneMatchIgnoreCase(withOwner.owners, newOwner)
        then withOwner.(owners := withOwner.owners + [newOwner])
        else withOwner;
      assert EqualsIgnoreCase(newOwner, newOwner);
      assert NoneMatchIgnoreCase(existing.owners, newOwner) ==> newOwner in updated.owners;
      Transition(Ok(updated), st[vehicleId := c.render(updated)])
  }

  /**
   * Decodes scanned entries in order; the first value that does not
   * decode makes the whole listing fail.
   */
  function DecodeAll(c: Codec, entries: seq<KeyValue>): (r: Result<seq<VehicleDoc>, Failure>)
    ensures r.Ok? <==> forall i :: 0 <= i < |entries| ==> c.parse(entries[i].value).Some?
    ensures r.Err? ==> r.error == DeserializationFailure
    ensures r.Ok? ==> |r.value| == |entries|
    ensures r.Ok? ==> forall i :: 0 <= i < |entries| ==> c.parse(entries[i].value) == Some(r.value[i])
  {
    if entries == [] then Ok([])
    else match c.parse(entries[0].value)
      case None => Err(DeserializationFailure)
      case Some(d) =>
        match DecodeAll(c, entries[1..])
        case Err(e) => Err(e)
        case Ok(rest) => Ok([d] + rest)
  }

  /** GetAllVehicles: every stored value, decoded, in ascending key order. */
  ghost function AllVehicles(c: Codec, st: Store): (r: Result<seq<VehicleDoc>, Failure>)
    ensures r.Ok? <==> forall k :: k in st ==> c.parse(st[k]).Some?
    ensures r.Err? ==> r.error == DeserializationFailure
    ensures r.Ok? ==> |r.value| == |st|
    ensures r.Ok? ==> forall i :: 0 <= i < |r.value| ==> c.parse(st[SortedKeys(st.Keys)[i]]) == Some(r.value[i])
  {
    FullScanDecodes(c, st);
    DecodeAll(c, Range(st, "", ""))
  }

  /** Decoding the full-range scan decodes the value of every stored key, in sorted key order. */
  lemma FullScanDecodes(c: Codec, st: Store)
    ensures var r := DecodeAll(c, Range(st, "", ""));
      && (r.Ok? <==> forall k :: k in st ==> c.parse(st[k]).Some?)
      && (r.Ok? ==> |r.value| == |st|)
      && (r.Ok? ==> forall i :: 0 <= i < |r.value| ==> c.parse(st[SortedKeys(st.Keys)[i]]) == Some(r.value[i]))
  {
    FullRange(st);
    var keys := SortedKeys(st.Keys);
    var entries := Range(st, "", "");
    assert entries == Entries(st, keys);
    assert |st| == |st.Keys|;
    var r := DecodeAll(c, entries);
    if forall k :: k in st ==> c.parse(st[k]).Some? {
      forall i | 0 <= i < |entries|
        ensures c.parse(entries[i].value).Some?
      {
        assert keys[i] in st;
      }
    } else {
      var k :| k in st && c.parse(st[k]).None?;
      assert k in keys;
      var i :| 0 <= i < |keys| && keys[i] == k;
      assert c.parse(entries[i].value).None?;
    }
  }

  // ---------------------------------------------------------------------
  // Properties of the state machine

  /** An empty world state lists no vehicles. */
  lemma AllVehiclesEmpty(c: Codec)
    ensures AllVehicles(c, map[]) == Ok([])
  {
    assert KeysInRange(map[], "", "") == {};
  }

  /** Creating and then reading the new id gives back the decoded payload. */
  lemma CreateThenRead(c: Codec, st: Store, vehicleJson: string)
    requires c.Sound()
    requires Create(c, st, vehicleJson).result.Ok?
    ensures var t := Create(c, st, vehicleJson);
      Read(c, t.state, t.result.value.vehicleId) == t.result
  {
  }

  /**
   * Once an id is created, any further create for that id fails with
   * AlreadyExists and leaves the world state as it is.
   */
  lemma CreateExistingFails(c: Codec, st: Store, vehicleJson: string, otherJson: string)
    requires c.Sound()
    requires Create(c, st, vehicleJson).result.Ok?
    requires c.parse(otherJson).Some?
    requires c.parse(otherJson).value.vehicleId == c.parse(vehicleJson).value.vehicleId
    ensures var t := Create(c, st, vehicleJson);
      Create(c, t.state, otherJson) == Transition(Err(AlreadyExists(t.result.value.vehicleId)), t.state)
  {
  }

  /** addOwner twice with the same name appends it twice: no deduplication. */
  lemma AddOwnerTwice(c: Codec, st: Store, vehicleId: string, owner: string)
    requires c.Sound()
    requires Read(c, st, vehicleId).Ok?
    ensures var first := AddOwner(c, st, vehicleId, owner);
      var second := AddOwner(c, first.state, vehicleId, owner);
      && second.result.Ok?
      && second.result.value.owners == Read(c, st, vehicleId).value.owners + [owner, owner]
  {
    var first := AddOwner(c, st, vehicleId, owner);
    RenderNonEmpty(c, first.result.value);
  }

  /** A second transfer to the same owner changes nothing and returns the same vehicle. */
  lemma TransferOwnerIdempotent(c: Codec, st: Store, vehicleId: string, newOwner: string)
    requires c.Sound()
    requires TransferOwner(c, st, vehicleId, newOwner).result.Ok?
    ensures var first := TransferOwner(c, st, vehicleId, newOwner);
      TransferOwner(c, first.state, vehicleId, newOwner) == first
  {
    var first := TransferOwner(c, st, vehicleId, newOwner);
    RenderNonEmpty(c, first.result.value);
  }

  /**
   * A later transfer to a name that differs only in case makes it the
   * current owner but leaves the owners as they were.
   */
  lemma TransferOwnerIgnoresCase(c: Codec, st: Store, vehicleId: string, newOwner: string, sameOwner: string)
    requires c.Sound()
    requires TransferOwner(c, st, vehicleId, newOwner).result.Ok?
    requires EqualsIgnoreCase(newOwner, sameOwner)
    ensures var first := TransferOwner(c, st, vehicleId, newOwner);
      var second := TransferOwner(c, first.state, vehicleId, sameOwner);
      && second.result.Ok?
      && second.result.value == first.result.value.(currentOwner := Some(sameOwner))
  {
    var first := TransferOwner(c, st, vehicleId, newOwner);
    RenderNonEmpty(c, first.result.value);
    var i :| 0 <= i < |first.result.value.owners| && EqualsIgnoreCase(first.result.value.owners[i], newOwner);
    assert EqualsIgnoreCase(first.result.value.owners[i], sameOwner);
  }

  /** The number of owners equal to `name` ignoring case. */
  function CountIgnoreCase(owners: seq<string>, name: string): (n: nat)
    ensures n <= |owners|
  {
    if owners == [] then 0
    else
      var last := if EqualsIgnoreCase(owners[|owners| - 1], name) then 1 else 0;
      CountIgnoreCase(owners[..|owners| - 1], name) + last
  }

  lemma {:induction false} NoneMatchIffCountZero(owners: seq<string>, name: string)
    ensures NoneMatchIgnoreCase(owners, name) <==> CountIgnoreCase(owners, name) == 0
  {
    if owners != [] {
      var init := owners[..|owners| - 1];
      NoneMatchIffCountZero(init, name);
      assert owners == init + [owners[|owners| - 1]];
    }
  }

  /**
   * After a transfer, the new owner occurs exactly once ignoring case,
   * provided it occurred at most once before.
   */
  lemma TransferOwnerLeavesOneMatch(c: Codec, st: Store, vehicleId: string, newOwner: string)
    requires Read(c, st, vehicleId).Ok?
    requires CountIgnoreCase(Read(c, st, vehicleId).value.owners, newOwner) <= 1
    ensures var t := TransferOwner(c, st, vehicleId, newOwner);
      t.result.Ok? && CountIgnoreCase(t.result.value.owners, newOwner) == 1
  {
    var before := Read(c, st, vehicleId).value.owners;
    var after := TransferOwner(c, st, vehicleId, newOwner).result.value.owners;
    NoneMatchIffCountZero(before, newOwner);
    NoneMatchIffCountZero(after, newOwner);
    if after != before {
      assert after[..|after| - 1] == before;
    }
  }

  /**
   * Every stored entry is a decodable, non-empty record of the vehicle
   * whose id is its key: what creating through the registry establishes.
   */
  ghost predicate Consistent(c: Codec, st: Store)
  {
    forall k :: k in st ==> st[k] != "" && c.parse(st[k]).Some? && c.parse(st[k]).value.vehicleId == k
  }

  /** Every operation keeps the world state consistent. */
  lemma OperationsPreserveConsistent(c: Codec, st: Store, vehicleJson: string, vehicleId: string, name: string)
    requires c.Sound() && Consistent(c, st)
    ensures Consistent(c, Create(c, st, vehicleJson).state)
    ensures Consistent(c, AddOwner(c, st, vehicleId, name).state)
    ensures Consistent(c, TransferOwner(c, st, vehicleId, name).state)
  {
    var added := AddOwner(c, st, vehicleId, name);
    if added.result.Ok? {
      RenderNonEmpty(c, added.result.value);
    }
    var moved := TransferOwner(c, st, vehicleId, name);
    if moved.result.Ok? {
      RenderNonEmpty(c, moved.result.value);
    }
  }

  /** No operation takes an existing vehicle back to absent. */
  lemma ExistenceIsPermanent(c: Codec, st: Store, vehicleJson: string, vehicleId: string, name: string, k: string)
    requires c.Sound() && VehicleExists(st, k)
    ensures VehicleExists(Create(c, st, vehicleJson).state, k)
    ensures VehicleExists(AddOwner(c, st, vehicleId, name).state, k)
    ensures VehicleExists(TransferOwner(c, st, vehicleId, name).state, k)
  {
    var added := AddOwner(c, st, vehicleId, name);
    if added.result.Ok? {
      RenderNonEmpty(c, added.result.value);
    }
    var moved := TransferOwner(c, st, vehicleId, name);
    if moved.result.Ok? {
      RenderNonEmpty(c, moved.result.value);
    }
  }

  /** In a consistent world state, reading succeeds exactly for stored ids and returns that id. */
  lemma ReadConsistent(c: Codec, st: Store, vehicleId: string)
    requires Consistent(c, st)
    ensures Read(c, st, vehicleId).Ok? <==> vehicleId in st
    ensures Read(c, st, vehicleId).Ok? ==> Read(c, st, vehicleId).value.vehicleId == vehicleId
  {
  }

  /**
   * In a consistent world state the listing succeeds with one vehicle per
   * entry, in ascending order of vehicle id.
   */
  lemma AllVehiclesInKeyOrder(c: Codec, st: Store)
    requires Consistent(c, st)
    ensures AllVehicles(c, st).Ok?
    ensures |AllVehicles(c, st).value| == |st|
    ensures forall i :: 0 <= i < |st| ==> AllVehicles(c, st).value[i].vehicleId == SortedKeys(st.Keys)[i]
  {
    FullRange(st);
    var keys := SortedKeys(st.Keys);
    var entries := Range(st, "", "");
    assert entries == Entries(st, keys);
    assert |st| == |st.Keys|;
    forall i | 0 <= i < |entries|
      ensures c.parse(entries[i].value).Some? && c.parse(entries[i].value).value.vehicleId == keys[i]
    {
      assert keys[i] in st;
    }
  }

  /**
   * The transfer test: a stored vehicle "v1" owned by "owner1", transferred
   * to "Dr Evil", keeps "owner1" first, gains "Dr Evil" and has "Dr Evil"
   * as current owner.
   */
  lemma TransferOwnerScenario(c: Codec, st: Store)
    requires "v1" in st && st["v1"] != ""
    requires c.parse(st["v1"]) == Some(VehicleDoc("v1", ["owner1"], None, None))
    ensures var t := TransferOwner(c, st, "v1", "Dr Evil");
      t.result == Ok(VehicleDoc("v1", ["owner1", "Dr Evil"], Some("Dr Evil"), None))
  {
    assert Read(c, st, "v1") == Ok(VehicleDoc("v1", ["owner1"], None, None));
    assert !EqualsIgnoreCase("owner1", "Dr Evil");
    assert NoneMatchIgnoreCase(["owner1"], "Dr Evil");
    assert ["owner1"] + ["Dr Evil"] == ["owner1", "Dr Evil"];
  }

  /** The update test: adding "owner2" to a vehicle owned by "owner1". */
  lemma AddOwnerScenario(c: Codec, st: Store)
    requires "v1" in st && st["v1"] != ""
    requires c.parse(st["v1"]) == Some(VehicleDoc("v1", ["owner1"], None, None))
    ensures AddOwner(c, st, "v1", "owner2").result == Ok(VehicleDoc("v1", ["owner1", "owner2"], None, None))
  {
    assert Read(c, st, "v1") == Ok(VehicleDoc("v1", ["owner1"], None, None));
    assert ["owner1"] + ["owner2"] == ["owner1", "owner2"];
  }

  /**
   * The transfer test with an empty stored value: the id counts as absent,
   * so the transfer fails with "Vehicle v1 does not exist", without an
   * error code, and writes nothing.
   */
  lemma EmptyValueTransferFails(c: Codec, st: Store)
    requires "v1" in st && st["v1"] == ""
    ensures TransferOwner(c, st, "v1", "Dr Evil") == Transition(Err(ChaincodeException("Vehicle v1 does not exist", None)), st)
  {
    assert DoesNotExist("v1") == ChaincodeException("Vehicle v1 does not exist", None);
  }

  /** The create test with an empty stored value: the id counts as absent, so the create goes ahead. */
  lemma EmptyValueCreateSucceeds(c: Codec, st: Store, vehicleJson: string)
    requires "v1" in st && st["v1"] == ""
    requires c.parse(vehicleJson).Some? && c.parse(vehicleJson).value.vehicleId == "v1"
    ensures Create(c, st, vehicleJson) == Transition(Ok(c.parse(vehicleJson).value), st["v1" := vehicleJson])
  {
  }

  /** Vehicles with different ids can be created in either order with the same resulting state. */
  lemma CreationOrderIrrelevant(c: Codec, st: Store, json1: string, json2: string)
    requires Create(c, st, json1).result.Ok? && Create(c, st, json2).result.Ok?
    requires c.parse(json1).value.vehicleId != c.parse(json2).value.vehicleId
    ensures Create(c, Create(c, st, json1).state, json2).state == Create(c, Create(c, st, json2).state, json1).state
  {
    var id1, id2 := c.parse(json1).value.vehicleId, c.parse(json2).value.vehicleId;
    assert st[id1 := json1][id2 := json2] == st[id2 := json2][id1 := json1];
  }
}
