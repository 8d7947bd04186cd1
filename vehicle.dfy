/**
 * The vehicle entity: an immutable id, the ordered list of owners, the
 * current owner and the servicing information. Identity (`Equals`,
 * `HashCode`) is by id alone.
 */
module Vehicles {
  import opened Wrappers

  /** One visit to a service centre; both fields are nullable in the source. */
  datatype ServiceHistory = ServiceHistory(serviceCenter: Option<string>, timeStamp: Option<int>)

  /** Servicing information: a nullable list of service visits. It only passes through the registry. */
  datatype ServicingInfo = ServicingInfo(serviceHistories: Option<seq<ServiceHistory>>)

  /** The field values of a vehicle: what its JSON document holds. */
  datatype VehicleDoc = VehicleDoc(
    vehicleId: string,
    owners: seq<string>,
    currentOwner: Option<string>,
    servicingInfo: Option<ServicingInfo>)

  class Vehicle {
    const vehicleId: string
    var servicingInfo: Option<ServicingInfo>
    var currentOwner: Option<string>
    var owners: seq<string>

    /** The current field values of this object. */
    function Doc(): (d: VehicleDoc)
      reads this
    {
      VehicleDoc(vehicleId, owners, currentOwner, servicingInfo)
    }

    /** The three-argument constructor: no current owner yet. */
    constructor (vehicleId: string, owners: seq<string>, servicingInfo: Option<ServicingInfo>)
      ensures Doc() == VehicleDoc(vehicleId, owners, None, servicingInfo)
    {
      this.vehicleId := vehicleId;
      this.owners := owners;
      this.servicingInfo := servicingInfo;
      this.currentOwner := None;
    }

    /** A vehicle known only by its id: no owners, no current owner, no servicing information. */
    constructor OfId(vehicleId: string)
      ensures Doc() == VehicleDoc(vehicleId, [], None, None)
    {
      this.vehicleId := vehicleId;
      this.owners := [];
      this.servicingInfo := None;
      this.currentOwner := None;
    }

    method SetServicingInfo(servicingInfo: Option<ServicingInfo>)
      modifies this
      ensures Doc() == old(Doc()).(servicingInfo := servicingInfo)
    {
      this.servicingInfo := servicingInfo;
    }

    method SetOwners(owners: seq<string>)
      modifies this
      ensures Doc() == old(Doc()).(owners := owners)
    {
      this.owners := owners;
    }

    method SetCurrentOwner(currentOwner: Option<string>)
      modifies this
      ensures Doc() == old(Doc()).(currentOwner := currentOwner)
    {
      this.currentOwner := currentOwner;
    }

    /**
     * Java `equals`: the same object, or another `Vehicle` with the same id.
     * It reads no mutable field, so owners, current owner and servicing
     * information never affect it.
     */
    function Equals(obj: object?): (eq: bool)
      ensures eq <==> obj is Vehicle && (obj as Vehicle).vehicleId == vehicleId
      ensures obj == null ==> !eq
    {
      if this == obj then true
      else if obj == null || !(obj is Vehicle) then false
      else (obj as Vehicle).vehicleId == vehicleId
    }

    /** Java `hashCode`: `Objects.hash(vehicleId)`, that is 31 + the id's hash, in 32-bit arithmetic. */
    function HashCode(): (h: int)
      ensures IsInt32(h)
    {
      ToInt32(31 + StringHashCode(vehicleId))
    }

    /** Java `toString`: simple class name, `@`, the hash in hexadecimal, then the id. */
    function ToString(): (s: string)
      ensures |s| > 8 && s[..8] == "Vehicle@"
      ensures var tail := " [vehicleId=" + vehicleId + "]"; |s| >= |tail| && s[|s| - |tail|..] == tail
      ensures var tail := " [vehicleId=" + vehicleId + "]";
        && |s| > 8 + |tail|
        && var hex := s[8..|s| - |tail|];
        && (forall c :: c in hex ==> IsHexDigit(c))
        && (hex[0] == '0' ==> |hex| == 1)
        && HexValue(hex) == Unsigned32(HashCode())
    {
      var hex := ToHexString(HashCode());
      var tail := " [vehicleId=" + vehicleId + "]";
      ThreeParts("Vehicle@", hex, tail);
      "Vehicle@" + hex + tail
    }
  }

  /** Slicing a three-part concatenation at the part boundaries gives the parts back. */
  lemma ThreeParts(a: string, b: string, c: string)
    ensures var s := a + b + c;
      && |s| == |a| + |b| + |c|
      && s[..|a|] == a
      && s[|a|..|s| - |c|] == b
      && s[|s| - |c|..] == c
  {
  }

  lemma EqualsReflexive(v: Vehicle)
    ensures v.Equals(v)
  {
  }

  lemma EqualsSymmetric(a: Vehicle, b: Vehicle)
    ensures a.Equals(b) <==> b.Equals(a)
  {
  }

  lemma EqualsTransitive(a: Vehicle, b: Vehicle, c: Vehicle)
    requires a.Equals(b) && b.Equals(c)
    ensures a.Equals(c)
  {
  }

  /** Equal vehicles have equal hash codes. */
  lemma HashCodeConsistentWithEquals(a: Vehicle, b: Vehicle)
    requires a.Equals(b)
    ensures a.HashCode() == b.HashCode()
  {
  }

  // Java integer arithmetic

  predicate IsInt32(x: int)
  {
    -0x8000_0000 <= x < 0x8000_0000
  }

  /** The 32-bit two's-complement value congruent to `x`: Java's `int` wrap-around. */
  function ToInt32(x: int): (r: int)
    ensures IsInt32(r)
    ensures (x - r) % 0x1_0000_0000 == 0
    ensures IsInt32(x) ==> r == x
  {
    (x + 0x8000_0000) % 0x1_0000_0000 - 0x8000_0000
  }

  /** Java `String.hashCode`: h = 31 * h + c over the characters, in 32-bit arithmetic. */
  function StringHashCode(s: string): (h: int)
    ensures IsInt32(h)
  {
    if s == [] then 0
    else ToInt32(31 * StringHashCode(s[..|s| - 1]) + s[|s| - 1] as int)
  }

  // Java Integer.toHexString

  const HexDigits := "0123456789abcdef"

  predicate IsHexDigit(c: char)
  {
    c in HexDigits
  }

  function DigitValue(c: char): (d: nat)
    requires IsHexDigit(c)
    ensures d < 16 && HexDigits[d] == c
  {
    if '0' <= c <= '9' then c as int - '0' as int else c as int - 'a' as int + 10
  }

  /** Digits of `n` in base 16, lower case, without leading zeros. */
  function Hex(n: nat): (s: string)
    ensures s != [] && forall c :: c in s ==> IsHexDigit(c)
    ensures s[0] == '0' <==> n == 0
    ensures s[0] == '0' ==> |s| == 1
  {
    if n < 16 then [HexDigits[n]] else Hex(n / 16) + [HexDigits[n % 16]]
  }

  /** The number a string of hexadecimal digits denotes. */
  function HexValue(s: string): (n: nat)
    requires forall c :: c in s ==> IsHexDigit(c)
  {
    if s == [] then 0 else 16 * HexValue(s[..|s| - 1]) + DigitValue(s[|s| - 1])
  }

  /** Reading back the digits `Hex` writes gives the number. */
  lemma {:induction false} HexRoundTrip(n: nat)
    ensures HexValue(Hex(n)) == n
  {
    var s := Hex(n);
    if n >= 16 {
      assert s[..|s| - 1] == Hex(n / 16);
      HexRoundTrip(n / 16);
    }
  }

  /** The unsigned reading of a 32-bit `int`. */
  function Unsigned32(x: int): (n: nat)
    requires IsInt32(x)
    ensures n < 0x1_0000_0000 && (n - x) % 0x1_0000_0000 == 0
  {
    if x < 0 then x + 0x1_0000_0000 else x
  }

  /** Java `Integer.toHexString`: the unsigned 32-bit value of `x` in hexadecimal. */
  function ToHexString(x: int): (s: string)
    requires IsInt32(x)
    ensures s != [] && forall c :: c in s ==> IsHexDigit(c)
    ensures s[0] == '0' ==> |s| == 1
    ensures HexValue(s) == Unsigned32(x)
  {
    HexRoundTrip(Unsigned32(x));
    Hex(Unsigned32(x))
  }
}
