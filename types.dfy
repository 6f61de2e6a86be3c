/** The extended BSON value types: two identifiers that own a byte array, and a
    UTC timestamp that owns the eight bytes of a signed 64-bit count of
    milliseconds since the Unix epoch. */
module Types {
  import opened JsNumber
  import opened Helper

  /** `new Uint8Array(array)` for a plain array of integers: every element is
      converted by ToUint8, which keeps its residue mod 256. */
  function ToUint8Array(src: seq<int>): (r: seq<byte>)
    ensures |r| == |src|
    ensures forall i :: 0 <= i < |src| ==> r[i] == src[i] % 0x100
  {
    seq(|src|, i requires 0 <= i < |src| => src[i] % 0x100)
  }

  /** A generic unique identifier (by convention 16 bytes; no length is checked). */
  class UUID {
    var id: array<byte>

    /** `new UUID(id)` with a `Uint8Array`: the bytes are copied. */
    constructor FromArray(src: array<byte>)
      ensures fresh(id)
      ensures id[..] == src[..]
    {
      id := new byte[src.Length](i reads src requires 0 <= i < src.Length => src[i]);
    }

    /** `new UUID(id)` with an array of numbers. */
    constructor FromNumbers(src: seq<int>)
      ensures fresh(id)
      ensures id[..] == ToUint8Array(src)
    {
      var bytes := ToUint8Array(src);
      id := new byte[|bytes|](i requires 0 <= i < |bytes| => bytes[i]);
    }

    /** `buffer()`: the stored array itself, neither copied nor changed. */
    method Buffer() returns (b: array<byte>)
      ensures b == id
    {
      b := id;
    }
  }

  /** A document identifier (by convention 12 bytes; no length is checked). */
  class ObjectId {
    var id: array<byte>

    /** `new ObjectId(id)` with a `Uint8Array`: the bytes are copied. */
    constructor FromArray(src: array<byte>)
      ensures fresh(id)
      ensures id[..] == src[..]
    {
      id := new byte[src.Length](i reads src requires 0 <= i < src.Length => src[i]);
    }

    /** `new ObjectId(id)` with an array of numbers. */
    constructor FromNumbers(src: seq<int>)
      ensures fresh(id)
      ensures id[..] == ToUint8Array(src)
    {
      var bytes := ToUint8Array(src);
      id := new byte[|bytes|](i requires 0 <= i < |bytes| => bytes[i]);
    }

    /** `buffer()`: the stored array itself, neither copied nor changed. */
    method Buffer() returns (b: array<byte>)
      ensures b == id
    {
      b := id;
    }
  }

  /** Milliseconds since the Unix epoch, held as the eight bytes of a BSON
      int64. */
  class UTC {
    var time: array<byte>

    /** `new UTC(bytes)` with a `Uint8Array`: the bytes are copied. */
    constructor FromArray(src: array<byte>)
      ensures fresh(time)
      ensures time[..] == src[..]
    {
      time := new byte[src.Length](i reads src requires 0 <= i < src.Length => src[i]);
    }

    /** `new UTC(bytes)` with an array of numbers. */
    constructor FromNumbers(src: seq<int>)
      ensures fresh(time)
      ensures time[..] == ToUint8Array(src)
    {
      var bytes := ToUint8Array(src);
      time := new byte[|bytes|](i requires 0 <= i < |bytes| => bytes[i]);
    }

    /** `new UTC()`: a copy of `number2long(Date.now())`, the clock's reading
        `now` being given. */
    constructor FromClock(now: int)
      requires IsSafeInteger(now)
      ensures fresh(time)
      ensures time[..] == LongBytes(now)
      ensures ToNumber() == now
    {
      var t := Number2Long(now);
      time := new byte[t.Length](i reads t requires 0 <= i < t.Length => t[i]);
      LongRoundTrip(now);
    }

    /** `new UTC(date)` with a date string: the array `number2long` returns
        for the milliseconds `ms` that the date parser gives. */
    constructor FromDateString(ms: int)
      requires IsSafeInteger(ms)
      ensures fresh(time)
      ensures time[..] == LongBytes(ms)
      ensures ToNumber() == ms
    {
      var t := Number2Long(ms);
      time := t;
      LongRoundTrip(ms);
    }

    /** `buffer()`: the stored array itself, neither copied nor changed. */
    method Buffer() returns (b: array<byte>)
      ensures b == time
    {
      b := time;
    }

    /** `fromString(date)`: replaces the stored array with `number2long(ms)`
        for the parsed milliseconds `ms`. */
    method FromString(ms: int)
      requires IsSafeInteger(ms)
      modifies this
      ensures fresh(time)
      ensures time[..] == LongBytes(ms)
      ensures ToNumber() == ms
    {
      time := Number2Long(ms);
      LongRoundTrip(ms);
    }

    /** `toNumber()`: the stored bytes read as a signed 64-bit little-endian
        integer. */
    function ToNumber(): (r: int)
      reads this, time
      ensures -TWO_PWR_63 <= r < TWO_PWR_63
      ensures r % TWO_PWR_64 == Unsigned64At(time[..], 0)
    {
      Long2Number(time[..], 0)
    }
  }

  /** A UUID keeps its bytes when the array it was built from is changed
      afterwards. */
  method UuidIsACopy(src: array<byte>, k: nat, x: byte) returns (bytes: seq<byte>)
    requires k < src.Length
    modifies src
    ensures src[k] == x
    ensures bytes == old(src[..])
  {
    var u := new UUID.FromArray(src);
    src[k] := x;
    var b := u.Buffer();
    bytes := b[..];
  }

  /** A UTC built from a date's milliseconds gives back exactly those
      milliseconds. */
  method UtcRoundTrip(ms: int) returns (r: int)
    requires IsSafeInteger(ms)
    ensures r == ms
  {
    var u := new UTC.FromDateString(ms);
    r := u.ToNumber();
  }
}
