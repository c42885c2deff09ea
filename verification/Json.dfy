/** JSON values, and the objects that the encoders fill by setting keys. */
module JsonValues {
  import opened Sequences
  import opened Widths

  datatype Json = Null | Bool(b: bool) | Int(i: int) | Str(s: string) | Arr(items: seq<Json>)
      | Obj(fields: map<string, Json>)

  /** The value that a fixed-width integer of the given lowest value and number of values takes when
      x is stored in it. */
  function Wrap(x: int, lowest: int, size: nat): (r: int)
    requires IsWidth(size)
    ensures lowest <= r < lowest + size
    ensures lowest <= x < lowest + size ==> r == x
  {
    lowest + Modulo(x - lowest, size)
  }

  /** The numbers of values of the integer types. */
  predicate IsWidth(size: nat) {
    size == TWO8 || size == TWO16 || size == TWO32 || size == TWO64
  }

  function Modulo(x: int, size: nat): (r: int)
    requires IsWidth(size)
    ensures 0 <= r < size
    ensures 0 <= x < size ==> r == x
  {
    if size == TWO8 then x % TWO8
    else if size == TWO16 then x % TWO16
    else if size == TWO32 then x % TWO32
    else x % TWO64
  }

  /** What is lost by storing in a fixed width is a multiple of the number of values. */
  lemma WrapLoses(x: int, lowest: int, size: nat) returns (k: int)
    requires IsWidth(size)
    ensures x - Wrap(x, lowest, size) == k * size
  {
    k := (x - lowest) / size;
  }

  /** An unsigned number survives being stored as a signed one of the same width. */
  lemma SignedAndBack(x: int)
    ensures 0 <= x < TWO32 ==> Wrap(Wrap(x, -TWO31, TWO32), 0, TWO32) == x
    ensures 0 <= x < TWO64 ==> Wrap(Wrap(x, -TWO63, TWO64), 0, TWO64) == x
  {
  }

  /** json_integer: the number as a signed 64-bit integer. */
  function Integer(x: int): Json {
    Int(Wrap(x, -TWO63, TWO64))
  }

  /** json_unpack with "i": the integer as a signed 32-bit one. */
  function UnpackInt(j: Json): Option<int> {
    if j.Int? then Some(Wrap(j.i, -TWO31, TWO32)) else None
  }

  /** json_unpack with "I". */
  function UnpackLong(j: Json): Option<int> {
    if j.Int? then Some(j.i) else None
  }

  /** json_object_get: Null if there is no such key, or no object. */
  function Get(j: Json, key: string): Json {
    if j.Obj? && key in j.fields then j.fields[key] else Null
  }

  predicate Has(j: Json, key: string) {
    j.Obj? && key in j.fields
  }

  class JsonObject {
    var fields: map<string, Json>

    constructor ()
      ensures fields == map[]
    {
      fields := map[];
    }

    /** json_object_set_new: the last value set for a key counts. */
    method Set(key: string, value: Json)
      modifies this
      ensures fields == old(fields)[key := value]
    {
      fields := fields[key := value];
    }
  }
}
