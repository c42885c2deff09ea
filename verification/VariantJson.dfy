/** Whole variants: the object that the encoder fills, in which the description of the type is written
    first and then overwritten by the index of the type, and the decoder that reads it back. */
module VariantJson {
  import opened Sequences
  import opened JsonValues
  import opened Widths
  import opened Variants
  import opened VariantEncoders
  import Paths

  type Fields = map<string, Json>

  /** The number of types in the type table, and the index written for a type that is not supported. */
  const TYPES := 163
  const UNSUPPORTED := 999

  function DataKey(i: nat): string {
    "data[" + Paths.Decimal(i) + "]"
  }

  function DimKey(i: nat): string {
    "arrayDimensions[" + Paths.Decimal(i) + "]"
  }

  function StorageName(s: Storage): string {
    if s == Data then "UA_VARIANT_DATA" else "UA_VARIANT_DATA_NODELETE"
  }

  /** The description of a type; of its members, only the index is modelled. */
  function TypeDescription(t: nat): Json {
    Obj(map["typeIndex" := Integer(t)])
  }

  // ---------- Encoding ----------

  function Header(m: Fields, storage: Storage, length: nat, t: nat): Fields {
    m["storageType" := Str(StorageName(storage))]["arrayLength" := Integer(length)]["type" := TypeDescription(t)]
  }

  function WithDims(m: Fields, dims: seq<nat>, k: nat): Fields
    requires k <= |dims|
  {
    if k == 0 then m else WithDims(m, dims, k - 1)[DimKey(k - 1) := Integer(dims[k - 1])]
  }

  function WithData(m: Fields, t: nat, vs: seq<Value>, k: nat): Fields
    requires k <= |vs|
  {
    if k == 0 then m else WithData(m, t, vs, k - 1)[DataKey(k - 1) := EncodeValue(vs[k - 1])]["type" := Integer(t)]
  }

  function Dimensions(m: Fields, dims: seq<nat>): Fields {
    var m' := m["arrayDimensionsSize" := Integer(|dims|)];
    if dims == [] then m'["arrayDimensions" := Integer(0)] else WithDims(m', dims, |dims|)
  }

  /** The fields of an object after a variant has been encoded into it. */
  function EncodeVariant(m: Fields, v: Variant): Fields {
    match v
    case Scalar(storage, t, x) => Header(m, storage, 0, t)["data" := EncodeValue(x)]["type" := Integer(t)]
    case Array(storage, t, vs, dims) => WithData(Dimensions(Header(m, storage, |vs|, t), dims), t, vs, |vs|)
  }

  // ---------- Decoding ----------

  function DecodeData(t: nat, j: Json, k: nat): (r: Option<seq<Value>>)
    ensures r.Some? ==> |r.value| == k
  {
    if k == 0 then Some([])
    else
      match (DecodeData(t, j, k - 1), DecodeValue(t, Get(j, DataKey(k - 1))))
      case (Some(front), Some(x)) => Some(front + [x])
      case _ => None
  }

  /** A dimension that cannot be read stays 0. */
  function DecodeDims(j: Json, k: nat): (r: seq<nat>)
    ensures |r| == k
  {
    if k == 0 then [] else DecodeDims(j, k - 1) + [Field(Get(j, DimKey(k - 1)), TWO32)]
  }

  /** A scalar UInt64 is tagged as Int64. */
  function Retag(t: nat, x: Value): Variant {
    if t == UINT64 && x.Number? then Scalar(Data, INT64, Number(Wrap(x.i, -TWO63, TWO64))) else Scalar(Data, t, x)
  }

  function DecodeScalar(t: nat, j: Json): Option<Variant> {
    match DecodeValue(t, Get(j, "data"))
    case Some(x) => Some(Retag(t, x))
    case None => None
  }

  function DecodeArray(t: nat, j: Json, length: nat): Option<Variant> {
    if !Has(j, "arrayDimensionsSize") then None
    else
      match DecodeData(t, j, length)
      case Some(xs) => Some(Array(Data, t, xs, DecodeDims(j, Field(Get(j, "arrayDimensionsSize"), TWO32))))
      case None => None
  }

  predicate TypeOk(t: int) {
    t != UNSUPPORTED && 0 <= t < TYPES
  }

  predicate StorageOk(j: Json) {
    j == Str("UA_VARIANT_DATA") || j == Str("UA_VARIANT_DATA_NODELETE")
  }

  /** The decoding of an object. None stands for an error, and for behaviour that the original does not
      define, such as a "type" that is not an integer. */
  function DecodeVariant(j: Json): Option<Variant> {
    match (UnpackInt(Get(j, "type")), UnpackInt(Get(j, "arrayLength")))
    case (Some(t), Some(i)) =>
      if !TypeOk(t) || !StorageOk(Get(j, "storageType")) then None
      else if Wrap(i, 0, TWO32) == 0 then DecodeScalar(t, j)
      else DecodeArray(t, j, Wrap(i, 0, TWO32))
    case _ => None
  }

  /** A variant without a value, one with a value, or neither. */
  datatype Decoded = Empty | Filled(v: Variant) | Failed

  /** zkUA_jsonDecode_UA_Variant: the string "empty" stands for a variant without a value. */
  function Decode(j: Json): Decoded {
    if j == Str("empty") then Empty
    else
      match DecodeVariant(j)
      case Some(v) => Filled(v)
      case None => Failed
  }

  // ---------- Keys ----------

  predicate Fixed(key: string) {
    key == "type" || key == "storageType" || key == "arrayLength" || key == "arrayDimensionsSize"
        || key == "arrayDimensions"
  }

  /** The keys of elements, of dimensions and the fixed ones are all different. */
  lemma Keys(i: nat, j: nat)
    ensures DataKey(i) == DataKey(j) <==> i == j
    ensures DimKey(i) == DimKey(j) <==> i == j
    ensures DataKey(i) != DimKey(j)
    ensures !Fixed(DataKey(i)) && !Fixed(DimKey(i))
  {
    hide Paths.Decimal;
    assert DataKey(i)[5..|DataKey(i)| - 1] == Paths.Decimal(i) && DataKey(j)[5..|DataKey(j)| - 1] == Paths.Decimal(j);
    assert DimKey(i)[16..|DimKey(i)| - 1] == Paths.Decimal(i) && DimKey(j)[16..|DimKey(j)| - 1] == Paths.Decimal(j);
    if DataKey(i) == DataKey(j) || DimKey(i) == DimKey(j) {
      Paths.DecimalInjective(i, j);
    }
    assert DataKey(i)[0] == 'd' && DimKey(j)[0] == 'a' && DimKey(i)[15] == '[';
    assert "arrayDimensionsSize"[15] == 'S' && "storageType"[0] == 's' && "type"[0] == 't' && "arrayLength"[0] == 'a';
  }

  lemma {:induction false} WithDimsAt(m: Fields, dims: seq<nat>, k: nat)
    requires k <= |dims|
    ensures forall i :: 0 <= i < k ==>
        DimKey(i) in WithDims(m, dims, k) && WithDims(m, dims, k)[DimKey(i)] == Integer(dims[i])
    ensures forall key :: (forall i :: 0 <= i < k ==> key != DimKey(i)) ==>
              (key in WithDims(m, dims, k) <==> key in m) && (key in m ==> WithDims(m, dims, k)[key] == m[key])
  {
    hide DimKey, Integer;
    if k > 0 {
      WithDimsAt(m, dims, k - 1);
      forall i | 0 <= i < k - 1
        ensures DimKey(i) != DimKey(k - 1)
      {
        Keys(i, k - 1);
      }
    }
  }

  lemma {:induction false} WithDataAt(m: Fields, t: nat, vs: seq<Value>, k: nat)
    requires k <= |vs|
    ensures forall i :: 0 <= i < k ==>
              DataKey(i) in WithData(m, t, vs, k) && WithData(m, t, vs, k)[DataKey(i)] == EncodeValue(vs[i])
    ensures k > 0 ==> "type" in WithData(m, t, vs, k) && WithData(m, t, vs, k)["type"] == Integer(t)
    ensures forall key :: key != "type" && (forall i :: 0 <= i < k ==> key != DataKey(i)) ==>
              (key in WithData(m, t, vs, k) <==> key in m) && (key in m ==> WithData(m, t, vs, k)[key] == m[key])
  {
    hide DataKey, Integer, EncodeValue;
    if k > 0 {
      WithDataAt(m, t, vs, k - 1);
      DataKeysDiffer(k);
    }
  }

  lemma DataKeysDiffer(k: nat)
    requires k > 0
    ensures forall i :: 0 <= i < k ==> DataKey(i) != "type" && (DataKey(i) == DataKey(k - 1) <==> i == k - 1)
  {
    forall i | 0 <= i < k
      ensures DataKey(i) != "type" && (DataKey(i) == DataKey(k - 1) <==> i == k - 1)
    {
      Keys(i, k - 1);
    }
  }

  // ---------- Round trip ----------

  function TrimAll(xs: seq<Value>): (r: seq<Value>)
    ensures |r| == |xs| && forall i :: 0 <= i < |xs| ==> r[i] == TrimValue(xs[i])
  {
    seq(|xs|, i requires 0 <= i < |xs| => TrimValue(xs[i]))
  }

  /** What decoding restores of an encoded variant: all but the storage type, what does not fit the
      string buffers, and the type of a scalar UInt64. */
  function Restored(v: Variant): Variant {
    match v
    case Scalar(_, t, x) => Retag(t, TrimValue(x))
    case Array(_, t, xs, dims) => Array(Data, t, TrimAll(xs), dims)
  }

  lemma {:induction false} DataRead(j: Json, t: nat, xs: seq<Value>, k: nat)
    requires k <= |xs| && forall i :: 0 <= i < |xs| ==> Typed(t, xs[i])
    requires forall i :: 0 <= i < |xs| ==> Get(j, DataKey(i)) == EncodeValue(xs[i])
    ensures DecodeData(t, j, k) == Some(TrimAll(xs)[..k])
  {
    hide DataKey, EncodeValue, DecodeValue, Typed, Get, TrimValue;
    if k > 0 {
      DataRead(j, t, xs, k - 1);
      ValueRead(t, xs[k - 1]);
      assert TrimAll(xs)[..k] == TrimAll(xs)[..k - 1] + [TrimAll(xs)[k - 1]];
    }
  }

  lemma {:induction false} DimsRead(j: Json, dims: seq<nat>, k: nat)
    requires k <= |dims| && forall i :: 0 <= i < |dims| ==> dims[i] < TWO32
    requires forall i :: 0 <= i < |dims| ==> Get(j, DimKey(i)) == Integer(dims[i])
    ensures DecodeDims(j, k) == dims[..k]
  {
    hide DimKey, Field, Integer, Get;
    if k > 0 {
      DimsRead(j, dims, k - 1);
      FieldRead(dims[k - 1], TWO32);
    }
  }

  lemma SmallRead(n: nat)
    requires n < TWO31
    ensures UnpackInt(Integer(n)) == Some(n) && Wrap(n, 0, TWO32) == n && Field(Integer(n), TWO32) == n
  {
    hide Wrap;
  }

  /** The fields of an encoded array, as the decoder looks them up. */
  lemma ArrayFields(m: Fields, storage: Storage, t: nat, xs: seq<Value>, dims: seq<nat>)
    ensures var f := EncodeVariant(m, Array(storage, t, xs, dims));
            && (forall i :: 0 <= i < |xs| ==> Get(Obj(f), DataKey(i)) == EncodeValue(xs[i]))
            && (forall i :: 0 <= i < |dims| ==> Get(Obj(f), DimKey(i)) == Integer(dims[i]))
            && Get(Obj(f), "type") == (if xs == [] then TypeDescription(t) else Integer(t))
            && Get(Obj(f), "storageType") == Str(StorageName(storage))
            && Get(Obj(f), "arrayLength") == Integer(|xs|)
            && Has(Obj(f), "arrayDimensionsSize") && Get(Obj(f), "arrayDimensionsSize") == Integer(|dims|)
  {
    hide DataKey, DimKey, EncodeValue, Integer, StorageName, TypeDescription, WithData, WithDims, Fixed;
    var h := Header(m, storage, |xs|, t);
    var d := Dimensions(h, dims);
    AllFixed();
    KeepsFixed(h, t, xs, dims, "storageType");
    KeepsFixed(h, t, xs, dims, "arrayLength");
    KeepsFixed(h, t, xs, dims, "arrayDimensionsSize");
    DimensionsAt(h, dims);
    WithDataAt(d, t, xs, |xs|);
    forall i | 0 <= i < |dims|
      ensures Get(Obj(WithData(d, t, xs, |xs|)), DimKey(i)) == Get(Obj(d), DimKey(i))
    {
      Keys(i, i);
      forall k | 0 <= k < |xs|
        ensures DimKey(i) != DataKey(k)
      {
        Keys(k, i);
      }
    }
    if xs == [] {
      WithNothing(d, t, xs);
      KeepsFixed(h, t, xs, dims, "type");
    }
  }

  lemma AllFixed()
    ensures Fixed("type") && Fixed("storageType") && Fixed("arrayLength")
    ensures Fixed("arrayDimensionsSize") && Fixed("arrayDimensions")
  {
  }

  lemma DimensionsAt(m: Fields, dims: seq<nat>)
    ensures forall i :: 0 <= i < |dims| ==> Get(Obj(Dimensions(m, dims)), DimKey(i)) == Integer(dims[i])
  {
    hide DimKey, Integer, WithDims;
    WithDimsAt(m["arrayDimensionsSize" := Integer(|dims|)], dims, |dims|);
  }

  /** Dimensions and elements leave the fixed keys as they are, but for the number of dimensions, the
      dimension of an array that has none, and the type. */
  lemma KeepsFixed(h: Fields, t: nat, xs: seq<Value>, dims: seq<nat>, key: string)
    requires Fixed(key) && key != "arrayDimensions" && (key == "type" ==> xs == [])
    ensures var f := WithData(Dimensions(h, dims), t, xs, |xs|);
            if key == "arrayDimensionsSize" then Has(Obj(f), key) && f[key] == Integer(|dims|)
            else Get(Obj(f), key) == Get(Obj(h), key)
  {
    hide DataKey, DimKey, EncodeValue, Integer, WithData, WithDims, Fixed;
    var d := Dimensions(h, dims);
    WithDimsAt(h["arrayDimensionsSize" := Integer(|dims|)], dims, |dims|);
    WithDataAt(d, t, xs, |xs|);
    if xs == [] {
      WithNothing(d, t, xs);
    }
    forall i: nat
      ensures DataKey(i) != key && DimKey(i) != key
    {
      Keys(i, i);
    }
  }

  lemma WithNothing(m: Fields, t: nat, xs: seq<Value>)
    ensures WithData(m, t, xs, 0) == m
  {
  }

  /** A scalar of any listed type is read back as what becomes of its data. */
  lemma ScalarDecodes(m: Fields, storage: Storage, t: nat, x: Value)
    requires t <= LOCALIZEDTEXT
    ensures DecodeVariant(Obj(EncodeVariant(m, Scalar(storage, t, x)))) ==
            match DecodeValue(t, EncodeValue(x))
            case Some(y) => Some(Retag(t, y))
            case None => None
  {
    hide EncodeValue, DecodeValue, Integer, UnpackInt, Wrap, Retag;
    SmallRead(t);
    SmallRead(0);
  }

  lemma ScalarRead(m: Fields, storage: Storage, t: nat, x: Value)
    requires Typed(t, x)
    ensures DecodeVariant(Obj(EncodeVariant(m, Scalar(storage, t, x)))) == Some(Restored(Scalar(storage, t, x)))
  {
    hide EncodeValue, DecodeValue, TrimValue, Integer, UnpackInt, Wrap, Retag, EncodeVariant;
    ValueRead(t, x);
    assert t <= LOCALIZEDTEXT;
    ScalarDecodes(m, storage, t, x);
  }

  lemma ArrayRead(m: Fields, storage: Storage, t: nat, xs: seq<Value>, dims: seq<nat>)
    requires VariantOk(Array(storage, t, xs, dims)) && xs != []
    ensures DecodeVariant(Obj(EncodeVariant(m, Array(storage, t, xs, dims)))) == Some(Array(Data, t, TrimAll(xs), dims))
  {
    hide EncodeValue, EncodeVariant, Integer, UnpackInt, Wrap, Field, DataKey, DimKey, Typed, Get, Has;
    var j := Obj(EncodeVariant(m, Array(storage, t, xs, dims)));
    ArrayFields(m, storage, t, xs, dims);
    SmallRead(t);
    SmallRead(|xs|);
    SmallRead(|dims|);
    DataRead(j, t, xs, |xs|);
    DimsRead(j, dims, |dims|);
    assert TrimAll(xs)[..|xs|] == TrimAll(xs) && dims[..|dims|] == dims;
  }

  /** The type of an empty array is never written as an index, so decoding goes wrong. */
  lemma EmptyArrayLost(m: Fields, storage: Storage, t: nat, dims: seq<nat>)
    ensures DecodeVariant(Obj(EncodeVariant(m, Array(storage, t, [], dims)))) == None
  {
    hide EncodeVariant;
    ArrayFields(m, storage, t, [], dims);
  }

  /** Whether a variant comes through unchanged. */
  predicate Faithful(v: Variant) {
    v.storage == Data &&
    match v
    case Scalar(_, t, x) => t != UINT64 && PlainValue(x)
    case Array(_, _, xs, _) => xs != [] && forall i :: 0 <= i < |xs| ==> PlainValue(xs[i])
  }

  lemma RestoredIffFaithful(v: Variant)
    requires VariantOk(v) && (v.Array? ==> v.vs != [])
    ensures Restored(v) == v <==> Faithful(v)
  {
    hide TrimValue, PlainValue, Range;
    match v
    case Scalar(_, t, x) => TrimIffPlain(x);
    case Array(_, t, xs, _) =>
      forall i | 0 <= i < |xs|
        ensures TrimValue(xs[i]) == xs[i] <==> PlainValue(xs[i])
      {
        TrimIffPlain(xs[i]);
      }
      if forall i :: 0 <= i < |xs| ==> PlainValue(xs[i]) {
        assert TrimAll(xs) == xs;
      } else {
        var i :| 0 <= i < |xs| && !PlainValue(xs[i]);
        assert TrimAll(xs)[i] != xs[i];
      }
  }

  /** Every scalar and every non-empty array is read back with its type, length, dimensions and elements,
      strings trimmed to the buffers, except that a scalar UInt64 comes back as an Int64. */
  lemma VariantRead(m: Fields, v: Variant)
    requires VariantOk(v) && (v.Array? ==> v.vs != [])
    ensures Decode(Obj(EncodeVariant(m, v))) == Filled(Restored(v))
  {
    match v
    case Scalar(storage, t, x) => ScalarRead(m, storage, t, x);
    case Array(storage, t, xs, dims) => ArrayRead(m, storage, t, xs, dims);
  }

  /** A variant comes back unchanged, whatever object it was encoded into, exactly if it owns its data,
      is no scalar UInt64 and no empty array, and all its strings are shorter than 65535 characters and
      free of NUL. */
  lemma RoundTripIffFaithful(m: Fields, v: Variant)
    requires VariantOk(v)
    ensures Decode(Obj(EncodeVariant(m, v))) == Filled(v) <==> Faithful(v)
  {
    hide DecodeVariant, EncodeVariant, VariantOk, Restored;
    if v.Array? && v.vs == [] {
      EmptyArrayLost(m, v.storage, v.t, v.dims);
    } else {
      VariantRead(m, v);
      RestoredIffFaithful(v);
    }
  }

  // ---------- Variants without a value ----------

  /** The JSON value of a variant attribute: the string "empty" if the variant is without a value. */
  function EncodeAttribute(v: Option<Variant>): Json {
    match v
    case None => Str("empty")
    case Some(x) => Obj(EncodeVariant(map[], x))
  }

  /** "empty" is written for a variant without a value, and read back as one; nothing else is. */
  lemma EmptyComesBack(v: Option<Variant>)
    ensures Decode(EncodeAttribute(v)) == Empty <==> v == None
    ensures EncodeAttribute(None) == Str("empty")
    ensures forall j :: Decode(j) == Empty <==> j == Str("empty")
  {
    hide DecodeVariant, EncodeVariant;
  }

  // ---------- The code ----------

  /** zkUA_jsonEncode_UA_Variant_setObjectDataAndType, under the key "data" or that of an element. */
  method SetObjectDataAndType(obj: JsonObject, data: Json, t: nat, index: Option<nat>)
    modifies obj
    ensures obj.fields == old(obj.fields)[(if index.Some? then DataKey(index.value) else "data") := data]
                          ["type" := Integer(t)]
  {
    if index.None? {
      obj.Set("data", data);
    } else {
      obj.Set(DataKey(index.value), data);
    }
    obj.Set("type", Integer(t));
  }

  /** The value attribute of a variable, as zkUA_jsonEncodeAttributes writes it. */
  method JsonEncodeAttribute(v: Option<Variant>) returns (j: Json)
    ensures j == EncodeAttribute(v)
  {
    if v.None? {
      return Str("empty");
    }
    var obj := new JsonObject();
    JsonEncodeVariant(v.value, obj);
    return Obj(obj.fields);
  }

  /** zkUA_jsonEncode_UA_Variant. */
  method JsonEncodeVariant(v: Variant, obj: JsonObject)
    modifies obj
    ensures obj.fields == EncodeVariant(old(obj.fields), v)
  {
    hide EncodeValue, DataKey, DimKey, Integer;
    obj.Set("storageType", Str(StorageName(v.storage)));
    obj.Set("arrayLength", Integer(if v.Array? then |v.vs| else 0));
    obj.Set("type", TypeDescription(v.t));
    match v
    case Scalar(_, t, x) =>
      var data := JsonEncodeValue(x);
      SetObjectDataAndType(obj, data, t, None);
    case Array(_, t, xs, dims) =>
      ghost var header := obj.fields;
      obj.Set("arrayDimensionsSize", Integer(|dims|));
      if |dims| == 0 {
        obj.Set("arrayDimensions", Integer(0));
      } else {
        ghost var before := obj.fields;
        for i := 0 to |dims|
          invariant obj.fields == WithDims(before, dims, i)
        {
          obj.Set(DimKey(i), Integer(dims[i]));
        }
      }
      assert obj.fields == Dimensions(header, dims);
      ghost var before := obj.fields;
      for k := 0 to |xs|
        invariant obj.fields == WithData(before, t, xs, k)
      {
        var data := JsonEncodeValue(xs[k]);
        SetObjectDataAndType(obj, data, t, Some(k));
      }
  }

  /** zkUA_jsonDecode_UA_Variant. What is no object has no keys. */
  method JsonDecodeVariant(j: Json) returns (r: Decoded)
    ensures r == Decode(j)
  {
    hide DecodeScalar, DecodeArray;
    if j.Str? && j.s == "empty" {
      return Empty;
    }
    var v := JsonDecodeFields(if j.Obj? then j.fields else map[]);
    return if v.Some? then Filled(v.value) else Failed;
  }

  /** One pass over all keys, in any order, then the data. */
  method JsonDecodeFields(fields: Fields) returns (r: Option<Variant>)
    ensures r == DecodeVariant(Obj(fields))
  {
    hide DecodeValue, DataKey, DimKey;
    var keys := fields.Keys;
    var hasType, hasStorage, hasLength, hasDims := false, false, false, false;
    var t, length, dimsSize: nat := 0, 0, 0;
    while keys != {}
      invariant keys <= fields.Keys
      invariant hasType == ("type" in fields && "type" !in keys)
      invariant hasStorage == ("storageType" in fields && "storageType" !in keys)
      invariant hasLength == ("arrayLength" in fields && "arrayLength" !in keys)
      invariant hasDims == ("arrayDimensionsSize" in fields && "arrayDimensionsSize" !in keys)
      invariant hasType ==> UnpackInt(fields["type"]) == Some(t) && TypeOk(t)
      invariant hasStorage ==> StorageOk(fields["storageType"])
      invariant hasLength ==>
                  UnpackInt(fields["arrayLength"]).Some?
                      && length == Wrap(UnpackInt(fields["arrayLength"]).value, 0, TWO32)
      invariant dimsSize == if hasDims then Field(fields["arrayDimensionsSize"], TWO32) else 0
      decreases |keys|
    {
      var key :| key in keys;
      keys := keys - {key};
      var value := fields[key];
      if key == "type" {
        hasType := true;
        match UnpackInt(value)
        case None => return None;
        case Some(i) =>
          if !TypeOk(i) {
            return None;
          }
          t := i;
      } else if key == "storageType" {
        hasStorage := true;
        if !StorageOk(value) {
          return None;
        }
      } else if key == "arrayLength" {
        hasLength := true;
        match UnpackInt(value)
        case None => return None;
        case Some(i) => length := Wrap(i, 0, TWO32);
      } else if key == "arrayDimensionsSize" {
        hasDims := true;
        dimsSize := Field(value, TWO32);
      }
    }
    if !(hasType && hasStorage && hasLength) {
      return None;
    }
    if length != 0 && !hasDims {
      return None;
    }
    if length == 0 {
      return DecodeScalar(t, Obj(fields));
    }
    var xs: seq<Value> := [];
    for i := 0 to length
      invariant DecodeData(t, Obj(fields), i) == Some(xs)
    {
      match DecodeValue(t, Get(Obj(fields), DataKey(i)))
      case None =>
        DecodeDataFails(t, Obj(fields), i + 1, length);
        return None;
      case Some(x) => xs := xs + [x];
    }
    var dims: seq<nat> := [];
    for i := 0 to dimsSize
      invariant dims == DecodeDims(Obj(fields), i)
    {
      dims := dims + [Field(Get(Obj(fields), DimKey(i)), TWO32)];
    }
    return Some(Array(Data, t, xs, dims));
  }

  lemma {:induction false} DecodeDataFails(t: nat, j: Json, k: nat, n: nat)
    requires k <= n && DecodeData(t, j, k) == None
    ensures DecodeData(t, j, n) == None
  {
    hide DecodeValue, DataKey, Get;
    if k < n {
      DecodeDataFails(t, j, k, n - 1);
    }
  }
}
