/** The JSON forms and the types of variants, spelled out in numbers and strings: which integers of each type
    come back, what becomes of others, and what the encoders write. */
module Formats {
  import opened Sequences
  import opened JsonValues
  import opened Variants
  import opened VariantJson

  // ---------- Integers ----------

  /** The values of the C types at these indices: SByte, Byte, Int16, UInt16, Int32, UInt32, Int64, UInt64,
      DateTime and StatusCode. */
  predicate Fits(t: nat, i: int) {
    || (t == 1 && -128 <= i <= 127)
    || (t == 2 && 0 <= i <= 255)
    || (t == 3 && -32768 <= i <= 32767)
    || (t == 4 && 0 <= i <= 65535)
    || (t == 5 && -2147483648 <= i <= 2147483647)
    || (t == 6 && 0 <= i <= 4294967295)
    || (t == 7 && -9223372036854775808 <= i <= 9223372036854775807)
    || (t == 8 && 0 <= i <= 18446744073709551615)
    || (t == 12 && -9223372036854775808 <= i <= 9223372036854775807)
    || (t == 18 && 0 <= i <= 4294967295)
  }

  /** The number of values of the type at index t. */
  function Values(t: nat): int {
    if t == 1 || t == 2 then 256
    else if t == 3 || t == 4 then 65536
    else if t == 5 || t == 6 || t == 18 then 4294967296
    else 18446744073709551616
  }

  lemma FitsIsTyped(t: nat, i: int)
    ensures Fits(t, i) <==> Typed(t, Number(i))
  {
  }

  /** Every integer of the C type's own interval comes back unchanged, as a scalar; a UInt64 as an Int64 of
      the same 64 bits. */
  lemma IntegerComesBack(m: Fields, storage: Storage, t: nat, i: int)
    requires Fits(t, i)
    ensures Decode(Obj(EncodeVariant(m, Scalar(storage, t, Number(i))))) ==
            Filled(if t == 8 then Scalar(Data, 7, Number(if i <= 9223372036854775807 then i
                                                         else i - 18446744073709551616))
                   else Scalar(Data, t, Number(i)))
  {
    hide EncodeVariant, DecodeVariant, Typed;
    FitsIsTyped(t, i);
    VariantRead(m, Scalar(storage, t, Number(i)));
  }

  function Numbers(ns: seq<int>): (xs: seq<Value>)
    ensures |xs| == |ns| && forall k :: 0 <= k < |ns| ==> xs[k] == Number(ns[k])
  {
    seq(|ns|, k requires 0 <= k < |ns| => Number(ns[k]))
  }

  /** And as the elements of an array, with the array's dimensions. */
  lemma IntegersComeBack(m: Fields, storage: Storage, t: nat, ns: seq<int>, dims: seq<nat>)
    requires 0 < |ns| <= 2147483647 && forall k :: 0 <= k < |ns| ==> Fits(t, ns[k])
    requires |dims| <= 2147483647 && forall k :: 0 <= k < |dims| ==> dims[k] <= 4294967295
    ensures Decode(Obj(EncodeVariant(m, Array(storage, t, Numbers(ns), dims)))) ==
            Filled(Array(Data, t, Numbers(ns), dims))
  {
    hide EncodeVariant, DecodeVariant, Typed;
    forall k | 0 <= k < |ns|
      ensures Typed(t, Numbers(ns)[k])
    {
      FitsIsTyped(t, ns[k]);
    }
    FitsHasType(t, ns[0]);
    VariantRead(m, Array(storage, t, Numbers(ns), dims));
    assert TrimAll(Numbers(ns)) == Numbers(ns);
  }

  lemma FitsHasType(t: nat, i: int)
    requires Fits(t, i)
    ensures IsNumber(t)
  {
  }

  /** Any other integer, under such a type, is read as the one of the C type's interval that differs from it by
      a multiple of the number of values. */
  lemma IntegerIsReduced(m: Fields, storage: Storage, t: nat, i: int) returns (r: int, k: int)
    requires t in {1, 2, 3, 4, 5, 6, 7, 12, 18}
    ensures Decode(Obj(EncodeVariant(m, Scalar(storage, t, Number(i))))) == Filled(Scalar(Data, t, Number(r)))
    ensures Fits(t, r) && i - r == k * Values(t)
  {
    hide EncodeVariant, DecodeVariant, Wrap;
    ScalarDecodes(m, storage, t, Number(i));
    var j := Wrap(i, -0x8000_0000_0000_0000, 0x1_0000_0000_0000_0000);
    var k1 := WrapLoses(i, -0x8000_0000_0000_0000, 0x1_0000_0000_0000_0000);
    var u := if t == 7 || t == 12 then j else Wrap(j, -0x8000_0000, 0x1_0000_0000);
    var k2 := WrapLoses(j, -0x8000_0000, 0x1_0000_0000);
    r := Wrap(u, Range(t).0, Range(t).1);
    var k3 := WrapLoses(u, Range(t).0, Range(t).1);
    k := if t == 7 || t == 12 then k1 + k3
         else if t == 5 || t == 6 || t == 18 then 4294967296 * k1 + k2 + k3
         else if t == 3 || t == 4 then 281474976710656 * k1 + 65536 * k2 + k3
         else 72057594037927936 * k1 + 16777216 * k2 + k3;
  }

  // ---------- Other types ----------

  /** A string that the buffers of 65535 characters leave alone. */
  predicate Short(s: string) {
    |s| < 65535 && '\0' !in s
  }

  predicate GuidFits(g: Guid) {
    && g.data1 <= 4294967295 && g.data2 <= 65535 && g.data3 <= 65535
    && |g.data4| == 8 && forall k :: 0 <= k < 8 ==> g.data4[k] <= 255
  }

  predicate NodeFits(n: UaNodeId) {
    && n.ns <= 65535
    && match n.id
       case Numeric(i) => i <= 4294967295
       case Name(s) => Short(s)
       case Unique(g) => GuidFits(g)
       case Opaque(s) => Short(s)
  }

  /** A value of the type at index t, whose strings are short: Boolean, String, Guid, ByteString, XmlElement,
      NodeId, ExpandedNodeId, QualifiedName and LocalizedText. */
  predicate ValueFits(t: nat, v: Value) {
    match v
    case Boolean(_) => t == 0
    case Number(_) => false
    case Text(s) => (t == 11 || t == 14 || t == 15) && Short(s)
    case GuidValue(g) => t == 13 && GuidFits(g)
    case NodeValue(n) => t == 16 && NodeFits(n)
    case Expanded(n, uri, serverIndex) => t == 17 && NodeFits(n) && Short(uri) && serverIndex <= 4294967295
    case Qualified(ns, name) => t == 19 && ns <= 65535 && Short(name)
    case Localized(locale, text) => t == 20 && Short(locale) && Short(text)
  }

  lemma FittingIsPlain(t: nat, v: Value)
    requires ValueFits(t, v)
    ensures Typed(t, v) && PlainValue(v)
  {
  }

  /** Every value of the other types comes back unchanged, as a scalar and as the elements of an array. */
  lemma ValueComesBack(m: Fields, storage: Storage, t: nat, v: Value)
    requires ValueFits(t, v)
    ensures Decode(Obj(EncodeVariant(m, Scalar(storage, t, v)))) == Filled(Scalar(Data, t, v))
  {
    hide EncodeVariant, DecodeVariant, Typed, PlainValue;
    FittingIsPlain(t, v);
    VariantRead(m, Scalar(storage, t, v));
    TrimIffPlain(v);
    FittingIsOther(t, v);
  }

  lemma FittingIsOther(t: nat, v: Value)
    requires ValueFits(t, v)
    ensures t != 8 && (t == 0 || t == 11 || 13 <= t <= 17 || 19 <= t <= 20)
  {
  }

  lemma ValuesComeBack(m: Fields, storage: Storage, t: nat, vs: seq<Value>, dims: seq<nat>)
    requires 0 < |vs| <= 2147483647 && forall k :: 0 <= k < |vs| ==> ValueFits(t, vs[k])
    requires |dims| <= 2147483647 && forall k :: 0 <= k < |dims| ==> dims[k] <= 4294967295
    ensures Decode(Obj(EncodeVariant(m, Array(storage, t, vs, dims)))) == Filled(Array(Data, t, vs, dims))
  {
    hide EncodeVariant, DecodeVariant, Typed, PlainValue, TrimValue, ValueFits;
    forall k | 0 <= k < |vs|
      ensures Typed(t, vs[k]) && TrimValue(vs[k]) == vs[k]
    {
      FittingIsPlain(t, vs[k]);
      TrimIffPlain(vs[k]);
    }
    FittingIsOther(t, vs[0]);
    VariantRead(m, Array(storage, t, vs, dims));
    assert TrimAll(vs) == vs;
  }

  // ---------- What is written ----------

  /** A scalar: four keys, the length 0, and the index of the type. */
  lemma ScalarIsWritten(t: nat, i: int)
    requires Fits(t, i) && i <= 9223372036854775807
    ensures EncodeVariant(map[], Scalar(Data, t, Number(i))) ==
            map["storageType" := Str("UA_VARIANT_DATA"), "arrayLength" := Int(0), "data" := Int(i), "type" := Int(t)]
    ensures EncodeVariant(map[], Scalar(NoDelete, t, Number(i))) ==
            map["storageType" := Str("UA_VARIANT_DATA_NODELETE"), "arrayLength" := Int(0), "data" := Int(i),
                "type" := Int(t)]
  {
  }

  /** An array: a key for each element and for each dimension. */
  lemma ArrayIsWritten(i: int, k: int)
    requires Fits(5, i) && Fits(5, k)
    ensures EncodeVariant(map[], Array(Data, 5, [Number(i), Number(k)], [2, 1])) ==
            map["storageType" := Str("UA_VARIANT_DATA"), "arrayLength" := Int(2), "arrayDimensionsSize" := Int(2),
                "arrayDimensions[0]" := Int(2), "arrayDimensions[1]" := Int(1),
                "data[0]" := Int(i), "data[1]" := Int(k), "type" := Int(5)]
  {
    KeysOfTwo();
    hide DataKey, DimKey, Integer;
    SmallIsWritten(i);
    SmallIsWritten(k);
    SmallIsWritten(0);
    SmallIsWritten(1);
    SmallIsWritten(2);
    SmallIsWritten(5);
    var h := Header(map[], Data, 2, 5);
    var d := Dimensions(h, [2, 1]);
    assert WithDims(h["arrayDimensionsSize" := Int(2)], [2, 1], 2) ==
           h["arrayDimensionsSize" := Int(2)]["arrayDimensions[0]" := Int(2)]["arrayDimensions[1]" := Int(1)] by {
      assert WithDims(h["arrayDimensionsSize" := Int(2)], [2, 1], 1) ==
             h["arrayDimensionsSize" := Int(2)]["arrayDimensions[0]" := Int(2)];
    }
    assert WithData(d, 5, [Number(i), Number(k)], 1) == d["data[0]" := Int(i)]["type" := Int(5)];
    assert WithData(d, 5, [Number(i), Number(k)], 2) ==
           d["data[0]" := Int(i)]["type" := Int(5)]["data[1]" := Int(k)]["type" := Int(5)];
  }

  /** Without dimensions, the key "arrayDimensions" stands for them. */
  lemma VectorIsWritten(i: int)
    requires Fits(5, i)
    ensures EncodeVariant(map[], Array(Data, 5, [Number(i)], [])) ==
            map["storageType" := Str("UA_VARIANT_DATA"), "arrayLength" := Int(1), "arrayDimensionsSize" := Int(0),
                "arrayDimensions" := Int(0), "data[0]" := Int(i), "type" := Int(5)]
  {
    KeysOfTwo();
    hide DataKey, Integer;
    SmallIsWritten(i);
    SmallIsWritten(0);
    SmallIsWritten(1);
    SmallIsWritten(5);
    var d := Dimensions(Header(map[], Data, 1, 5), []);
    assert WithData(d, 5, [Number(i)], 1) == WithData(d, 5, [Number(i)], 0)["data[0]" := Int(i)]["type" := Int(5)];
  }

  lemma SmallIsWritten(i: int)
    requires Fits(5, i)
    ensures Integer(i) == Int(i)
  {
  }

  lemma KeysOfTwo()
    ensures DataKey(0) == "data[0]" && DataKey(1) == "data[1]"
    ensures DimKey(0) == "arrayDimensions[0]" && DimKey(1) == "arrayDimensions[1]"
  {
    assert Paths.Decimal(0) == "0" && Paths.Decimal(1) == "1";
  }

  /** Guids, node ids and names, as JSON objects. */
  lemma ObjectsAreWritten(ns: nat, id: nat, s: string)
    requires ns <= 65535 && id <= 4294967295 && Short(s)
    ensures EncodeValue(NodeValue(UaNodeId(ns, Numeric(id)))) ==
            Obj(map["namespaceIndex" := Int(ns), "identifierType" := Int(0), "identifier" := Int(id),
                    "identifierTypeString" := Str("UA_NODEIDTYPE_NUMERIC")])
    ensures EncodeValue(NodeValue(UaNodeId(ns, Name(s)))) ==
            Obj(map["namespaceIndex" := Int(ns), "identifierType" := Int(3), "identifier" := Str(s),
                    "identifierTypeString" := Str("UA_NODEIDTYPE_STRING")])
    ensures EncodeValue(NodeValue(UaNodeId(ns, Opaque(s)))) ==
            Obj(map["namespaceIndex" := Int(ns), "identifierType" := Int(5), "identifier" := Str(s),
                    "identifierTypeString" := Str("UA_NODEIDTYPE_BYTESTRING")])
    ensures EncodeValue(Qualified(ns, s)) == Obj(map["namespaceIndex" := Int(ns), "name" := Str(s)])
    ensures EncodeValue(Localized(s, s)) ==
            Obj(map["locale" := Obj(map["length" := Int(|s|), "data" := Str(s)]),
                    "text" := Obj(map["length" := Int(|s|), "data" := Str(s)])])
    ensures EncodeValue(Expanded(UaNodeId(ns, Numeric(id)), s, id)) ==
            Obj(map["nodeId" := EncodeValue(NodeValue(UaNodeId(ns, Numeric(id)))), "namespaceUri" := Str(s),
                    "serverIndex" := Int(id)])
    ensures EncodeValue(Text(s)) == Str(s) && EncodeValue(Boolean(true)) == Bool(true)
  {
    hide Buffered;
    BufferedIffPlain(s);
  }

  lemma GuidIsWritten(a: nat, b: nat, c: nat, d: seq<nat>)
    requires GuidFits(Guid(a, b, c, d))
    ensures EncodeGuid(Guid(a, b, c, d)) ==
            Obj(map["data1" := Int(a), "data2" := Int(b), "data3" := Int(c),
                    "data4" := Arr([Int(d[0]), Int(d[1]), Int(d[2]), Int(d[3]),
                                    Int(d[4]), Int(d[5]), Int(d[6]), Int(d[7])]),
                    "guidString" := Str(GuidText(Guid(a, b, c, d)))])
  {
    hide GuidText;
    assert Integers(d) == [Int(d[0]), Int(d[1]), Int(d[2]), Int(d[3]), Int(d[4]), Int(d[5]), Int(d[6]), Int(d[7])];
  }

  // ---------- What is refused ----------

  /** An object is refused that has no type or no length, or another storage type than the two, or the type 999
      of an unsupported type, or an index outside the table of 163 types. */
  lemma Refused(f: Fields)
    requires || !(Get(Obj(f), "type").Int? && 0 <= Get(Obj(f), "type").i < 163)
             || !Get(Obj(f), "arrayLength").Int?
             || (Get(Obj(f), "storageType") != Str("UA_VARIANT_DATA")
                 && Get(Obj(f), "storageType") != Str("UA_VARIANT_DATA_NODELETE"))
    requires Get(Obj(f), "type").Int? ==> Fits(5, Get(Obj(f), "type").i)
    ensures Decode(Obj(f)) == Failed
    ensures Decode(Obj(f["type" := Int(999)])) == Failed
  {
    hide DecodeScalar, DecodeArray;
  }

  /** An array without the number of its dimensions is refused, and one with an element that cannot be read. */
  lemma RefusedArray(f: Fields, t: nat, n: nat, k: nat)
    requires Get(Obj(f), "type") == Int(t) && t <= 20 && Get(Obj(f), "arrayLength") == Int(n) && 0 < n <= 2147483647
    requires "arrayDimensionsSize" !in f || (k < n && DecodeValue(t, Get(Obj(f), DataKey(k))) == None)
    ensures Decode(Obj(f)) == Failed
  {
    hide DecodeScalar, DecodeValue, DataKey;
    if k < n && DecodeValue(t, Get(Obj(f), DataKey(k))) == None {
      BadElement(t, Obj(f), k, n);
    }
  }

  lemma {:induction false} BadElement(t: nat, j: Json, k: nat, n: nat)
    requires k < n && DecodeValue(t, Get(j, DataKey(k))) == None
    ensures DecodeData(t, j, n) == None
    decreases n
  {
    if k < n - 1 {
      BadElement(t, j, k, n - 1);
    }
  }

  /** Bytes of a Guid that are missing are 0, and so are its missing numbers; a ninth byte is refused. */
  lemma IncompleteGuids(a: nat)
    requires a <= 255
    ensures DecodeGuid(Obj(map["data4" := Arr([Int(a)])])) == Some(Guid(0, 0, 0, [a, 0, 0, 0, 0, 0, 0, 0]))
    ensures DecodeGuid(Obj(map["data4" := Arr(seq(9, _ => Int(a)))])) == None
  {
    var items := [Int(a)];
    assert DecodeBytes(items, 0) == Some([]) && UnpackInt(items[0]) == Some(a as int);
    assert DecodeBytes(items, 1) == Some([] + [a]);
    var j := Obj(map["data4" := Arr([Int(a)])]);
    assert Get(j, "data4") == Arr(items) && Get(j, "data1") == Get(j, "data2") == Get(j, "data3") == Null;
    var zeros: seq<nat> := [0, 0, 0, 0, 0, 0, 0];
    assert DecodeGuid(j).Some? && DecodeGuid(j).value.data4 == [a] + zeros;
    assert [a] + zeros == [a, 0, 0, 0, 0, 0, 0, 0];
    assert DecodeGuid(j).value == Guid(0, 0, 0, [a] + zeros);
  }
}
