/** The encoders of single values, which fill JSON objects key by key, and the decoder of Guids, which
    fills a struct from the keys it finds. */
module VariantEncoders {
  import opened Sequences
  import opened JsonValues
  import opened Widths
  import opened Variants

  /** zkUA_jsonEncode_UA_Guid. */
  method JsonEncodeGuid(g: Guid, obj: JsonObject)
    modifies obj
    ensures obj.fields == GuidFields(old(obj.fields), g)
  {
    hide Integer, GuidText;
    obj.Set("data1", Integer(g.data1));
    obj.Set("data2", Integer(g.data2));
    obj.Set("data3", Integer(g.data3));
    obj.Set("data4", Arr(Integers(g.data4)));
    obj.Set("guidString", Str(GuidText(g)));
  }

  /** zkUA_jsonEncode_UA_NodeId. */
  method JsonEncodeNodeId(n: UaNodeId, obj: JsonObject)
    modifies obj
    ensures obj.fields == NodeIdFields(old(obj.fields), n)
  {
    hide Integer, EncodeString, GuidFields;
    obj.Set("namespaceIndex", Integer(n.ns));
    match n.id
    case Numeric(i) =>
      obj.Set("identifierType", Integer(0));
      obj.Set("identifier", Integer(i));
      obj.Set("identifierTypeString", Str("UA_NODEIDTYPE_NUMERIC"));
    case Name(s) =>
      obj.Set("identifierType", Integer(3));
      obj.Set("identifier", EncodeString(s));
      obj.Set("identifierTypeString", Str("UA_NODEIDTYPE_STRING"));
    case Unique(g) =>
      obj.Set("identifierType", Integer(4));
      var id := new JsonObject();
      JsonEncodeGuid(g, id);
      obj.Set("identifier", Obj(id.fields));
      obj.Set("identifierTypeString", Str("UA_NODEIDTYPE_GUID"));
    case Opaque(s) =>
      obj.Set("identifierType", Integer(5));
      obj.Set("identifier", EncodeString(s));
      obj.Set("identifierTypeString", Str("UA_NODEIDTYPE_BYTESTRING"));
  }

  /** One of the strings of zkUA_jsonEncode_UA_LocalizedText. */
  method JsonEncodeText(s: string) returns (j: Json)
    ensures j == EncodeText(s)
  {
    hide Integer, EncodeString;
    var obj := new JsonObject();
    obj.Set("length", Integer(|s|));
    obj.Set("data", EncodeString(s));
    return Obj(obj.fields);
  }

  /** zkUA_jsonEncode_UA_Variant_setValue, up to the object that holds the data. */
  method JsonEncodeValue(v: Value) returns (j: Json)
    ensures j == EncodeValue(v)
  {
    hide Integer, EncodeString, GuidFields, NodeIdFields, EncodeText;
    match v
    case Boolean(b) => return Bool(b);
    case Number(i) => return Integer(i);
    case Text(s) => return EncodeString(s);
    case GuidValue(g) =>
      var obj := new JsonObject();
      JsonEncodeGuid(g, obj);
      return Obj(obj.fields);
    case NodeValue(n) =>
      var obj := new JsonObject();
      JsonEncodeNodeId(n, obj);
      return Obj(obj.fields);
    case Expanded(n, uri, serverIndex) =>
      var obj := new JsonObject();
      var nodeId := new JsonObject();
      JsonEncodeNodeId(n, nodeId);
      obj.Set("nodeId", Obj(nodeId.fields));
      obj.Set("namespaceUri", EncodeString(uri));
      obj.Set("serverIndex", Integer(serverIndex));
      return Obj(obj.fields);
    case Qualified(ns, name) =>
      var obj := new JsonObject();
      obj.Set("namespaceIndex", Integer(ns));
      obj.Set("name", EncodeString(name));
      return Obj(obj.fields);
    case Localized(locale, text) =>
      var obj := new JsonObject();
      var l := JsonEncodeText(locale);
      var t := JsonEncodeText(text);
      obj.Set("locale", l);
      obj.Set("text", t);
      return Obj(obj.fields);
  }

  /** zkUA_jsonDecode_UA_Guid: the keys come in any order; items of data4 are stored one by one. */
  method JsonDecodeGuid(j: Json) returns (r: Option<Guid>)
    ensures r == DecodeGuid(j)
  {
    hide Field, DecodeBytes, Wrap, UnpackInt;
    var data1, data2, data3: nat := 0, 0, 0;
    var data4 := new nat[8](_ => 0);
    if Has(j, "data1") {
      data1 := Field(Get(j, "data1"), TWO32);
    }
    if Has(j, "data2") {
      data2 := Field(Get(j, "data2"), TWO16);
    }
    if Has(j, "data3") {
      data3 := Field(Get(j, "data3"), TWO16);
    }
    FieldNothing();
    BytesNone();
    if Get(j, "data4").Arr? {
      var items := Get(j, "data4").items;
      if |items| > 8 {
        return None;
      }
      for i := 0 to |items|
        invariant DecodeBytes(items, i) == Some(data4[..i])
        invariant forall k :: i <= k < 8 ==> data4[k] == 0
      {
        BytesOneMore(items, i);
        match UnpackInt(items[i])
        case None =>
          BytesFail(items, i + 1, |items|);
          return None;
        case Some(v) =>
          ghost var front := data4[..i];
          data4[i] := Wrap(v, 0, TWO8);
          assert data4[..i + 1] == front + [Wrap(v, 0, TWO8)];
      }
      assert data4[..] == data4[..|items|] + seq(8 - |items|, _ => 0);
    } else {
      assert data4[..] == [] + seq(8, _ => 0);
    }
    return Some(Guid(data1, data2, data3, data4[..]));
  }

  lemma BytesNone()
    ensures forall items :: DecodeBytes(items, 0) == Some([])
  {
  }

  lemma BytesOneMore(items: seq<Json>, k: nat)
    requires k < |items| && DecodeBytes(items, k).Some?
    ensures DecodeBytes(items, k + 1) ==
            match UnpackInt(items[k])
            case Some(i) => Some(DecodeBytes(items, k).value + [Wrap(i, 0, TWO8)])
            case None => None
  {
  }

  lemma FieldNothing()
    ensures Field(Null, TWO32) == 0 && Field(Null, TWO16) == 0
  {
  }

  lemma {:induction false} BytesFail(items: seq<Json>, k: nat, n: nat)
    requires k <= n <= |items| && DecodeBytes(items, k) == None
    ensures DecodeBytes(items, n) == None
  {
    if k < n {
      BytesFail(items, k, n - 1);
    }
  }
}
