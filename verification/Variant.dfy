/** The JSON form of variants: scalars and arrays of the types that it covers, what the encoders write
    and what the decoders read back. */
module Variants {
  import opened Sequences
  import opened JsonValues
  import opened Widths

  // ---------- Values ----------

  datatype Guid = Guid(data1: nat, data2: nat, data3: nat, data4: seq<nat>)

  datatype Identifier = Numeric(n: nat) | Name(s: string) | Unique(g: Guid) | Opaque(s: string)

  datatype UaNodeId = UaNodeId(ns: nat, id: Identifier)

  datatype Value =
    | Boolean(b: bool)
    | Number(i: int)
    | Text(s: string)
    | GuidValue(g: Guid)
    | NodeValue(n: UaNodeId)
    | Expanded(n: UaNodeId, uri: string, serverIndex: nat)
    | Qualified(ns: nat, name: string)
    | Localized(locale: string, text: string)

  datatype Storage = Data | NoDelete

  /** A scalar or an array of a type, given by its index in the type table; dims are the dimensions. */
  datatype Variant = Scalar(storage: Storage, t: nat, v: Value)
      | Array(storage: Storage, t: nat, vs: seq<Value>, dims: seq<nat>)

  const BOOLEAN := 0
  const SBYTE := 1
  const BYTE := 2
  const INT16 := 3
  const UINT16 := 4
  const INT32 := 5
  const UINT32 := 6
  const INT64 := 7
  const UINT64 := 8
  const STRING := 11
  const DATETIME := 12
  const GUID := 13
  const BYTESTRING := 14
  const XMLELEMENT := 15
  const NODEID := 16
  const EXPANDEDNODEID := 17
  const STATUSCODE := 18
  const QUALIFIEDNAME := 19
  const LOCALIZEDTEXT := 20

  predicate IsNumber(t: nat) {
    SBYTE <= t <= UINT64 || t == DATETIME || t == STATUSCODE
  }

  predicate IsText(t: nat) {
    t == STRING || t == BYTESTRING || t == XMLELEMENT
  }

  /** The lowest value and the number of values of an integer type. */
  function Range(t: nat): (r: (int, nat))
    requires IsNumber(t)
    ensures IsWidth(r.1)
  {
    if t == SBYTE then (-0x80, TWO8)
    else if t == BYTE then (0, TWO8)
    else if t == INT16 then (-0x8000, TWO16)
    else if t == UINT16 then (0, TWO16)
    else if t == INT32 then (-TWO31, TWO32)
    else if t == UINT32 || t == STATUSCODE then (0, TWO32)
    else if t == UINT64 then (0, TWO64)
    else (-TWO63, TWO64)
  }

  predicate GuidOk(g: Guid) {
    g.data1 < TWO32 && g.data2 < TWO16 && g.data3 < TWO16 && |g.data4| == 8 && forall i :: 0 <= i < 8 ==>
        g.data4[i] < TWO8
  }

  predicate NodeOk(n: UaNodeId) {
    n.ns < TWO16 && (n.id.Numeric? ==> n.id.n < TWO32) && (n.id.Unique? ==> GuidOk(n.id.g))
  }

  /** v is a value of type t. */
  predicate Typed(t: nat, v: Value) {
    match v
    case Boolean(_) => t == BOOLEAN
    case Number(i) => IsNumber(t) && Range(t).0 <= i < Range(t).0 + Range(t).1
    case Text(_) => IsText(t)
    case GuidValue(g) => t == GUID && GuidOk(g)
    case NodeValue(n) => t == NODEID && NodeOk(n)
    case Expanded(n, _, serverIndex) => t == EXPANDEDNODEID && NodeOk(n) && serverIndex < TWO32
    case Qualified(ns, _) => t == QUALIFIEDNAME && ns < TWO16
    case Localized(_, _) => t == LOCALIZEDTEXT
  }

  predicate VariantOk(v: Variant) {
    match v
    case Scalar(_, t, x) => Typed(t, x)
    case Array(_, t, xs, dims) =>
      && (t == BOOLEAN || IsNumber(t) || IsText(t) || t == GUID || NODEID <= t <= LOCALIZEDTEXT)
      && |xs| < TWO31 && |dims| < TWO31
      && (forall i :: 0 <= i < |xs| ==> Typed(t, xs[i]))
      && forall i :: 0 <= i < |dims| ==> dims[i] < TWO32
  }

  // ---------- Strings ----------

  /** The buffers of 65535 characters that strings pass through, on the way out and on the way back. */
  const BUFFER := 65535

  function UpToNul(s: string): (r: string)
    ensures |r| <= |s|
  {
    if s == "" || s[0] == '\0' then "" else [s[0]] + UpToNul(s[1..])
  }

  /** snprintf of a string into a buffer. */
  function Buffered(s: string): string {
    var r := UpToNul(s);
    if |r| < BUFFER then r else r[..BUFFER - 1]
  }

  /** A string without NUL that fits the buffer. */
  predicate Plain(s: string) {
    |s| < BUFFER && '\0' !in s
  }

  lemma {:induction false} UpToNulSame(s: string)
    ensures '\0' !in UpToNul(s)
    ensures UpToNul(s) == s <==> '\0' !in s
  {
    if s != "" && s[0] != '\0' {
      UpToNulSame(s[1..]);
      assert s == [s[0]] + s[1..];
    } else if s != "" {
      assert s[0] in s;
    }
  }

  lemma BufferedIffPlain(s: string)
    ensures Buffered(s) == s <==> Plain(s)
    ensures Plain(s) <==> |s| < 65535 && '\0' !in s
    ensures Buffered(Buffered(s)) == Buffered(s)
  {
    UpToNulSame(s);
    UpToNulSame(Buffered(s));
    if |UpToNul(s)| >= BUFFER {
      assert forall i :: 0 <= i < BUFFER - 1 ==> Buffered(s)[i] in UpToNul(s);
    }
  }

  function EncodeString(s: string): Json {
    Str(Buffered(s))
  }

  /** None where a null pointer would be printed. */
  function DecodeString(j: Json): Option<string> {
    if j.Str? then Some(Buffered(j.s)) else None
  }

  lemma StringRead(s: string)
    ensures DecodeString(EncodeString(s)) == Some(Buffered(s))
  {
    BufferedIffPlain(s);
  }

  // ---------- Guids ----------

  function Integers(ns: seq<nat>): (r: seq<Json>)
    ensures |r| == |ns| && forall i :: 0 <= i < |ns| ==> r[i] == Integer(ns[i])
  {
    seq(|ns|, i requires 0 <= i < |ns| => Integer(ns[i]))
  }

  /** The last w hexadecimal digits of n. */
  function Hex(n: nat, w: nat): string {
    if w == 0 then ""
    else
      Hex(n / 16, w - 1) + [['0', '1', '2', '3', '4', '5', '6', '7', '8', '9', 'A', 'B', 'C', 'D', 'E', 'F'][n % 16]]
  }

  function HexBytes(bytes: seq<nat>): string {
    if bytes == [] then "" else Hex(bytes[0], 2) + HexBytes(bytes[1..])
  }

  /** The readable form, which is written and never read. */
  function GuidText(g: Guid): string {
    var k := if |g.data4| < 2 then |g.data4| else 2;
    "{" + Hex(g.data1, 8) + "-" + Hex(g.data2, 4) + "-" + Hex(g.data3, 4) + "-" + HexBytes(g.data4[..k]) + "-" +
        HexBytes(g.data4[k..]) + "}"
  }

  /** The fields of an object after a Guid has been encoded into it. */
  function GuidFields(m: map<string, Json>, g: Guid): map<string, Json> {
    m["data1" := Integer(g.data1)]["data2" := Integer(g.data2)]["data3" := Integer(g.data3)]
    ["data4" := Arr(Integers(g.data4))]["guidString" := Str(GuidText(g))]
  }

  function EncodeGuid(g: Guid): Json {
    Obj(GuidFields(map[], g))
  }

  /** A field whose value is not an integer keeps its initial 0. */
  function Field(j: Json, size: nat): (r: nat)
    requires IsWidth(size)
  {
    match UnpackInt(j)
    case Some(i) => Wrap(i, 0, size)
    case None => 0
  }

  /** The first k bytes; None where an item is not an integer. */
  function DecodeBytes(items: seq<Json>, k: nat): (r: Option<seq<nat>>)
    requires k <= |items|
    ensures r.Some? ==> |r.value| == k
  {
    if k == 0 then Some([])
    else
      match (DecodeBytes(items, k - 1), UnpackInt(items[k - 1]))
      case (Some(front), Some(i)) => Some(front + [Wrap(i, 0, TWO8)])
      case _ => None
  }

  /** Items that are missing stay 0; more than eight would be written out of bounds. */
  function DecodeGuid(j: Json): Option<Guid> {
    var items := match Get(j, "data4") case Arr(items) => items case _ => [];
    if |items| > 8 then None
    else
      match DecodeBytes(items, |items|)
      case Some(bytes) =>
        Some(Guid(Field(Get(j, "data1"), TWO32), Field(Get(j, "data2"), TWO16), Field(Get(j, "data3"), TWO16),
                  bytes + seq(8 - |items|, _ => 0)))
      case None => None
  }

  /** A 32-bit number survives being unpacked as a signed integer and stored again. */
  lemma FieldRead(x: nat, size: nat)
    requires x < size && (size == TWO32 || size == TWO16 || size == TWO8)
    ensures Field(Integer(x), size) == x
    ensures UnpackInt(Integer(x)).Some? && Wrap(UnpackInt(Integer(x)).value, 0, size) == x
  {
    hide Wrap;
    SignedAndBack(x);
  }

  lemma {:induction false} BytesRead(ns: seq<nat>, k: nat)
    requires k <= |ns| && forall i :: 0 <= i < |ns| ==> ns[i] < TWO8
    ensures DecodeBytes(Integers(ns), k) == Some(ns[..k])
  {
    if k > 0 {
      BytesRead(ns, k - 1);
      FieldRead(ns[k - 1], TWO8);
      assert ns[..k] == ns[..k - 1] + [ns[k - 1]];
    }
  }

  lemma GuidRead(g: Guid)
    requires GuidOk(g)
    ensures DecodeGuid(EncodeGuid(g)) == Some(g)
  {
    hide Field, DecodeBytes, Integer, GuidText;
    FieldRead(g.data1, TWO32);
    FieldRead(g.data2, TWO16);
    FieldRead(g.data3, TWO16);
    BytesRead(g.data4, 8);
    assert g.data4[..8] == g.data4 && g.data4 + seq(8 - |g.data4|, _ => 0) == g.data4;
  }

  // ---------- Node ids ----------

  function IdentifierType(id: Identifier): (int, string) {
    match id
    case Numeric(_) => (0, "UA_NODEIDTYPE_NUMERIC")
    case Name(_) => (3, "UA_NODEIDTYPE_STRING")
    case Unique(_) => (4, "UA_NODEIDTYPE_GUID")
    case Opaque(_) => (5, "UA_NODEIDTYPE_BYTESTRING")
  }

  function EncodeIdentifier(id: Identifier): Json {
    match id
    case Numeric(i) => Integer(i)
    case Name(s) => EncodeString(s)
    case Unique(g) => EncodeGuid(g)
    case Opaque(s) => EncodeString(s)
  }

  function NodeIdFields(m: map<string, Json>, n: UaNodeId): map<string, Json> {
    m["namespaceIndex" := Integer(n.ns)]["identifierType" := Integer(IdentifierType(n.id).0)]
    ["identifier" := EncodeIdentifier(n.id)]["identifierTypeString" := Str(IdentifierType(n.id).1)]
  }

  function EncodeNodeId(n: UaNodeId): Json {
    Obj(NodeIdFields(map[], n))
  }

  function DecodeIdentifier(idType: int, j: Json): Option<Identifier> {
    if idType == 0 then
      match UnpackLong(j)
      case Some(i) => Some(Numeric(Wrap(i, 0, TWO32)))
      case None => None
    else if idType == 3 then
      match DecodeString(j)
      case Some(s) => Some(Name(s))
      case None => None
    else if idType == 4 then
      match DecodeGuid(j)
      case Some(g) => Some(Unique(g))
      case None => None
    else if idType == 5 then
      match DecodeString(j)
      case Some(s) => Some(Opaque(s))
      case None => None
    else None
  }

  function DecodeNodeId(j: Json): Option<UaNodeId> {
    match (UnpackLong(Get(j, "namespaceIndex")), UnpackLong(Get(j, "identifierType")))
    case (Some(ns), Some(idType)) =>
      (match DecodeIdentifier(Wrap(idType, -TWO31, TWO32), Get(j, "identifier"))
       case Some(id) => Some(UaNodeId(Wrap(ns, 0, TWO16), id))
       case None => None)
    case _ => None
  }

  /** What becomes of a value whose strings pass through the buffers. */
  function TrimIdentifier(id: Identifier): Identifier {
    match id
    case Name(s) => Name(Buffered(s))
    case Opaque(s) => Opaque(Buffered(s))
    case _ => id
  }

  function TrimNode(n: UaNodeId): UaNodeId {
    UaNodeId(n.ns, TrimIdentifier(n.id))
  }

  lemma NodeIdRead(n: UaNodeId)
    requires NodeOk(n)
    ensures DecodeNodeId(EncodeNodeId(n)) == Some(TrimNode(n))
  {
    hide EncodeString, DecodeString, EncodeGuid, DecodeGuid, Buffered, Wrap;
    match n.id
    case Numeric(i) =>
    case Name(s) => StringRead(s);
    case Unique(g) => GuidRead(g);
    case Opaque(s) => StringRead(s);
  }

  // ---------- Values ----------

  function EncodeText(s: string): Json {
    Obj(map["length" := Integer(|s|), "data" := EncodeString(s)])
  }

  /** zkUA_jsonEncode_UA_Variant_setValue: the data; the key "type" is set along with it. */
  function EncodeValue(v: Value): Json {
    match v
    case Boolean(b) => Bool(b)
    case Number(i) => Integer(i)
    case Text(s) => EncodeString(s)
    case GuidValue(g) => EncodeGuid(g)
    case NodeValue(n) => EncodeNodeId(n)
    case Expanded(n, uri, serverIndex) =>
      Obj(map["nodeId" := EncodeNodeId(n), "namespaceUri" := EncodeString(uri), "serverIndex" := Integer(serverIndex)])
    case Qualified(ns, name) => Obj(map["namespaceIndex" := Integer(ns), "name" := EncodeString(name)])
    case Localized(locale, text) => Obj(map["locale" := EncodeText(locale), "text" := EncodeText(text)])
  }

  function DecodeNumber(t: nat, j: Json): Option<Value>
    requires IsNumber(t)
  {
    match (if t in {INT64, UINT64, DATETIME} then UnpackLong(j) else UnpackInt(j))
    case Some(i) => Some(Number(Wrap(i, Range(t).0, Range(t).1)))
    case None => None
  }

  function DecodeExpanded(j: Json): Option<Value> {
    var uri := if Has(j, "namespaceUri") then DecodeString(Get(j, "namespaceUri")) else Some("");
    match (DecodeNodeId(Get(j, "nodeId")), uri)
    case (Some(n), Some(s)) => Some(Expanded(n, s, Field(Get(j, "serverIndex"), TWO32)))
    case _ => None
  }

  function DecodeQualified(j: Json): Option<Value> {
    var ns := if Has(j, "namespaceIndex") then UnpackInt(Get(j, "namespaceIndex")) else Some(0);
    var name := if Has(j, "name") then DecodeString(Get(j, "name")) else Some("");
    match (ns, name)
    case (Some(i), Some(s)) => Some(Qualified(Wrap(i, 0, TWO16), s))
    case _ => None
  }

  function DecodeLocalized(j: Json): Option<Value> {
    if !Get(j, "locale").Obj? || !Get(j, "text").Obj? then None
    else
      match (DecodeString(Get(Get(j, "locale"), "data")), DecodeString(Get(Get(j, "text"), "data")))
      case (Some(locale), Some(text)) => Some(Localized(locale, text))
      case _ => None
  }

  /** zkUA_jsonDecode_UA_Variant_setData, for the types that are modelled. None stands for an error, and
      for behaviour that the original does not define. */
  function DecodeValue(t: nat, j: Json): Option<Value> {
    if t == BOOLEAN then
      match j
      case Bool(b) => Some(Boolean(b))
      case _ => None
    else if IsNumber(t) then DecodeNumber(t, j)
    else if IsText(t) then
      match DecodeString(j)
      case Some(s) => Some(Text(s))
      case None => None
    else if t == GUID then
      match DecodeGuid(j)
      case Some(g) => Some(GuidValue(g))
      case None => None
    else if t == NODEID then
      match DecodeNodeId(j)
      case Some(n) => Some(NodeValue(n))
      case None => None
    else if t == EXPANDEDNODEID then DecodeExpanded(j)
    else if t == QUALIFIEDNAME then DecodeQualified(j)
    else if t == LOCALIZEDTEXT then DecodeLocalized(j)
    else None
  }

  function TrimValue(v: Value): Value {
    match v
    case Text(s) => Text(Buffered(s))
    case NodeValue(n) => NodeValue(TrimNode(n))
    case Expanded(n, uri, serverIndex) => Expanded(TrimNode(n), Buffered(uri), serverIndex)
    case Qualified(ns, name) => Qualified(ns, Buffered(name))
    case Localized(locale, text) => Localized(Buffered(locale), Buffered(text))
    case _ => v
  }

  predicate PlainNode(n: UaNodeId) {
    match n.id
    case Name(s) => Plain(s)
    case Opaque(s) => Plain(s)
    case _ => true
  }

  /** All strings in the value are plain. */
  predicate PlainValue(v: Value) {
    match v
    case Text(s) => Plain(s)
    case NodeValue(n) => PlainNode(n)
    case Expanded(n, uri, _) => PlainNode(n) && Plain(uri)
    case Qualified(_, name) => Plain(name)
    case Localized(locale, text) => Plain(locale) && Plain(text)
    case _ => true
  }

  lemma TrimIffPlain(v: Value)
    ensures TrimValue(v) == v <==> PlainValue(v)
  {
    hide Buffered, Plain;
    forall s: string
      ensures Buffered(s) == s <==> Plain(s)
    {
      BufferedIffPlain(s);
    }
  }

  lemma NumberRead(t: nat, i: int)
    requires Typed(t, Number(i))
    ensures DecodeNumber(t, Integer(i)) == Some(Number(i))
  {
    hide Wrap;
    SignedAndBack(i);
  }

  lemma ExpandedRead(n: UaNodeId, uri: string, serverIndex: nat)
    requires NodeOk(n) && serverIndex < TWO32
    ensures DecodeExpanded(EncodeValue(Expanded(n, uri, serverIndex))) == Some(TrimValue(Expanded(n, uri, serverIndex)))
  {
    hide EncodeNodeId, DecodeNodeId, Buffered, Field, Integer, NodeOk, TrimNode, Wrap;
    NodeIdRead(n);
    StringRead(uri);
    FieldRead(serverIndex, TWO32);
  }

  lemma QualifiedRead(ns: nat, name: string)
    requires ns < TWO16
    ensures DecodeQualified(EncodeValue(Qualified(ns, name))) == Some(TrimValue(Qualified(ns, name)))
  {
    hide Buffered, DecodeString, EncodeString, Wrap;
    StringRead(name);
  }

  lemma LocalizedRead(locale: string, text: string)
    ensures DecodeLocalized(EncodeValue(Localized(locale, text))) == Some(TrimValue(Localized(locale, text)))
  {
    hide Buffered, DecodeString, EncodeString, Integer, Wrap;
    StringRead(locale);
    StringRead(text);
  }

  /** Decoding an encoded value gives back the value, its strings trimmed. */
  lemma ValueRead(t: nat, v: Value)
    requires Typed(t, v)
    ensures DecodeValue(t, EncodeValue(v)) == Some(TrimValue(v))
  {
    hide EncodeNodeId, DecodeNodeId, Buffered, DecodeGuid, EncodeGuid, DecodeNumber, DecodeString, EncodeString;
    hide DecodeExpanded, DecodeQualified, DecodeLocalized, EncodeText, GuidOk, NodeOk, TrimNode, Range, Integer, Wrap;
    match v
    case Boolean(_) =>
    case Number(i) => NumberRead(t, i);
    case Text(s) => StringRead(s);
    case GuidValue(g) => GuidRead(g);
    case NodeValue(n) => NodeIdRead(n);
    case Expanded(n, uri, serverIndex) => ExpandedRead(n, uri, serverIndex);
    case Qualified(ns, name) => QualifiedRead(ns, name);
    case Localized(locale, text) => LocalizedRead(locale, text);
  }
}
