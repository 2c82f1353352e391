/** The header logic of `MessageSerializer.pack` and `unpack`: choosing
    the message type an outgoing JSON envelope is encoded with, and
    rendering and looking up the message id of an incoming binary message.
    The schema registry `JSON_SCHEMES` is a map from message id text to
    the list of message types registered under it, as `SchemaLoader.Load`
    builds it. */
module Serializer {
  import opened Results
  import opened Wire
  import opened Text
  import opened Json
  import opened Schemas
  import Encoder
  import Decoder
  import RoundTrip

  /** `JSON_SCHEMES`: message id text (four lowercase hex digits) to the
      message types registered under that id. */
  type Registry = map<string, seq<Message>>

  /** A JAUS address, as the id text it prints as (`jaus_id`). */
  datatype JausAddress = JausAddress(id: string)

  /** `JausAddress.from_string` applied to an attribute value; `None` where
      it raises. */
  type AddressParser = Value -> Option<JausAddress>

  /** What `pack` fills in on the outgoing message: the two addresses
      (`None` is whatever the message was built with) and the payload. */
  datatype Outgoing = Outgoing(src: Option<JausAddress>, dst: Option<JausAddress>, payload: seq<byte>)

  /** `pack`'s boolean result and the message as it leaves it. */
  datatype Packed = Packed(ok: bool, message: Outgoing)

  /** A binary message as `unpack` reads it: header id, addresses, payload. */
  datatype Incoming = Incoming(msgId: nat, dst: JausAddress, src: JausAddress, payload: seq<byte>)

  /** The JSON object `unpack` returns; `data` is absent when no message
      type read the payload. */
  datatype Unpacked = Unpacked(messageId: string, jausIdDst: string, jausIdSrc: string,
                               data: Option<map<string, Value>>)

  // ---- pack ----

  /** `jsonObj.messageId` as a registry key; anything but a string misses. */
  function IdKey(env: Value): Option<string> {
    if Has(env, "messageId") && Get(env, "messageId").Str? then Some(Get(env, "messageId").s) else None
  }

  /** The first message type at or after `k` whose title equals `name`. */
  function FirstTitled(types: seq<Message>, name: Value, k: nat): (r: Option<nat>)
    requires k <= |types|
    ensures r.Some? ==> k <= r.value < |types| && Str(types[r.value].title) == name
    ensures forall q :: k <= q < |types| && (r.None? || q < r.value) ==> Str(types[q].title) != name
    decreases |types| - k
  {
    if k == |types| then None
    else if Str(types[k].title) == name then Some(k)
    else FirstTitled(types, name, k + 1)
  }

  /** Which of the registered types `pack` encodes with: the only one when
      there is one, else the first titled `messageName`. Without a
      `messageName` attribute the title test raises, which ends `pack` the
      same way as finding no title. */
  function Choose(types: seq<Message>, env: Value): (r: Option<nat>)
    ensures r.Some? ==> r.value < |types|
    ensures |types| == 1 ==> r == Some(0)
    ensures |types| != 1 ==>
      (r.Some? <==> Has(env, "messageName") && exists q :: 0 <= q < |types| && Str(types[q].title) == Get(env, "messageName"))
    ensures |types| != 1 && r.Some? ==>
      && Has(env, "messageName")
      && Str(types[r.value].title) == Get(env, "messageName")
      && forall q :: 0 <= q < r.value ==> Str(types[q].title) != Get(env, "messageName")
  {
    if |types| == 1 then Some(0)
    else if Has(env, "messageName") then FirstTitled(types, Get(env, "messageName"), 0)
    else None
  }

  /** The schema `pack` encodes with, if the id is registered and a type
      is chosen. */
  function ChosenSchema(reg: Registry, env: Value): Option<Schema> {
    match IdKey(env)
    case None => None
    case Some(key) =>
      if key !in reg then None
      else
        match Choose(reg[key], env)
        case None => None
        case Some(k) => Some(reg[key][k].schema)
  }

  /** Both addresses are present and parse. */
  predicate AddressesParse(env: Value, addrOf: AddressParser) {
    && Has(env, "jausIdSrc") && addrOf(Get(env, "jausIdSrc")).Some?
    && Has(env, "jausIdDst") && addrOf(Get(env, "jausIdDst")).Some?
  }

  /** Setting the source, then the destination, then appending the
      encoded `data`; an exception at any point leaves what was done so
      far, including the bytes already appended, and `pack` returns False. */
  function Fill(s: Schema, env: Value, addrOf: AddressParser, msg: Outgoing): (r: Packed)
    ensures msg.payload <= r.message.payload
    ensures r.ok <==> AddressesParse(env, addrOf) && Has(env, "data") && Encoder.EncodeRecord(s, Get(env, "data")).Success?
    ensures r.ok ==> r.message.payload == msg.payload + Encoder.EncodeRecord(s, Get(env, "data")).value.bytes
    ensures !r.ok && AddressesParse(env, addrOf) && Has(env, "data") ==>
      r.message.payload == msg.payload + Encoder.EncodeRecord(s, Get(env, "data")).error.written
    ensures !(AddressesParse(env, addrOf) && Has(env, "data")) ==> r.message.payload == msg.payload
    ensures AddressesParse(env, addrOf) ==>
      r.message.src == addrOf(Get(env, "jausIdSrc")) && r.message.dst == addrOf(Get(env, "jausIdDst"))
  {
    if !Has(env, "jausIdSrc") || addrOf(Get(env, "jausIdSrc")).None? then Packed(false, msg)
    else
      var m1 := msg.(src := addrOf(Get(env, "jausIdSrc")));
      if !Has(env, "jausIdDst") || addrOf(Get(env, "jausIdDst")).None? then Packed(false, m1)
      else
        var m2 := m1.(dst := addrOf(Get(env, "jausIdDst")));
        if !Has(env, "data") then Packed(false, m2)
        else
          match Encoder.EncodeRecord(s, Get(env, "data"))
          case Failure(st) => Packed(false, m2.(payload := m2.payload + st.written))
          case Success(e) => Packed(true, m2.(payload := m2.payload + e.bytes))
  }

  /** `pack(jsonObj, message)`. */
  function Pack(reg: Registry, env: Value, addrOf: AddressParser, msg: Outgoing): (r: Packed)
    ensures msg.payload <= r.message.payload
    ensures ChosenSchema(reg, env).None? ==> r == Packed(false, msg)
    ensures r.ok <==>
      && ChosenSchema(reg, env).Some? && AddressesParse(env, addrOf) && Has(env, "data")
      && Encoder.EncodeRecord(ChosenSchema(reg, env).value, Get(env, "data")).Success?
    ensures r.ok ==>
      r.message.payload == msg.payload + Encoder.EncodeRecord(ChosenSchema(reg, env).value, Get(env, "data")).value.bytes
  {
    match ChosenSchema(reg, env)
    case None => Packed(false, msg)
    case Some(s) => Fill(s, env, addrOf, msg)
  }

  // ---- unpack ----

  /** `f"{msg_id:x}".zfill(4)`. */
  function IdText(id: nat): string {
    ZeroFill(HexString(id), 4)
  }

  /** The id text is at least four lowercase hex digits and denotes the id. */
  lemma IdTextValue(id: nat)
    ensures |IdText(id)| >= 4
    ensures forall i :: 0 <= i < |IdText(id)| ==> IsLowerHexDigit(IdText(id)[i])
    ensures ParseHex(IdText(id)) == Some(id)
  {
    var h := HexString(id);
    HexValueOfHexString(id);
    if |h| < 4 {
      var z := seq(4 - |h|, _ => '0');
      HexValueLeadingZeros(z, h);
      assert IdText(id) == z + h;
    }
  }

  /** A registry key of four lowercase hex digits is the id text of the
      number it denotes: the lookup in `unpack` finds it. */
  lemma KeyRoundTrip(key: string)
    requires |key| == 4 && forall i :: 0 <= i < 4 ==> IsLowerHexDigit(key[i])
    ensures IdText(HexValue(key)) == key
  {
    var v := HexValue(key);
    HexStringNoLonger(key);
    IdTextValue(v);
    HexValueInjective(IdText(v), key);
  }

  /** A message type reads the payload from index 0 without an exception. */
  predicate Reads(m: Message, payload: seq<byte>) {
    Decoder.DecodeRecord(m.schema, payload, 0, map[]).Success?
  }

  /** The loop over the registered types: each one is tried on a fresh
      object, and each success replaces `data`. */
  function DecodeEach(types: seq<Message>, payload: seq<byte>, k: nat, data: Option<map<string, Value>>)
    : (r: Option<map<string, Value>>)
    requires k <= |types|
    ensures r.Some? <==> data.Some? || exists q :: k <= q < |types| && Reads(types[q], payload)
    ensures (forall q :: k <= q < |types| ==> !Reads(types[q], payload)) ==> r == data
    ensures forall q :: k <= q < |types| && Reads(types[q], payload)
                        && (forall q' :: q < q' < |types| ==> !Reads(types[q'], payload)) ==>
      r == Some(Decoder.DecodeRecord(types[q].schema, payload, 0, map[]).value.fields)
    decreases |types| - k
  {
    if k == |types| then data
    else
      match Decoder.DecodeRecord(types[k].schema, payload, 0, map[])
      case Success(d) => DecodeEach(types, payload, k + 1, Some(d.fields))
      case Failure(_) => DecodeEach(types, payload, k + 1, data)
  }

  /** `unpack(message)`: the id rendered as text, the two addresses, and
      `data` from the last registered type that reads the payload; no
      `data` for id 0 or an unregistered id. */
  function Unpack(reg: Registry, m: Incoming): (r: Unpacked)
    ensures r.messageId == IdText(m.msgId) && r.jausIdDst == m.dst.id && r.jausIdSrc == m.src.id
    ensures r.data.Some? <==>
      && m.msgId != 0 && IdText(m.msgId) in reg
      && exists q :: 0 <= q < |reg[IdText(m.msgId)]| && Reads(reg[IdText(m.msgId)][q], m.payload)
    ensures r.data.Some? ==>
      exists q ::
        && 0 <= q < |reg[IdText(m.msgId)]| && Reads(reg[IdText(m.msgId)][q], m.payload)
        && r.data.value == Decoder.DecodeRecord(reg[IdText(m.msgId)][q].schema, m.payload, 0, map[]).value.fields
        && forall q' :: q < q' < |reg[IdText(m.msgId)]| ==> !Reads(reg[IdText(m.msgId)][q'], m.payload)
  {
    var key := IdText(m.msgId);
    var data := if m.msgId != 0 && key in reg then DecodeEach(reg[key], m.payload, 0, None) else None;
    if data.Some? then
      LastReader(reg[key], m.payload);
      Unpacked(key, m.dst.id, m.src.id, data)
    else Unpacked(key, m.dst.id, m.src.id, data)
  }

  /** When some type reads the payload, one of them is the last to. */
  lemma LastReader(types: seq<Message>, payload: seq<byte>)
    requires exists q :: 0 <= q < |types| && Reads(types[q], payload)
    ensures exists q ::
      && 0 <= q < |types| && Reads(types[q], payload)
      && (forall q' :: q < q' < |types| ==> !Reads(types[q'], payload))
      && DecodeEach(types, payload, 0, None) == Some(Decoder.DecodeRecord(types[q].schema, payload, 0, map[]).value.fields)
  {
    var q :| 0 <= q < |types| && Reads(types[q], payload);
    while q + 1 < |types| && exists q' :: q < q' < |types| && Reads(types[q'], payload)
      invariant 0 <= q < |types| && Reads(types[q], payload)
      decreases |types| - q
    {
      var next :| q < next < |types| && Reads(types[next], payload);
      q := next;
    }
  }

  // ---- the whole envelope ----

  /** An envelope whose id has one registered type, whose addresses parse
      and whose `data` conforms to that type packs, and the payload unpacks
      under the same id to the same `data`. */
  lemma PackThenUnpack(reg: Registry, env: Value, addrOf: AddressParser, id: nat, m: Message,
                       dst: JausAddress, src: JausAddress)
    requires id != 0 && IdText(id) in reg && reg[IdText(id)] == [m]
    requires IdKey(env) == Some(IdText(id))
    requires AddressesParse(env, addrOf) && Has(env, "data") && RoundTrip.Conforms(m.schema, Get(env, "data"))
    ensures Pack(reg, env, addrOf, Outgoing(None, None, [])).ok
    ensures Unpack(reg, Incoming(id, dst, src, Pack(reg, env, addrOf, Outgoing(None, None, [])).message.payload)).data
      == Some(Get(env, "data").fields)
  {
    var j := Get(env, "data");
    RoundTrip.RecordRoundTrip(m.schema, j, [], []);
    var bytes := Encoder.EncodeRecord(m.schema, j).value.bytes;
    assert [] + bytes + [] == bytes;
    PackSingle(reg, env, addrOf, IdText(id), m);
    UnpackSingle(reg, id, m, dst, src, bytes);
  }

  // ---- an instance ----

  /** Message id 0001 with one required 'unsigned byte' field `x`. */
  const ExampleType := Message("T", Schema([Property("x", Number(UnsignedByte, None))], ["x"]))
  const ExampleRegistry: Registry := map["0001" := [ExampleType]]
  const ExampleData := Obj(map["x" := Int(7)])
  const ExampleEnvelope := Obj(map["messageId" := Str("0001"), "jausIdSrc" := Str("1.1.1"),
                                   "jausIdDst" := Str("1.1.2"), "data" := ExampleData])

  /** The envelope carrying `x = 7` packs to the single byte 7, and that
      payload unpacks under id 1 to the same field. */
  lemma PackThenUnpackExample(addrOf: AddressParser, dst: JausAddress, src: JausAddress)
    requires forall v: Value :: addrOf(v).Some?
    ensures Pack(ExampleRegistry, ExampleEnvelope, addrOf, Outgoing(None, None, [])).ok
    ensures Pack(ExampleRegistry, ExampleEnvelope, addrOf, Outgoing(None, None, [])).message.payload == [7]
    ensures Unpack(ExampleRegistry, Incoming(1, dst, src, [7])).data == Some(map["x" := Int(7)])
  {
    ExampleKey();
    ExampleFields(addrOf);
    ExampleConforms();
    ExampleBytes();
    PackThenUnpack(ExampleRegistry, ExampleEnvelope, addrOf, 1, ExampleType, dst, src);
  }

  lemma ExampleKey()
    ensures IdText(1) == "0001" && IdText(1) in ExampleRegistry && ExampleRegistry[IdText(1)] == [ExampleType]
  {
    assert HexString(1) == "1";
  }

  lemma ExampleFields(addrOf: AddressParser)
    requires forall v: Value :: addrOf(v).Some?
    ensures IdKey(ExampleEnvelope) == Some("0001") && AddressesParse(ExampleEnvelope, addrOf)
    ensures Has(ExampleEnvelope, "data") && Get(ExampleEnvelope, "data") == ExampleData
  {
  }

  lemma ExampleConforms()
    ensures RoundTrip.Conforms(ExampleType.schema, ExampleData)
  {
    var s := ExampleType.schema;
    assert RoundTrip.PropertyConforms(s, 0, ExampleData) by {
      assert s.properties[0].name == "x" != PresenceVectorName;
      assert Has(ExampleData, "x") && Get(ExampleData, "x") == Int(7);
    }
    assert forall n :: n in ExampleData.fields ==> n == s.properties[0].name;
  }

  lemma ExampleBytes()
    ensures Encoder.EncodeRecord(ExampleType.schema, ExampleData).Success?
    ensures Encoder.EncodeRecord(ExampleType.schema, ExampleData).value.bytes == [7]
  {
    var s := ExampleType.schema;
    var j := ExampleData;
    assert ToLE(7, 1) == [7];
    assert Wire.Pack(UnsignedByte, 7) == Success([7]);
    assert Has(j, "x") && Get(j, "x") == Int(7);
    assert "x" != PresenceVectorName;
    assert Encoder.EncodeNumber(s, "x", UnsignedByte, None, j) == Success([7]) by {
      assert [] + [7] == [7];
    }
    assert Encoder.EncodeProperty(s, 0, j, None) == Success(Encoder.Step([7], 0, None));
    assert Encoder.EncodeFrom(s, j, 1, None) == Success(Encoder.Encoded([], 0));
    assert [7] + [] == [7];
  }

  /** With one type registered under its id, `pack` encodes with it. */
  lemma PackSingle(reg: Registry, env: Value, addrOf: AddressParser, key: string, m: Message)
    requires key in reg && reg[key] == [m] && IdKey(env) == Some(key)
    requires AddressesParse(env, addrOf) && Has(env, "data") && Encoder.EncodeRecord(m.schema, Get(env, "data")).Success?
    ensures Pack(reg, env, addrOf, Outgoing(None, None, [])).ok
    ensures Pack(reg, env, addrOf, Outgoing(None, None, [])).message.payload
      == Encoder.EncodeRecord(m.schema, Get(env, "data")).value.bytes
  {
    assert Choose([m], env) == Some(0);
    assert ChosenSchema(reg, env) == Some(m.schema);
  }

  /** With one type registered under a non-zero id, `unpack` gives what
      that type reads. */
  lemma UnpackSingle(reg: Registry, id: nat, m: Message, dst: JausAddress, src: JausAddress, payload: seq<byte>)
    requires id != 0 && IdText(id) in reg && reg[IdText(id)] == [m] && Reads(m, payload)
    ensures Unpack(reg, Incoming(id, dst, src, payload)).data
      == Some(Decoder.DecodeRecord(m.schema, payload, 0, map[]).value.fields)
  {
    assert DecodeEach([m], payload, 0, None) == Some(Decoder.DecodeRecord(m.schema, payload, 0, map[]).value.fields);
  }
}
