/** Encoding a conforming JSON object and decoding the bytes gives the
    object back and consumes exactly the bytes written. The fragment
    covered is the part of the wire format both directions treat alike:
    plain numbers and the presence vector, message-id constants, value sets
    with a one-to-one enumeration, fixed-length strings, nested records and
    non-variant counted lists; optional numbers, value sets and strings
    after the presence vector may be absent. A present variable-length
    string is outside it because the encoder's length prefix is
    `maxLength`, not the text's length; bit fields, variants and fixed
    arrays are outside it because the encoder does not write what the
    decoder reads. */
module RoundTrip {
  import opened Results
  import opened Bits
  import opened Wire
  import opened Text
  import opened Json
  import opened Schemas
  import opened Presence
  import Encoder
  import Decoder

  /** No two enumerants share an index or a name. */
  predicate InjectiveEnums(vs: seq<Enumerant>) {
    forall a, b :: 0 <= a < b < |vs| && vs[a].ValueEnum? && vs[b].ValueEnum? ==>
      vs[a].enumIndex != vs[b].enumIndex && vs[a].enumConst != vs[b].enumConst
  }

  /** With a one-to-one enumeration, a name encodes to its index and the
      index decodes to the name. */
  lemma EnumRoundTrip(vs: seq<Enumerant>, k: nat)
    requires InjectiveEnums(vs) && k < |vs| && vs[k].ValueEnum?
    ensures Encoder.EnumIndexOf(vs, vs[k].enumConst, 0) == vs[k].enumIndex
    ensures Decoder.EnumName(vs, vs[k].enumIndex) == Some(vs[k].enumConst)
  {
    var c := vs[k].enumConst;
    var w := vs[k].enumIndex;
    var r := Encoder.EnumIndexOf(vs, c, 0);
    var k1 :| 0 <= k1 < |vs| && vs[k1].ValueEnum? && vs[k1].enumConst == c && r == vs[k1].enumIndex;
    assert k1 == k;
    var n := Decoder.EnumName(vs, w);
    var k2 :| 0 <= k2 < |vs| && vs[k2].ValueEnum? && vs[k2].enumIndex == w && n.value == vs[k2].enumConst;
    assert k2 == k;
  }

  /** The other direction: a decoded name encodes back to the index read. */
  lemma EnumNameInverse(vs: seq<Enumerant>, w: int)
    requires InjectiveEnums(vs) && Decoder.EnumName(vs, w).Some?
    ensures Encoder.EnumIndexOf(vs, Decoder.EnumName(vs, w).value, 0) == w
  {
    var k :| 0 <= k < |vs| && vs[k].ValueEnum? && vs[k].enumIndex == w
      && Decoder.EnumName(vs, w).value == vs[k].enumConst;
    EnumRoundTrip(vs, k);
  }

  /** A fixed-length field written from ASCII text without trailing NULs
      decodes to the same text. */
  lemma FixedStringRoundTrip(name: string, text: string, n: nat, before: seq<byte>, after: seq<byte>)
    requires IsAscii(text) && |text| <= n && (|text| == 0 || text[|text| - 1] != '\0')
    ensures Decoder.DecodeFixedString(name, n, before + NulPadded(EncodeAscii(text).value, n) + after, |before|)
      == Success(text)
  {
    var b := NulPadded(EncodeAscii(text).value, n);
    var p := before + b + after;
    assert Slice(p, |before|, |before| + n) == b;
    var padded := text + seq(n - |text|, _ => '\0');
    assert AllAscii(b);
    var d := DecodeAscii(b).value;
    assert d == padded by {
      forall k | 0 <= k < n
        ensures d[k] == padded[k]
      {
        assert d[k] as int == b[k];
        if k < |text| { assert b[k] == text[k] as int; }
      }
    }
    RStripNulPadding(text, n - |text|);
  }

  // ---- which JSON objects round-trip ----

  /** The JSON value fits the property kind in the symmetric fragment. */
  ghost predicate PropertyConforms(s: Schema, i: nat, j: Value)
    requires i < |s.properties| && j.Obj?
    decreases s, 0
  {
    var name := s.properties[i].name;
    (name == PresenceVectorName ==> s.properties[i].kind.Number?) &&
    match s.properties[i].kind
    case Number(t, br) =>
      && br.None?
      && (if name == PresenceVectorName then
            Has(j, name) && Get(j, name) == Int(Generate(s, j)) && InRange(t, Generate(s, j))
          else if Has(j, name) then Get(j, name).Int? && InRange(t, Get(j, name).i)
          else !IsRequired(s, name) && VectorBefore(s, i).Some?)
    case MessageId(t, hex) =>
      && ParseHex(hex).Some? && InRange(t, ParseHex(hex).value)
      && Has(j, name) && Get(j, name) == Str(FormatHex(ParseHex(hex).value))
    case ValueSet(t, vs, br) =>
      && br.None? && InjectiveEnums(vs)
      && if Has(j, name) then
           && Get(j, name).Str?
           && exists k :: 0 <= k < |vs| && vs[k].ValueEnum? && vs[k].enumConst == Get(j, name).s
                && InRange(t, vs[k].enumIndex)
         else !IsRequired(s, name) && VectorBefore(s, i).Some?
    case FixedString(n) =>
      if Has(j, name) then
        && Get(j, name).Str?
        && var text := Get(j, name).s;
           IsAscii(text) && |text| <= n && (|text| == 0 || text[|text| - 1] != '\0')
      else !IsRequired(s, name) && VectorBefore(s, i).Some?
    case VarString(_, _) =>
      !Has(j, name) && !IsRequired(s, name) && VectorBefore(s, i).Some?
    case Record(body) =>
      Has(j, name) && Conforms(body, Get(j, name))
    case CountedArray(t, isVariant, anyOf) =>
      && isVariant == Some(false) && |anyOf| >= 1 && Has(j, name) && Get(j, name).List?
      && InRange(t, |Get(j, name).items|)
      && forall k :: 0 <= k < |Get(j, name).items| ==> Conforms(anyOf[0], Get(j, name).items[k])
    case OtherType => !Has(j, name)
    case _ => false
  }

  /** `j` is an object whose keys are property names of `s`, each property
      fitting its kind; only optional numbers, value sets and strings after
      the presence vector and properties of another type may be absent (a
      variable-length string only absent), and the presence vector carries
      the value the encoder generates. */
  ghost predicate Conforms(s: Schema, j: Value)
    decreases s, 1
  {
    && j.Obj?
    && DistinctNames(s.properties)
    && (forall n :: n in j.fields ==> exists k :: 0 <= k < |s.properties| && s.properties[k].name == n)
    && forall i :: 0 <= i < |s.properties| ==> PropertyConforms(s, i, j)
  }

  // ---- presence bookkeeping ----

  predicate IsOptional(s: Schema, i: nat)
    requires i < |s.properties|
  {
    s.properties[i].name != PresenceVectorName && !IsRequired(s, s.properties[i].name)
  }

  /** The number of optional properties in positions `lo..hi-1`. */
  function OptCount(s: Schema, lo: nat, hi: nat): nat
    requires hi <= |s.properties|
    decreases hi
  {
    if hi <= lo then 0 else OptCount(s, lo, hi - 1) + (if IsOptional(s, hi - 1) then 1 else 0)
  }

  lemma {:induction false} OptCountFront(s: Schema, lo: nat, hi: nat)
    requires lo < hi <= |s.properties|
    ensures OptCount(s, lo, hi) == (if IsOptional(s, lo) then 1 else 0) + OptCount(s, lo + 1, hi)
    decreases hi
  {
    if hi > lo + 1 {
      OptCountFront(s, lo, hi - 1);
    }
  }

  /** The optional property at `i` is the `OptCount(s, lo, i)`-th of the
      optional names from `lo` on. */
  lemma {:induction false} OptionalsIndex(s: Schema, lo: nat, i: nat)
    requires lo <= i < |s.properties| && IsOptional(s, i)
    ensures OptCount(s, lo, i) < |Optionals(s, lo)|
    ensures Optionals(s, lo)[OptCount(s, lo, i)] == s.properties[i].name
    decreases i - lo
  {
    if lo < i {
      OptCountFront(s, lo, i);
      OptionalsIndex(s, lo + 1, i);
    }
  }

  /** The decoder's presence state on reaching property `i`. */
  function ExpectedPresence(s: Schema, j: Value, i: nat): Decoder.PresenceState
    requires i <= |s.properties|
  {
    match VectorBefore(s, i)
    case None => Decoder.NoVector
    case Some(p) => Decoder.PresenceState(Some(Generate(s, j)), OptCount(s, p + 1, i))
  }

  lemma ExpectedPresenceStep(s: Schema, j: Value, i: nat)
    requires i < |s.properties| && DistinctNames(s.properties)
    ensures ExpectedPresence(s, j, i + 1) ==
      if s.properties[i].name == PresenceVectorName then Decoder.PresenceState(Some(Generate(s, j)), 0)
      else Decoder.NextPresence(s, i, ExpectedPresence(s, j, i))
  {
  }

  /** After the vector, an optional property is skipped exactly when the
      JSON lacks it. */
  lemma SkippedIffAbsent(s: Schema, j: Value, i: nat)
    requires i < |s.properties| && DistinctNames(s.properties)
    ensures Decoder.Skipped(s, i, ExpectedPresence(s, j, i)) <==>
      VectorBefore(s, i).Some? && !IsRequired(s, s.properties[i].name) && !Has(j, s.properties[i].name)
  {
    match VectorBefore(s, i)
    case None =>
    case Some(p) =>
      VectorUnique(s, p);
      if !IsRequired(s, s.properties[i].name) {
        assert IsOptional(s, i);
        OptionalsIndex(s, p + 1, i);
        PresenceBits(s, j, p, OptCount(s, p + 1, i));
      }
  }

  lemma VectorUnique(s: Schema, p: nat)
    requires p < |s.properties| && s.properties[p].name == PresenceVectorName && DistinctNames(s.properties)
    ensures SinglePresenceVectorAt(s, p)
  {
    forall q | 0 <= q < |s.properties| && q != p
      ensures s.properties[q].name != PresenceVectorName
    {
      if q < p {
        DistinctNamesAt(s.properties, q, p);
      } else {
        DistinctNamesAt(s.properties, p, q);
      }
    }
  }

  /** The keys decoded from the first `i` properties. */
  function Prefix(s: Schema, j: Value, i: nat): (m: map<string, Value>)
    requires j.Obj? && i <= |s.properties|
    ensures forall n :: n in m ==> n in j.fields && m[n] == j.fields[n]
    ensures forall k :: 0 <= k < i && s.properties[k].name in j.fields ==> s.properties[k].name in m
  {
    if i == 0 then map[]
    else
      var m := Prefix(s, j, i - 1);
      var name := s.properties[i - 1].name;
      if name in j.fields then m[name := j.fields[name]] else m
  }

  lemma PrefixComplete(s: Schema, j: Value)
    requires Conforms(s, j)
    ensures Prefix(s, j, |s.properties|) == j.fields
  {
    var m := Prefix(s, j, |s.properties|);
    assert m.Keys == j.fields.Keys;
  }

  // ---- one property at a time ----

  /** A present number, or the presence vector, is packed at its width. */
  lemma NumberEncodes(s: Schema, i: nat, name: string, t: JausType, v: int, j: Value, arrayObj: Option<Value>)
    requires i < |s.properties| && s.properties[i] == Property(name, Number(t, None))
    requires Has(j, name) && Get(j, name) == Int(v) && InRange(t, v)
    requires name == PresenceVectorName ==> v == Generate(s, j)
    ensures StepOf(s, j, i, arrayObj, Encoder.Step(Pack(t, v).value, 0, arrayObj))
  {
    assert [] + Pack(t, v).value == Pack(t, v).value;
    assert Encoder.EncodeNumber(s, name, t, None, j) == Success(Pack(t, v).value);
  }

  /** A number is read at its width; reading the presence vector starts the
      presence bits. */
  lemma NumberDecodes(s: Schema, i: nat, name: string, t: JausType, payload: seq<byte>, index: nat,
                      fields: map<string, Value>, pres: Decoder.PresenceState, v: int)
    requires i < |s.properties| && s.properties[i] == Property(name, Number(t, None))
    requires UnpackAt(t, payload, index) == Success(v)
    ensures PropertyDecodesTo(s, i, payload, index, fields, pres,
      Decoder.PropertyDecoded(fields[name := Int(v)], index + TypeSize(t),
        if name == PresenceVectorName then Decoder.PresenceState(Some(v), 0) else pres))
  {
  }

  /** An absent optional number writes nothing. */
  lemma AbsentNumber(s: Schema, i: nat, name: string, t: JausType, j: Value, arrayObj: Option<Value>)
    requires i < |s.properties| && s.properties[i] == Property(name, Number(t, None))
    requires name != PresenceVectorName && !Has(j, name) && !IsRequired(s, name)
    ensures Encoder.EncodeProperty(s, i, j, arrayObj) == Success(Encoder.Step([], 0, arrayObj))
  {
    assert Encoder.EncodeNumber(s, name, t, None, j) == Success([]);
  }

  /** An optional value set or string the object lacks, after the presence
      vector, writes nothing. */
  lemma AbsentOmitted(s: Schema, i: nat, j: Value, arrayObj: Option<Value>)
    requires i < |s.properties| && !Has(j, s.properties[i].name) && !IsRequired(s, s.properties[i].name)
    requires VectorBefore(s, i).Some?
    requires s.properties[i].kind.ValueSet? || s.properties[i].kind.FixedString? || s.properties[i].kind.VarString?
    ensures Encoder.EncodeProperty(s, i, j, arrayObj) == Success(Encoder.Step([], 0, arrayObj))
  {
    assert Encoder.Omitted(s, i, j);
  }

  /** Before any presence-vector field the value-set branch is the source's,
      absent or not: the decoder does not skip the property there, so the
      word the source writes for an absent one is read back in place. */
  lemma BeforeVectorAsWritten(s: Schema, i: nat, j: Value, arrayObj: Option<Value>)
    requires i < |s.properties| && VectorBefore(s, i).None? && s.properties[i].kind.ValueSet?
    ensures var p := s.properties[i];
      Encoder.EncodeProperty(s, i, j, arrayObj)
        == Encoder.ValueSetAsWritten(p.name, p.kind.jausType, p.kind.valueSet, p.kind.bitRange, j, arrayObj)
    ensures !Decoder.Skipped(s, i, ExpectedPresence(s, j, i))
  {
    assert !Encoder.Omitted(s, i, j);
  }

  /** The value-set branch as the source writes it, after the presence
      vector, for an optional property the object lacks: the encoder packs
      a 0 word, yet the generated vector has the property's bit clear, so
      the decoder skips the property and reads that word as the next one.
      The encoder of this model writes nothing there. */
  lemma ValueSetAsWrittenDesyncs(s: Schema, i: nat, j: Value, arrayObj: Option<Value>)
    requires i < |s.properties| && DistinctNames(s.properties)
    requires s.properties[i].kind.ValueSet? && s.properties[i].kind.bitRange.None?
    requires VectorBefore(s, i).Some? && !IsRequired(s, s.properties[i].name) && !Has(j, s.properties[i].name)
    ensures var p := s.properties[i];
      Encoder.ValueSetAsWritten(p.name, p.kind.jausType, p.kind.valueSet, None, j, arrayObj)
        == Success(Encoder.Step(Pack(p.kind.jausType, 0).value, 0, arrayObj))
    ensures |Pack(s.properties[i].kind.jausType, 0).value| > 0
    ensures Decoder.Skipped(s, i, ExpectedPresence(s, j, i))
    ensures Encoder.EncodeProperty(s, i, j, arrayObj) == Success(Encoder.Step([], 0, arrayObj))
  {
    var p := s.properties[i];
    assert [] + Pack(p.kind.jausType, 0).value == Pack(p.kind.jausType, 0).value;
    SkippedIffAbsent(s, j, i);
    AbsentOmitted(s, i, j, arrayObj);
  }

  /** A record with a presence vector, an optional value set `e` and a
      required number `x`. */
  const DesyncSchema := Schema([Property(PresenceVectorName, Number(UnsignedByte, None)),
                                Property("e", ValueSet(UnsignedByte, [ValueEnum(0, "A")], None)),
                                Property("x", Number(UnsignedByte, None))],
                               [PresenceVectorName, "x"])

  const DesyncObject := Obj(map[PresenceVectorName := Int(0), "x" := Int(5)])

  /** For `{presenceVector: 0, x: 5}`, the branches as written give the
      bytes `[0]`, `[0]` (the absent `e`) and `[5]`; the decoder skips `e`
      and reads `x` as 0 from the second byte. The encoder of this model
      writes `[0, 5]`, which reads back as the object. */
  lemma ValueSetAsWrittenExample()
    ensures Encoder.ValueSetAsWritten("e", UnsignedByte, [ValueEnum(0, "A")], None, DesyncObject, None)
      == Success(Encoder.Step([0], 0, None))
    ensures Decoder.DecodeRecord(DesyncSchema, [0, 0, 5], 0, map[])
      == Success(Decoder.Decoded(map[PresenceVectorName := Int(0), "x" := Int(0)], 2))
  {
    DesyncEncodes();
    DesyncDecodes();
  }

  lemma DesyncEncodes()
    ensures Encoder.ValueSetAsWritten("e", UnsignedByte, [ValueEnum(0, "A")], None, DesyncObject, None)
      == Success(Encoder.Step([0], 0, None))
  {
    assert !Has(DesyncObject, "e");
    assert Encoder.ValueSetIndex([ValueEnum(0, "A")], DesyncObject, "e") == 0;
    assert ToLE(0, 1) == [0];
    assert Pack(UnsignedByte, 0) == Success([0]);
    assert Encoder.PackOrStop("e", UnsignedByte, 0, []) == Success([] + [0]);
    assert [] + [0 as byte] == [0];
  }

  /** The presence vector is read as 0 from the first byte. */
  lemma DesyncVector(p: seq<byte>)
    requires p == [0, 0, 5]
    ensures Decoder.DecodeProperty(DesyncSchema, 0, p, 0, map[], Decoder.NoVector)
      == Success(Decoder.PropertyDecoded(map[PresenceVectorName := Int(0)], 1, Decoder.PresenceState(Some(0), 0)))
  {
    assert p[0..1] == [0];
    assert FromLE([0]) == 0;
    assert Decoder.DecodeNumber(PresenceVectorName, UnsignedByte, None, p, 0) == Success((0, 1));
  }

  /** `x` is read as 0 from the second byte. */
  lemma DesyncNumber(p: seq<byte>, f: map<string, Value>, pres: Decoder.PresenceState)
    requires p == [0, 0, 5]
    ensures Decoder.DecodeProperty(DesyncSchema, 2, p, 1, f, pres)
      == Success(Decoder.PropertyDecoded(f["x" := Int(0)], 2, pres))
  {
    assert p[1..2] == [0];
    assert FromLE([0]) == 0;
    assert Decoder.DecodeNumber("x", UnsignedByte, None, p, 1) == Success((0, 2));
  }

  lemma DesyncDecodes()
    ensures Decoder.DecodeRecord(DesyncSchema, [0, 0, 5], 0, map[])
      == Success(Decoder.Decoded(map[PresenceVectorName := Int(0), "x" := Int(0)], 2))
  {
    var p: seq<byte> := [0, 0, 5];
    var f1 := map[PresenceVectorName := Int(0)];
    var pres := Decoder.PresenceState(Some(0), 0);
    var pres' := Decoder.PresenceState(Some(0), 1);
    DesyncVector(p);
    DesyncNumber(p, f1, pres');
    assert IsRequired(DesyncSchema, PresenceVectorName) && IsRequired(DesyncSchema, "x");
    assert !IsRequired(DesyncSchema, "e");
    assert Decoder.DecodeFrom(DesyncSchema, 0, p, 0, map[], Decoder.NoVector)
      == Decoder.DecodeFrom(DesyncSchema, 1, p, 1, f1, pres);
    assert Decoder.DecodeFrom(DesyncSchema, 1, p, 1, f1, pres)
      == Decoder.DecodeFrom(DesyncSchema, 2, p, 1, f1, pres');
    assert Decoder.DecodeFrom(DesyncSchema, 2, p, 1, f1, pres')
      == Decoder.DecodeFrom(DesyncSchema, 3, p, 2, f1["x" := Int(0)], pres');
    assert f1["x" := Int(0)] == map[PresenceVectorName := Int(0), "x" := Int(0)];
  }

  /** A message-id constant is packed at its width. */
  lemma MessageIdEncodes(s: Schema, i: nat, name: string, t: JausType, hex: string, v: nat, j: Value,
                         arrayObj: Option<Value>)
    requires i < |s.properties| && s.properties[i] == Property(name, MessageId(t, hex))
    requires ParseHex(hex) == Some(v) && InRange(t, v)
    ensures StepOf(s, j, i, arrayObj, Encoder.Step(Pack(t, v).value, 0, arrayObj))
  {
    assert [] + Pack(t, v).value == Pack(t, v).value;
  }

  /** A message id is read at its width and given back as hex text. */
  lemma MessageIdDecodes(s: Schema, i: nat, name: string, t: JausType, hex: string, payload: seq<byte>, index: nat,
                         fields: map<string, Value>, pres: Decoder.PresenceState, v: int)
    requires i < |s.properties| && s.properties[i] == Property(name, MessageId(t, hex))
    requires UnpackAt(t, payload, index) == Success(v)
    ensures PropertyDecodesTo(s, i, payload, index, fields, pres,
      Decoder.PropertyDecoded(fields[name := Str(FormatHex(v))], index + TypeSize(t), pres))
  {
  }

  /** A value-set name is packed as its index. */
  lemma ValueSetEncodes(s: Schema, i: nat, name: string, t: JausType, vs: seq<Enumerant>, c: string, w: int, j: Value,
                        arrayObj: Option<Value>)
    requires i < |s.properties| && s.properties[i] == Property(name, ValueSet(t, vs, None))
    requires Encoder.EnumIndexOf(vs, c, 0) == w && InRange(t, w) && Has(j, name) && Get(j, name) == Str(c)
    ensures StepOf(s, j, i, arrayObj, Encoder.Step(Pack(t, w).value, 0, arrayObj))
  {
    assert Encoder.ValueSetIndex(vs, j, name) == w;
    assert [] + Pack(t, w).value == Pack(t, w).value;
  }

  /** An index read at its width is given back as its name. */
  lemma ValueSetDecodes(s: Schema, i: nat, name: string, t: JausType, vs: seq<Enumerant>, payload: seq<byte>,
                        index: nat, fields: map<string, Value>, pres: Decoder.PresenceState, w: int, c: string)
    requires i < |s.properties| && s.properties[i] == Property(name, ValueSet(t, vs, None))
    requires UnpackAt(t, payload, index) == Success(w) && Decoder.EnumName(vs, w) == Some(c)
    ensures PropertyDecodesTo(s, i, payload, index, fields, pres,
      Decoder.PropertyDecoded(fields[name := Str(c)], index + TypeSize(t), pres))
  {
  }

  /** ASCII text is written NUL-padded to the field's length. */
  lemma FixedStringEncodes(s: Schema, i: nat, name: string, n: nat, text: string, j: Value, arrayObj: Option<Value>)
    requires i < |s.properties| && s.properties[i] == Property(name, FixedString(n))
    requires Has(j, name) && Get(j, name) == Str(text) && IsAscii(text)
    ensures StepOf(s, j, i, arrayObj, Encoder.Step(NulPadded(EncodeAscii(text).value, n), 0, arrayObj))
  {
  }

  /** A fixed-length field is read as its text. */
  lemma FixedStringDecodes(s: Schema, i: nat, name: string, n: nat, payload: seq<byte>, index: nat,
                           fields: map<string, Value>, pres: Decoder.PresenceState, text: string)
    requires i < |s.properties| && s.properties[i] == Property(name, FixedString(n))
    requires Decoder.DecodeFixedString(name, n, payload, index) == Success(text)
    ensures PropertyDecodesTo(s, i, payload, index, fields, pres,
      Decoder.PropertyDecoded(fields[name := Str(text)], index + n, pres))
  {
  }

  /** `FixedStringRoundTrip` for a field found anywhere in a payload. */
  lemma FixedStringHeld(name: string, text: string, n: nat, payload: seq<byte>, index: nat)
    requires IsAscii(text) && |text| <= n && (|text| == 0 || text[|text| - 1] != '\0')
    requires Holds(payload, index, NulPadded(EncodeAscii(text).value, n))
    ensures Decoder.DecodeFixedString(name, n, payload, index) == Success(text)
  {
    var before, after := HoldsAround(payload, index, NulPadded(EncodeAscii(text).value, n));
    FixedStringRoundTrip(name, text, n, before, after);
  }

  /** Packed bytes found anywhere in a payload unpack to their value. */
  lemma UnpackHeld(t: JausType, v: int, payload: seq<byte>, index: nat)
    requires InRange(t, v) && Holds(payload, index, Pack(t, v).value)
    ensures UnpackAt(t, payload, index) == Success(v)
  {
    var before, after := HoldsAround(payload, index, Pack(t, v).value);
    UnpackAtPacked(t, v, before, after);
  }

  /** The bytes a payload holds, with what comes before and after them. */
  lemma HoldsAround(payload: seq<byte>, index: nat, bytes: seq<byte>) returns (before: seq<byte>, after: seq<byte>)
    requires Holds(payload, index, bytes)
    ensures payload == before + bytes + after && |before| == index
  {
    before, after := payload[..index], payload[index + |bytes|..];
    assert payload == before + bytes + after;
  }

  // ---- the round trip ----

  /** Encoding a conforming object and decoding the bytes, wherever they
      sit in the payload, yields the object and the index just past them. */
  lemma {:induction false} RecordRoundTrip(s: Schema, j: Value, before: seq<byte>, after: seq<byte>)
    requires Conforms(s, j)
    ensures Encoder.EncodeRecord(s, j).Success?
    ensures Decoder.DecodeRecord(s, before + Encoder.EncodeRecord(s, j).value.bytes + after, |before|, map[])
      == Success(Decoder.Decoded(j.fields, |before| + |Encoder.EncodeRecord(s, j).value.bytes|))
    decreases s, 2, 0
  {
    FromEncodes(s, j, 0, None);
    var bytes := Encoder.EncodeFrom(s, j, 0, None).value.bytes;
    assert (before + bytes + after)[|before|..|before| + |bytes|] == bytes;
    FromDecodes(s, j, 0, None, before + bytes + after, |before|);
    PrefixComplete(s, j);
  }

  // Names for the encoder and decoder loops from property `i` on; the
  // contracts below use them so as to speak of a whole loop at once.

  ghost predicate EncodesFrom(s: Schema, j: Value, i: nat, arrayObj: Option<Value>)
    requires i <= |s.properties|
  {
    Encoder.EncodeFrom(s, j, i, arrayObj).Success?
  }

  ghost function EncodedFrom(s: Schema, j: Value, i: nat, arrayObj: Option<Value>): seq<byte>
    requires i <= |s.properties| && EncodesFrom(s, j, i, arrayObj)
  {
    Encoder.EncodeFrom(s, j, i, arrayObj).value.bytes
  }

  ghost function DecodedFrom(s: Schema, j: Value, i: nat, payload: seq<byte>, index: nat)
    : Result<Decoder.Decoded, Decoder.DecodeError>
    requires i <= |s.properties| && j.Obj?
  {
    Decoder.DecodeFrom(s, i, payload, index, Prefix(s, j, i), ExpectedPresence(s, j, i))
  }

  /** What the encoder writes for property `i` alone. */
  ghost predicate StepOf(s: Schema, j: Value, i: nat, arrayObj: Option<Value>, step: Encoder.Step)
    requires i < |s.properties|
  {
    Encoder.EncodeProperty(s, i, j, arrayObj) == Success(step)
  }

  /** The encoder gets through properties `i..` of a conforming object. */
  lemma {:induction false} FromEncodes(s: Schema, j: Value, i: nat, arrayObj: Option<Value>)
    requires Conforms(s, j) && i <= |s.properties|
    ensures EncodesFrom(s, j, i, arrayObj)
    decreases s, 1, 3 * (|s.properties| - i)
  {
    if i < |s.properties| {
      var step := PropertyEncodes(s, i, j, arrayObj);
      FromEncodes(s, j, i + 1, step.arrayObj);
    }
  }

  /** Decoding from property `i` at `index`, where the payload holds the
      bytes the encoder wrote for properties `i..`, completes the prefix of
      the object to all of it. */
  lemma {:induction false} FromDecodes(s: Schema, j: Value, i: nat, arrayObj: Option<Value>,
                                       payload: seq<byte>, index: nat)
    requires Conforms(s, j) && i <= |s.properties| && EncodesFrom(s, j, i, arrayObj)
    requires Holds(payload, index, EncodedFrom(s, j, i, arrayObj))
    ensures DecodedFrom(s, j, i, payload, index)
      == Success(Decoder.Decoded(Prefix(s, j, |s.properties|), index + |EncodedFrom(s, j, i, arrayObj)|))
    decreases s, 1, 3 * (|s.properties| - i)
  {
    if i < |s.properties| {
      var width, arrayObj' := FromStep(s, j, i, arrayObj, payload, index);
      FromDecodes(s, j, i + 1, arrayObj', payload, index + width);
    }
  }

  /** One property of `FromDecodes`: the encoder's bytes for property `i`
      are `width` long, and decoding over them moves on to property `i + 1`
      with the bytes the encoder wrote for the rest. */
  lemma {:induction false} FromStep(s: Schema, j: Value, i: nat, arrayObj: Option<Value>,
                                    payload: seq<byte>, index: nat)
    returns (width: nat, arrayObj': Option<Value>)
    requires Conforms(s, j) && i < |s.properties| && EncodesFrom(s, j, i, arrayObj)
    requires Holds(payload, index, EncodedFrom(s, j, i, arrayObj))
    ensures EncodesFrom(s, j, i + 1, arrayObj')
    ensures Holds(payload, index + width, EncodedFrom(s, j, i + 1, arrayObj'))
    ensures |EncodedFrom(s, j, i, arrayObj)| == width + |EncodedFrom(s, j, i + 1, arrayObj')|
    ensures DecodedFrom(s, j, i, payload, index) == DecodedFrom(s, j, i + 1, payload, index + width)
    decreases s, 1, 3 * (|s.properties| - i) - 1
  {
    var step := PropertyEncodes(s, i, j, arrayObj);
    FromEncodes(s, j, i + 1, step.arrayObj);
    FromStepBytes(s, j, i, arrayObj, step, payload, index);
    PropertyStepAt(s, j, i, arrayObj, payload, index, step);
    width, arrayObj' := |step.bytes|, step.arrayObj;
  }

  /** The bytes of `FromStep`: property `i`'s bytes, then the rest's, each
      held where the last ends. */
  lemma FromStepBytes(s: Schema, j: Value, i: nat, arrayObj: Option<Value>, step: Encoder.Step,
                      payload: seq<byte>, index: nat)
    requires i < |s.properties| && StepOf(s, j, i, arrayObj, step) && EncodesFrom(s, j, i + 1, step.arrayObj)
    requires EncodesFrom(s, j, i, arrayObj) && Holds(payload, index, EncodedFrom(s, j, i, arrayObj))
    ensures Holds(payload, index, step.bytes)
    ensures Holds(payload, index + |step.bytes|, EncodedFrom(s, j, i + 1, step.arrayObj))
    ensures |EncodedFrom(s, j, i, arrayObj)| == |step.bytes| + |EncodedFrom(s, j, i + 1, step.arrayObj)|
  {
    EncodeFromCons(s, j, i, arrayObj, step);
    HoldsSplit(payload, index, step.bytes, EncodedFrom(s, j, i + 1, step.arrayObj));
  }

  /** The encoder's loop is property `i`'s bytes followed by the rest. */
  lemma EncodeFromCons(s: Schema, j: Value, i: nat, arrayObj: Option<Value>, step: Encoder.Step)
    requires i < |s.properties| && StepOf(s, j, i, arrayObj, step)
    requires EncodesFrom(s, j, i + 1, step.arrayObj)
    ensures EncodesFrom(s, j, i, arrayObj)
    ensures EncodedFrom(s, j, i, arrayObj) == step.bytes + EncodedFrom(s, j, i + 1, step.arrayObj)
  {
  }

  /** `payload` holds `bytes` from `index` on. */
  predicate Holds(payload: seq<byte>, index: nat, bytes: seq<byte>) {
    index + |bytes| <= |payload| && payload[index..index + |bytes|] == bytes
  }

  lemma HoldsSplit(payload: seq<byte>, index: nat, a: seq<byte>, b: seq<byte>)
    requires Holds(payload, index, a + b)
    ensures Holds(payload, index, a) && Holds(payload, index + |a|, b)
  {
    assert payload[index..index + |a|] == (a + b)[..|a|];
    assert payload[index + |a|..index + |a| + |b|] == (a + b)[|a|..];
  }

  /** Decoding from property `i` over the bytes the encoder wrote for it,
      wherever they sit in the payload, is decoding from property `i + 1`
      just past them. */
  lemma {:induction false} PropertyStepAt(s: Schema, j: Value, i: nat, arrayObj: Option<Value>,
                                          payload: seq<byte>, index: nat, step: Encoder.Step)
    requires Conforms(s, j) && i < |s.properties|
    requires StepOf(s, j, i, arrayObj, step)
    requires Holds(payload, index, step.bytes)
    ensures DecodedFrom(s, j, i, payload, index) == DecodedFrom(s, j, i + 1, payload, index + |step.bytes|)
    decreases s, 0, 5
  {
    var pres := ExpectedPresence(s, j, i);
    var fields := Prefix(s, j, i);
    var step' := PropertyRoundTrip(s, i, j, arrayObj, payload, index, fields, pres);
    StepUnique(s, j, i, arrayObj, step, step');
    ExpectedPresenceStep(s, j, i);
    SkippedIffAbsent(s, j, i);
    PrefixStep(s, j, i);
    AbsentIsOther(s, j, i);
    if Decoder.Skipped(s, i, pres) {
      DecodeFromSkip(s, i, payload, index, fields, pres);
    }
  }

  /** The encoder gets through property `i` of a conforming object. */
  lemma {:induction false} PropertyEncodes(s: Schema, i: nat, j: Value, arrayObj: Option<Value>)
    returns (step: Encoder.Step)
    requires Conforms(s, j) && i < |s.properties|
    ensures StepOf(s, j, i, arrayObj, step)
    decreases s, 0, 4
  {
    step := PropertyRoundTrip(s, i, j, arrayObj, [], 0, map[], Decoder.NoVector);
  }

  lemma StepUnique(s: Schema, j: Value, i: nat, arrayObj: Option<Value>, step: Encoder.Step, step': Encoder.Step)
    requires i < |s.properties| && StepOf(s, j, i, arrayObj, step) && StepOf(s, j, i, arrayObj, step')
    ensures step == step'
  {
  }

  /** A conforming object lacks a property only if it is optional and after
      the vector, or of another type. */
  lemma AbsentIsOther(s: Schema, j: Value, i: nat)
    requires Conforms(s, j) && i < |s.properties|
    ensures s.properties[i].name == PresenceVectorName ==> Has(j, s.properties[i].name)
    ensures !Has(j, s.properties[i].name) ==>
      s.properties[i].kind.OtherType? || (VectorBefore(s, i).Some? && !IsRequired(s, s.properties[i].name))
  {
    assert PropertyConforms(s, i, j);
  }

  lemma PrefixStep(s: Schema, j: Value, i: nat)
    requires j.Obj? && i < |s.properties|
    ensures Prefix(s, j, i + 1) ==
      if Has(j, s.properties[i].name) then Prefix(s, j, i)[s.properties[i].name := Get(j, s.properties[i].name)]
      else Prefix(s, j, i)
  {
  }

  /** The decoder's loop passes over a property the presence vector marks absent. */
  lemma DecodeFromSkip(s: Schema, i: nat, payload: seq<byte>, index: nat, fields: map<string, Value>,
                       pres: Decoder.PresenceState)
    requires i < |s.properties| && Decoder.Skipped(s, i, pres)
    ensures Decoder.DecodeFrom(s, i, payload, index, fields, pres)
      == Decoder.DecodeFrom(s, i + 1, payload, index, fields, Decoder.NextPresence(s, i, pres))
  {
  }

  /** The decoder's loop over the bytes the encoder wrote for property `i`:
      unless the presence vector skips it, a property the object has (or
      one of another type) is read back, and decoding moves on just past
      it with the presence state the vector starts or moves on. */
  ghost predicate ReadsBack(s: Schema, i: nat, j: Value, payload: seq<byte>, index: nat, step: Encoder.Step,
                            fields: map<string, Value>, pres: Decoder.PresenceState)
    requires i < |s.properties| && j.Obj?
  {
    var name := s.properties[i].name;
    !Decoder.Skipped(s, i, pres) && (Has(j, name) || s.properties[i].kind.OtherType?) ==>
      Decoder.DecodeFrom(s, i, payload, index, fields, pres)
        == Decoder.DecodeFrom(s, i + 1, payload, index + |step.bytes|,
             if Has(j, name) then fields[name := Get(j, name)] else fields,
             if name == PresenceVectorName then Decoder.PresenceState(Some(Generate(s, j)), 0)
             else Decoder.NextPresence(s, i, pres))
  }

  /** What the decoder makes of property `i` gives `ReadsBack`. */
  lemma ReadsBackFrom(s: Schema, i: nat, j: Value, payload: seq<byte>, index: nat, step: Encoder.Step,
                      fields: map<string, Value>, pres: Decoder.PresenceState)
    requires i < |s.properties| && j.Obj?
    requires var name := s.properties[i].name;
      PropertyDecodesTo(s, i, payload, index, fields, Decoder.NextPresence(s, i, pres),
        Decoder.PropertyDecoded(if Has(j, name) then fields[name := Get(j, name)] else fields,
          index + |step.bytes|,
          if name == PresenceVectorName then Decoder.PresenceState(Some(Generate(s, j)), 0)
          else Decoder.NextPresence(s, i, pres)))
    ensures ReadsBack(s, i, j, payload, index, step, fields, pres)
  {
  }

  /** The encoder's step for property `i` of a conforming object: nothing
      when the object lacks it, and bytes the decoder reads back wherever
      they sit in a payload. */
  lemma {:induction false} PropertyRoundTrip(s: Schema, i: nat, j: Value, arrayObj: Option<Value>,
                                             payload: seq<byte>, index: nat,
                                             fields: map<string, Value>, pres: Decoder.PresenceState)
    returns (step: Encoder.Step)
    requires Conforms(s, j) && i < |s.properties|
    ensures StepOf(s, j, i, arrayObj, step)
    ensures !Has(j, s.properties[i].name) ==> step.bytes == []
    ensures Holds(payload, index, step.bytes) ==> ReadsBack(s, i, j, payload, index, step, fields, pres)
    decreases s, 0, 3
  {
    assert PropertyConforms(s, i, j);
    match s.properties[i].kind
    case Number(_, _) => step := NumberCase(s, i, j, arrayObj, payload, index, fields, pres);
    case MessageId(_, _) => step := MessageIdCase(s, i, j, arrayObj, payload, index, fields, pres);
    case ValueSet(_, _, _) => step := ValueSetCase(s, i, j, arrayObj, payload, index, fields, pres);
    case FixedString(_) => step := FixedStringCase(s, i, j, arrayObj, payload, index, fields, pres);
    case VarString(_, _) => step := AbsentCase(s, i, j, arrayObj, payload, index, fields, pres);
    case Record(_) => step := RecordCase(s, i, j, arrayObj, payload, index, fields, pres);
    case CountedArray(_, _, _) => step := ArrayCase(s, i, j, arrayObj, payload, index, fields, pres);
    case OtherType => step := OtherCase(s, i, j, arrayObj, payload, index, fields, pres);
  }

  lemma NumberCase(s: Schema, i: nat, j: Value, arrayObj: Option<Value>, payload: seq<byte>, index: nat,
                   fields: map<string, Value>, pres: Decoder.PresenceState)
    returns (step: Encoder.Step)
    requires j.Obj? && i < |s.properties| && s.properties[i].kind.Number? && PropertyConforms(s, i, j)
    ensures StepOf(s, j, i, arrayObj, step)
    ensures !Has(j, s.properties[i].name) ==> step.bytes == []
    ensures Holds(payload, index, step.bytes) ==> ReadsBack(s, i, j, payload, index, step, fields, pres)
  {
    var name := s.properties[i].name;
    var t := s.properties[i].kind.jausType;
    assert s.properties[i] == Property(name, Number(t, None));
    if Has(j, name) {
      step := NumberStep(s, i, name, t, Get(j, name).i, j, arrayObj, payload, index, fields, pres);
    } else {
      AbsentNumber(s, i, name, t, j, arrayObj);
      step := Encoder.Step([], 0, arrayObj);
    }
  }

  lemma NumberStep(s: Schema, i: nat, name: string, t: JausType, v: int, j: Value, arrayObj: Option<Value>,
                   payload: seq<byte>, index: nat, fields: map<string, Value>, pres: Decoder.PresenceState)
    returns (step: Encoder.Step)
    requires j.Obj? && i < |s.properties| && s.properties[i] == Property(name, Number(t, None))
    requires Has(j, name) && Get(j, name) == Int(v) && InRange(t, v)
    requires name == PresenceVectorName ==> v == Generate(s, j)
    ensures StepOf(s, j, i, arrayObj, step)
    ensures Holds(payload, index, step.bytes) ==> ReadsBack(s, i, j, payload, index, step, fields, pres)
  {
    NumberEncodes(s, i, name, t, v, j, arrayObj);
    step := Encoder.Step(Pack(t, v).value, 0, arrayObj);
    if Holds(payload, index, step.bytes) {
      UnpackHeld(t, v, payload, index);
      var next := Decoder.NextPresence(s, i, pres);
      NumberDecodes(s, i, name, t, payload, index, fields, next, v);
      ReadsBackFrom(s, i, j, payload, index, step, fields, pres);
    }
  }

  lemma MessageIdCase(s: Schema, i: nat, j: Value, arrayObj: Option<Value>, payload: seq<byte>, index: nat,
                      fields: map<string, Value>, pres: Decoder.PresenceState)
    returns (step: Encoder.Step)
    requires j.Obj? && i < |s.properties| && s.properties[i].kind.MessageId? && PropertyConforms(s, i, j)
    ensures StepOf(s, j, i, arrayObj, step)
    ensures !Has(j, s.properties[i].name) ==> step.bytes == []
    ensures Holds(payload, index, step.bytes) ==> ReadsBack(s, i, j, payload, index, step, fields, pres)
  {
    var name := s.properties[i].name;
    var hex := s.properties[i].kind.hexConst;
    var t := s.properties[i].kind.jausType;
    assert s.properties[i] == Property(name, MessageId(t, hex));
    step := MessageIdStep(s, i, name, t, hex, ParseHex(hex).value, j, arrayObj, payload, index, fields, pres);
  }

  lemma MessageIdStep(s: Schema, i: nat, name: string, t: JausType, hex: string, v: nat, j: Value,
                      arrayObj: Option<Value>, payload: seq<byte>, index: nat,
                      fields: map<string, Value>, pres: Decoder.PresenceState)
    returns (step: Encoder.Step)
    requires j.Obj? && i < |s.properties| && s.properties[i] == Property(name, MessageId(t, hex))
    requires name != PresenceVectorName && ParseHex(hex) == Some(v) && InRange(t, v)
    requires Has(j, name) && Get(j, name) == Str(FormatHex(v))
    ensures StepOf(s, j, i, arrayObj, step)
    ensures Holds(payload, index, step.bytes) ==> ReadsBack(s, i, j, payload, index, step, fields, pres)
  {
    MessageIdEncodes(s, i, name, t, hex, v, j, arrayObj);
    step := Encoder.Step(Pack(t, v).value, 0, arrayObj);
    if Holds(payload, index, step.bytes) {
      UnpackHeld(t, v, payload, index);
      MessageIdDecodes(s, i, name, t, hex, payload, index, fields, Decoder.NextPresence(s, i, pres), v);
      ReadsBackFrom(s, i, j, payload, index, step, fields, pres);
    }
  }

  lemma ValueSetCase(s: Schema, i: nat, j: Value, arrayObj: Option<Value>, payload: seq<byte>, index: nat,
                     fields: map<string, Value>, pres: Decoder.PresenceState)
    returns (step: Encoder.Step)
    requires j.Obj? && i < |s.properties| && s.properties[i].kind.ValueSet? && PropertyConforms(s, i, j)
    ensures StepOf(s, j, i, arrayObj, step)
    ensures !Has(j, s.properties[i].name) ==> step.bytes == []
    ensures Holds(payload, index, step.bytes) ==> ReadsBack(s, i, j, payload, index, step, fields, pres)
  {
    var name := s.properties[i].name;
    var t := s.properties[i].kind.jausType;
    var vs := s.properties[i].kind.valueSet;
    assert s.properties[i] == Property(name, ValueSet(t, vs, None));
    if !Has(j, name) {
      step := AbsentCase(s, i, j, arrayObj, payload, index, fields, pres);
      return;
    }
    var k :| 0 <= k < |vs| && vs[k].ValueEnum? && vs[k].enumConst == Get(j, name).s && InRange(t, vs[k].enumIndex);
    EnumRoundTrip(vs, k);
    step := ValueSetStep(s, i, name, t, vs, vs[k].enumConst, vs[k].enumIndex, j, arrayObj, payload, index, fields, pres);
  }

  lemma ValueSetStep(s: Schema, i: nat, name: string, t: JausType, vs: seq<Enumerant>, c: string, w: int, j: Value,
                     arrayObj: Option<Value>, payload: seq<byte>, index: nat,
                     fields: map<string, Value>, pres: Decoder.PresenceState)
    returns (step: Encoder.Step)
    requires j.Obj? && i < |s.properties| && s.properties[i] == Property(name, ValueSet(t, vs, None))
    requires name != PresenceVectorName && Has(j, name) && Get(j, name) == Str(c) && InRange(t, w)
    requires Encoder.EnumIndexOf(vs, c, 0) == w && Decoder.EnumName(vs, w) == Some(c)
    ensures StepOf(s, j, i, arrayObj, step)
    ensures Holds(payload, index, step.bytes) ==> ReadsBack(s, i, j, payload, index, step, fields, pres)
  {
    ValueSetEncodes(s, i, name, t, vs, c, w, j, arrayObj);
    step := Encoder.Step(Pack(t, w).value, 0, arrayObj);
    if Holds(payload, index, step.bytes) {
      UnpackHeld(t, w, payload, index);
      ValueSetDecodes(s, i, name, t, vs, payload, index, fields, Decoder.NextPresence(s, i, pres), w, c);
      ReadsBackFrom(s, i, j, payload, index, step, fields, pres);
    }
  }

  lemma FixedStringCase(s: Schema, i: nat, j: Value, arrayObj: Option<Value>, payload: seq<byte>, index: nat,
                        fields: map<string, Value>, pres: Decoder.PresenceState)
    returns (step: Encoder.Step)
    requires j.Obj? && i < |s.properties| && s.properties[i].kind.FixedString? && PropertyConforms(s, i, j)
    ensures StepOf(s, j, i, arrayObj, step)
    ensures !Has(j, s.properties[i].name) ==> step.bytes == []
    ensures Holds(payload, index, step.bytes) ==> ReadsBack(s, i, j, payload, index, step, fields, pres)
  {
    var name := s.properties[i].name;
    var n := s.properties[i].kind.length;
    assert s.properties[i] == Property(name, FixedString(n));
    if !Has(j, name) {
      step := AbsentCase(s, i, j, arrayObj, payload, index, fields, pres);
      return;
    }
    step := FixedStringStep(s, i, name, n, Get(j, name).s, j, arrayObj, payload, index, fields, pres);
  }

  lemma FixedStringStep(s: Schema, i: nat, name: string, n: nat, text: string, j: Value,
                        arrayObj: Option<Value>, payload: seq<byte>, index: nat,
                        fields: map<string, Value>, pres: Decoder.PresenceState)
    returns (step: Encoder.Step)
    requires j.Obj? && i < |s.properties| && s.properties[i] == Property(name, FixedString(n))
    requires name != PresenceVectorName && Has(j, name) && Get(j, name) == Str(text)
    requires IsAscii(text) && |text| <= n && (|text| == 0 || text[|text| - 1] != '\0')
    ensures StepOf(s, j, i, arrayObj, step)
    ensures Holds(payload, index, step.bytes) ==> ReadsBack(s, i, j, payload, index, step, fields, pres)
  {
    FixedStringEncodes(s, i, name, n, text, j, arrayObj);
    step := Encoder.Step(NulPadded(EncodeAscii(text).value, n), 0, arrayObj);
    if Holds(payload, index, step.bytes) {
      FixedStringReads(s, i, name, n, text, j, payload, index, fields, pres, step);
    }
  }

  lemma FixedStringReads(s: Schema, i: nat, name: string, n: nat, text: string, j: Value,
                         payload: seq<byte>, index: nat, fields: map<string, Value>, pres: Decoder.PresenceState,
                         step: Encoder.Step)
    requires j.Obj? && i < |s.properties| && s.properties[i] == Property(name, FixedString(n))
    requires name != PresenceVectorName && Has(j, name) && Get(j, name) == Str(text)
    requires IsAscii(text) && |text| <= n && (|text| == 0 || text[|text| - 1] != '\0')
    requires step.bytes == NulPadded(EncodeAscii(text).value, n) && Holds(payload, index, step.bytes)
    ensures ReadsBack(s, i, j, payload, index, step, fields, pres)
  {
    FixedStringHeld(name, text, n, payload, index);
    FixedStringDecodes(s, i, name, n, payload, index, fields, Decoder.NextPresence(s, i, pres), text);
    ReadsBackFrom(s, i, j, payload, index, step, fields, pres);
  }

  /** A value set or string the object lacks is left out by the encoder and
      skipped by the decoder. */
  lemma AbsentCase(s: Schema, i: nat, j: Value, arrayObj: Option<Value>, payload: seq<byte>, index: nat,
                   fields: map<string, Value>, pres: Decoder.PresenceState)
    returns (step: Encoder.Step)
    requires j.Obj? && i < |s.properties| && PropertyConforms(s, i, j) && !Has(j, s.properties[i].name)
    requires s.properties[i].kind.ValueSet? || s.properties[i].kind.FixedString? || s.properties[i].kind.VarString?
    ensures StepOf(s, j, i, arrayObj, step) && step.bytes == []
    ensures ReadsBack(s, i, j, payload, index, step, fields, pres)
  {
    AbsentOmitted(s, i, j, arrayObj);
    step := Encoder.Step([], 0, arrayObj);
  }

  lemma OtherCase(s: Schema, i: nat, j: Value, arrayObj: Option<Value>, payload: seq<byte>, index: nat,
                  fields: map<string, Value>, pres: Decoder.PresenceState)
    returns (step: Encoder.Step)
    requires j.Obj? && i < |s.properties| && s.properties[i].kind.OtherType? && PropertyConforms(s, i, j)
    ensures StepOf(s, j, i, arrayObj, step)
    ensures !Has(j, s.properties[i].name) ==> step.bytes == []
    ensures Holds(payload, index, step.bytes) ==> ReadsBack(s, i, j, payload, index, step, fields, pres)
  {
    step := Encoder.Step([], 0, arrayObj);
    ReadsBackFrom(s, i, j, payload, index, step, fields, pres);
  }

  lemma {:induction false} RecordCase(s: Schema, i: nat, j: Value, arrayObj: Option<Value>,
                                      payload: seq<byte>, index: nat,
                                      fields: map<string, Value>, pres: Decoder.PresenceState)
    returns (step: Encoder.Step)
    requires Conforms(s, j) && i < |s.properties| && s.properties[i].kind.Record?
    ensures StepOf(s, j, i, arrayObj, step)
    ensures !Has(j, s.properties[i].name) ==> step.bytes == []
    ensures Holds(payload, index, step.bytes) ==> ReadsBack(s, i, j, payload, index, step, fields, pres)
    decreases s, 0, 1
  {
    assert PropertyConforms(s, i, j);
    var name := s.properties[i].name;
    var body := s.properties[i].kind.body;
    var child := Get(j, name);
    RecordRoundTrip(body, child, [], []);
    var b := Encoder.EncodeRecord(body, child).value.bytes;
    RecordEncodes(s, i, name, body, j, arrayObj);
    step := Encoder.Step(b, 0, arrayObj);
    if Holds(payload, index, b) {
      RecordHeld(body, child, payload, index);
      var next := Decoder.NextPresence(s, i, pres);
      RecordDecodes(s, i, name, body, payload, index, fields, next, Decoder.Decoded(child.fields, index + |b|));
      assert Obj(child.fields) == child;
      ReadsBackFrom(s, i, j, payload, index, step, fields, pres);
    }
  }

  /** A nested object is written as its record. */
  lemma RecordEncodes(s: Schema, i: nat, name: string, body: Schema, j: Value, arrayObj: Option<Value>)
    requires i < |s.properties| && s.properties[i] == Property(name, Record(body))
    requires Has(j, name) && Encoder.EncodeRecord(body, Get(j, name)).Success?
    ensures StepOf(s, j, i, arrayObj, Encoder.Step(Encoder.EncodeRecord(body, Get(j, name)).value.bytes, 0, arrayObj))
  {
  }

  /** A nested record is read back as an object. */
  lemma RecordDecodes(s: Schema, i: nat, name: string, body: Schema, payload: seq<byte>, index: nat,
                      fields: map<string, Value>, pres: Decoder.PresenceState, d: Decoder.Decoded)
    requires i < |s.properties| && s.properties[i] == Property(name, Record(body))
    requires Decoder.DecodeRecord(body, payload, index, map[]) == Success(d)
    ensures PropertyDecodesTo(s, i, payload, index, fields, pres,
      Decoder.PropertyDecoded(fields[name := Obj(d.fields)], d.index, pres))
  {
  }

  /** `RecordRoundTrip` for a record found anywhere in a payload. */
  lemma {:induction false} RecordHeld(s: Schema, j: Value, payload: seq<byte>, index: nat)
    requires Conforms(s, j) && Encoder.EncodeRecord(s, j).Success?
    requires Holds(payload, index, Encoder.EncodeRecord(s, j).value.bytes)
    ensures Decoder.DecodeRecord(s, payload, index, map[])
      == Success(Decoder.Decoded(j.fields, index + |Encoder.EncodeRecord(s, j).value.bytes|))
    decreases s, 2, 1
  {
    var before, after := HoldsAround(payload, index, Encoder.EncodeRecord(s, j).value.bytes);
    RecordRoundTrip(s, j, before, after);
  }

  lemma {:induction false} ArrayCase(s: Schema, i: nat, j: Value, arrayObj: Option<Value>,
                                     payload: seq<byte>, index: nat,
                                     fields: map<string, Value>, pres: Decoder.PresenceState)
    returns (step: Encoder.Step)
    requires Conforms(s, j) && i < |s.properties| && s.properties[i].kind.CountedArray?
    ensures StepOf(s, j, i, arrayObj, step)
    ensures !Has(j, s.properties[i].name) ==> step.bytes == []
    ensures Holds(payload, index, step.bytes) ==> ReadsBack(s, i, j, payload, index, step, fields, pres)
    decreases s, 0, 1
  {
    assert PropertyConforms(s, i, j);
    var name := s.properties[i].name;
    var t := s.properties[i].kind.jausType;
    var anyOf := s.properties[i].kind.anyOf;
    assert s.properties[i] == Property(name, CountedArray(t, Some(false), anyOf));
    var items := Get(j, name).items;
    var prefix := Pack(t, |items|).value;
    var b: seq<byte> := [];
    if |items| > 0 {
      ItemsEncode(anyOf[0], items, 0);
      b := Encoder.EncodeItems(anyOf[0], items, 0).value;
    }
    ListEncodes(s, i, name, t, anyOf, j, arrayObj, items, prefix, b);
    step := Encoder.Step(prefix + b, 0, Some(Get(j, name)));
    if Holds(payload, index, step.bytes) {
      ListReads(s, i, name, t, anyOf, j, items, prefix, b, payload, index, fields, pres, step);
    }
  }

  /** A counted array whose schema has no `isVariant`: the encoder raises
      the AttributeError of `not property.isVariant` before writing, while
      the decoder reads it exactly as a list with `isVariant` false. */
  lemma MissingVariantFlag(s: Schema, i: nat, j: Value, arrayObj: Option<Value>,
                           payload: seq<byte>, index: nat, fields: map<string, Value>, pres: Decoder.PresenceState)
    requires i < |s.properties| && s.properties[i].kind.CountedArray? && s.properties[i].kind.isVariant.None?
    ensures Encoder.EncodeProperty(s, i, j, arrayObj) == Failure(Encoder.Stop([], Encoder.NoVariantFlag(s.properties[i].name)))
    ensures var p := s.properties[i];
      var listed := s.(properties := s.properties[i := Property(p.name, CountedArray(p.kind.jausType, Some(false), p.kind.anyOf))]);
      Decoder.DecodeProperty(s, i, payload, index, fields, pres)
        == Decoder.DecodeProperty(listed, i, payload, index, fields, pres)
  {
  }

  /** A counted list is read back as its count and then its items. */
  lemma {:induction false} ListReads(s: Schema, i: nat, name: string, t: JausType, anyOf: seq<Schema>, j: Value,
                                     items: seq<Value>, prefix: seq<byte>, b: seq<byte>,
                                     payload: seq<byte>, index: nat, fields: map<string, Value>,
                                     pres: Decoder.PresenceState, step: Encoder.Step)
    requires j.Obj? && i < |s.properties| && s.properties[i] == Property(name, CountedArray(t, Some(false), anyOf))
    requires name != PresenceVectorName && Has(j, name) && Get(j, name) == List(items)
    requires InRange(t, |items|) && Pack(t, |items|) == Success(prefix)
    requires |items| == 0 ==> b == []
    requires |items| > 0 ==>
      && |anyOf| >= 1 && (forall k :: 0 <= k < |items| ==> Conforms(anyOf[0], items[k]))
      && Encoder.EncodeItems(anyOf[0], items, 0) == Success(b)
    requires step.bytes == prefix + b && Holds(payload, index, step.bytes)
    ensures ReadsBack(s, i, j, payload, index, step, fields, pres)
    decreases s, 0, 0
  {
    HoldsSplit(payload, index, prefix, b);
    ListCountHeld(name, t, |items|, prefix, payload, index);
    ListItemsHeld(name, anyOf, items, b, payload, index + |prefix|);
    ListDecodesProperty(s, i, name, t, anyOf, payload, index, fields, Decoder.NextPresence(s, i, pres),
                        |items|, index + |prefix|, items, index + |prefix| + |b|);
    ReadsBackFrom(s, i, j, payload, index, step, fields, pres);
  }

  /** The count in front of a list reads back. */
  lemma ListCountHeld(name: string, t: JausType, n: int, prefix: seq<byte>, payload: seq<byte>, index: nat)
    requires InRange(t, n) && Pack(t, n) == Success(prefix) && Holds(payload, index, prefix)
    ensures Decoder.DecodeNumber(name, t, None, payload, index) == Success((n, index + |prefix|))
  {
    UnpackHeld(t, n, payload, index);
  }

  /** The items after the count read back. */
  lemma {:induction false} ListItemsHeld(name: string, anyOf: seq<Schema>, items: seq<Value>, b: seq<byte>,
                                         payload: seq<byte>, index: nat)
    requires |items| == 0 ==> b == []
    requires |items| > 0 ==>
      && |anyOf| >= 1 && (forall k :: 0 <= k < |items| ==> Conforms(anyOf[0], items[k]))
      && Encoder.EncodeItems(anyOf[0], items, 0) == Success(b)
    requires Holds(payload, index, b)
    ensures Decoder.DecodeListItems(name, anyOf, |items|, payload, index) == Success((items, index + |b|))
    decreases anyOf, 0
  {
    if |items| > 0 {
      ItemsHeld(anyOf[0], items, 0, payload, index, []);
      assert items[..0] == [];
    }
  }

  /** The encoder gets through the items `k..` of a list of conforming objects. */
  lemma {:induction false} ItemsEncode(t: Schema, items: seq<Value>, k: nat)
    requires k <= |items| && forall q :: 0 <= q < |items| ==> Conforms(t, items[q])
    ensures Encoder.EncodeItems(t, items, k).Success?
    decreases t, 3, |items| - k
  {
    if k < |items| {
      RecordRoundTrip(t, items[k], [], []);
      ItemsEncode(t, items, k + 1);
    }
  }

  /** Decoding `|items| - k` records over the bytes the encoder wrote for
      items `k..`, after `acc` holding the first `k`, gives all the items. */
  lemma {:induction false} ItemsHeld(t: Schema, items: seq<Value>, k: nat, payload: seq<byte>, index: nat,
                                     acc: seq<Value>)
    requires k <= |items| && forall q :: 0 <= q < |items| ==> Conforms(t, items[q])
    requires acc == items[..k] && Encoder.EncodeItems(t, items, k).Success?
    requires Holds(payload, index, Encoder.EncodeItems(t, items, k).value)
    ensures Decoder.DecodeItems(t, |items| - k, payload, index, acc)
      == Success((items, index + |Encoder.EncodeItems(t, items, k).value|))
    decreases t, 3, |items| - k
  {
    if k == |items| {
      assert acc == items;
    } else {
      assert Conforms(t, items[k]);
      RecordRoundTrip(t, items[k], [], []);
      ItemsEncode(t, items, k + 1);
      var first := Encoder.EncodeRecord(t, items[k]).value.bytes;
      var rest := Encoder.EncodeItems(t, items, k + 1).value;
      assert Encoder.EncodeItems(t, items, k).value == first + rest;
      HoldsSplit(payload, index, first, rest);
      RecordHeld(t, items[k], payload, index);
      assert items[..k + 1] == items[..k] + [items[k]];
      assert Obj(items[k].fields) == items[k];
      ItemsHeld(t, items, k + 1, payload, index + |first|, acc + [items[k]]);
    }
  }

  /** What the decoder makes of property `i` at `index`. */
  ghost predicate PropertyDecodesTo(s: Schema, i: nat, payload: seq<byte>, index: nat, fields: map<string, Value>,
                                    pres: Decoder.PresenceState, d: Decoder.PropertyDecoded)
    requires i < |s.properties|
  {
    Decoder.DecodeProperty(s, i, payload, index, fields, pres) == Success(d)
  }

  /** The encoder writes the count and then the items. */
  lemma ListEncodes(s: Schema, i: nat, name: string, t: JausType, anyOf: seq<Schema>, j: Value,
                    arrayObj: Option<Value>, items: seq<Value>, prefix: seq<byte>, b: seq<byte>)
    requires i < |s.properties| && s.properties[i] == Property(name, CountedArray(t, Some(false), anyOf))
    requires Has(j, name) && Get(j, name) == List(items) && Pack(t, |items|) == Success(prefix)
    requires |items| == 0 ==> b == []
    requires |items| > 0 ==> |anyOf| >= 1 && Encoder.EncodeItems(anyOf[0], items, 0) == Success(b)
    ensures StepOf(s, j, i, arrayObj, Encoder.Step(prefix + b, 0, Some(Get(j, name))))
  {
    if |items| == 0 {
      ListEncodesEmpty(name, t, anyOf, j, arrayObj, items, prefix, b);
    } else {
      ListEncodesItems(name, t, anyOf, j, arrayObj, items, prefix, b);
    }
    ListStep(s, i, j, arrayObj, Encoder.Step(prefix + b, 0, Some(Get(j, name))));
  }

  lemma ListStep(s: Schema, i: nat, j: Value, arrayObj: Option<Value>, step: Encoder.Step)
    requires i < |s.properties| && s.properties[i].kind.CountedArray?
    requires var p := s.properties[i];
      Encoder.EncodeList(p.name, p.kind.jausType, p.kind.isVariant, p.kind.anyOf, j, arrayObj) == Success(step)
    ensures StepOf(s, j, i, arrayObj, step)
  {
  }

  /** An empty list is its count alone. */
  lemma ListEncodesEmpty(name: string, t: JausType, anyOf: seq<Schema>, j: Value,
                         arrayObj: Option<Value>, items: seq<Value>, prefix: seq<byte>, b: seq<byte>)
    requires Has(j, name) && Get(j, name) == List(items) && Pack(t, |items|) == Success(prefix)
    requires |items| == 0 && b == []
    ensures Encoder.EncodeList(name, t, Some(false), anyOf, j, arrayObj) == Success(Encoder.Step(prefix + b, 0, Some(Get(j, name))))
  {
    assert Encoder.ArrayItems(Get(j, name)) == Some(items);
    assert Encoder.PackOrStop(name, t, |items|, []) == Success(prefix) by {
      assert [] + prefix == prefix;
    }
    assert prefix + b == prefix;
  }

  /** A non-empty list is its count, then its items' records. */
  lemma ListEncodesItems(name: string, t: JausType, anyOf: seq<Schema>, j: Value,
                         arrayObj: Option<Value>, items: seq<Value>, prefix: seq<byte>, b: seq<byte>)
    requires Has(j, name) && Get(j, name) == List(items) && Pack(t, |items|) == Success(prefix)
    requires |items| > 0 && |anyOf| >= 1 && Encoder.EncodeItems(anyOf[0], items, 0) == Success(b)
    ensures Encoder.EncodeList(name, t, Some(false), anyOf, j, arrayObj) == Success(Encoder.Step(prefix + b, 0, Some(Get(j, name))))
  {
    assert Encoder.ArrayItems(Get(j, name)) == Some(items);
    assert Encoder.PackOrStop(name, t, |items|, []) == Success(prefix) by {
      assert [] + prefix == prefix;
    }
  }

  /** The decoder reads a count and then that many items. */
  lemma ListDecodesProperty(s: Schema, i: nat, name: string, t: JausType, anyOf: seq<Schema>,
                            payload: seq<byte>, index: nat, fields: map<string, Value>, pres: Decoder.PresenceState,
                            n: int, next: nat, items: seq<Value>, end: nat)
    requires i < |s.properties| && s.properties[i] == Property(name, CountedArray(t, Some(false), anyOf))
    requires Decoder.DecodeNumber(name, t, None, payload, index) == Success((n, next))
    requires Decoder.DecodeListItems(name, anyOf, n, payload, next) == Success((items, end))
    ensures PropertyDecodesTo(s, i, payload, index, fields, pres,
                              Decoder.PropertyDecoded(fields[name := List(items)], end, pres))
  {
  }
}
